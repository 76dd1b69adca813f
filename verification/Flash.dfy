// Erasing and programming: HAL_FLASHEx_Erase_IT, HAL_FLASH_Program_IT and their
// interrupt handler, and the polling HAL_FLASHEx_Erase and HAL_FLASH_Program,
// over the one global record pFlash.
module Flash {

  const SECTORS := 24
  const NO_SECTOR := 0xFFFF_FFFF
  const WORDS := 0x1_0000_0000

  datatype Status = OK | ERROR | BUSY | TIMEOUT
  datatype Procedure = Idle | SectorErase | MassErase | Program
  datatype Failure = Operation | WriteProtection | Alignment | Parallelism | EraseSequence

  // What the hardware does to an operation: it ends, fails, or goes on too long.
  datatype Outcome = Ends | Fails(why: set<Failure>) | Hangs

  // The sectors from s on, n of them.
  function Range(s: nat, n: nat): (r: seq<nat>)
    ensures |r| == n && forall i :: 0 <= i < n ==> r[i] == s + i
  {
    seq(n, i requires 0 <= i < n => s + i)
  }

  lemma RangeNext(s: nat, n: nat)
    ensures Range(s, n + 1) == Range(s, n) + [s + n]
    ensures Range(s, 0) == []
  {
  }

  // The end of an operation with that many sectors left starts the next one.
  predicate StartsNext(p: Procedure, left: nat) {
    p == SectorErase && left != 1
  }

  // The sector the count moves on to.
  function Following(sector: nat): nat {
    (sector + 1) % WORDS
  }

  // What the callbacks are told: at the end of an operation, and of a failure that
  // the handler finds after it has dealt with an end or not.
  function EndReport(p: Procedure, left: nat, sector: nat, address: nat): seq<nat> {
    match p
    case SectorErase => [if left == 1 then NO_SECTOR else sector]
    case MassErase => [0]
    case Program => [address]
    case Idle => []
  }

  function Culprit(p: Procedure, ended: bool, left: nat, sector: nat, address: nat): nat {
    match p
    case SectorErase => if !ended then sector else if left == 1 then NO_SECTOR else Following(sector)
    case Program => if ended then 0 else address
    case _ => 0
  }

  // The sector whose erasure was started last when the error flags are looked at.
  function LastStarted(ended: bool, left: nat, sector: nat): nat {
    if ended && left != 1 then Following(sector) else sector
  }

  // A failure is put down to the sector started last exactly unless the last
  // sector of all has just ended; and to the sector that was under way when the
  // interrupt came, exactly if that one has not ended.
  lemma CulpritIsLastStarted(ended: bool, left: nat, sector: nat, address: nat)
    requires sector < SECTORS
    ensures Culprit(SectorErase, ended, left, sector, address) == LastStarted(ended, left, sector) <==>
            !(ended && left == 1)
    ensures Culprit(SectorErase, ended, left, sector, address) == sector <==> !ended
  {
  }

  // It is what the handler comes to when it looks at the error flags: the place of
  // the operation then under way, or else what the end of the last one left.
  lemma CulpritIs(p: Procedure, ended: bool, left: nat, sector: nat, address: nat)
    ensures Culprit(p, ended, left, sector, address)
         == if ended && !StartsNext(p, left) then if p == SectorErase then NO_SECTOR else 0
            else match p
              case SectorErase => LastStarted(ended, left, sector)
              case Program => address
              case _ => 0
  {
  }

  // How many ends an erasure of n sectors takes: the count of none wraps round.
  function EndsNeeded(n: nat): nat {
    if n == 0 then WORDS else n
  }

  lemma CountDown(n: nat, j: nat)
    requires n < WORDS && j < EndsNeeded(n)
    ensures ((n - j) % WORDS - 1) % WORDS == (n - (j + 1)) % WORDS
    ensures (n - j) % WORDS == 1 <==> j + 1 == EndsNeeded(n)
  {
    if n == 0 && j > 0 {
      assert (n - j) % WORDS == WORDS - j;
    }
  }

  lemma CountUp(s: nat, j: nat)
    ensures Following((s + j) % WORDS) == (s + (j + 1)) % WORDS
  {
  }

  lemma SmallCounts(s: nat, n: nat, k: nat)
    requires s + n <= SECTORS && k < n
    ensures Following(s + k) == s + k + 1 && (n - k - 1) % WORDS == n - k - 1
  {
  }

  function FirstFailure(outcomes: seq<set<Failure>>): (k: nat)
    ensures k <= |outcomes| && (k < |outcomes| ==> outcomes[k] != {})
    ensures forall i :: 0 <= i < k ==> outcomes[i] == {}
  {
    if outcomes == [] || outcomes[0] != {} then 0 else 1 + FirstFailure(outcomes[1..])
  }

  predicate Stopped(o: Outcome) {
    o.Hangs? || (o.Fails? && o.why != {})
  }

  function FirstStop(outcomes: seq<Outcome>): (k: nat)
    ensures k <= |outcomes| && (k < |outcomes| ==> Stopped(outcomes[k]))
    ensures forall i :: 0 <= i < k ==> !Stopped(outcomes[i])
  {
    if outcomes == [] || Stopped(outcomes[0]) then 0 else 1 + FirstStop(outcomes[1..])
  }

  lemma FirstStopIs(outcomes: seq<Outcome>, k: nat)
    requires k <= |outcomes| && forall j :: 0 <= j < k ==> !Stopped(outcomes[j])
    requires k < |outcomes| ==> Stopped(outcomes[k])
    ensures FirstStop(outcomes) == k
  {
  }

  /* --------------------- what is programmed --------------------- */

  // The unit of programming, and a write to the flash memory: its address, its bytes
  // and its value.
  datatype Unit = OneByte | HalfWord | OneWord | DoubleWord
  datatype Store = Store(at: nat, bytes: nat, value: nat)

  function Size(u: Unit): nat {
    match u case OneByte => 1 case HalfWord => 2 case OneWord => 4 case DoubleWord => 8
  }

  // Byte i of x, the least significant first, and the number its n low bytes make.
  function ByteOf(x: nat, i: nat): nat {
    if i == 0 then x % 256 else ByteOf(x / 256, i - 1)
  }

  function Low(x: nat, n: nat): nat {
    if n == 0 then 0 else x % 256 + 256 * Low(x / 256, n - 1)
  }

  // The writes that program a unit: a double word takes two, the low word first.
  function Stores(u: Unit, at: nat, data: nat): seq<Store> {
    if u == DoubleWord then [Store(at, 4, Low(data, 4)), Store(at + 4, 4, Low(data / WORDS, 4))]
    else [Store(at, Size(u), Low(data, Size(u)))]
  }

  predicate Puts(s: Store, at: nat, b: nat) {
    s.at <= at < s.at + s.bytes && ByteOf(s.value, at - s.at) == b
  }

  // Each byte of the unit goes to its own address, and nothing anywhere else.
  ghost predicate Programs(u: Unit, at: nat, data: nat, stores: seq<Store>) {
    (forall i: nat | i < Size(u) :: exists j :: 0 <= j < |stores| && Puts(stores[j], at + i, ByteOf(data, i)))
    && forall j | 0 <= j < |stores| :: at <= stores[j].at && stores[j].at + stores[j].bytes <= at + Size(u)
  }

  lemma {:induction false} LowByte(x: nat, n: nat, i: nat)
    requires i < n
    ensures ByteOf(Low(x, n), i) == ByteOf(x, i)
    decreases n
  {
    var l := Low(x, n);
    Digit(x % 256, Low(x / 256, n - 1));
    if i > 0 {
      LowByte(x / 256, n - 1, i - 1);
      assert ByteOf(l, i) == ByteOf(l / 256, i - 1);
    }
  }

  lemma Digit(d: nat, q: nat)
    requires d < 256
    ensures (d + 256 * q) % 256 == d && (d + 256 * q) / 256 == q
  {
  }

  lemma HighByte(x: nat, i: nat)
    ensures ByteOf(x, i + 4) == ByteOf(x / WORDS, i)
  {
    assert ByteOf(x, i + 4) == ByteOf(x / 256, i + 3);
    assert ByteOf(x / 256, i + 3) == ByteOf(x / 256 / 256, i + 2);
    assert ByteOf(x / 256 / 256, i + 2) == ByteOf(x / 256 / 256 / 256, i + 1);
    assert ByteOf(x / 256 / 256 / 256, i + 1) == ByteOf(x / 256 / 256 / 256 / 256, i);
    assert x / 256 / 256 / 256 / 256 == x / WORDS;
  }

  lemma StoresProgram(u: Unit, at: nat, data: nat)
    ensures Programs(u, at, data, Stores(u, at, data))
  {
    hide ByteOf, Low;
    var stores := Stores(u, at, data);
    forall i: nat | i < Size(u)
      ensures exists j :: 0 <= j < |stores| && Puts(stores[j], at + i, ByteOf(data, i))
    {
      if u == DoubleWord && i >= 4 {
        LowByte(data / WORDS, 4, i - 4);
        HighByte(data, i - 4);
        assert Puts(stores[1], at + i, ByteOf(data, i));
      } else {
        LowByte(data, if u == DoubleWord then 4 else Size(u), i);
        assert Puts(stores[0], at + i, ByteOf(data, i));
      }
    }
    assert forall j | 0 <= j < |stores| :: at <= stores[j].at && stores[j].at + stores[j].bytes <= at + Size(u);
  }

  class Controller {
    // Registers: the interrupt enables, the end-of-operation flag, the error
    // flags and the control bits of programming and erasing.
    var interrupts: bool
    var eop: bool
    var failing: set<Failure>
    var programming: bool
    var sectorErasing: bool
    var massErasing: bool

    // pFlash.
    var procedure: Procedure
    var sectorsLeft: nat
    var sector: nat
    var address: nat
    var locked: bool
    var errors: set<Failure>

    // Erasures started, and the arguments of the end-of-operation and the error
    // callback.
    var erased: seq<nat>
    var ended: seq<nat>
    var failed: seq<nat>
    // What has been written to the flash memory.
    var written: seq<Store>

    constructor ()
      ensures Inv() && procedure == Idle && erased == ended == failed == [] && written == []
    {
      interrupts, eop, failing, programming, sectorErasing, massErasing := false, false, {}, false, false, false;
      procedure, sectorsLeft, sector, address, locked, errors := Idle, 0, 0, 0, false, {};
      erased, ended, failed, written := [], [], [], [];
    }

    // The lock is held, and the interrupts are on, exactly while a procedure is
    // under way.
    predicate Inv()
      reads `locked, `procedure, `interrupts
    {
      (locked <==> procedure != Idle) && (interrupts <==> procedure != Idle)
    }

    // FLASH_Erase_Sector; raised: the error flags the start itself raises, as for
    // a protected sector.
    method EraseSector(s: nat, raised: set<Failure>)
      modifies `sectorErasing, `erased, `failing
      ensures sectorErasing && erased == old(erased) + [s] && failing == old(failing) + raised
    {
      sectorErasing := true;
      erased := erased + [s];
      failing := failing + raised;
    }

    /* --------------------------- interrupts --------------------------- */

    method Begin(p: Procedure)
      modifies `interrupts, `eop, `failing, `procedure
      ensures interrupts && !eop && failing == {} && procedure == p
    {
      interrupts := true;
      eop, failing := false, {};
      procedure := p;
    }

    // HAL_FLASHEx_Erase_IT for n sectors from s.
    method EraseIT(s: nat, n: nat, raised: set<Failure>) returns (status: Status)
      requires Inv() && n < WORDS && s < WORDS
      modifies `interrupts, `eop, `failing, `procedure, `sectorsLeft, `sector, `locked, `sectorErasing, `erased
      ensures Inv() && status == if old(locked) then BUSY else OK
      ensures status == OK ==>
                procedure == SectorErase && sectorsLeft == n && sector == s
                && erased == old(erased) + [s] && sectorErasing && !eop && failing == raised
      ensures status == BUSY ==> unchanged(this)
    {
      if locked {
        return BUSY;
      }
      locked := true;
      Begin(SectorErase);
      sectorsLeft := n;
      sector := s;
      EraseSector(s, raised);
      return OK;
    }

    // The same for a mass erasure.
    method MassEraseIT() returns (status: Status)
      requires Inv()
      modifies `interrupts, `eop, `failing, `procedure, `locked, `massErasing
      ensures Inv() && status == if old(locked) then BUSY else OK
      ensures procedure == if status == OK then MassErase else old(procedure)
      ensures status == BUSY ==> unchanged(this)
      ensures status == OK ==> massErasing && !eop && failing == {}
    {
      if locked {
        return BUSY;
      }
      locked := true;
      Begin(MassErase);
      massErasing := true;
      return OK;
    }

    // FLASH_Program_Byte, FLASH_Program_HalfWord, FLASH_Program_Word and
    // FLASH_Program_DoubleWord.
    method WriteUnit(u: Unit, at: nat, data: nat)
      modifies `programming, `written
      ensures programming && old(written) <= written && Programs(u, at, data, written[|old(written)|..])
    {
      programming := true;
      StoresProgram(u, at, data);
      ghost var was := written;
      match u {
        case DoubleWord =>
          written := written + [Store(at, 4, Low(data, 4))];
          written := written + [Store(at + 4, 4, Low(data / WORDS, 4))];
        case _ =>
          written := written + [Store(at, Size(u), Low(data, Size(u)))];
      }
      assert written[|was|..] == Stores(u, at, data);
    }

    // HAL_FLASH_Program_IT.
    method ProgramIT(u: Unit, at: nat, data: nat) returns (status: Status)
      requires Inv()
      modifies `interrupts, `eop, `failing, `procedure, `address, `locked, `programming, `written
      ensures Inv() && status == if old(locked) then BUSY else OK
      ensures status == OK ==> procedure == Program && address == at && programming && !eop && failing == {}
      ensures status == OK ==> old(written) <= written && Programs(u, at, data, written[|old(written)|..])
      ensures status == BUSY ==> unchanged(this)
    {
      hide Programs;
      if locked {
        return BUSY;
      }
      locked := true;
      Begin(Program);
      address := at;
      WriteUnit(u, at, data);
      return OK;
    }

    // What the handler makes of the flags: ends and starts are reported and made
    // whatever else happens; failures found on entry, or raised by the start, stop
    // the procedure and are reported, and without any it goes on unless it has ended.
    twostate predicate Handled(raised: set<Failure>)
      reads `procedure, `sectorsLeft, `sector, `address, `errors, `erased, `ended, `failed
    {
      var p, left, at, end := old(procedure), old(sectorsLeft), old(sector), old(eop);
      var next := end && StartsNext(p, left);
      var failures := old(failing) + if next then raised else {};
      erased == old(erased) + (if next then [Following(at)] else [])
      && ended == old(ended) + (if end then EndReport(p, left, at, address) else [])
      && sectorsLeft == (if end && p == SectorErase then (left - 1) % WORDS else left)
      && errors == old(errors) + failures
      && if failures != {} then procedure == Idle && failed == old(failed) + [Culprit(p, end, left, at, address)]
         else failed == old(failed) && procedure == (if end && !next then Idle else p)
              && (next ==> sector == Following(at)) && (!end ==> sector == at)
    }

    // HAL_FLASH_IRQHandler with the end-of-operation and error flags as found;
    // raised: the error flags that starting the next sector raises at once.
    method IRQHandler(raised: set<Failure>)
      requires Inv() && sectorsLeft < WORDS && sector < WORDS
      modifies `interrupts, `eop, `failing, `programming, `sectorErasing, `massErasing,
               `procedure, `sectorsLeft, `sector, `locked, `errors, `erased, `ended, `failed
      ensures Inv() && !eop && failing == {} && sectorsLeft < WORDS && sector < WORDS
      ensures Handled(raised)
      ensures sectorErasing == (old(eop) && StartsNext(old(procedure), old(sectorsLeft))) && !programming
                && !massErasing
    {
      programming, sectorErasing, massErasing := false, false, false;
      HandleFlags(raised);
      if procedure == Idle {
        interrupts := false;
        locked := false;
      }
    }

    method HandleFlags(raised: set<Failure>)
      requires sectorsLeft < WORDS && sector < WORDS && !sectorErasing
      modifies `eop, `failing, `sectorErasing, `procedure, `sectorsLeft, `sector, `errors, `erased, `ended, `failed
      ensures !eop && failing == {} && sectorsLeft < WORDS && sector < WORDS && Handled(raised)
      ensures sectorErasing == (old(eop) && StartsNext(old(procedure), old(sectorsLeft)))
      ensures procedure == Idle || procedure == old(procedure)
    {
      hide Following, EndReport, Culprit;
      CulpritIs(procedure, eop, sectorsLeft, sector, address);
      var temp := HandleEnd(raised);
      HandleFailure(temp);
    }

    // The error part of the handler; so far is what its local variable holds.
    method HandleFailure(soFar: nat)
      requires sector < WORDS
      modifies `failing, `procedure, `sector, `errors, `failed
      ensures failing == {} && sector < WORDS && errors == old(errors) + old(failing)
      ensures old(failing) == {} ==>
                procedure == old(procedure) && sector == old(sector) && failed == old(failed)
      ensures old(failing) != {} ==>
                procedure == Idle
                && failed == old(failed) + [match old(procedure)
                                            case SectorErase => old(sector)
                                            case MassErase => 0
                                            case Program => address
                                            case Idle => soFar]
    {
      var temp := soFar;
      if failing != {} {
        match procedure {
          case SectorErase =>
            temp := sector;
            sector := NO_SECTOR;
          case MassErase =>
            temp := 0;
          case Program =>
            temp := address;
          case Idle =>
        }
        errors := errors + failing;
        failing := {};
        failed := failed + [temp];
        procedure := Idle;
      }
    }

    // The end-of-operation part of the handler; its result is what its local
    // variable holds afterwards.
    method HandleEnd(raised: set<Failure>) returns (temp: nat)
      requires sectorsLeft < WORDS && sector < WORDS
      modifies `eop, `failing, `procedure, `sectorsLeft, `sector, `sectorErasing, `erased, `ended
      ensures !eop && sectorsLeft < WORDS && sector < WORDS
      ensures ended == old(ended) + if !old(eop) then []
                                    else EndReport(old(procedure), old(sectorsLeft), old(sector), address)
      ensures sectorsLeft == if old(eop) && old(procedure) == SectorErase then (old(sectorsLeft) - 1) % WORDS
                             else old(sectorsLeft)
      ensures if old(eop) && StartsNext(old(procedure), old(sectorsLeft)) then
                procedure == SectorErase && sector == Following(old(sector)) && temp == sector
                && erased == old(erased) + [sector] && failing == old(failing) + raised && sectorErasing
              else
                procedure == (if old(eop) then Idle else old(procedure))
                && temp == (if old(eop) && old(procedure) == SectorErase then NO_SECTOR else 0)
                && (!old(eop) ==> sector == old(sector))
                && erased == old(erased) && failing == old(failing) && sectorErasing == old(sectorErasing)
    {
      temp := 0;
      if eop {
        eop := false;
        match procedure {
          case SectorErase =>
            sectorsLeft := (sectorsLeft - 1) % WORDS;
            if sectorsLeft != 0 {
              temp := sector;
              ended := ended + [temp];
              sector := Following(sector);
              temp := sector;
              EraseSector(temp, raised);
            } else {
              sector := NO_SECTOR;
              temp := NO_SECTOR;
              ended := ended + [temp];
              procedure := Idle;
            }
          case MassErase =>
            ended := ended + [0];
            procedure := Idle;
          case Program =>
            ended := ended + [address];
            procedure := Idle;
          case Idle =>
        }
      }
    }

    /* ------------------------- erasing n sectors ------------------------- */

    // k of the n sectors from s are over, with nothing erased or reported before.
    predicate Erasing(s: nat, n: nat, k: nat)
      reads this
    {
      Inv() && k < n && procedure == SectorErase && sectorsLeft == n - k && sector == s + k
      && erased == Range(s, k + 1) && ended == Range(s, k) && failed == []
    }

    // The erasure has ended after k sectors, the last sector or a failing one.
    predicate Finished(s: nat, n: nat, k: nat, why: set<Failure>)
      requires n > 0
      reads this
    {
      Inv() && procedure == Idle
      && if why == {} then k == n && erased == Range(s, n) && ended == Range(s, n - 1) + [NO_SECTOR] && failed == []
         else k < n && erased == Range(s, k + 1) && ended == Range(s, k) && failed == [s + k]
    }

    // What the interrupt for sector s + k does: the sector fails or ends, and if it
    // ends the start of the next one may fail at once.
    method EraseStep(s: nat, n: nat, k: nat, why: set<Failure>, raised: set<Failure>)
      requires s + n <= SECTORS && Erasing(s, n, k)
      modifies this
      ensures if why != {} then Finished(s, n, k, why) && errors == old(errors) + why
              else if k + 1 == n then Finished(s, n, n, {}) && errors == old(errors)
              else if raised != {} then Finished(s, n, k + 1, raised) && errors == old(errors) + raised
              else Erasing(s, n, k + 1) && errors == old(errors)
    {
      hide Range, Following;
      RangeNext(s, k);
      RangeNext(s, k + 1);
      SmallCounts(s, n, k);
      eop, failing := why == {}, why;
      IRQHandler(raised);
    }

    // An erasure under interrupts: outcomes[i] is what becomes of sector s + i;
    // atOnce(i): if it fails it does so on being started.
    method EraseByInterrupts(s: nat, n: nat, outcomes: seq<set<Failure>>, atOnce: nat -> bool) returns (status: Status)
      requires Inv() && procedure == Idle && erased == ended == failed == []
      requires 0 < n && s + n <= SECTORS && |outcomes| == n
      modifies this
      ensures status == OK
      ensures var k := FirstFailure(outcomes);
              var why := if k < n then outcomes[k] else {};
              Finished(s, n, k, why) && errors == old(errors) + why
    {
      hide Range;
      status := EraseIT(s, n, if atOnce(0) then outcomes[0] else {});
      RangeNext(s, 0);
      var k := 0;
      while outcomes[k] == {}
        invariant k < n && errors == old(errors) && Erasing(s, n, k)
        invariant FirstFailure(outcomes) == k + FirstFailure(outcomes[k..])
        decreases n - k
      {
        assert outcomes[k..][1..] == outcomes[k + 1..];
        var raised := if k + 1 < n && atOnce(k + 1) then outcomes[k + 1] else {};
        EraseStep(s, n, k, {}, raised);
        k := k + 1;
        if k == n || raised != {} {
          return;
        }
      }
      EraseStep(s, n, k, outcomes[k], {});
    }

    // j of the ends of an erasure of n sectors from s have come.
    predicate Counting(s: nat, n: nat, j: nat)
      reads this
    {
      Inv() && j <= EndsNeeded(n) && |erased| == (if j < EndsNeeded(n) then j + 1 else j)
      && (forall i :: 0 <= i < |erased| ==> erased[i] == (s + i) % WORDS)
      && if j == EndsNeeded(n) then procedure == Idle && sectorsLeft < WORDS && sector < WORDS
         else procedure == SectorErase && sectorsLeft == (n - j) % WORDS && sector == (s + j) % WORDS
    }

    method CountStep(s: nat, n: nat, j: nat)
      requires n < WORDS && j < EndsNeeded(n) && Counting(s, n, j)
      modifies this
      ensures Counting(s, n, j + 1)
    {
      CountDown(n, j);
      CountUp(s, j);
      hide Following;
      eop, failing := true, {};
      IRQHandler({});
    }

    // An erasure and j ends of operation without a failure: it is over exactly after
    // n of them, if n is not 0, and with n = 0 not before the count has come round.
    method EraseExactly(s: nat, n: nat, j: nat)
      requires Inv() && procedure == Idle && erased == [] && s < WORDS && n < WORDS && j <= EndsNeeded(n)
      modifies this
      ensures procedure == Idle <==> j == EndsNeeded(n)
      ensures j == n ==> (procedure == Idle <==> n >= 1)
      ensures |erased| == if procedure == Idle then j else j + 1
      ensures forall i :: 0 <= i < |erased| ==> erased[i] == (s + i) % WORDS
    {
      var status := EraseIT(s, n, {});
      var i := 0;
      while i < j
        invariant i <= j && Counting(s, n, i)
      {
        CountStep(s, n, i);
        i := i + 1;
      }
    }

    // A programming or a mass erasure under interrupts: the address, or 0, is told to
    // one of the two callbacks and the lock is released.
    method OneOperation(mass: bool, u: Unit, at: nat, data: nat, why: set<Failure>)
      requires Inv() && procedure == Idle && sectorsLeft < WORDS && sector < WORDS
      modifies this
      ensures Inv() && procedure == Idle && errors == old(errors) + why && erased == old(erased)
      ensures var told := if mass then 0 else at;
              if why == {} then ended == old(ended) + [told] && failed == old(failed)
              else ended == old(ended) && failed == old(failed) + [told]
      ensures if mass then written == old(written)
              else old(written) <= written && Programs(u, at, data, written[|old(written)|..])
    {
      hide Programs;
      var status;
      if mass {
        status := MassEraseIT();
      } else {
        status := ProgramIT(u, at, data);
      }
      eop, failing := why == {}, why;
      IRQHandler({});
    }

    /* ----------------------------- polling ----------------------------- */

    // FLASH_WaitForLastOperation.
    method WaitForLastOperation(o: Outcome) returns (status: Status)
      modifies `errors, `failing, `eop
      ensures status == match o case Ends => OK case Hangs => TIMEOUT case Fails(w) => if w == {} then OK else ERROR
      ensures errors == if o.Fails? then o.why else {}
    {
      errors := {};
      match o {
        case Hangs =>
          return TIMEOUT;
        case Fails(w) =>
          failing := w;
          if failing != {} {
            errors := errors + failing;
            failing := {};
            return ERROR;
          }
          eop := false;
          return OK;
        case Ends =>
          eop := false;
          return OK;
      }
    }

    // HAL_FLASHEx_Erase for sectors: before is what becomes of the operation under
    // way, and outcomes[i] of sector s + i.
    method Erase(s: nat, n: nat, before: Outcome, outcomes: seq<Outcome>) returns (status: Status, faulty: nat)
      requires Inv() && s + n <= SECTORS && |outcomes| == n
      modifies `locked, `errors, `failing, `eop, `sectorErasing, `erased
      ensures Inv() && locked == old(locked)
      ensures old(locked) ==> status == BUSY && unchanged(this)
      ensures !old(locked) && Stopped(before) ==> status != OK && erased == old(erased)
      ensures !old(locked) && !Stopped(before) ==>
                var k := FirstStop(outcomes);
                if k == n then status == OK && faulty == NO_SECTOR && erased == old(erased) + Range(s, n)
                else status != OK && faulty == s + k && erased == old(erased) + Range(s, k + 1)
    {
      faulty := 0;
      if locked {
        return BUSY, faulty;
      }
      locked := true;
      status := WaitForLastOperation(before);
      if status == OK {
        status, faulty := EraseSectors(s, n, outcomes);
      }
      locked := false;
    }

    method EraseSectors(s: nat, n: nat, outcomes: seq<Outcome>) returns (status: Status, faulty: nat)
      requires s + n <= SECTORS && |outcomes| == n
      modifies `errors, `failing, `eop, `sectorErasing, `erased
      ensures var k := FirstStop(outcomes);
              if k == n then status == OK && faulty == NO_SECTOR && erased == old(erased) + Range(s, n)
              else status != OK && status != BUSY && faulty == s + k && erased == old(erased) + Range(s, k + 1)
    {
      hide Range, FirstStop;
      status := OK;
      faulty := NO_SECTOR;
      RangeNext(s, 0);
      ghost var before, i := erased, 0;
      var index := s;
      while index < n + s
        invariant i <= n && index == s + i && status == OK && faulty == NO_SECTOR
        invariant erased == before + Range(s, i)
        invariant forall j :: 0 <= j < i ==> !Stopped(outcomes[j])
      {
        RangeNext(s, i);
        EraseSector(index, {});
        status := WaitForLastOperation(outcomes[index - s]);
        sectorErasing := false;
        if status != OK {
          faulty := index;
          FirstStopIs(outcomes, i);
          break;
        }
        index := index + 1;
        i := i + 1;
      }
      if status == OK {
        FirstStopIs(outcomes, n);
      }
    }

    // HAL_FLASH_Program.
    method ProgramPolling(u: Unit, at: nat, data: nat, before: Outcome, outcome: Outcome) returns (status: Status)
      requires Inv()
      modifies `locked, `errors, `failing, `eop, `programming, `written
      ensures Inv() && locked == old(locked)
      ensures status == BUSY <==> old(locked)
      ensures status == BUSY ==> unchanged(this)
      ensures status == OK <==> !old(locked) && !Stopped(before) && !Stopped(outcome)
      ensures !old(locked) && !Stopped(before) ==>
                !programming && old(written) <= written && Programs(u, at, data, written[|old(written)|..])
      ensures old(locked) || Stopped(before) ==> written == old(written)
    {
      hide Programs;
      if locked {
        return BUSY;
      }
      locked := true;
      status := WaitForLastOperation(before);
      if status == OK {
        WriteUnit(u, at, data);
        status := WaitForLastOperation(outcome);
        programming := false;
      }
      locked := false;
    }
  }
}
