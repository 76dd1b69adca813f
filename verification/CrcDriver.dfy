// HAL_CRC_Init, HAL_CRC_Accumulate, HAL_CRC_Calculate with their fast feeding
// of bytes and half-words, and HAL_CRCEx_Polynomial_Set.
module CrcDriver {
  import opened CrcCore
  import opened CrcDivision

  datatype State = Reset | Ready | Busy
  datatype Status = OK | ERROR | BUSY
  datatype Format = Undefined | Bytes | HalfWords | Words
  datatype Buffer = OfBytes(b: seq<bv8>) | OfHalfWords(h: seq<bv16>) | OfWords(w: seq<bv32>)

  const DEFAULT_POLYNOMIAL: bv32 := 0x04C11DB7
  const DEFAULT_INIT: bv32 := 0xFFFFFFFF

  // The value HAL_BUSY has when it is returned as a CRC.
  const BUSY_CODE: bv32 := 2

  predicate Fits(f: Format, m: Buffer) {
    match f
    case Bytes => m.OfBytes?
    case HalfWords => m.OfHalfWords?
    case Words => m.OfWords?
    case Undefined => true
  }

  // The bits a buffer stands for, its elements one after another.
  function Serial(u: Narrow, f: Format, v: Inversion, m: Buffer): Bits
    requires Fits(f, m)
  {
    match f
    case Bytes => Serial8(u, v, m.b)
    case HalfWords => Serial16(u, v, m.h)
    case Words => Serial32(v, m.w)
    case Undefined => []
  }

  // The bits the driver feeds.
  function Fed(u: Narrow, f: Format, v: Inversion, m: Buffer): Bits
    requires Fits(f, m)
  {
    match f
    case Bytes => Packed8(u, v, m.b)
    case HalfWords => Packed16(u, v, m.h)
    case Words => Serial32(v, m.w)
    case Undefined => []
  }

  // The inversions for which fast feeding is serial feeding.
  predicate Regular(f: Format, v: Inversion) {
    match f
    case Bytes => v == None || v == Byte
    case HalfWords => v != Word
    case _ => true
  }

  lemma FedIsSerial(u: Narrow, f: Format, v: Inversion, m: Buffer)
    requires Fits(f, m) && Regular(f, v)
    ensures Fed(u, f, v, m) == Serial(u, f, v, m)
  {
    match f
    case Bytes => PackedIsSerial8(u, v, m.b);
    case HalfWords => PackedIsSerial16(u, v, m.h);
    case _ =>
  }

  function Append(f: Format, x: Buffer, y: Buffer): (z: Buffer)
    requires Fits(f, x) && Fits(f, y)
    ensures Fits(f, z)
  {
    match f
    case Bytes => OfBytes(x.b + y.b)
    case HalfWords => OfHalfWords(x.h + y.h)
    case Words => OfWords(x.w + y.w)
    case Undefined => x
  }

  // Feeding in two parts, split anywhere, feeds the same bits.
  lemma FedSplits(u: Narrow, f: Format, v: Inversion, x: Buffer, y: Buffer)
    requires Fits(f, x) && Fits(f, y) && Regular(f, v)
    ensures Fed(u, f, v, Append(f, x, y)) == Fed(u, f, v, x) + Fed(u, f, v, y)
  {
    FedIsSerial(u, f, v, x);
    FedIsSerial(u, f, v, y);
    FedIsSerial(u, f, v, Append(f, x, y));
    match f
    case Bytes => Serial8Splits(u, v, x.b, y.b);
    case HalfWords => Serial16Splits(u, v, x.h, y.h);
    case Words => Serial32Splits(v, x.w, y.w);
    case Undefined =>
  }

  // Without that condition on the inversion some split goes wrong.
  lemma FedSplitsAlways(u: Narrow, f: Format, v: Inversion)
    ensures (forall x: Buffer, y: Buffer | Fits(f, x) && Fits(f, y) ::
               Fed(u, f, v, Append(f, x, y)) == Fed(u, f, v, x) + Fed(u, f, v, y)) <==> Regular(f, v)
  {
    if Regular(f, v) {
      forall x: Buffer, y: Buffer | Fits(f, x) && Fits(f, y)
        ensures Fed(u, f, v, Append(f, x, y)) == Fed(u, f, v, x) + Fed(u, f, v, y)
      {
        FedSplits(u, f, v, x, y);
      }
    } else {
      SplitFails(u, f, v);
    }
  }

  lemma SplitFails(u: Narrow, f: Format, v: Inversion)
    requires !Regular(f, v)
    ensures exists x: Buffer, y: Buffer | Fits(f, x) && Fits(f, y) ::
              Fed(u, f, v, Append(f, x, y)) != Fed(u, f, v, x) + Fed(u, f, v, y)
  {
    hide Packed8, Packed16;
    if f == Bytes && v == HalfWord {
      var l := HalfWordSplit(u);
      assert Append(f, OfBytes([0]), OfBytes([l])) == OfBytes([0, l]);
    } else if f == Bytes {
      var l := WordSplit(u);
      assert Append(f, OfBytes([0, 0]), OfBytes([0, l])) == OfBytes([0, 0, 0, l]);
    } else {
      var l := WordSplit16(u);
      assert Append(f, OfHalfWords([0]), OfHalfWords([l])) == OfHalfWords([0, l]);
    }
  }

  function Low(x: bv32, w: Width): (r: CrcCore.Bits)
    ensures |r| == Size(w)
  {
    Bits32(x)[32 - Size(w)..]
  }

  function Resized(r: CrcCore.Bits, n: nat): (q: CrcCore.Bits)
    ensures |q| == n
  {
    if |r| >= n then r[|r| - n..] else Zeros(n - |r|) + r
  }

  // The data register as it is read.
  function Reading(reg: CrcCore.Bits, invert: bool): bv32
    requires |reg| <= 32
  {
    Join32(Zeros(32 - |reg|) + if invert then Reversed(reg) else reg)
  }

  // The polynomial and initial value of a width are the low bits of POL and INIT.
  lemma LowAt(x: bv32, w: Width, i: nat)
    requires i < Size(w)
    ensures Low(x, w)[i] <==> At32(x, Size(w) - 1 - i)
  {
    hide Bits32, At32;
    BitsAt32(x, 32 - Size(w) + i);
  }

  lemma JoinedBits(s: CrcCore.Bits)
    requires |s| == 32
    ensures Bits32(Join32(s)) == s
  {
    hide Bits8, Bits32, Join8, Pack32;
    BitsOfPack32(Join8(s[..8]), Join8(s[8..16]), Join8(s[16..24]), Join8(s[24..]));
    JoinBits(s[..8]);
    JoinBits(s[8..16]);
    JoinBits(s[16..24]);
    JoinBits(s[24..]);
  }

  // The value is read in the low bits, or with output inversion bit-reversed within
  // its width; the others read as zero.
  lemma ReadingAt(reg: CrcCore.Bits, invert: bool, i: nat)
    requires |reg| <= 32 && i < 32
    ensures At32(Reading(reg, invert), i) <==> i < |reg| && reg[if invert then i else |reg| - 1 - i]
  {
    hide Bits32, Join32, At32;
    var s := Zeros(32 - |reg|) + if invert then Reversed(reg) else reg;
    JoinedBits(s);
    BitsAt32(Join32(s), 31 - i);
  }

  // The polynomial, without its leading term, is not zero and of a degree below
  // the width; for 32 bits anything goes.
  predicate GoodPolynomial(p: bv32, w: Width) {
    match w
    case W7 => 0 < p < 0x80
    case W8 => 0 < p < 0x100
    case W16 => 0 < p < 0x10000
    case W32 => true
  }

  lemma FeedNothing(poly: CrcCore.Bits, reg: CrcCore.Bits)
    requires |poly| == |reg| > 0
    ensures Feed(poly, reg, []) == reg
  {
  }

  // The bytes of a reading feed the bits of the register.
  lemma OwnStream(u: Narrow, w: Width, reg: CrcCore.Bits)
    requires |reg| == Size(w) && w != W7
    ensures Fed(u, Bytes, None, OfBytes(Handle.BytesOf(w, Reading(reg, false)))) == reg
  {
    hide Pack32, Join8, Bits8, Packed8;
    var z := Zeros(32 - |reg|);
    var s := z + reg;
    var a, b, c, d := Join8(s[..8]), Join8(s[8..16]), Join8(s[16..24]), Join8(s[24..]);
    UnpackWord(a, b, c, d);
    Stream(u, a, b, c, d);
    LastBytes(z, reg);
    JoinBits(s[..8]);
    JoinBits(s[8..16]);
    JoinBits(s[16..24]);
    JoinBits(s[24..]);
  }

  lemma LastBytes(z: CrcCore.Bits, reg: CrcCore.Bits)
    requires |z| + |reg| == 32
    ensures var s := z + reg;
            (|reg| == 32 ==> reg == s[..8] + s[8..16] + s[16..24] + s[24..])
            && (|reg| == 16 ==> reg == s[16..24] + s[24..]) && (|reg| == 8 ==> reg == s[24..])
  {
  }

  lemma Stream(u: Narrow, a: bv8, b: bv8, c: bv8, d: bv8)
    ensures Packed8(u, None, [a, b, c, d]) == Bits8(a) + Bits8(b) + Bits8(c) + Bits8(d)
    ensures Packed8(u, None, [c, d]) == Bits8(c) + Bits8(d)
    ensures Packed8(u, None, [d]) == Bits8(d)
  {
    hide Pack16, Pack32, Bits8, Bits16, Bits32;
    BitsOfPack32(a, b, c, d);
    BitsOfPack16(c, d);
    assert [a, b, c, d][4..] == [];
    assert Packed8(u, None, [a, b, c, d]) == Enter32(None, Pack32(a, b, c, d)) + [];
  }

  lemma UnpackWord(a: bv8, b: bv8, c: bv8, d: bv8)
    ensures var x := Pack32(a, b, c, d);
            (x >> 24) as bv8 == a && ((x >> 16) & 0xFF) as bv8 == b
            && ((x >> 8) & 0xFF) as bv8 == c && (x & 0xFF) as bv8 == d
  {
  }

  lemma ZeroReading(n: nat)
    requires n <= 32
    ensures Reading(Zeros(n), false) == 0
  {
    assert Zeros(32 - n) + Zeros(n) == Zeros(32);
    assert Join8(Zeros(32)[..8]) == 0;
  }

  class Handle {
    // The treatment of narrow writes, and the registers.
    const narrow: Narrow
    var pol: bv32
    var width: Width
    var init: bv32
    var inversion: Inversion
    var invertOut: bool
    var dr: CrcCore.Bits

    // Init structure.
    var defaultPolynomial: bool
    var generatingPolynomial: bv32
    var crcLength: Width
    var defaultInit: bool
    var initValue: bv32
    var inversionMode: Inversion
    var outputMode: bool
    var format: Format

    var state: State
    var locked: bool

    predicate Valid()
      reads this
    {
      |dr| == Size(width)
    }

    function Poly(): (p: CrcCore.Bits)
      reads this
      ensures |p| == Size(width)
    {
      Low(pol, width)
    }

    constructor (u: Narrow)
      ensures Valid() && state == State.Reset && width == W32 && pol == DEFAULT_POLYNOMIAL && init == DEFAULT_INIT
      ensures narrow == u && inversion == None && !invertOut
    {
      narrow := u;
      pol, width, init, inversion, invertOut := DEFAULT_POLYNOMIAL, W32, DEFAULT_INIT, None, false;
      dr := Bits32(DEFAULT_INIT);
      defaultPolynomial, generatingPolynomial, crcLength := true, 0, W32;
      defaultInit, initValue, inversionMode, outputMode := true, 0, None, false;
      format, state, locked := Bytes, State.Reset, false;
    }

    /* ---------------------------- the unit ---------------------------- */

    method WriteWord(x: bv32)
      requires Valid()
      modifies `dr
      ensures Valid() && dr == Feed(Poly(), old(dr), Enter32(inversion, x))
    {
      dr := Feed(Poly(), dr, Enter32(inversion, x));
    }

    method WriteHalf(x: bv16)
      requires Valid()
      modifies `dr
      ensures Valid() && dr == Feed(Poly(), old(dr), Enter16(narrow, inversion, x))
    {
      dr := Feed(Poly(), dr, Enter16(narrow, inversion, x));
    }

    method WriteByte(x: bv8)
      requires Valid()
      modifies `dr
      ensures Valid() && dr == Feed(Poly(), old(dr), Enter8(narrow, inversion, x))
    {
      dr := Feed(Poly(), dr, Enter8(narrow, inversion, x));
    }

    /* --------------------------- the driver --------------------------- */

    // CRC_Handle_8.
    method Handle8(m: seq<bv8>) returns (crc: bv32)
      requires Valid()
      modifies `dr
      ensures Valid() && dr == Feed(Poly(), old(dr), Packed8(narrow, inversion, m)) && crc == Reading(dr, invertOut)
    {
      hide Feed, Enter8, Enter16, Enter32, Pack16, Pack32, Reading, Low;
      var i := 0;
      while i < |m| / 4
        invariant 0 <= i <= |m| / 4 && Valid()
        invariant Feed(Poly(), dr, Packed8(narrow, inversion, m[4 * i..]))
                    == Feed(Poly(), old(dr), Packed8(narrow, inversion, m))
      {
        var x := Pack32(m[4 * i], m[4 * i + 1], m[4 * i + 2], m[4 * i + 3]);
        assert m[4 * i..][4..] == m[4 * (i + 1)..];
        FeedSplits(Poly(), dr, Enter32(inversion, x), Packed8(narrow, inversion, m[4 * (i + 1)..]));
        WriteWord(x);
        i := i + 1;
      }
      ghost var t := m[4 * i..];
      if |m| % 4 != 0 {
        if |m| % 4 == 1 {
          WriteByte(m[4 * i]);
        }
        if |m| % 4 == 2 {
          WriteHalf(Pack16(m[4 * i], m[4 * i + 1]));
        }
        if |m| % 4 == 3 {
          FeedSplits(Poly(), dr, Enter16(narrow, inversion, Pack16(t[0], t[1])), Enter8(narrow, inversion, t[2]));
          WriteHalf(Pack16(m[4 * i], m[4 * i + 1]));
          WriteByte(m[4 * i + 2]);
        }
      } else {
        FeedNothing(Poly(), dr);
      }
      return Reading(dr, invertOut);
    }

    // CRC_Handle_16.
    method Handle16(m: seq<bv16>) returns (crc: bv32)
      requires Valid()
      modifies `dr
      ensures Valid() && dr == Feed(Poly(), old(dr), Packed16(narrow, inversion, m)) && crc == Reading(dr, invertOut)
    {
      hide Feed, Enter16, Enter32, PackHalves, Reading, Low;
      var i := 0;
      while i < |m| / 2
        invariant 0 <= i <= |m| / 2 && Valid()
        invariant Feed(Poly(), dr, Packed16(narrow, inversion, m[2 * i..]))
                    == Feed(Poly(), old(dr), Packed16(narrow, inversion, m))
      {
        var x := PackHalves(m[2 * i], m[2 * i + 1]);
        assert m[2 * i..][2..] == m[2 * (i + 1)..];
        FeedSplits(Poly(), dr, Enter32(inversion, x), Packed16(narrow, inversion, m[2 * (i + 1)..]));
        WriteWord(x);
        i := i + 1;
      }
      if |m| % 2 != 0 {
        WriteHalf(m[2 * i]);
      } else {
        FeedNothing(Poly(), dr);
      }
      return Reading(dr, invertOut);
    }

    method HandleWords(m: seq<bv32>) returns (crc: bv32)
      requires Valid()
      modifies `dr
      ensures Valid() && dr == Feed(Poly(), old(dr), Serial32(inversion, m)) && crc == Reading(dr, invertOut)
    {
      hide Feed, Enter32, Reading, Low;
      var index := 0;
      while index < |m|
        invariant 0 <= index <= |m| && Valid()
        invariant Feed(Poly(), dr, Serial32(inversion, m[index..])) == Feed(Poly(), old(dr), Serial32(inversion, m))
      {
        assert m[index..][1..] == m[index + 1..];
        FeedSplits(Poly(), dr, Enter32(inversion, m[index]), Serial32(inversion, m[index + 1..]));
        WriteWord(m[index]);
        index := index + 1;
      }
      FeedNothing(Poly(), dr);
      return Reading(dr, invertOut);
    }

    // The common part of the two entry points: feeding, and the value read;
    // without a format nothing is fed and zero is returned.
    method Enter(m: Buffer) returns (crc: bv32)
      requires Valid() && Fits(format, m)
      modifies `dr
      ensures Valid() && dr == Feed(Poly(), old(dr), Fed(narrow, format, inversion, m))
      ensures crc == if format == Undefined then 0 else Reading(dr, invertOut)
    {
      hide Feed, Packed8, Packed16, Serial32, Reading, Low;
      if format == Undefined {
        FeedNothing(Poly(), dr);
      }
      crc := 0;
      match format {
        case Words => crc := HandleWords(m.w);
        case Bytes => crc := Handle8(m.b);
        case HalfWords => crc := Handle16(m.h);
        case Undefined =>
      }
    }

    // HAL_CRC_Accumulate.
    method Accumulate(m: Buffer) returns (crc: bv32)
      requires Valid() && Fits(format, m)
      modifies `dr, `state, `locked
      ensures Valid()
      ensures old(locked) ==> crc == BUSY_CODE && locked && dr == old(dr) && state == old(state)
      ensures !old(locked) ==>
                !locked && state == Ready && dr == Feed(Poly(), old(dr), Fed(narrow, format, inversion, m))
                && crc == if format == Undefined then 0 else Reading(dr, invertOut)
      ensures !old(locked) ==>
                IsRemainder(Dividend(old(dr), Fed(narrow, format, inversion, m)), [true] + Poly(), dr)
    {
      hide Feed, Fed, Reading, Low, Dividend, IsRemainder;
      if locked {
        return BUSY_CODE;
      }
      locked := true;
      state := Busy;
      crc := Enter(m);
      FeedIsRemainder(Poly(), old(dr), Fed(narrow, format, inversion, m), dr);
      state := Ready;
      locked := false;
    }

    // HAL_CRC_Calculate.
    method Calculate(m: Buffer) returns (crc: bv32)
      requires Valid() && Fits(format, m)
      modifies `dr, `state, `locked
      ensures Valid()
      ensures old(locked) ==> crc == BUSY_CODE && locked && dr == old(dr) && state == old(state)
      ensures !old(locked) ==>
                !locked && state == Ready && dr == Feed(Poly(), Low(init, width), Fed(narrow, format, inversion, m))
                && crc == if format == Undefined then 0 else Reading(dr, invertOut)
      ensures !old(locked) ==>
                IsRemainder(Dividend(Low(init, width), Fed(narrow, format, inversion, m)), [true] + Poly(), dr)
    {
      hide Feed, Fed, Reading, Low, Dividend, IsRemainder;
      if locked {
        return BUSY_CODE;
      }
      locked := true;
      state := Busy;
      dr := Low(init, width);
      crc := Enter(m);
      FeedIsRemainder(Poly(), Low(init, width), Fed(narrow, format, inversion, m), dr);
      state := Ready;
      locked := false;
    }

    // HAL_CRCEx_Polynomial_Set: msb is the degree of the second largest term; for
    // a zero polynomial the counter wraps round.
    method PolynomialSet(p: bv32, length: Width) returns (status: Status)
      requires Valid()
      modifies `pol, `width, `dr
      ensures Valid() && status == if GoodPolynomial(p, length) then OK else ERROR
      ensures status == OK ==> pol == p && width == length && dr == Resized(old(dr), Size(length))
      ensures status == ERROR ==> pol == old(pol) && width == old(width) && dr == old(dr)
    {
      var msb := Degree(p);
      match length {
        case W7 =>
          if msb >= 7 {
            return ERROR;
          }
        case W8 =>
          if msb >= 8 {
            return ERROR;
          }
        case W16 =>
          if msb >= 16 {
            return ERROR;
          }
        case W32 =>
      }
      pol := p;
      width := length;
      dr := Resized(dr, Size(length));
      return OK;
    }

    // The search for the most significant bit.
    static method Degree(p: bv32) returns (msb: bv32)
      ensures if p == 0 then msb == 0xFFFF_FFFF else msb <= 31 && p >> msb == 1
    {
      msb := 31;
      while true
        invariant msb <= 31 && (p >> msb) >> 1 == 0
        decreases msb
      {
        if p & (1 << msb) != 0 {
          break;
        }
        var was := msb;
        msb := msb - 1;
        if was == 0 {
          break;
        }
      }
    }

    // HAL_CRC_Init.
    method Init() returns (status: Status)
      requires Valid()
      modifies `pol, `width, `dr, `init, `inversion, `invertOut, `state, `locked
      ensures Valid()
      ensures status == if defaultPolynomial || GoodPolynomial(generatingPolynomial, crcLength) then OK else ERROR
      ensures status == OK ==>
                state == Ready
                && pol == (if defaultPolynomial then DEFAULT_POLYNOMIAL else generatingPolynomial)
                && width == (if defaultPolynomial then W32 else crcLength) && dr == Resized(old(dr), Size(width))
                && init == (if defaultInit then DEFAULT_INIT else initValue)
                && inversion == inversionMode && invertOut == outputMode
      ensures status == ERROR ==>
                state == Busy && pol == old(pol) && width == old(width) && dr == old(dr) && init == old(init)
                && inversion == old(inversion) && invertOut == old(invertOut)
      ensures locked == (old(locked) && old(state) != State.Reset)
    {
      hide GoodPolynomial, Resized, Bits32, Low;
      if state == State.Reset {
        locked := false;
      }
      state := Busy;
      if defaultPolynomial {
        pol := DEFAULT_POLYNOMIAL;
        width := W32;
        dr := Resized(dr, 32);
      } else {
        status := PolynomialSet(generatingPolynomial, crcLength);
        if status != OK {
          return ERROR;
        }
      }
      Configure();
      state := Ready;
      return OK;
    }

    method Configure()
      modifies `init, `inversion, `invertOut
      ensures init == if defaultInit then DEFAULT_INIT else initValue
      ensures inversion == inversionMode && invertOut == outputMode
    {
      if defaultInit {
        init := DEFAULT_INIT;
      } else {
        init := initValue;
      }
      inversion := inversionMode;
      invertOut := outputMode;
    }

    /* ---------------------- whole computations ---------------------- */

    // What Calculate returns on a free handle: the serial CRC of the data.
    function Crc(m: Buffer): bv32
      requires Fits(format, m)
      reads this
    {
      Reading(Feed(Poly(), Low(init, width), Serial(narrow, format, inversion, m)), invertOut)
    }

    // A message in two parts.
    method CalculateInParts(x: Buffer, y: Buffer) returns (crc: bv32)
      requires Valid() && !locked && format != Undefined && Regular(format, inversion)
      requires Fits(format, x) && Fits(format, y)
      modifies `dr, `state, `locked
      ensures crc == Crc(Append(format, x, y)) && Valid() && !locked && state == Ready
      ensures crc == Reading(dr, invertOut)
              && IsRemainder(Dividend(Low(init, width), Serial(narrow, format, inversion, Append(format, x, y))),
                             [true] + Poly(), dr)
    {
      hide Feed, Fed, Serial, Reading, Low, Append, Dividend, IsRemainder;
      FedSplits(narrow, format, inversion, x, y);
      FedIsSerial(narrow, format, inversion, Append(format, x, y));
      FeedSplits(Poly(), Low(init, width), Fed(narrow, format, inversion, x), Fed(narrow, format, inversion, y));
      crc := Calculate(x);
      crc := Accumulate(y);
      FeedIsRemainder(Poly(), Low(init, width), Serial(narrow, format, inversion, Append(format, x, y)), dr);
    }

    // A CRC's own bytes, most significant first.
    static function BytesOf(w: Width, crc: bv32): seq<bv8> {
      match w
      case W32 => [(crc >> 24) as bv8, ((crc >> 16) & 0xFF) as bv8, ((crc >> 8) & 0xFF) as bv8, (crc & 0xFF) as bv8]
      case W16 => [((crc >> 8) & 0xFF) as bv8, (crc & 0xFF) as bv8]
      case _ => [(crc & 0xFF) as bv8]
    }

    // A message followed by its own CRC.
    method SelfCheck(m: seq<bv8>) returns (crc: bv32)
      requires Valid() && !locked && format == Bytes && inversion == None && !invertOut && width != W7
      modifies `dr, `state, `locked
      ensures crc == 0 && dr == Zeros(Size(width)) && Valid() && !locked && state == Ready
    {
      hide Feed, Fed, Reading, Low, Dividend, IsRemainder;
      crc := Calculate(OfBytes(m));
      ghost var reg := dr;
      OwnStream(narrow, width, reg);
      Residue(Poly(), reg);
      ZeroReading(Size(width));
      crc := Accumulate(OfBytes(BytesOf(width, crc)));
    }
  }
}
