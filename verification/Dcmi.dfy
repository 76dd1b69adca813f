// HAL_DCMI_Start_DMA and DCMI_DMAXferCplt over a double-buffered DMA stream: a
// long capture is cut into equal chunks, and after each chunk the address of
// the memory that is not in use leaps forward by two chunks.
module Dcmi {

  const WORD_LIMIT := 0xFFFF
  const ADDRESSES := 0x1_0000_0000

  datatype State = Reset | Ready | Busy
  datatype Status = OK | BUSY

  ghost predicate PowerOfTwo(n: nat) {
    n == 1 || (n > 1 && n % 2 == 0 && PowerOfTwo(n / 2))
  }

  // The byte offset of chunk r of a frame.
  function Offset(s: nat, r: nat): nat {
    4 * s * r
  }

  // Where chunk t of the stream belongs: chunk t mod k of the frame buffer.
  function Address(p: nat, s: nat, k: nat, t: nat): nat
    requires k > 0
  {
    Place(p, s, t % k)
  }

  function Place(p: nat, s: nat, r: nat): nat {
    (p + Offset(s, r)) % ADDRESSES
  }

  // The transfer counter once t chunks are over.
  function Counter(k: nat, t: nat): nat
    requires k >= 2
  {
    Left(k, t % k)
  }

  function Left(k: nat, r: nat): nat
    requires k >= 2
  {
    if r <= k - 2 then k - 2 - r else 0
  }

  function After(k: nat, r: nat): nat {
    if r + 1 == k then 0 else r + 1
  }

  // The end-of-frame test after chunk t.
  predicate EndTest(k: nat, t: nat)
    requires k >= 2
  {
    Counter(k, t + 1) == k - 2
  }

  // The test says end of frame after every k-th chunk and no other, for all
  // chunks, exactly when there are more than two.
  lemma EndTestIsFrameEnd(k: nat)
    requires k >= 2
    ensures (forall t: nat :: EndTest(k, t) <==> (t + 1) % k == 0) <==> k > 2
  {
    if k == 2 {
      Small(k);
      assert EndTest(k, 0) && (0 + 1) % k != 0;
    } else {
      forall t: nat
        ensures EndTest(k, t) <==> (t + 1) % k == 0
      {
        EndAt(k, (t + 1) % k);
      }
    }
  }

  // With two chunks it says so after each.
  lemma TwoChunks()
    ensures forall t: nat :: EndTest(2, t)
  {
  }

  lemma EndAt(k: nat, r: nat)
    requires k > 2 && r < k
    ensures Left(k, r) == k - 2 <==> r == 0
  {
  }

  lemma Wraps(k: nat, t: nat)
    requires k > 0
    ensures (t + 1) % k == After(k, t % k)
  {
    var q, r := t / k, t % k;
    assert t == k * q + r;
    if r == k - 1 {
      assert t + 1 == k * (q + 1) by {
        assert k * (q + 1) == k * q + k;
      }
      Multiple(k, q + 1, 0);
    } else {
      Multiple(k, q, r + 1);
    }
  }

  lemma Multiple(k: nat, q: nat, r: nat)
    requires r < k
    ensures (k * q + r) % k == r && (k * q + r) / k == q
  {
    var x := k * q + r;
    assert x == k * (x / k) + x % k;
    if x / k < q {
      LessTimes(k, x / k, q);
    }
    if q < x / k {
      LessTimes(k, q, x / k);
    }
  }

  lemma {:induction false} LessTimes(w: nat, a: nat, b: nat)
    requires a < b
    ensures w * a + w <= w * b
    decreases b
  {
    assert w * b == w * (b - 1) + w;
    if a < b - 1 {
      LessTimes(w, a, b - 1);
    }
  }

  lemma OffsetLess(s: nat, a: nat, b: nat)
    requires a < b
    ensures Offset(s, a) + 4 * s <= Offset(s, b)
  {
    LessTimes(4 * s, a, b);
  }

  lemma OffsetNext(s: nat, r: nat)
    ensures Offset(s, 0) == 0 && Offset(s, r + 1) == Offset(s, r) + 4 * s
  {
  }

  // Byte o of a frame is in its chunk r.
  predicate InChunk(s: nat, r: nat, o: nat) {
    Offset(s, r) <= o < Offset(s, r) + 4 * s
  }

  // The k chunks of a frame tile the region from its start: each byte belongs
  // to exactly one.
  lemma {:induction false} FrameTiles(s: nat, k: nat, o: nat)
    requires o < Offset(s, k)
    ensures exists r :: 0 <= r < k && InChunk(s, r, o)
    ensures forall q, r :: 0 <= q < k && 0 <= r < k && InChunk(s, q, o) && InChunk(s, r, o) ==> q == r
    decreases k
  {
    hide Offset;
    OffsetNext(s, 0);
    OffsetNext(s, k - 1);
    if o < Offset(s, k - 1) {
      FrameTiles(s, k - 1, o);
    } else {
      assert InChunk(s, k - 1, o);
    }
    forall q, r | 0 <= q < k && 0 <= r < k && InChunk(s, q, o) && InChunk(s, r, o)
      ensures q == r
    {
      if q < r {
        OffsetLess(s, q, r);
      }
      if r < q {
        OffsetLess(s, r, q);
      }
    }
  }

  lemma Distribute(a: nat, b: nat, c: nat)
    ensures (a + b) * c == a * c + b * c
  {
  }

  lemma HalfOf(s: nat, k: nat, total: nat)
    requires s * k <= total < (s + 1) * k
    ensures (s / 2) * (k * 2) <= total < (s / 2 + 1) * (k * 2)
  {
    var h := s / 2;
    Distribute(s, 1, k);
    Distribute(h, 1, k * 2);
    assert h * (k * 2) == h * k + h * k;
    Distribute(h, h, k);
    if s == h + h + 1 {
      Distribute(h + h, 1, k);
    }
  }

  lemma Exact(s: nat, k: nat, total: nat)
    requires k > 0 && s * k <= total < (s + 1) * k && total % k == 0
    ensures s * k == total
  {
    var q := total / k;
    assert total == k * q;
    Distribute(s, 1, k);
    assert s * k == k * s;
    if s < q {
      LessTimes(k, s, q);
    }
    if q < s {
      LessTimes(k, q, s);
    }
  }

  lemma Small(k: nat)
    requires k >= 2
    ensures 0 % k == 0 && 1 % k == 1
  {
  }

  // The memory in use after t chunks, when the first chunk went to memory 0.
  predicate Turn(k: nat, t: nat)
    requires k >= 2
  {
    TurnAt(k, t % k)
  }

  predicate TurnAt(k: nat, r: nat)
    requires k >= 2
  {
    if Left(k, r) > 0 then Left(k, r) % 2 == 1 else r == k - 1
  }

  // The address two chunks on, and the counter and the memory in use one chunk
  // on, as the callback makes them.
  lemma TwoOn(p: nat, s: nat, k: nat, t: nat)
    requires k >= 2 && k % 2 == 0 && p < ADDRESSES
    ensures var c := Counter(k, t);
            Turn(k, t + 1) == !Turn(k, t)
            && if c > 0 then
                 Counter(k, t + 1) == c - 1 && Address(p, s, k, t + 2) == (Address(p, s, k, t) + 8 * s) % ADDRESSES
               else if !Turn(k, t) then
                 Counter(k, t + 1) == 0 && Address(p, s, k, t + 2) == p
               else
                 Counter(k, t + 1) == k - 2 && Address(p, s, k, t + 2) == (p + 4 * s) % ADDRESSES
  {
    Wraps(k, t);
    Wraps(k, t + 1);
    hide Place, Left, TurnAt, After;
    TwoOnAt(p, s, k, t % k);
    TurnOn(k, t % k);
    LeftZero(k, t % k);
  }

  lemma TurnOn(k: nat, r: nat)
    requires k >= 2 && k % 2 == 0 && r < k
    ensures TurnAt(k, After(k, r)) == !TurnAt(k, r)
  {
    var l := Left(k, r);
    if r < k - 2 {
      assert Left(k, After(k, r)) == l - 1;
      Parity(l);
    } else {
      Parity(k - 1);
    }
  }

  lemma Parity(n: nat)
    requires n > 0
    ensures (n - 1) % 2 == 1 <==> n % 2 == 0
    ensures n == 1 ==> n % 2 == 1
    ensures (n + 1) % 2 == 0 <==> (n - 1) % 2 == 0
  {
  }

  lemma LeftZero(k: nat, r: nat)
    requires k >= 2 && r < k
    ensures Left(k, r) > 0 <==> r < k - 2
    ensures Left(k, r) == 0 ==> TurnAt(k, r) == (r == k - 1)
    ensures Left(k, After(k, r)) == if r < k - 2 then Left(k, r) - 1 else if r == k - 2 then 0 else k - 2
  {
  }

  lemma TwoOnAt(p: nat, s: nat, k: nat, r: nat)
    requires k >= 2 && p < ADDRESSES && r < k
    ensures Place(p, s, After(k, After(k, r)))
         == if r < k - 2 then (Place(p, s, r) + 8 * s) % ADDRESSES
            else if r == k - 2 then p else (p + 4 * s) % ADDRESSES
  {
    hide Offset;
    OffsetNext(s, 0);
    if r < k - 2 {
      PlaceOn(p, s, r);
    } else if r == k - 2 {
      assert After(k, After(k, r)) == 0;
    } else {
      assert After(k, After(k, r)) == 1;
    }
  }

  lemma PlaceOn(p: nat, s: nat, r: nat)
    ensures Place(p, s, r + 2) == (Place(p, s, r) + 8 * s) % ADDRESSES
  {
    OffsetNext(s, r);
    OffsetNext(s, r + 1);
    AddModulo(p + Offset(s, r), 8 * s);
  }

  lemma AddModulo(x: nat, y: nat)
    ensures (x % ADDRESSES + y) % ADDRESSES == (x + y) % ADDRESSES
  {
  }

  lemma StartsAt(p: nat, s: nat, k: nat)
    requires k >= 2 && k % 2 == 0 && p < ADDRESSES
    ensures Address(p, s, k, 0) == p && Address(p, s, k, 1) == (p + 4 * s) % ADDRESSES
    ensures Counter(k, 0) == k - 2 && !Turn(k, 0)
  {
    Small(k);
    OffsetNext(s, 0);
  }

  lemma TurnIsParity(k: nat, t: nat)
    requires k >= 2
    ensures Counter(k, t) > 0 ==> Turn(k, t) == (Counter(k, t) % 2 == 1)
  {
  }

  lemma FirstDiffers(p: nat, s: nat, k: nat)
    requires k >= 2 && 0 < s <= WORD_LIMIT
    ensures Address(p, s, k, 0) != Address(p, s, k, 1)
  {
    Small(k);
    OffsetNext(s, 0);
  }

  class Camera {
    // The interface.
    var enabled: bool
    var snapshot: bool
    var capture: bool
    var frameInterrupt: bool

    // The DMA stream: whether its handle accepts a start, double buffering, the
    // memory in use (true: memory 1), the two addresses and the chunk length.
    var streamFree: bool
    var dbm: bool
    var ct: bool
    var m0: nat
    var m1: nat
    var length: nat

    var state: State
    var locked: bool
    var xferCount: nat
    var xferTransferNumber: nat
    var xferSize: nat
    var buffPtr: nat

    // The address of every chunk transferred, and the chunks after which the end
    // of a frame was announced.
    ghost var chunks: seq<nat>
    ghost var ends: set<nat>

    constructor ()
      ensures state == Ready && !locked && streamFree && !ct && chunks == [] && ends == {}
    {
      enabled, snapshot, capture, frameInterrupt := false, false, false, false;
      streamFree, dbm, ct, m0, m1, length := true, false, false, 0, 0, 0;
      state, locked := Ready, false;
      xferCount, xferTransferNumber, xferSize, buffPtr := 0, 0, 0, 0;
      chunks, ends := [], {};
    }

    // HAL_DMAEx_MultiBufferStart_IT and HAL_DMA_Start_IT on the stream; neither
    // touches the memory in use.
    method StreamStart(double: bool, address: nat, second: nat, count: nat)
      modifies `streamFree, `dbm, `m0, `m1, `length
      ensures !streamFree
      ensures if old(streamFree) then dbm == double && m0 == address && length == count && (double ==> m1 == second)
              else dbm == old(dbm) && m0 == old(m0) && m1 == old(m1) && length == old(length)
    {
      if streamFree {
        streamFree := false;
        dbm, m0, length := double, address, count;
        if double {
          m1 := second;
        }
      }
    }

    // The halving loop.
    method SplitLength(total: nat)
      requires total > WORD_LIMIT
      modifies `xferSize, `xferCount
      ensures PowerOfTwo(xferCount) && xferCount >= 2 && xferCount % 2 == 0
      ensures 0x8000 <= xferSize <= WORD_LIMIT
      ensures xferSize * xferCount <= total < (xferSize + 1) * xferCount
      ensures xferCount > 2 <==> total >= 0x20000
      ensures total % xferCount == 0 ==> xferSize * xferCount == total
    {
      xferCount := 1;
      xferSize := total;
      while xferSize > WORD_LIMIT
        invariant PowerOfTwo(xferCount) && (xferCount == 1 || xferCount % 2 == 0)
        invariant xferSize * xferCount <= total < (xferSize + 1) * xferCount
        invariant xferSize >= 0x8000
        invariant xferCount == 1 ==> xferSize == total
        invariant xferCount == 2 ==> xferSize == total / 2
        invariant xferCount > 2 ==> total >= 0x20000
        decreases xferSize
      {
        HalfOf(xferSize, xferCount, total);
        xferSize := xferSize / 2;
        xferCount := xferCount * 2;
      }
      if total % xferCount == 0 {
        Exact(xferSize, xferCount, total);
      }
    }

    // The part of HAL_DCMI_Start_DMA for long captures.
    method StartDouble(data: nat, total: nat)
      requires data < ADDRESSES && total > WORD_LIMIT
      modifies `xferCount, `xferTransferNumber, `xferSize, `buffPtr, `streamFree, `dbm, `m0, `m1, `length
      ensures !streamFree
      ensures old(streamFree) ==> Streaming(data, xferSize, xferTransferNumber + 2, 0, ct) && length == xferSize
      ensures var s, k := xferSize, xferTransferNumber + 2;
              PowerOfTwo(k) && 0x8000 <= s <= WORD_LIMIT && s * k <= total < (s + 1) * k
              && (k > 2 <==> total >= 0x20000) && (total % k == 0 ==> s * k == total)
    {
      hide PowerOfTwo, Address, Counter, Turn;
      buffPtr := data;
      SplitLength(total);
      StartsAt(data, xferSize, xferCount);
      xferCount := xferCount - 2;
      xferTransferNumber := xferCount;
      var second := (data + 4 * xferSize) % ADDRESSES;
      StreamStart(true, data, second, xferSize);
    }

    // HAL_DCMI_Start_DMA; the outcome of starting the stream is not looked at.
    method Start(oneFrame: bool, data: nat, total: nat) returns (status: Status)
      requires data < ADDRESSES && total < ADDRESSES
      modifies `enabled, `snapshot, `capture, `state, `locked, `xferCount, `xferTransferNumber, `xferSize, `buffPtr,
               `streamFree, `dbm, `m0, `m1, `length
      ensures old(locked) ==> status == Status.BUSY && unchanged(this)
      ensures !old(locked) ==>
                status == OK && state == Busy && !locked && enabled && capture && snapshot == oneFrame && !streamFree
      ensures !old(locked) && old(streamFree) && total <= WORD_LIMIT ==>
                !dbm && m0 == data && length == total && xferCount == 0
      ensures !old(locked) && old(streamFree) && total > WORD_LIMIT ==>
                var s, k := xferSize, xferTransferNumber + 2;
                Streaming(data, s, k, 0, ct) && length == s
                && PowerOfTwo(k) && 0x8000 <= s <= WORD_LIMIT && s * k <= total < (s + 1) * k
                && (k > 2 <==> total >= 0x20000) && (total % k == 0 ==> s * k == total)
    {
      hide PowerOfTwo, Address, Counter;
      if locked {
        return Status.BUSY;
      }
      locked := true;
      state := Busy;
      enabled := true;
      snapshot := oneFrame;
      xferCount := 0;
      xferTransferNumber := 0;
      if total <= WORD_LIMIT {
        StreamStart(false, data, 0, total);
      } else {
        StartDouble(data, total);
      }
      capture := true;
      locked := false;
      return OK;
    }

    // t chunks are over: the memory in use holds the address of chunk t and the
    // other memory that of chunk t + 1, when the first chunk went to memory 0;
    // with the roles exchanged when it went to memory 1.
    ghost predicate Streaming(p: nat, s: nat, k: nat, t: nat, inverted: bool)
      reads this
    {
      dbm && k >= 2 && k % 2 == 0 && xferSize == s && xferTransferNumber == k - 2 && buffPtr == p < ADDRESSES
      && (!inverted ==> ct == Turn(k, t))
      && (!inverted ==> (if ct then m1 else m0) == Address(p, s, k, t))
      && (!inverted ==> (if ct then m0 else m1) == Address(p, s, k, t + 1))
      && (inverted && t == 0 ==> ct && m0 == Address(p, s, k, 0) && m1 == Address(p, s, k, 1))
      && (!inverted ==> xferCount == Counter(k, t))
    }

    // DCMI_DMAXferCplt, after the stream has turned to the other memory: only the
    // memory that is not in use is changed.
    method XferCplt()
      modifies `m0, `m1, `xferCount, `frameInterrupt, `state
      ensures if ct then m1 == old(m1) else m0 == old(m0)
      ensures old(xferCount) != 0 ==>
                if ct && old(xferCount) % 2 == 1 then xferCount == old(xferCount) && m0 == old(m0)
                else xferCount == old(xferCount) - 1
                     && (if ct then m0 else m1) == ((if ct then old(m0) else old(m1)) + 8 * xferSize) % ADDRESSES
      ensures old(xferCount) == 0 ==>
                xferCount == (if ct then 0 else xferTransferNumber)
                && (if ct then m0 == buffPtr else m1 == (buffPtr + 4 * xferSize) % ADDRESSES)
      ensures frameInterrupt == (old(frameInterrupt) || xferCount == xferTransferNumber)
      ensures state == if xferCount == xferTransferNumber && snapshot then Ready else old(state)
    {
      if xferCount != 0 {
        if xferCount % 2 == 0 && ct {
          m0 := (m0 + 8 * xferSize) % ADDRESSES;
          xferCount := xferCount - 1;
        } else if !ct {
          m1 := (m1 + 8 * xferSize) % ADDRESSES;
          xferCount := xferCount - 1;
        }
      } else if ct {
        m0 := buffPtr;
      } else if !ct {
        m1 := (buffPtr + 4 * xferSize) % ADDRESSES;
        xferCount := xferTransferNumber;
      }
      if xferCount == xferTransferNumber {
        frameInterrupt := true;
        if snapshot {
          state := Ready;
        }
      }
    }

    // The stream transfers a chunk, turns to the other memory and interrupts;
    // in double-buffer mode the transfer-complete branch of HAL_DMA_IRQHandler
    // calls XferCplt for either memory.
    method Transfer(ghost p: nat, ghost s: nat, ghost k: nat, ghost inverted: bool)
      requires k >= 2 && (!inverted ==> Streaming(p, s, k, |chunks|, false))
      modifies `m0, `m1, `ct, `xferCount, `frameInterrupt, `state, `chunks, `ends
      ensures chunks == old(chunks) + [if old(ct) then old(m1) else old(m0)]
      ensures !inverted ==> Streaming(p, s, k, |chunks|, false)
      ensures !inverted ==> ends == old(ends) + if EndTest(k, |old(chunks)|) then {|old(chunks)|} else {}
      ensures !inverted ==> frameInterrupt == (old(frameInterrupt) || EndTest(k, |old(chunks)|))
      ensures !inverted ==> state == if EndTest(k, |old(chunks)|) && snapshot then Ready else old(state)
    {
      hide Address, Counter, Turn;
      ghost var t := |chunks|;
      TurnIsParity(k, t);
      chunks := chunks + [if ct then m1 else m0];
      ct := !ct;
      XferCplt();
      if xferCount == xferTransferNumber {
        ends := ends + {|chunks| - 1};
      }
      if !inverted {
        TwoOn(p, s, k, t);
      }
    }

    // A capture of n chunks from its start: each is where it belongs if the stream
    // started on memory 0, and the first is not if it started on memory 1.
    method Capture(ghost p: nat, ghost s: nat, ghost k: nat, n: nat)
      requires k >= 2 && s > 0 && s <= WORD_LIMIT && Streaming(p, s, k, 0, ct) && chunks == [] && ends == {}
      modifies `m0, `m1, `ct, `xferCount, `frameInterrupt, `state, `chunks, `ends
      ensures |chunks| == n
      ensures !old(ct) ==> forall t :: 0 <= t < n ==> chunks[t] == Address(p, s, k, t)
      ensures !old(ct) ==> forall t :: t in ends <==> 0 <= t < n && EndTest(k, t)
      ensures !old(ct) ==>
                frameInterrupt == (old(frameInterrupt) || ends != {})
                && state == if ends != {} && snapshot then Ready else old(state)
      ensures old(ct) && n > 0 ==> chunks[0] != Address(p, s, k, 0)
      ensures n > 0 ==> ((forall t :: 0 <= t < n ==> chunks[t] == Address(p, s, k, t)) <==> !old(ct))
    {
      ghost var good := !ct;
      FirstDiffers(p, s, k);
      var i := 0;
      while i < n
        invariant i <= n && |chunks| == i
        invariant good ==> Streaming(p, s, k, i, false)
        invariant good ==> forall t :: 0 <= t < i ==> chunks[t] == Address(p, s, k, t)
        invariant good ==> forall t :: t in ends <==> 0 <= t < i && EndTest(k, t)
        invariant good ==> frameInterrupt == (old(frameInterrupt) || ends != {})
        invariant good ==> state == if ends != {} && snapshot then Ready else old(state)
        invariant !good && i == 0 ==> Streaming(p, s, k, 0, true)
        invariant !good && i > 0 ==> chunks[0] == Address(p, s, k, 1)
      {
        Transfer(p, s, k, !good);
        i := i + 1;
      }
    }

    // A long capture from its start to its n-th chunk, on a free handle and stream.
    method StartAndCapture(oneFrame: bool, data: nat, total: nat, n: nat)
      requires !locked && streamFree && data < ADDRESSES && WORD_LIMIT < total < ADDRESSES && chunks == [] && ends == {}
      modifies this
      ensures var s, k := xferSize, xferTransferNumber + 2;
              PowerOfTwo(k) && 0x8000 <= s <= WORD_LIMIT && s * k <= total < (s + 1) * k
              && (total % k == 0 ==> s * k == total)
              && |chunks| == n
              && (n > 0 ==> ((forall t :: 0 <= t < n ==> chunks[t] == Address(data, s, k, t)) <==> !old(ct)))
              && (!old(ct) ==> forall t :: t in ends <==> 0 <= t < n && (total < 0x20000 || (t + 1) % k == 0))
              && (!old(ct) ==> frameInterrupt == (old(frameInterrupt) || ends != {})
                               && state == if ends != {} && oneFrame then Ready else Busy)
    {
      hide PowerOfTwo, Address, EndTest;
      var status := Start(oneFrame, data, total);
      ghost var s, k := xferSize, xferTransferNumber + 2;
      EndTestIsFrameEnd(k);
      TwoChunks();
      Capture(data, s, k, n);
    }
  }
}
