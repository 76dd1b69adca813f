// The formatting done by HAL_CRYPEx_AESCCM_Encrypt before the payload, and the
// final block of HAL_CRYPEx_AESCCM_Finish, of the processor with a FIFO.  The
// data type is 8 bits, so what is written to the input register is the buffer,
// byte by byte.
module CcmDriver {
  import opened CcmFormat

  const LIMIT := 65280
  const WORDS := 0x1_0000_0000

  datatype Phase = Ready | Process | Final
  datatype State = Free | Busy | TimedOut
  datatype Status = OK | BUSY | TIMEOUT

  function Or(x: nat, y: nat): nat
    decreases x + y
  {
    if x == 0 then y else if y == 0 then x
    else 2 * Or(x / 2, y / 2) + if x % 2 == 1 || y % 2 == 1 then 1 else 0
  }

  // m shifted left by k bits.
  function Shifted(m: nat, k: nat): nat {
    if k == 0 then m else 2 * Shifted(m, k - 1)
  }

  // Setting bits below the lowest bit set adds them.
  lemma {:induction false} OrShifted(m: nat, k: nat, c: nat)
    requires c < Shifted(1, k)
    ensures Or(Shifted(m, k), c) == Shifted(m, k) + c
    decreases k
  {
    if k > 0 {
      OrShifted(m, k - 1, c / 2);
      OrStep(Shifted(m, k - 1), c);
    }
  }

  lemma OrStep(h: nat, c: nat)
    requires Or(h, c / 2) == h + c / 2
    ensures Or(2 * h, c) == 2 * h + c
  {
    assert (2 * h) / 2 == h && (2 * h) % 2 == 0;
  }

  lemma Shifts(m: nat)
    ensures Shifted(m, 3) == 8 * m && Shifted(m, 6) == 64 * m
  {
    assert Shifted(m, 2) == 2 * Shifted(m, 1) == 4 * m;
    assert Shifted(m, 3) == 8 * m;
    assert Shifted(m, 4) == 16 * m;
    assert Shifted(m, 5) == 32 * m;
  }

  // The octets the driver writes for the length of a header of h bytes: beyond
  // the limit each byte of the length but the last is masked in place and lost.
  function CodeLength(h: nat): Bytes {
    if h < LIMIT then [(h / 256) % 256, h % 256]
    else
      [0xFF, 0xFE,
       Octet(h / 0x100_0000 * 0x100_0000), Octet(h / 0x1_0000 % 256 * 0x1_0000), Octet(h / 256 % 256 * 256), Octet(h)]
  }

  // They are the standard's exactly below the limit.
  lemma CodeLengthIsStandard(h: nat)
    requires 0 < h < WORDS
    ensures CodeLength(h) == HeaderLength(h) <==> h < LIMIT
  {
    if h < LIMIT {
      assert Be(h, 2) == Be(h / 256, 1) + [Octet(h)] == [Octet(h / 256), Octet(h)];
    } else {
      LongLength(h);
    }
  }

  lemma LongLength(h: nat)
    requires LIMIT <= h < WORDS
    ensures CodeLength(h) != HeaderLength(h)
  {
    hide Octet, CodeLength, HeaderLength;
    LongOctets(h);
    LostOctets(h);
    NotAllZero(h);
    var code, right := CodeLength(h), HeaderLength(h);
    assert code[2] == code[3] == code[4] == 0;
    assert right[2] == Octet(h / 256 / 256 / 256) && right[3] == Octet(h / 256 / 256) && right[4] == Octet(h / 256);
  }

  lemma LongOctets(h: nat)
    requires h >= LIMIT
    ensures HeaderLength(h) == [0xFF, 0xFE, Octet(h / 256 / 256 / 256), Octet(h / 256 / 256), Octet(h / 256), Octet(h)]
  {
    hide Octet;
    var a, b, c := h / 256, h / 256 / 256, h / 256 / 256 / 256;
    assert Be(c, 1) == [Octet(c)];
    assert Be(b, 2) == Be(c, 1) + [Octet(b)];
    assert Be(a, 3) == Be(b, 2) + [Octet(a)];
    assert Be(h, 4) == Be(a, 3) + [Octet(h)];
  }

  lemma LostOctets(h: nat)
    requires h >= LIMIT
    ensures CodeLength(h) == [0xFF, 0xFE, 0, 0, 0, Octet(h)]
  {
    hide Octet;
    Shifted8(0x1_0000 * (h / 0x100_0000));
    Shifted8(256 * (h / 0x1_0000 % 256));
    Shifted8(h / 256 % 256);
  }

  lemma Shifted8(y: nat)
    ensures Octet(y * 256) == 0
  {
  }

  lemma NotAllZero(h: nat)
    requires 256 <= h < WORDS
    ensures Octet(h / 256) != 0 || Octet(h / 256 / 256) != 0 || Octet(h / 256 / 256 / 256) != 0
  {
    var a, b, c := h / 256, h / 256 / 256, h / 256 / 256 / 256;
    assert c < 256;
    OctetSmall(c);
    if c == 0 {
      OctetSmall(b);
      if b == 0 {
        OctetSmall(a);
      }
    }
  }

  function Max(x: nat, y: nat): nat {
    if x < y then y else x
  }

  // Bytes of the scratch buffer the driver touches for a header of h bytes: the
  // counter block, the copy, and the zero bytes to the end of a block and one more.
  function ScratchUse(h: nat): nat {
    if h == 0 then 16
    else
      var e := if h < LIMIT then 2 else 6;
      Max(16, Max(h + 2 * e, if (h + e) % 16 != 0 then ((h + e) / 16 + 1) * 16 + 1 else 0))
  }

  // The documented size, 21 bytes more than the header, is enough exactly when
  // the header is below the limit or does not end just past a block boundary.
  lemma ScratchEnough(h: nat)
    ensures ScratchUse(h) <= h + 21 <==> h < LIMIT || (h + 6) % 16 != 1
  {
  }

  lemma Sizes(h: nat)
    requires h > 0
    ensures var e := if h < LIMIT then 2 else 6;
            |CodeLength(h)| == e && h + 2 * e <= ScratchUse(h) && 16 <= ScratchUse(h)
            && ((h + e) % 16 != 0 ==> ((h + e) / 16 + 1) * 16 + 1 <= ScratchUse(h))
  {
  }

  lemma RoundedUp(n: nat)
    ensures n + Rest(n) == if n % 16 == 0 then n else (n / 16 + 1) * 16
  {
  }

  lemma FlagBits(h: bool, t: nat, q: nat)
    requires 4 <= t <= 16 && t % 2 == 0 && 2 <= q <= 8
    ensures var a := if h then 0x40 else 0;
            var b := Or(a, (t - 2) / 2 % 8 * 8 % 256);
            b < 256 && Or(b, (q - 1) % 8) == Octet(Flags(h, t, q))
  {
    hide Or, Shifted, Flags, Octet;
    FlagsDecode(h, t, q);
    OctetSmall(Flags(h, t, q));
    var m, k := if h then 1 else 0, t / 2 - 1;
    TagDigits(t, q);
    Shifts(1);
    Shifts(m);
    OrShifted(m, 6, 8 * k);
    Shifts(8 * m + k);
    OrShifted(8 * m + k, 3, q - 1);
  }

  lemma TagDigits(t: nat, q: nat)
    requires 4 <= t <= 16 && t % 2 == 0 && 2 <= q <= 8
    ensures (t - 2) / 2 % 8 * 8 % 256 == 8 * (t / 2 - 1) && (q - 1) % 8 == q - 1
  {
    assert (t - 2) / 2 == t / 2 - 1;
  }

  lemma LowFlags(h: bool, t: nat, q: nat)
    requires 4 <= t <= 16 && t % 2 == 0 && 2 <= q <= 8
    ensures Octet(Flags(h, t, q)) % 8 == Octet(q - 1)
  {
    FlagsDecode(h, t, q);
    OctetSmall(Flags(h, t, q));
    OctetSmall(q - 1);
    LowDigit((if h then 8 else 0) + (t / 2 - 1), q - 1);
  }

  lemma LowDigit(y: nat, c: nat)
    requires c < 8
    ensures (8 * y + c) % 8 == c
  {
  }

  lemma FourWords(f: Bytes, s: Bytes, i: nat)
    requires i + 16 <= |s|
    ensures f + s[..i] + s[i..i + 4] + s[i + 4..i + 8] + s[i + 8..i + 12] + s[i + 12..i + 16] == f + s[..i + 16]
  {
    var a, b, c, d := s[i..i + 4], s[i + 4..i + 8], s[i + 8..i + 12], s[i + 12..i + 16];
    assert s[..i + 16] == s[..i] + a + b + c + d;
  }

  lemma Minimum(h: nat)
    ensures ScratchUse(h) >= 16
  {
  }

  // What the driver puts before the payload for a message.
  function CodeFormat(m: Message): (b: Bytes)
    requires Good(m)
    ensures |b| % 16 == 0 && |b| >= 16
  {
    var s := CodeLength(|m.header|) + m.header;
    assert (|s| + Rest(|s|)) % 16 == 0;
    BlockB0(m.nonce, m.header != [], m.t, m.size) + if m.header == [] then [] else s + Zeros(Rest(|s|))
  }

  // It is the standard's exactly if the header is below the limit.
  lemma CodeFormatIsStandard(m: Message)
    requires Good(m)
    ensures CodeFormat(m) == Format(m) <==> |m.header| < LIMIT
  {
    hide BlockB0, CodeLength, HeaderLength, Rest;
    var h := |m.header|;
    if h == 0 {
      NoHeader();
    } else {
      CodeLengthIsStandard(h);
      LengthSizes(h);
      var c, f := CodeFormat(m)[16..], Format(m)[16..];
      assert c == CodeLength(h) + m.header + Zeros(Rest(|CodeLength(h) + m.header|));
      assert f == HeaderLength(h) + m.header + Zeros(Rest(|HeaderLength(h) + m.header|));
      var l := |CodeLength(h)|;
      assert c[..l] == CodeLength(h) && f[..l] == HeaderLength(h);
    }
  }

  lemma FormatStarts(m: Message)
    requires Good(m)
    ensures CodeFormat(m)[..16] == BlockB0(m.nonce, m.header != [], m.t, m.size)
    ensures Format(m)[16..] == HeaderBlocks(m.header)
    ensures m.header != [] ==> CodeLength(|m.header|) + m.header <= CodeFormat(m)[16..]
  {
    hide BlockB0, HeaderBlocks, CodeLength;
  }

  lemma FedFirst(before: Bytes, f: Bytes, n: nat)
    requires 16 <= n <= |f|
    ensures (before + f[..n])[|before|..] == f[..n] && f[..n][..16] == f[..16] && f[..|f|] == f
  {
  }

  lemma NoHeader()
    ensures HeaderBlocks([]) == []
  {
  }

  lemma LengthSizes(h: nat)
    requires h > 0
    ensures |CodeLength(h)| == |HeaderLength(h)| == if h < LIMIT then 2 else 6
  {
  }

  // Counter blocks 0 and 1 differ in their last bit.
  lemma FirstCounters(nonce: Bytes)
    requires 7 <= |nonce| <= 13
    ensures Counter(nonce, 0) == Counter(nonce, 1)[..15] + [0] && Counter(nonce, 1)[15] == 1
  {
    BeSmall(0, 15 - |nonce|);
    BeSmall(1, 15 - |nonce|);
  }

  class Handle {
    // Init structure: the memory from the header on, the header size, the memory
    // at the nonce, its size, the tag size and the scratch buffer.
    var header: Bytes
    var headerSize: nat
    var iv: Bytes
    var ivSize: nat
    var tagSize: nat
    var scratch: array<Byte>

    var phase: Phase

    // The counter block in the initialisation vector registers, and everything
    // written to the input register.
    var counter: Bytes
    var fed: Bytes

    var state: State
    var locked: bool
    // Waits for the processor that still end in time.
    var fuel: nat

    constructor (h: Bytes, hs: nat, v: Bytes, vs: nat, t: nat, s: array<Byte>, n: nat)
      ensures header == h && headerSize == hs && iv == v && ivSize == vs && tagSize == t && scratch == s
      ensures fed == [] && counter == [] && phase == Phase.Ready && state == Free && !locked && fuel == n
    {
      header, headerSize, iv, ivSize, tagSize, scratch := h, hs, v, vs, t, s;
      counter, fed, phase, state, locked, fuel := [], [], Phase.Ready, Free, false, n;
    }

    // The copy of the header also reads as many bytes past it as its length takes.
    predicate Readable()
      reads this
    {
      0 < headerSize ==> headerSize + (if headerSize < LIMIT then 2 else 6) <= |header|
    }

    // The length, the header and zero bytes to the end of a block in the scratch
    // buffer; the result is how many bytes that is.
    method FormatHeader() returns (size: nat)
      requires headerSize > 0 && Readable() && ScratchUse(headerSize) <= scratch.Length
      modifies scratch
      ensures var s := CodeLength(headerSize) + header[..headerSize];
              size == |s| + Rest(|s|) && size <= scratch.Length && scratch[..size] == s + Zeros(Rest(|s|))
    {
      hide CodeLength, Rest, ScratchUse;
      Sizes(headerSize);
      var e := WriteLength();
      size := headerSize + e;
      CopyHeader(e, size);
      ghost var n, s := size, CodeLength(headerSize) + header[..headerSize];
      assert scratch[..n] == scratch[..e] + scratch[e..n] == s;
      RoundedUp(n);
      if size % 16 != 0 {
        PadScratch(size, (size / 16 + 1) * 16);
        size := (size / 16 + 1) * 16;
        assert scratch[..size] == scratch[..n] + scratch[n..size] == s + Zeros(Rest(n));
      } else {
        assert scratch[..size] == s + Zeros(0);
      }
    }

    method CopyHeader(e: nat, size: nat)
      requires e <= size && e + size <= scratch.Length && size <= |header|
      modifies scratch
      ensures scratch[..e] == old(scratch[..e]) && scratch[e..size] == header[..size - e]
    {
      var bufferidx := e;
      var loopcounter := 0;
      while loopcounter < size
        invariant 0 <= loopcounter <= size && bufferidx == e + loopcounter
        invariant scratch[..e] == old(scratch[..e])
        invariant forall i :: 0 <= i < loopcounter ==> scratch[e + i] == header[i]
      {
        scratch[bufferidx] := header[loopcounter];
        bufferidx := bufferidx + 1;
        loopcounter := loopcounter + 1;
      }
    }

    method PadScratch(n: nat, end: nat)
      requires n <= end < scratch.Length
      modifies scratch
      ensures scratch[..n] == old(scratch[..n]) && scratch[n..end] == Zeros(end - n)
    {
      var loopcounter := n;
      while loopcounter <= end
        invariant n <= loopcounter <= end + 1
        invariant scratch[..n] == old(scratch[..n])
        invariant forall i :: n <= i < loopcounter ==> scratch[i] == 0
      {
        scratch[loopcounter] := 0;
        loopcounter := loopcounter + 1;
      }
    }

    // The first bytes of the scratch buffer.
    method WriteLength() returns (n: nat)
      requires headerSize > 0 && ScratchUse(headerSize) <= scratch.Length
      modifies scratch
      ensures n == (if headerSize < LIMIT then 2 else 6) && scratch[..n] == CodeLength(headerSize)
                && |CodeLength(headerSize)| == n
      ensures scratch.Length >= headerSize + 2 * n
    {
      Sizes(headerSize);
      var h := headerSize;
      if h < LIMIT {
        scratch[0] := (h / 256) % 256;
        scratch[1] := h % 256;
        n := 2;
      } else {
        scratch[0] := 0xFF;
        scratch[1] := 0xFE;
        scratch[2] := Octet(h / 0x100_0000 * 0x100_0000);
        scratch[3] := Octet(h / 0x1_0000 % 256 * 0x1_0000);
        scratch[4] := Octet(h / 256 % 256 * 256);
        scratch[5] := Octet(h);
        n := 6;
      }
      assert scratch[..n] == CodeLength(headerSize);
    }

    predicate Nonce()
      reads this
    {
      7 <= ivSize <= 13 && ivSize <= |iv| && 4 <= tagSize <= 16 && tagSize % 2 == 0
    }

    // The block B0 for a payload of size bytes.
    method FormatB0(some: bool, size: nat) returns (blockb0: array<Byte>)
      requires Nonce() && size < 0x1_0000
      ensures fresh(blockb0) && blockb0[..] == BlockB0(iv[..ivSize], some, tagSize, size)
      ensures ReadsB0(blockb0[..], iv[..ivSize], some, tagSize, size)
    {
      hide Or, Flags, Octet, Be, ReadsB0;
      blockb0 := new Byte[16](_ => 0);
      SetFlags(blockb0, some);
      ghost var f := blockb0[0];
      CopyNonce(blockb0);
      SetSize(blockb0, size);
      BeSmall(size, 15 - ivSize);
      assert blockb0[..] == [f] + iv[..ivSize] + (Zeros(13 - ivSize) + [Octet(size / 256), Octet(size)]);
      B0Reads(iv[..ivSize], some, tagSize, size);
    }

    // The nonce and zeros after the flags.
    method CopyNonce(blockb0: array<Byte>)
      requires 7 <= ivSize <= 13 && ivSize <= |iv| && blockb0.Length == 16 && blockb0[1..] == Zeros(15)
      modifies blockb0
      ensures blockb0[..] == [old(blockb0[0])] + iv[..ivSize] + Zeros(15 - ivSize)
    {
      ghost var f := blockb0[0];
      assert blockb0[..] == [f] + iv[..0] + Zeros(15);
      var loopcounter := 0;
      while loopcounter < ivSize
        invariant 0 <= loopcounter <= ivSize
        invariant blockb0[..] == [f] + iv[..loopcounter] + Zeros(15 - loopcounter)
      {
        blockb0[loopcounter + 1] := iv[loopcounter];
        loopcounter := loopcounter + 1;
      }
      while loopcounter < 13
        invariant ivSize <= loopcounter <= 13
        invariant blockb0[..] == [f] + iv[..ivSize] + Zeros(15 - ivSize)
      {
        blockb0[loopcounter + 1] := 0;
        loopcounter := loopcounter + 1;
      }
    }

    method SetFlags(block: array<Byte>, some: bool)
      requires Nonce() && block.Length == 16 && block[0] == 0
      modifies block
      ensures block[..] == [Octet(Flags(some, tagSize, 15 - ivSize))] + old(block[1..])
    {
      hide Or, Flags, Octet;
      if some {
        block[0] := 0x40;
      }
      FlagBits(some, tagSize, 15 - ivSize);
      var flags := Or(block[0], (tagSize - 2) / 2 % 8 * 8 % 256);
      block[0] := Or(flags, (15 - ivSize - 1) % 8);
    }

    method SetSize(block: array<Byte>, size: nat)
      requires block.Length == 16
      modifies block
      ensures block[..] == old(block[..14]) + [Octet(size / 256), Octet(size)]
    {
      block[14] := size / 256 % 256;
      block[15] := size % 256;
    }

    // The first counter block, from B0.
    method FormatCounter(blockb0: array<Byte>, ghost some: bool, ghost size: nat) returns (ctr: array<Byte>)
      requires Nonce() && size < 0x1_0000 && blockb0[..] == BlockB0(iv[..ivSize], some, tagSize, size)
      ensures fresh(ctr) && ctr[..] == Counter(iv[..ivSize], 1)
    {
      hide Flags, Be, Octet, Or;
      ctr := new Byte[16](_ => 0);
      ghost var b := blockb0[..];
      assert b[0] == Octet(Flags(some, tagSize, 15 - ivSize)) && b[1..1 + ivSize] == iv[..ivSize];
      LowFlags(some, tagSize, 15 - ivSize);
      ctr[0] := blockb0[0] % 8;
      ghost var f := ctr[0];
      CopyRest(blockb0, ctr);
      SetOne(ctr);
      BeSmall(1, 15 - ivSize);
      assert ctr[..] == [f] + iv[..ivSize] + (Zeros(13 - ivSize) + [0, 1]);
    }

    // Byte 1 to the end of the nonce.
    method CopyRest(blockb0: array<Byte>, ctr: array<Byte>)
      requires ivSize <= 13 && blockb0.Length == ctr.Length == 16 && ctr[1..] == Zeros(15) && blockb0 != ctr
      modifies ctr
      ensures ctr[..] == [old(ctr[0])] + blockb0[1..1 + ivSize] + Zeros(15 - ivSize)
    {
      ghost var f, b := ctr[0], blockb0[..];
      assert ctr[..] == [f] + b[1..1] + Zeros(15);
      var loopcounter := 1;
      while loopcounter < ivSize + 1
        invariant 1 <= loopcounter <= ivSize + 1
        invariant ctr[..] == [f] + b[1..loopcounter] + Zeros(16 - loopcounter)
      {
        ctr[loopcounter] := blockb0[loopcounter];
        loopcounter := loopcounter + 1;
      }
    }

    method SetOne(ctr: array<Byte>)
      requires ctr.Length == 16 && ctr[15] == 0
      modifies ctr
      ensures ctr[..] == old(ctr[..15]) + [1]
      ensures Octet(1 / 256) == 0 && Octet(1) == 1
    {
      ctr[15] := Or(ctr[15], 1);
    }

    // What the caller hands over.
    predicate Parameters(size: nat)
      reads this
    {
      Nonce() && Readable() && headerSize < WORDS && size < 0x1_0000 && ScratchUse(headerSize) <= scratch.Length
    }

    function Contents(size: nat): Message
      requires Parameters(size)
      reads this
    {
      Message(iv[..ivSize], tagSize, size, if headerSize > 0 then header[..headerSize] else [])
    }

    // The waits before the payload: after B0, before each header block, and after
    // the last one.
    function Waits(size: nat): nat
      requires Parameters(size)
      reads this
    {
      |CodeFormat(Contents(size))| / 16 + if headerSize == 0 then 0 else 1
    }

    // HAL_CRYPEx_AESCCM_Encrypt up to the payload: the processor is fed CodeFormat,
    // or as many blocks of it as waits ended in time, and counts from the first
    // counter block of the standard; counter block 0 is kept in the scratch buffer.
    method Prepare(size: nat) returns (status: Status)
      requires Parameters(size)
      modifies `counter, `fed, `phase, `state, `locked, `fuel, scratch
      ensures old(locked) ==> status == BUSY && unchanged(this) && unchanged(scratch)
      ensures !old(locked) && old(phase) != Phase.Ready ==>
                status == OK && locked && state == Busy && Unfed() && phase == old(phase) && fuel == old(fuel)
      ensures !old(locked) && old(phase) == Phase.Ready ==>
                status == (if old(fuel) >= Waits(size) then OK else TIMEOUT)
                && counter == Counter(iv[..ivSize], 1)
      ensures !old(locked) && old(phase) == Phase.Ready && status == OK ==>
                locked && state == Busy && phase == Process && fed == old(fed) + CodeFormat(Contents(size))
                && scratch[..16] == Counter(iv[..ivSize], 0) && fuel == old(fuel) - Waits(size)
      ensures !old(locked) && old(phase) == Phase.Ready && status == TIMEOUT ==>
                !locked && state == TimedOut && phase == Phase.Ready
                && 16 * Max(1, old(fuel)) <= |CodeFormat(Contents(size))|
                && fed == old(fed) + CodeFormat(Contents(size))[..16 * Max(1, old(fuel))]
      ensures !old(locked) && old(phase) == Phase.Ready ==>
                |old(fed)| + 16 <= |fed| && ReadsCounter(counter, iv[..ivSize], 1)
                && ReadsB0(fed[|old(fed)|..][..16], iv[..ivSize], headerSize > 0, tagSize, size)
      ensures !old(locked) && old(phase) == Phase.Ready && status == OK ==>
                ReadsCounter(scratch[..16], iv[..ivSize], 0)
                && if headerSize < LIMIT then ReadsHeader(fed[|old(fed)|..][16..], header[..headerSize])
                   else [0xFF, 0xFE, 0, 0, 0, headerSize % 256] + header[..headerSize] <= fed[|old(fed)|..][16..]
    {
      hide BlockB0, Counter, CodeFormat, ScratchUse, ReadsB0, ReadsCounter, ReadsHeader;
      FormatReads(size);
      if locked {
        return BUSY;
      }
      locked := true;
      state := Busy;
      if phase == Phase.Ready {
        ghost var f := CodeFormat(Contents(size));
        status := StartPhase(size);
        FedFirst(old(fed), f, if status == OK then |f| else 16 * Max(1, old(fuel)));
        if status != OK {
          return;
        }
      }
      status := OK;
    }

    // What is fed and counted from, read back.
    lemma FormatReads(size: nat)
      requires Parameters(size)
      ensures ReadsCounter(Counter(iv[..ivSize], 0), iv[..ivSize], 0)
      ensures ReadsCounter(Counter(iv[..ivSize], 1), iv[..ivSize], 1)
      ensures ReadsB0(CodeFormat(Contents(size))[..16], iv[..ivSize], headerSize > 0, tagSize, size)
      ensures if headerSize < LIMIT then ReadsHeader(CodeFormat(Contents(size))[16..], header[..headerSize])
              else [0xFF, 0xFE, 0, 0, 0, headerSize % 256] + header[..headerSize] <= CodeFormat(Contents(size))[16..]
    {
      hide BlockB0, Counter, HeaderBlocks, ReadsB0, ReadsCounter, ReadsHeader, ScratchUse, CodeFormat, CodeLength;
      var v, m := iv[..ivSize], Contents(size);
      CounterFits(0, 15 - ivSize);
      CounterFits(1, 15 - ivSize);
      CounterReads(v, 0);
      CounterReads(v, 1);
      FormatStarts(m);
      B0Reads(v, m.header != [], tagSize, size);
      if headerSize < LIMIT {
        CodeFormatIsStandard(m);
        HeaderReads(m.header);
      } else {
        LostOctets(headerSize);
      }
    }

    twostate predicate Unfed()
      reads `fed, `counter, `scratch, scratch
    {
      fed == old(fed) && counter == old(counter) && scratch == old(scratch) && scratch[..] == old(scratch[..])
    }

    method StartPhase(size: nat) returns (status: Status)
      requires Parameters(size) && phase == Phase.Ready && locked && state == Busy
      modifies `counter, `fed, `phase, `state, `locked, `fuel, scratch
      ensures status == (if old(fuel) >= Waits(size) then OK else TIMEOUT) && counter == Counter(iv[..ivSize], 1)
      ensures status == OK ==>
                locked && state == Busy && phase == Process && fed == old(fed) + CodeFormat(Contents(size))
                && scratch[..16] == Counter(iv[..ivSize], 0) && fuel == old(fuel) - Waits(size)
      ensures status == TIMEOUT ==>
                !locked && state == TimedOut && phase == Phase.Ready
                && 16 * Max(1, old(fuel)) <= |CodeFormat(Contents(size))|
                && fed == old(fed) + CodeFormat(Contents(size))[..16 * Max(1, old(fuel))]
    {
      hide CodeFormat, Counter, ScratchUse;
      Minimum(headerSize);
      var headersize, blockb0, ctr := Build(size);
      counter := ctr[..];
      status := FeedBlocks(blockb0, headersize, CodeFormat(Contents(size)));
      if status == OK {
        SaveCounter(ctr);
        phase := Process;
      }
    }

    // The header in the scratch buffer, B0 and the first counter block.
    method Build(size: nat) returns (headersize: nat, blockb0: array<Byte>, ctr: array<Byte>)
      requires Parameters(size)
      modifies scratch
      ensures fresh(blockb0) && fresh(ctr) && blockb0.Length == 16 && ctr[..] == Counter(iv[..ivSize], 1)
      ensures headersize % 16 == 0 && headersize <= scratch.Length && (headersize == 0 <==> headerSize == 0)
      ensures CodeFormat(Contents(size)) == blockb0[..] + scratch[..headersize]
    {
      hide BlockB0, Counter, CodeLength, ScratchUse;
      headersize := 0;
      if headerSize != 0 {
        headersize := FormatHeader();
      }
      blockb0 := FormatB0(headersize != 0, size);
      ctr := FormatCounter(blockb0, headersize != 0, size);
    }

    // B0 and the blocks of the header phase.
    method FeedBlocks(blockb0: array<Byte>, headersize: nat, ghost whole: Bytes) returns (status: Status)
      requires headersize % 16 == 0 && headersize <= scratch.Length && blockb0.Length == 16
      requires whole == blockb0[..] + scratch[..headersize] && locked && state == Busy
      modifies `fed, `state, `locked, `fuel
      ensures var waits := |whole| / 16 + if headersize == 0 then 0 else 1;
              if old(fuel) >= waits then
                status == OK && fed == old(fed) + whole && fuel == old(fuel) - waits && locked && state == Busy
              else
                status == TIMEOUT && !locked && state == TimedOut
                && 16 * Max(1, old(fuel)) <= |whole| && fed == old(fed) + whole[..16 * Max(1, old(fuel))]
    {
      ghost var before, b, s := fed, blockb0[..], scratch[..headersize];
      fed := fed + blockb0[..];
      assert whole[..16] == b && before + b + [] == before + b;
      status := OK;
      var ok := Wait();
      if !ok {
        return TIMEOUT;
      }
      if headersize != 0 {
        ghost var left := fuel;
        ok := FeedHeader(headersize);
        if ok {
          assert before + b + s == before + whole;
        } else {
          assert before + b + s[..16 * left] == before + whole[..16 + 16 * left];
          status := TIMEOUT;
        }
      } else {
        assert whole == b;
      }
    }

    // A wait for the processor; one that takes too long ends the operation.
    method Wait() returns (ok: bool)
      modifies `fuel, `state, `locked
      ensures ok == (old(fuel) > 0)
      ensures if ok then fuel == old(fuel) - 1 && state == old(state) && locked == old(locked)
              else fuel == 0 && state == TimedOut && !locked
    {
      ok := fuel > 0;
      if ok {
        fuel := fuel - 1;
      } else {
        state := TimedOut;
        locked := false;
      }
    }

    // The blocks of the header phase.
    method FeedHeader(headersize: nat) returns (ok: bool)
      requires headersize % 16 == 0 && headersize <= scratch.Length && locked && state == Busy
      modifies `fed, `state, `locked, `fuel
      ensures ok == (old(fuel) > headersize / 16)
      ensures if ok then
                fed == old(fed) + scratch[..headersize] && fuel == old(fuel) - headersize / 16 - 1
                && locked && state == Busy
              else
                16 * old(fuel) <= headersize && fed == old(fed) + scratch[..16 * old(fuel)]
                && !locked && state == TimedOut
    {
      ghost var n, i, s, before := headersize / 16, 0, scratch[..], fed;
      assert headersize == 16 * n;
      var loopcounter := 0;
      while loopcounter < headersize
        invariant i <= n && loopcounter == 16 * i && fuel == old(fuel) - i && locked && state == Busy
        invariant fed == before + s[..loopcounter]
        decreases n - i
      {
        ok := Wait();
        if !ok {
          return;
        }
        FourWords(before, s, loopcounter);
        fed := fed + scratch[loopcounter..loopcounter + 4];
        fed := fed + scratch[loopcounter + 4..loopcounter + 8];
        fed := fed + scratch[loopcounter + 8..loopcounter + 12];
        fed := fed + scratch[loopcounter + 12..loopcounter + 16];
        loopcounter := loopcounter + 16;
        i := i + 1;
      }
      ok := Wait();
    }

    // Counter block 0, made from counter block 1 by clearing its last bit.
    method SaveCounter(ctr: array<Byte>)
      requires Nonce() && ctr != scratch && ctr[..] == Counter(iv[..ivSize], 1) && scratch.Length >= 16
      modifies scratch
      ensures scratch[..16] == Counter(iv[..ivSize], 0)
    {
      hide Be, Octet;
      var loopcounter := 0;
      while loopcounter < 16
        invariant 0 <= loopcounter <= 16 && scratch[..loopcounter] == ctr[..loopcounter]
      {
        scratch[loopcounter] := ctr[loopcounter];
        loopcounter := loopcounter + 1;
      }
      FirstCounters(iv[..ivSize]);
      scratch[15] := scratch[15] - scratch[15] % 2;
      assert scratch[..16] == ctr[..15] + [0];
    }

    // HAL_CRYPEx_AESCCM_Finish: the block fed is the one kept, and the first bytes
    // of what the processor puts out are the tag; after a time-out no tag is stored.
    method Finish(output: Bytes, authTag: array<Byte>) returns (status: Status)
      requires |output| == 16 && tagSize <= 16 && tagSize <= authTag.Length && scratch.Length >= 16
                 && authTag != scratch
      modifies `fed, `phase, `state, `locked, `fuel, authTag
      ensures status == if old(locked) then BUSY else if old(phase) == Process && old(fuel) == 0 then TIMEOUT else OK
      ensures status == BUSY ==> unchanged(this)
      ensures phase == if !old(locked) && old(phase) == Process then Final else old(phase)
      ensures fed == old(fed) + if !old(locked) && old(phase) == Process then scratch[..16] else []
      ensures locked == old(locked)
      ensures state == match status case OK => Free case TIMEOUT => TimedOut case BUSY => old(state)
      ensures fuel == old(fuel) - if status == OK && old(phase) == Process then 1 else 0
      ensures authTag[..] == if status != OK then old(authTag[..])
                             else (if old(phase) == Process then output else Zeros(16))[..tagSize]
                                  + old(authTag[tagSize..])
    {
      if locked {
        return BUSY;
      }
      locked := true;
      state := Busy;
      var temptag := Zeros(16);
      if phase == Process {
        phase := Final;
        fed := fed + scratch[..16];
        var ok := Wait();
        if !ok {
          return TIMEOUT;
        }
        temptag := output;
      }
      CopyTag(temptag, authTag);
      state := Free;
      locked := false;
      return OK;
    }

    method CopyTag(temptag: Bytes, authTag: array<Byte>)
      requires tagSize <= |temptag| && tagSize <= authTag.Length
      modifies authTag
      ensures authTag[..] == temptag[..tagSize] + old(authTag[tagSize..])
    {
      var loopcounter := 0;
      while loopcounter < tagSize
        invariant 0 <= loopcounter <= tagSize
        invariant forall i :: 0 <= i < loopcounter ==> authTag[i] == temptag[i]
        invariant forall i :: loopcounter <= i < authTag.Length ==> authTag[i] == old(authTag[i])
      {
        authTag[loopcounter] := temptag[loopcounter];
        loopcounter := loopcounter + 1;
      }
      assert authTag[..tagSize] == temptag[..tagSize] && authTag[tagSize..] == old(authTag[tagSize..]);
    }
  }
}
