// The formatting of SP 800-38C that CCM authenticates and encrypts under: the
// block B0, the associated data and the counter blocks, as Appendix A of the
// standard defines them.
module CcmFormat {

  type Byte = x: int | 0 <= x < 256

  type Bytes = seq<Byte>

  // The low octet of x.
  function Octet(x: nat): Byte {
    x % 256
  }

  // v in n octets, most significant first.
  function Be(v: nat, n: nat): (b: Bytes)
    ensures |b| == n
  {
    if n == 0 then [] else Be(v / 256, n - 1) + [Octet(v)]
  }

  function Zeros(n: nat): (z: Bytes)
    ensures |z| == n
  {
    seq(n, _ => 0)
  }

  // Section A.2.1: the flags of B0 for a tag of t octets and a length field of q.
  function Flags(header: bool, t: nat, q: nat): nat
    requires t >= 2 && q >= 1
  {
    (if header then 64 else 0) + 8 * ((t - 2) / 2) + (q - 1)
  }

  // Nonces of 7 to 13 octets, tags of an even number of octets from 4 to 16 and
  // messages whose length fits the driver's 16-bit size.
  predicate Admissible(nonce: Bytes, t: nat, size: nat) {
    7 <= |nonce| <= 13 && 4 <= t <= 16 && t % 2 == 0 && size < 0x1_0000
  }

  // Section A.2.1: B0 = flags || N || [Q]8q.
  function BlockB0(nonce: Bytes, header: bool, t: nat, size: nat): (b: Bytes)
    requires Admissible(nonce, t, size)
    ensures |b| == 16
  {
    [Octet(Flags(header, t, 15 - |nonce|))] + nonce + Be(size, 15 - |nonce|)
  }

  // Section A.2.2: the length of the associated data.
  function HeaderLength(a: nat): Bytes {
    if a == 0 then [] else if a < 0xFF00 then Be(a, 2) else [0xFF, 0xFE] + Be(a, 4)
  }

  function Rest(n: nat): (r: nat)
    ensures r < 16 && (n + r) % 16 == 0
  {
    if n % 16 == 0 then 0
    else
      assert n + (16 - n % 16) == 16 * (n / 16 + 1);
      16 - n % 16
  }

  // Section A.2.2: the associated data, with its length and the zero octets that
  // complete its last block.
  function HeaderBlocks(header: Bytes): Bytes {
    var s := HeaderLength(|header|) + header;
    s + Zeros(Rest(|s|))
  }

  // Section A.3: the counter blocks.
  function Counter(nonce: Bytes, i: nat): (b: Bytes)
    requires 7 <= |nonce| <= 13
    ensures |b| == 16
  {
    [Octet(14 - |nonce|)] + nonce + Be(i, 15 - |nonce|)
  }

  // What is formatted before the payload.
  datatype Message = Message(nonce: Bytes, t: nat, size: nat, header: Bytes)

  predicate Good(m: Message) {
    Admissible(m.nonce, m.t, m.size) && |m.header| < 0x1_0000_0000
  }

  function Format(m: Message): Bytes
    requires Good(m)
  {
    BlockB0(m.nonce, m.header != [], m.t, m.size) + HeaderBlocks(m.header)
  }

  /* ------------------------ properties of Be ------------------------ */

  lemma {:induction false} BeZero(n: nat)
    ensures Be(0, n) == Zeros(n)
    decreases n
  {
    if n > 0 {
      BeZero(n - 1);
    }
  }

  // Values of two octets in a longer field.
  lemma BeSmall(v: nat, n: nat)
    requires v < 0x1_0000 && n >= 2
    ensures Be(v, n) == Zeros(n - 2) + [Octet(v / 256), Octet(v)]
  {
    BeZero(n - 2);
    hide Octet;
    assert v / 256 / 256 == 0;
    assert Be(v, n) == Be(v / 256, n - 1) + [Octet(v)];
    assert Be(v / 256, n - 1) == Be(0, n - 2) + [Octet(v / 256)];
  }

  lemma Be2Injective(v: nat, w: nat, n: nat)
    requires v < 0x1_0000 && w < 0x1_0000 && n >= 2 && Be(v, n) == Be(w, n)
    ensures v == w
  {
    hide Octet;
    BeSmall(v, n);
    BeSmall(w, n);
    assert Be(v, n)[n - 2] == Octet(v / 256) && Be(v, n)[n - 1] == Octet(v);
    assert Be(w, n)[n - 2] == Octet(w / 256) && Be(w, n)[n - 1] == Octet(w);
    assert v / 256 < 256 && w / 256 < 256;
    TwoOctets(v);
    TwoOctets(w);
  }

  lemma TwoOctets(v: nat)
    requires v < 0x1_0000
    ensures v == 256 * Octet(v / 256) + Octet(v)
  {
  }

  /* ----------------- decodability and prefix freedom ----------------- */

  lemma FlagsDecode(h: bool, t: nat, q: nat)
    requires 4 <= t <= 16 && t % 2 == 0 && 2 <= q <= 8
    ensures Flags(h, t, q) == (if h then 64 else 0) + 8 * (t / 2 - 1) + (q - 1)
    ensures t == 2 * (t / 2) && 1 <= t / 2 - 1 < 8
    ensures 8 <= Flags(h, t, q) < 128
  {
  }

  lemma SameFlags(h: bool, t: nat, q: nat, g: bool, u: nat, p: nat)
    requires 4 <= t <= 16 && t % 2 == 0 && 2 <= q <= 8 && 4 <= u <= 16 && u % 2 == 0 && 2 <= p <= 8
    requires Octet(Flags(h, t, q)) == Octet(Flags(g, u, p))
    ensures h == g && t == u && q == p
  {
    hide Flags, Octet;
    FlagsDecode(h, t, q);
    FlagsDecode(g, u, p);
    OctetSmall(Flags(h, t, q));
    OctetSmall(Flags(g, u, p));
    Digits(if h then 1 else 0, t / 2 - 1, q - 1, if g then 1 else 0, u / 2 - 1, p - 1);
  }

  lemma OctetSmall(x: nat)
    requires x < 256
    ensures Octet(x) == x
  {
  }

  lemma Digits(a: nat, b: nat, c: nat, x: nat, y: nat, z: nat)
    requires b < 8 && c < 8 && y < 8 && z < 8 && 64 * a + 8 * b + c == 64 * x + 8 * y + z
    ensures a == x && b == y && c == z
  {
  }

  // B0 determines the nonce, the tag length, the size and whether there is a
  // header.
  lemma B0Injective(a: Bytes, h: bool, t: nat, s: nat, b: Bytes, g: bool, u: nat, r: nat)
    requires Admissible(a, t, s) && Admissible(b, u, r) && BlockB0(a, h, t, s) == BlockB0(b, g, u, r)
    ensures a == b && h == g && t == u && s == r
  {
    hide Octet, Flags, Be;
    var x := BlockB0(a, h, t, s);
    assert x[0] == Octet(Flags(h, t, 15 - |a|)) && x[0] == Octet(Flags(g, u, 15 - |b|));
    SameFlags(h, t, 15 - |a|, g, u, 15 - |b|);
    assert x[1..1 + |a|] == a && x[1..1 + |b|] == b;
    assert x[1 + |a|..] == Be(s, 15 - |a|) && x[1 + |b|..] == Be(r, 15 - |b|);
    Be2Injective(s, r, 15 - |a|);
  }

  // The header blocks, when there is a header, start with its length.
  lemma HeaderStarts(a: Bytes)
    requires a != []
    ensures var b, l := HeaderBlocks(a), HeaderLength(|a|);
            b == l + a + Zeros(Rest(|l| + |a|)) && (|a| < 0xFF00 ==> |l| == 2) && (|a| >= 0xFF00 ==> |l| == 6)
  {
    hide Be;
  }

  // The first octet tells a long header from a short one.
  lemma FirstOctet(a: nat)
    requires 0 < a
    ensures |HeaderLength(a)| > 0 && (HeaderLength(a)[0] == 0xFF <==> a >= 0xFF00)
  {
    if a < 0xFF00 {
      assert Be(a, 2) == Be(a / 256, 1) + [Octet(a)];
      assert Be(a / 256, 1) == Be(a / 256 / 256, 0) + [Octet(a / 256)];
      OctetSmall(a / 256);
    }
  }

  lemma {:induction false} BeInjective(v: nat, w: nat, n: nat)
    requires Fits(v, n) && Fits(w, n) && Be(v, n) == Be(w, n)
    ensures v == w
    decreases n
  {
    if n > 0 {
      var x, y := Be(v, n), Be(w, n);
      assert x[..n - 1] == Be(v / 256, n - 1) && x[n - 1] == Octet(v);
      assert y[..n - 1] == Be(w / 256, n - 1) && y[n - 1] == Octet(w);
      BeInjective(v / 256, w / 256, n - 1);
    }
  }

  lemma FourFit(v: nat)
    requires v < 0x1_0000_0000
    ensures Fits(v, 4)
  {
    var a := v / 256;
    assert a < 0x100_0000;
    var b := a / 256;
    assert b < 0x1_0000;
    var c := b / 256;
    assert c < 256 && c / 256 == 0;
    hide Fits;
    FitsNothing();
    FitsNext(c, 0);
    FitsNext(b, 1);
    FitsNext(a, 2);
    FitsNext(v, 3);
  }

  lemma FitsNothing()
    ensures Fits(0, 0)
  {
  }

  lemma FitsNext(i: nat, n: nat)
    requires Fits(i / 256, n)
    ensures Fits(i, n + 1)
  {
  }

  // No length is the beginning of another.
  lemma LengthsDiffer(a: nat, b: nat, x: Bytes, y: Bytes)
    requires 0 < a < 0x1_0000_0000 && 0 < b < 0x1_0000_0000
    requires HeaderLength(a) <= x && HeaderLength(b) <= y && x <= y
    ensures a == b
  {
    hide Be, Fits;
    FirstOctet(a);
    FirstOctet(b);
    assert x[0] == y[0];
    if a < 0xFF00 {
      assert x[..2] == y[..2];
      Be2Injective(a, b, 2);
    } else {
      assert x[..6] == y[..6];
      assert Be(a, 4) == HeaderLength(a)[2..] && Be(b, 4) == HeaderLength(b)[2..];
      FourFit(a);
      FourFit(b);
      BeInjective(a, b, 4);
    }
  }

  // No formatting is a proper prefix of another, and equal formattings are of the
  // same message.
  lemma PrefixFree(m: Message, n: Message)
    requires Good(m) && Good(n) && Format(m) <= Format(n)
    ensures m == n
  {
    hide BlockB0, HeaderBlocks, Be, Rest;
    var x, y := Format(m), Format(n);
    assert x[..16] == BlockB0(m.nonce, m.header != [], m.t, m.size);
    assert y[..16] == BlockB0(n.nonce, n.header != [], n.t, n.size);
    assert x[..16] == y[..16];
    B0Injective(m.nonce, m.header != [], m.t, m.size, n.nonce, n.header != [], n.t, n.size);
    if m.header != [] {
      HeadersSame(m.header, n.header, HeaderBlocks(n.header));
    }
  }

  lemma HeadersSame(a: Bytes, b: Bytes, y: Bytes)
    requires 0 < |a| < 0x1_0000_0000 && 0 < |b| < 0x1_0000_0000 && y == HeaderBlocks(b) && HeaderBlocks(a) <= y
    ensures a == b
  {
    hide HeaderBlocks, HeaderLength, Rest;
    var x, l := HeaderBlocks(a), HeaderLength(|a|);
    HeaderStarts(a);
    HeaderStarts(b);
    LengthsDiffer(|a|, |b|, x, y);
    assert x[|l|..|l| + |a|] == a && y[|l|..|l| + |a|] == b;
  }

  /* ----------------- what the octets say, read back ----------------- */

  // Big-endian value.
  function Number(b: Bytes): nat {
    if b == [] then 0 else 256 * Number(b[..|b| - 1]) + b[|b| - 1]
  }

  // Block B0, octet by octet: bit 7 of the flags is 0, bit 6 tells whether there is
  // a header, bits 5 to 3 encode the tag length and bits 2 to 0 the octets of the
  // length field; then come the nonce and the payload length.
  predicate ReadsB0(b: Bytes, nonce: Bytes, header: bool, t: nat, size: nat) {
    |nonce| <= 13 && t >= 2 && |b| == 16
    && b[0] / 128 % 2 == 0 && (b[0] / 64 % 2 == 1 <==> header)
    && b[0] / 8 % 8 == (t - 2) / 2 && b[0] % 8 == 14 - |nonce|
    && b[1..1 + |nonce|] == nonce && Number(b[1 + |nonce|..]) == size
  }

  // Counter block i: bits 7 to 3 of the flags are 0, and bits 2 to 0 are those of B0.
  predicate ReadsCounter(b: Bytes, nonce: Bytes, i: nat) {
    |nonce| <= 13 && |b| == 16 && b[0] == 14 - |nonce|
    && b[1..1 + |nonce|] == nonce && Number(b[1 + |nonce|..]) == i
  }

  // A header h: its length in two octets, or in four after FF FE, the header itself
  // and no more zero octets than complete a block.
  predicate ReadsHeader(b: Bytes, h: Bytes) {
    |b| % 16 == 0
    && if h == [] then b == []
       else
         var e := if |h| < 0xFF00 then 2 else 6;
         e + |h| <= |b| < e + |h| + 16
         && (e == 6 ==> b[0] == 0xFF && b[1] == 0xFE) && Number(b[if e == 2 then 0 else 2..e]) == |h|
         && b[e..e + |h|] == h && forall i :: e + |h| <= i < |b| ==> b[i] == 0
  }

  lemma {:induction false} BeNumber(v: nat, n: nat)
    requires Fits(v, n)
    ensures Number(Be(v, n)) == v
    decreases n
  {
    if n > 0 {
      BeNumber(v / 256, n - 1);
      assert Be(v, n)[..n - 1] == Be(v / 256, n - 1);
    }
  }

  lemma FlagFields(h: bool, k: nat, c: nat)
    requires k < 8 && c < 8
    ensures var f := (if h then 64 else 0) + 8 * k + c;
            f < 128 && f / 128 % 2 == 0 && (f / 64 % 2 == 1 <==> h) && f / 8 % 8 == k && f % 8 == c
  {
    var f := (if h then 64 else 0) + 8 * k + c;
    assert f / 8 == (if h then 8 else 0) + k;
  }

  lemma B0Reads(nonce: Bytes, header: bool, t: nat, size: nat)
    requires Admissible(nonce, t, size)
    ensures ReadsB0(BlockB0(nonce, header, t, size), nonce, header, t, size)
  {
    hide Octet, Be, Flags, Number;
    var q := 15 - |nonce|;
    FlagsDecode(header, t, q);
    FlagFields(header, t / 2 - 1, q - 1);
    OctetSmall(Flags(header, t, q));
    CounterFits(size, q);
    BeNumber(size, q);
    var b := BlockB0(nonce, header, t, size);
    assert b[0] == Flags(header, t, q) && b[1..1 + |nonce|] == nonce && b[1 + |nonce|..] == Be(size, q);
  }

  lemma CounterReads(nonce: Bytes, i: nat)
    requires 7 <= |nonce| <= 13 && Fits(i, 15 - |nonce|)
    ensures ReadsCounter(Counter(nonce, i), nonce, i)
  {
    hide Octet, Be, Number;
    OctetSmall(14 - |nonce|);
    BeNumber(i, 15 - |nonce|);
    var b := Counter(nonce, i);
    assert b[1..1 + |nonce|] == nonce && b[1 + |nonce|..] == Be(i, 15 - |nonce|);
  }

  lemma HeaderReads(h: Bytes)
    requires |h| < 0x1_0000_0000
    ensures ReadsHeader(HeaderBlocks(h), h)
  {
    hide Be, Number;
    if h != [] {
      HeaderStarts(h);
      var b, l := HeaderBlocks(h), HeaderLength(|h|);
      if |h| < 0xFF00 {
        CounterFits(|h|, 2);
        BeNumber(|h|, 2);
        assert b[0..2] == Be(|h|, 2);
      } else {
        FourFit(|h|);
        BeNumber(|h|, 4);
        assert b[2..6] == Be(|h|, 4);
      }
    }
  }

  /* --------------------------- the counters --------------------------- */

  // No counter block is the B0 of any message.
  lemma CounterIsNotB0(nonce: Bytes, i: nat, m: Message)
    requires 7 <= |nonce| <= 13 && Admissible(m.nonce, m.t, m.size)
    ensures Counter(nonce, i) != BlockB0(m.nonce, m.header != [], m.t, m.size)
  {
    hide Flags, Be, Octet;
    FlagsDecode(m.header != [], m.t, 15 - |m.nonce|);
    var f := Flags(m.header != [], m.t, 15 - |m.nonce|);
    OctetSmall(f);
    OctetSmall(14 - |nonce|);
    assert Counter(nonce, i)[0] == Octet(14 - |nonce|);
    assert BlockB0(m.nonce, m.header != [], m.t, m.size)[0] == Octet(f);
  }

  // A block as a big-endian number, plus one.
  function Increment(b: Bytes): (r: Bytes)
    ensures |r| == |b|
  {
    if b == [] then []
    else if b[|b| - 1] == 0xFF then Increment(b[..|b| - 1]) + [0]
    else b[..|b| - 1] + [b[|b| - 1] + 1]
  }

  lemma OctetNext(i: nat)
    ensures i % 256 == 255 ==> Octet(i) == 0xFF && Octet(i + 1) == 0 && (i + 1) / 256 == i / 256 + 1
    ensures i % 256 != 255 ==> Octet(i) != 0xFF && Octet(i + 1) == Octet(i) + 1 && (i + 1) / 256 == i / 256
  {
  }

  // Incrementing an n-octet field that does not overflow, after any other octets.
  lemma {:induction false} IncrementBe(p: Bytes, i: nat, n: nat)
    requires n >= 1 && Fits(i + 1, n)
    ensures Increment(p + Be(i, n)) == p + Be(i + 1, n)
    decreases n
  {
    hide Octet;
    OctetNext(i);
    var b := p + Be(i, n);
    assert b[..|b| - 1] == p + Be(i / 256, n - 1) && b[|b| - 1] == Octet(i);
    if i % 256 == 255 {
      if n > 1 {
        IncrementBe(p, i / 256, n - 1);
      }
    }
  }

  // i is an n-octet number.
  predicate Fits(i: nat, n: nat) {
    if n == 0 then i == 0 else Fits(i / 256, n - 1)
  }

  // The core counts from the first counter block; for as many blocks as a message
  // of 16-bit size takes it goes through the counter blocks of the standard, so
  // the nonce is never carried into.
  lemma {:induction false} CounterRuns(nonce: Bytes, i: nat)
    requires 7 <= |nonce| <= 13 && i <= 4096
    ensures Incremented(Counter(nonce, 1), i) == Counter(nonce, 1 + i)
    decreases i
  {
    hide Octet, Be, Increment;
    if i > 0 {
      CounterRuns(nonce, i - 1);
      CounterFits(i + 1, 15 - |nonce|);
      IncrementBe([Octet(14 - |nonce|)] + nonce, i, 15 - |nonce|);
      assert Incremented(Counter(nonce, 1), i) == Increment(Incremented(Counter(nonce, 1), i - 1));
    }
  }

  lemma CounterFits(i: nat, n: nat)
    requires i < 0x1_0000 && n >= 2
    ensures Fits(i, n)
  {
    assert i / 256 / 256 == 0;
    ZeroFits(n - 2);
  }

  lemma {:induction false} ZeroFits(n: nat)
    ensures Fits(0, n)
    decreases n
  {
    if n > 0 {
      ZeroFits(n - 1);
    }
  }

  function Incremented(b: Bytes, i: nat): (r: Bytes)
    ensures |r| == |b|
  {
    if i == 0 then b else Increment(Incremented(b, i - 1))
  }
}
