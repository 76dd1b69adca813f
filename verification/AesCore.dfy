// The AES accelerator as the driver sees it: the data input and output
// registers, the data-swapping stage, the chaining mode and phase fields of
// the control register, and the GHASH accumulator.  The block cipher and the
// GHASH multiplication stay uninterpreted (class parameters of type Key).
module AesCore {

  type Bytes = seq<bv8>

  // Data type field of the control register: how a 32-bit word is swapped on
  // its way to the cipher.
  datatype DataType = Bits32 | Bits16 | Bits8 | Bits1

  datatype Chain = Ctr | Gcm

  datatype Phase = Init | Header | Payload | Final

  datatype Event = SetChain(chain: Chain) | SetPhase(phase: Phase) | WriteDin(word: Bytes)

  // stream(i, j) is byte j of the i-th keystream block; tag(g, j) is byte j of
  // the tag the core outputs once it has absorbed g.
  datatype Key = Key(stream: (nat, nat) -> bv8, tag: (Bytes, nat) -> bv8)

  // n bytes are a whole number of units.
  predicate Aligned(dt: DataType, n: nat) {
    match dt case Bits32 => n % 4 == 0 case Bits16 => n % 2 == 0 case _ => true
  }

  function Rev8(b: bv8): bv8 {
    ((b & 0x01) << 7) | ((b & 0x02) << 5) | ((b & 0x04) << 3) | ((b & 0x08) << 1)
    | ((b & 0x10) >> 1) | ((b & 0x20) >> 3) | ((b & 0x40) >> 5) | ((b & 0x80) >> 7)
  }

  function Xor8(a: bv8, b: bv8): bv8 {
    a ^ b
  }

  lemma Rev8Facts(a: bv8, b: bv8)
    ensures Rev8(Rev8(a)) == a
    ensures Rev8(Xor8(a, b)) == Xor8(Rev8(a), Rev8(b))
    ensures Rev8(0) == 0
  {
  }

  predicate BitAt(b: bv8, i: nat)
    requires i < 8
  {
    (b >> i) & 1 == 1
  }

  lemma RevBits(b: bv8, i: nat)
    requires i < 8
    ensures BitAt(Rev8(b), i) <==> BitAt(b, 7 - i)
  {
  }

  function Bit(dt: DataType, b: bv8): bv8 {
    if dt == Bits1 then Rev8(b) else b
  }

  lemma BitFacts(dt: DataType, a: bv8, s: bv8)
    ensures Bit(dt, Bit(dt, a)) == a
    ensures Bit(dt, Xor8(a, Bit(dt, s))) == Xor8(Bit(dt, a), s)
    ensures Bit(dt, 0) == 0
  {
    hide Rev8, Xor8;
    if dt == Bits1 {
      Rev8Facts(a, Rev8(s));
      Rev8Facts(s, 0);
    }
  }

  // Position within a word of the byte that ends up at position p.
  function Rot(dt: DataType, p: nat): (r: nat)
    requires p < 4
    ensures r < 4
  {
    match dt
    case Bits32 => 3 - p
    case Bits16 => if p == 0 then 1 else if p == 1 then 0 else if p == 2 then 3 else 2
    case _ => p
  }

  // Memory position whose byte ends up at position i of the cipher's input.
  function Peer(dt: DataType, i: nat): nat {
    4 * (i / 4) + Rot(dt, i % 4)
  }

  lemma WordPosition(q: nat, p: nat)
    requires p < 4
    ensures (4 * q + p) / 4 == q && (4 * q + p) % 4 == p
  {
  }

  lemma PeerInWord(dt: DataType, p: nat)
    requires p < 4
    ensures Peer(dt, p) == Rot(dt, p)
  {
  }

  lemma PeerInvolutive(dt: DataType, i: nat)
    ensures Peer(dt, Peer(dt, i)) == i
  {
    WordPosition(i / 4, Rot(dt, i % 4));
  }

  lemma PeerShift(dt: DataType, i: nat, n: nat)
    ensures Peer(dt, i + 4 * n) == Peer(dt, i) + 4 * n
  {
    WordPosition(i / 4 + n, i % 4);
  }

  lemma PeerBelow(dt: DataType, i: nat, n: nat)
    requires i < n && Aligned(dt, n)
    ensures Peer(dt, i) < n
  {
    AlignedBound(dt, i / 4, i % 4, n);
  }

  lemma PeerAbove(dt: DataType, i: nat, n: nat)
    requires n <= i && Aligned(dt, n)
    ensures n <= Peer(dt, i)
  {
    WordPosition(i / 4, Rot(dt, i % 4));
    if Peer(dt, i) < n {
      AlignedBound(dt, i / 4, Rot(dt, i % 4), n);
    }
  }

  lemma AlignedBound(dt: DataType, q: nat, p: nat, n: nat)
    requires p < 4 && 4 * q + p < n && Aligned(dt, n)
    ensures 4 * q + Rot(dt, p) < n
  {
    match dt
    case Bits32 => WordBound(q, p, Rot(dt, p), n / 4);
    case Bits16 => HalfBound(q, p, Rot(dt, p), n / 2);
    case _ =>
  }

  lemma WordBound(q: nat, p: nat, r: nat, h: nat)
    requires p < 4 && r < 4
    ensures 4 * q + p < 4 * h ==> 4 * q + r < 4 * h
  {
  }

  lemma HalfBound(q: nat, p: nat, r: nat, h: nat)
    requires p < 4 && ((r == p + 1 && (p == 0 || p == 2)) || r == p - 1)
    ensures 4 * q + p < 2 * h ==> 4 * q + r < 2 * h
  {
    var e := if p < 2 then 2 * q else 2 * q + 1;
    assert 2 * e <= 4 * q + p < 2 * e + 2 && 4 * q + r < 2 * e + 2;
    if 4 * q + p < 2 * h {
      assert e < h;
    }
  }

  lemma PeerInWords(dt: DataType, i: nat, n: nat)
    ensures i < 4 * n <==> Peer(dt, i) < 4 * n
  {
    WordBound(i / 4, i % 4, Rot(dt, i % 4), n);
    WordBound(i / 4, Rot(dt, i % 4), i % 4, n);
  }

  // The byte at position i of the cipher's input for memory bytes m; a byte
  // beyond the end of m counts as zero.
  function WireByte(dt: DataType, m: Bytes, i: nat): bv8 {
    if Peer(dt, i) < |m| then Bit(dt, m[Peer(dt, i)]) else 0
  }

  // The bytes the cipher receives, most significant first.
  function Wire(dt: DataType, m: Bytes): (w: Bytes)
    ensures |w| == |m|
  {
    seq(|m|, i requires 0 <= i < |m| => WireByte(dt, m, i))
  }

  // Bit r of the byte at position 3 - b of a word as the cipher takes it.
  lemma SwapAt(dt: DataType, m: Bytes, q: nat, b: nat, r: nat)
    requires 4 * q + 4 <= |m| && b < 4 && r < 8
    ensures BitAt(Wire(dt, m)[4 * q + 3 - b], r) <==>
            match dt case Bits1 => BitAt(m[4 * q + 3 - b], 7 - r) case Bits8 => BitAt(m[4 * q + 3 - b], r)
                     case Bits16 => BitAt(m[4 * q + if b < 2 then b + 2 else b - 2], r)
                     case Bits32 => BitAt(m[4 * q + b], r)
  {
    hide Rev8, BitAt;
    WordPosition(q, 3 - b);
    if dt == Bits1 {
      RevBits(m[4 * q + 3 - b], r);
    }
  }

  // Bit j of a word, and where it comes from, as bits of bytes.
  lemma BitPositions(j: nat)
    requires j < 32
    ensures (31 - j) / 8 == 3 - j / 8 && (31 - j) % 8 == 7 - j % 8
    ensures (8 * (3 - j / 8) + j % 8) / 8 == 3 - j / 8 && (8 * (3 - j / 8) + j % 8) % 8 == j % 8
    ensures (j + 16) % 32 / 8 == (if j / 8 < 2 then j / 8 + 2 else j / 8 - 2) && (j + 16) % 32 % 8 == j % 8
  {
  }

  // The swapping stage, bit by bit: the cipher takes a word from its most
  // significant bit, 31, on, and bit j of what it takes is the bit of the word
  // written, byte i / 8 in memory, that the data type says.
  lemma SwapBits(dt: DataType, m: Bytes, q: nat, j: nat)
    requires 4 * q + 4 <= |m| && j < 32
    ensures var i := match dt case Bits1 => 31 - j case Bits8 => 8 * (3 - j / 8) + j % 8
                              case Bits16 => (j + 16) % 32 case Bits32 => j;
            BitAt(Wire(dt, m)[4 * q + 3 - j / 8], j % 8) <==> BitAt(m[4 * q + i / 8], i % 8)
  {
    hide Rev8, BitAt, Wire;
    BitPositions(j);
    SwapAt(dt, m, q, j / 8, j % 8);
  }

  lemma WireInvolutive(dt: DataType, m: Bytes)
    requires Aligned(dt, |m|)
    ensures Wire(dt, Wire(dt, m)) == m
  {
    hide Rev8, Xor8, Bit, Peer, Aligned;
    var w := Wire(dt, m);
    forall i | 0 <= i < |m|
      ensures Wire(dt, w)[i] == m[i]
    {
      PeerBelow(dt, i, |m|);
      PeerInvolutive(dt, i);
      BitFacts(dt, m[i], 0);
      assert w[Peer(dt, i)] == Bit(dt, m[i]);
    }
  }

  lemma WireAppend(dt: DataType, n: nat, a: Bytes, b: Bytes)
    requires |a| == 4 * n
    ensures Wire(dt, a + b) == Wire(dt, a) + Wire(dt, b)
  {
    hide Rev8, Xor8, Bit, Peer;
    forall i | 0 <= i < |a| + |b|
      ensures Wire(dt, a + b)[i] == (Wire(dt, a) + Wire(dt, b))[i]
    {
      PeerInWords(dt, i, n);
      if |a| <= i {
        PeerShift(dt, i - |a|, n);
      }
    }
  }

  function Zeros(n: nat): (z: Bytes)
    ensures |z| == n
  {
    seq(n, _ => 0)
  }

  // The number of blocks n bytes take, the last one perhaps partial.
  function Blocks(n: nat): nat {
    (n + 15) / 16
  }

  // Zero bytes up to a whole number of blocks.
  function Pad(m: Bytes): (p: Bytes)
    ensures |p| == 16 * Blocks(|m|) && |m| <= |p| < |m| + 16
  {
    m + Zeros(16 * Blocks(|m|) - |m|)
  }

  lemma PadWhole(n: nat, m: Bytes)
    requires |m| == 16 * n
    ensures Pad(m) == m
  {
  }

  lemma PadAppend(n: nat, a: Bytes, b: Bytes)
    requires |a| == 16 * n
    ensures Pad(a + b) == a + Pad(b)
  {
    assert Blocks(|a| + |b|) == n + Blocks(|b|);
  }

  // For lengths that are whole data-type units, padding in memory is padding
  // of the message.
  lemma WirePad(dt: DataType, m: Bytes)
    requires Aligned(dt, |m|)
    ensures Wire(dt, Pad(m)) == Pad(Wire(dt, m))
  {
    hide Rev8, Xor8, Bit, Peer, Aligned;
    var p := Pad(m);
    BitFacts(dt, 0, 0);
    forall i | 0 <= i < |p|
      ensures Wire(dt, p)[i] == Pad(Wire(dt, m))[i]
    {
      if i < |m| {
        PeerBelow(dt, i, |m|);
      } else {
        PeerAbove(dt, i, |m|);
        assert Wire(dt, p)[i] == 0;
      }
    }
  }

  // Memory-order image of the keystream: counter c, byte i of the data.
  function Mask(k: Key, dt: DataType, c: nat, i: nat): bv8 {
    Bit(dt, k.stream(c + i / 16, Peer(dt, i % 16)))
  }

  // Counter-mode encryption seen in memory order.
  function Crypt(k: Key, dt: DataType, c: nat, m: Bytes): (r: Bytes)
    ensures |r| == |m|
  {
    seq(|m|, i requires 0 <= i < |m| => Xor8(m[i], Mask(k, dt, c, i)))
  }

  // Keystream as the cipher produces it.
  function KeyStream(k: Key, c: nat, n: nat): (s: Bytes)
    ensures |s| == n
  {
    seq(n, i requires 0 <= i < n => k.stream(c + i / 16, i % 16))
  }

  function Xor(a: Bytes, b: Bytes): (r: Bytes)
    requires |a| == |b|
    ensures |r| == |a|
  {
    seq(|a|, i requires 0 <= i < |a| => Xor8(a[i], b[i]))
  }

  lemma CryptByte(k: Key, dt: DataType, c: nat, m: Bytes, i: nat)
    requires Aligned(dt, |m|) && i < |m|
    ensures WireByte(dt, Crypt(k, dt, c, m), i) == Xor8(WireByte(dt, m, i), k.stream(c + i / 16, i % 16))
  {
    hide Rev8, Xor8, Bit, Peer, Aligned;
    var p := Peer(dt, i);
    PeerBelow(dt, i, |m|);
    PeerMod16(dt, i);
    PeerInvolutive(dt, i % 16);
    assert Mask(k, dt, c, p) == Bit(dt, k.stream(c + i / 16, i % 16));
    BitFacts(dt, m[p], k.stream(c + i / 16, i % 16));
  }

  // Encrypting in memory order is the counter mode of section 6.5 of
  // NIST SP 800-38D on the message: ciphertext = message xor keystream.
  lemma CryptIsGctr(k: Key, dt: DataType, c: nat, m: Bytes)
    requires Aligned(dt, |m|)
    ensures Wire(dt, Crypt(k, dt, c, m)) == Xor(Wire(dt, m), KeyStream(k, c, |m|))
  {
    hide WireByte, Mask, Aligned;
    forall i | 0 <= i < |m|
      ensures Wire(dt, Crypt(k, dt, c, m))[i] == Xor(Wire(dt, m), KeyStream(k, c, |m|))[i]
    {
      CryptByte(k, dt, c, m, i);
    }
  }

  lemma PeerMod16(dt: DataType, i: nat)
    ensures Peer(dt, i) / 16 == i / 16 && Peer(dt, i) % 16 == Peer(dt, i % 16)
  {
    var q, p := i / 16, i % 16;
    assert i == p + 4 * (4 * q);
    PeerShift(dt, p, 4 * q);
    assert Peer(dt, p) < 16;
    BlockPosition(q, Peer(dt, p));
  }

  lemma BlockPosition(q: nat, p: nat)
    requires p < 16
    ensures (16 * q + p) / 16 == q && (16 * q + p) % 16 == p
  {
  }

  lemma MaskShift(k: Key, dt: DataType, c: nat, n: nat, i: nat)
    ensures Mask(k, dt, c, 16 * n + i) == Mask(k, dt, c + n, i)
  {
    hide Bit, Peer;
    assert 16 * n + i == 16 * (n + i / 16) + i % 16;
    BlockPosition(n + i / 16, i % 16);
  }

  lemma CryptAppend(k: Key, dt: DataType, c: nat, n: nat, a: Bytes, b: Bytes)
    requires |a| == 16 * n
    ensures Crypt(k, dt, c, a + b) == Crypt(k, dt, c, a) + Crypt(k, dt, c + n, b)
  {
    hide Mask;
    var x, y, z := Crypt(k, dt, c, a + b), Crypt(k, dt, c, a), Crypt(k, dt, c + n, b);
    forall i | 0 <= i < |x|
      ensures x[i] == (y + z)[i]
    {
      if |a| <= i {
        MaskShift(k, dt, c, n, i - |a|);
      }
    }
  }

  lemma CryptPadded(k: Key, dt: DataType, c: nat, m: Bytes)
    ensures Crypt(k, dt, c, Pad(m))[..|m|] == Crypt(k, dt, c, m)
  {
    hide Mask;
  }

  predicate ZeroFrom(w: Bytes, n: nat) {
    forall i :: n <= i < |w| ==> w[i] == 0
  }

  // A block padded in memory is the zero-padded block of the first n message
  // bytes, whatever the data, exactly when n is a whole number of units.
  lemma PaddingShape(dt: DataType, n: nat)
    ensures (forall m: Bytes | |m| == n :: ZeroFrom(Wire(dt, Pad(m)), n)) <==> Aligned(dt, n)
  {
    if Aligned(dt, n) {
      forall m: Bytes | |m| == n
        ensures ZeroFrom(Wire(dt, Pad(m)), n)
      {
        WirePad(dt, m);
      }
    } else {
      var m: Bytes := seq(n, _ => 1);
      var i := if dt == Bits32 then n - n % 4 + 3 else n;
      MisalignedPeer(dt, n, i);
      BitOne(dt);
      hide Peer, Bit;
      assert Wire(dt, Pad(m))[i] != 0;
      assert |m| == n && !ZeroFrom(Wire(dt, Pad(m)), n);
    }
  }

  lemma BitOne(dt: DataType)
    ensures Bit(dt, 1) != 0
  {
  }

  lemma MisalignedPeer(dt: DataType, n: nat, i: nat)
    requires !Aligned(dt, n) && i == if dt == Bits32 then n - n % 4 + 3 else n
    ensures n <= i < 16 * Blocks(n) && Peer(dt, i) < n
  {
    var b := Blocks(n);
    assert n <= 16 * b;
    hide Blocks;
    if dt == Bits32 {
      assert n / 4 < 4 * b;
      WordPosition(n / 4, 3);
    } else {
      assert n / 2 < 8 * b;
      assert n == 4 * (n / 4) + n % 4 && (n % 4 == 1 || n % 4 == 3);
    }
  }

  /* ---------------------------- the core ---------------------------- */

  // en: enabled; ctr: index of the next keystream block; din: bytes of the
  // block being entered; dout: bytes still to be read; ccf: computation
  // complete flag; ghash: everything absorbed so far; log: writes so far;
  // fuel: how many more blocks the core completes before it stops answering.
  datatype Core = Core(dt: DataType, decrypt: bool, chain: Chain, phase: Phase, en: bool,
                       ctr: nat, din: Bytes, dout: Bytes, ccf: bool, ghash: Bytes,
                       log: seq<Event>, fuel: nat)

  // What the core does with a complete block of memory bytes m.
  function Complete(c: Core, k: Key, m: Bytes): Core
    requires |m| == 16
  {
    var x := Wire(c.dt, m);
    if c.fuel == 0 then c.(dout := [])
    else
      var d := c.(ccf := true, fuel := c.fuel - 1);
      if c.chain == Ctr then
        d.(ctr := c.ctr + 1, dout := Wire(c.dt, Xor(x, KeyStream(k, c.ctr, 16))))
      else match c.phase
        case Payload =>
          var y := Xor(x, KeyStream(k, c.ctr, 16));
          d.(ctr := c.ctr + 1, dout := Wire(c.dt, y), ghash := c.ghash + if c.decrypt then x else y)
        case Final =>
          var g := c.ghash + x;
          d.(ghash := g, dout := Wire(c.dt, Tag(k, g)))
        case _ =>
          d.(ghash := c.ghash + x, dout := [])
  }

  function Tag(k: Key, g: Bytes): (t: Bytes)
    ensures |t| == 16
  {
    seq(16, i requires 0 <= i < 16 => k.tag(g, i))
  }

  // A write of one word (least significant byte first) to the input register.
  function Din(c: Core, k: Key, w: Bytes): Core
    requires |w| == 4
  {
    var l := c.(log := c.log + [WriteDin(w)]);
    if !c.en then l
    else if |c.din| == 12 then Complete(l.(din := []), k, c.din + w)
    else l.(din := c.din + w)
  }

  // A read of the output register, and the core afterwards.
  function Dout(c: Core): (w: Bytes)
    ensures |w| == 4
  {
    if |c.dout| < 4 then [0, 0, 0, 0] else c.dout[..4]
  }

  function AfterRead(c: Core): Core {
    if |c.dout| < 4 then c else c.(dout := c.dout[4..])
  }

  // The log of entering the words of m.
  function Writes(m: Bytes): (l: seq<Event>)
    ensures |l| == |m| / 4
  {
    seq(|m| / 4, i requires 0 <= i < |m| / 4 => WriteDin(m[4 * i..4 * i + 4]))
  }

  lemma WritesAppend(n: nat, a: Bytes, b: Bytes)
    requires |a| == 4 * n
    ensures Writes(a + b) == Writes(a) + Writes(b)
  {
    WordPosition(n + |b| / 4, |b| % 4);
    forall i | 0 <= i < n + |b| / 4
      ensures Writes(a + b)[i] == (Writes(a) + Writes(b))[i]
    {
      if i < n {
        assert (a + b)[4 * i..4 * i + 4] == a[4 * i..4 * i + 4];
      } else {
        var j := i - n;
        assert (a + b)[4 * i..4 * i + 4] == b[4 * j..4 * j + 4];
      }
    }
  }

  // Entering a whole block: four word writes.
  function Enter(c: Core, k: Key, m: Bytes): Core
    requires |m| == 16
  {
    Din(Din(Din(Din(c, k, m[..4]), k, m[4..8]), k, m[8..12]), k, m[12..16])
  }

  lemma EnterCompletes(c: Core, k: Key, m: Bytes)
    requires |m| == 16 && c.en && c.din == []
    ensures Enter(c, k, m) == Complete(c.(log := c.log + Writes(m)), k, m)
  {
    assert m[..4] == [] + m[..4];
    assert m[..4] + m[4..8] + m[8..12] + m[12..16] == m;
    var l := c.log + [WriteDin(m[..4])] + [WriteDin(m[4..8])] + [WriteDin(m[8..12])] + [WriteDin(m[12..16])];
    assert l == c.log + Writes(m);
  }

  lemma DinLogs(c: Core, k: Key, w: Bytes)
    requires |w| == 4
    ensures Din(c, k, w).log == c.log + [WriteDin(w)]
  {
    hide Wire, Xor, KeyStream, Tag;
  }

  // Whatever the core makes of a block, its words are logged in order.
  lemma EnterLogs(c: Core, k: Key, m: Bytes)
    requires |m| == 16
    ensures Enter(c, k, m).log == c.log + Writes(m)
  {
    hide Din;
    var c1 := Din(c, k, m[..4]);
    var c2 := Din(c1, k, m[4..8]);
    var c3 := Din(c2, k, m[8..12]);
    DinLogs(c, k, m[..4]);
    DinLogs(c1, k, m[4..8]);
    DinLogs(c2, k, m[8..12]);
    DinLogs(c3, k, m[12..16]);
    var l := [WriteDin(m[..4])] + [WriteDin(m[4..8])] + [WriteDin(m[8..12])] + [WriteDin(m[12..16])];
    assert l == Writes(m);
  }

  // A counter-mode pass over one block, in memory order.
  lemma CompleteStreams(c: Core, k: Key, m: Bytes)
    requires |m| == 16
    ensures Wire(c.dt, Xor(Wire(c.dt, m), KeyStream(k, c.ctr, 16))) == Crypt(k, c.dt, c.ctr, m)
    ensures Xor(Wire(c.dt, m), KeyStream(k, c.ctr, 16)) == Wire(c.dt, Crypt(k, c.dt, c.ctr, m))
  {
    CryptIsGctr(k, c.dt, c.ctr, m);
    WireInvolutive(c.dt, Crypt(k, c.dt, c.ctr, m));
  }
}
