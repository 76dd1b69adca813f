// The CRC calculation unit as a shift register fed one bit at a time, and the
// bit streams that word, half-word and byte writes amount to.
module CrcCore {

  // Most significant bit first.
  type Bits = seq<bool>

  datatype Width = W7 | W8 | W16 | W32

  // Input inversion: none, or over units of 8, 16 or 32 bits.
  datatype Inversion = None | Byte | HalfWord | Word

  function Size(w: Width): nat {
    match w case W7 => 7 case W8 => 8 case W16 => 16 case W32 => 32
  }

  function Zeros(n: nat): (z: Bits)
    ensures |z| == n
  {
    seq(n, _ => false)
  }

  function Xor(a: Bits, b: Bits): (r: Bits)
    requires |a| == |b|
    ensures |r| == |a|
  {
    seq(|a|, i requires 0 <= i < |a| => a[i] != b[i])
  }

  // One bit into register reg under generating polynomial poly (without its
  // leading term).
  function Step(poly: Bits, reg: Bits, b: bool): (r: Bits)
    requires |poly| == |reg| > 0
    ensures |r| == |reg|
  {
    var shifted := reg[1..] + [false];
    if reg[0] != b then Xor(shifted, poly) else shifted
  }

  // A bit stream, one bit after another.
  function Feed(poly: Bits, reg: Bits, s: Bits): (r: Bits)
    requires |poly| == |reg| > 0
    ensures |r| == |reg|
    decreases |s|
  {
    if s == [] then reg else Feed(poly, Step(poly, reg, s[0]), s[1..])
  }

  lemma {:induction false} FeedSplits(poly: Bits, reg: Bits, s: Bits, t: Bits)
    requires |poly| == |reg| > 0
    ensures Feed(poly, reg, s + t) == Feed(poly, Feed(poly, reg, s), t)
    decreases |s|
  {
    if s == [] {
      assert s + t == t;
    } else {
      assert (s + t)[1..] == s[1..] + t;
      FeedSplits(poly, Step(poly, reg, s[0]), s[1..], t);
    }
  }

  // A register fed its own leading bits is shifted out.
  lemma {:induction false} ShiftsOut(poly: Bits, s: Bits, n: nat)
    requires |poly| == |s| + n > 0
    ensures Feed(poly, s + Zeros(n), s) == Zeros(|s| + n)
    decreases |s|
  {
    if s == [] {
      assert s + Zeros(n) == Zeros(n);
    } else {
      assert Step(poly, s + Zeros(n), s[0]) == s[1..] + Zeros(n + 1);
      ShiftsOut(poly, s[1..], n + 1);
    }
  }

  lemma Residue(poly: Bits, reg: Bits)
    requires |poly| == |reg| > 0
    ensures Feed(poly, reg, reg) == Zeros(|reg|)
  {
    ShiftsOut(poly, reg, 0);
    assert reg + Zeros(0) == reg;
  }

  /* --------------------------- words as bits --------------------------- */

  function Bits8(b: bv8): (s: Bits)
    ensures |s| == 8
  {
    [b & 0x80 != 0, b & 0x40 != 0, b & 0x20 != 0, b & 0x10 != 0,
     b & 0x08 != 0, b & 0x04 != 0, b & 0x02 != 0, b & 0x01 != 0]
  }

  function Bits16(h: bv16): (s: Bits)
    ensures |s| == 16
  {
    Bits8((h >> 8) as bv8) + Bits8((h & 0xFF) as bv8)
  }

  function Bits32(w: bv32): (s: Bits)
    ensures |s| == 32
  {
    Bits16((w >> 16) as bv16) + Bits16((w & 0xFFFF) as bv16)
  }

  // Bit i of a byte, half-word or word.
  predicate At8(b: bv8, i: nat)
    requires i < 8
  {
    (b >> i) & 1 == 1
  }

  predicate At16(h: bv16, i: nat)
    requires i < 16
  {
    (h >> i) & 1 == 1
  }

  predicate At32(w: bv32, i: nat)
    requires i < 32
  {
    (w >> i) & 1 == 1
  }

  // Bits are taken from the most significant on.
  lemma BitsAt8(b: bv8, i: nat)
    requires i < 8
    ensures Bits8(b)[i] <==> At8(b, 7 - i)
  {
  }

  lemma HighByte(h: bv16, i: nat)
    requires i < 8
    ensures At8((h >> 8) as bv8, i) <==> At16(h, i + 8)
    ensures At8((h & 0xFF) as bv8, i) <==> At16(h, i)
  {
  }

  lemma BitsAt16(h: bv16, i: nat)
    requires i < 16
    ensures Bits16(h)[i] <==> At16(h, 15 - i)
  {
    hide Bits8, At8, At16;
    HighByte(h, 7 - i % 8);
    BitsAt8((h >> 8) as bv8, i % 8);
    BitsAt8((h & 0xFF) as bv8, i % 8);
  }

  lemma HighHalf(w: bv32, i: nat)
    requires i < 16
    ensures ((w >> 16) as bv16 >> i) & 1 == 1 <==> (w >> (i + 16)) & 1 == 1
    ensures ((w & 0xFFFF) as bv16 >> i) & 1 == 1 <==> (w >> i) & 1 == 1
  {
  }

  lemma HalvesAt(w: bv32, i: nat)
    requires i < 16
    ensures At16((w >> 16) as bv16, i) <==> At32(w, i + 16)
    ensures At16((w & 0xFFFF) as bv16, i) <==> At32(w, i)
  {
    HighHalf(w, i);
  }

  lemma BitsAt32(w: bv32, i: nat)
    requires i < 32
    ensures Bits32(w)[i] <==> At32(w, 31 - i)
  {
    hide Bits16, At16, At32;
    HalvesAt(w, 15 - i % 16);
    BitsAt16((w >> 16) as bv16, i % 16);
    BitsAt16((w & 0xFFFF) as bv16, i % 16);
  }

  function Weigh(b: bool, v: bv8): bv8 {
    if b then v else 0
  }

  function Join8(s: Bits): bv8
    requires |s| == 8
  {
    Weigh(s[0], 0x80) | Weigh(s[1], 0x40) | Weigh(s[2], 0x20) | Weigh(s[3], 0x10)
    | Weigh(s[4], 0x08) | Weigh(s[5], 0x04) | Weigh(s[6], 0x02) | Weigh(s[7], 0x01)
  }

  function Pack16(a: bv8, b: bv8): bv16 {
    ((a as bv16) << 8) | (b as bv16)
  }

  function PackHalves(a: bv16, b: bv16): bv32 {
    ((a as bv32) << 16) | (b as bv32)
  }

  function Pack32(a: bv8, b: bv8, c: bv8, d: bv8): bv32 {
    ((a as bv32) << 24) | ((b as bv32) << 16) | ((c as bv32) << 8) | (d as bv32)
  }

  function Join32(s: Bits): bv32
    requires |s| == 32
  {
    Pack32(Join8(s[..8]), Join8(s[8..16]), Join8(s[16..24]), Join8(s[24..]))
  }

  lemma Unpack16(a: bv8, b: bv8)
    ensures (Pack16(a, b) >> 8) as bv8 == a && (Pack16(a, b) & 0xFF) as bv8 == b
  {
  }

  lemma UnpackHalves(a: bv16, b: bv16)
    ensures (PackHalves(a, b) >> 16) as bv16 == a && (PackHalves(a, b) & 0xFFFF) as bv16 == b
  {
  }

  lemma Packs(a: bv8, b: bv8, c: bv8, d: bv8)
    ensures Pack32(a, b, c, d) == PackHalves(Pack16(a, b), Pack16(c, d))
  {
  }

  lemma JoinBits(s: Bits)
    requires |s| == 8
    ensures Bits8(Join8(s)) == s
  {
  }

  lemma BitsOfPack16(a: bv8, b: bv8)
    ensures Bits16(Pack16(a, b)) == Bits8(a) + Bits8(b)
  {
    hide Bits8, Pack16;
    Unpack16(a, b);
  }

  lemma BitsOfHalves(a: bv16, b: bv16)
    ensures Bits32(PackHalves(a, b)) == Bits16(a) + Bits16(b)
  {
    hide Bits16, PackHalves;
    UnpackHalves(a, b);
  }

  lemma BitsOfPack32(a: bv8, b: bv8, c: bv8, d: bv8)
    ensures Bits32(Pack32(a, b, c, d)) == Bits8(a) + Bits8(b) + Bits8(c) + Bits8(d)
  {
    hide Bits8, Bits16, Bits32, Pack16, Pack32, PackHalves;
    Packs(a, b, c, d);
    BitsOfHalves(Pack16(a, b), Pack16(c, d));
    BitsOfPack16(a, b);
    BitsOfPack16(c, d);
  }

  /* ------------------------ inversion and writes ------------------------ */

  function Reversed(s: Bits): (r: Bits)
    ensures |r| == |s|
  {
    seq(|s|, i requires 0 <= i < |s| => s[|s| - 1 - i])
  }

  // What the unit makes of a write narrower than the unit of inversion, bit by bit;
  // nothing is said about it, so that what is proved holds whatever it is.
  datatype Narrow = Narrow(byte: (Inversion, bv8, nat) -> bool, half: (Inversion, bv16, nat) -> bool)

  // The bits a write of 8, 16 or 32 bits feeds, after input inversion.
  function Enter8(u: Narrow, v: Inversion, b: bv8): (r: Bits)
    ensures |r| == 8
  {
    match v
    case None => Bits8(b)
    case Byte => Reversed(Bits8(b))
    case _ => seq(8, i requires 0 <= i < 8 => u.byte(v, b, i))
  }

  function Enter16(u: Narrow, v: Inversion, h: bv16): (r: Bits)
    ensures |r| == 16
  {
    var s := Bits16(h);
    match v
    case None => s
    case Byte => Reversed(s[..8]) + Reversed(s[8..])
    case HalfWord => Reversed(s)
    case Word => seq(16, i requires 0 <= i < 16 => u.half(v, h, i))
  }

  function Enter32(v: Inversion, w: bv32): (r: Bits)
    ensures |r| == 32
  {
    var s := Bits32(w);
    match v
    case None => s
    case Byte => Reversed(s[..8]) + Reversed(s[8..16]) + Reversed(s[16..24]) + Reversed(s[24..])
    case HalfWord => Reversed(s[..16]) + Reversed(s[16..])
    case Word => Reversed(s)
  }

  // Which bit of the word written is fed at position i.
  lemma EnterAt32(v: Inversion, w: bv32, i: nat)
    requires i < 32
    ensures Enter32(v, w)[i]
            <==> At32(w, match v case None => 31 - i case Byte => 8 * (3 - i / 8) + i % 8
                         case HalfWord => 16 * (1 - i / 16) + i % 16 case Word => i)
  {
    hide Bits32, At32;
    var s := Bits32(w);
    match v
    case None => BitsAt32(w, i);
    case Byte =>
      BitsAt32(w, 31 - (8 * (3 - i / 8) + i % 8));
      Mirrored(v, s, i);
    case HalfWord =>
      BitsAt32(w, 31 - (16 * (1 - i / 16) + i % 16));
      Mirrored(v, s, i);
    case Word => BitsAt32(w, 31 - i);
  }

  lemma Mirrored(v: Inversion, s: Bits, i: nat)
    requires |s| == 32 && i < 32
    ensures v == Byte ==>
              (Reversed(s[..8]) + Reversed(s[8..16]) + Reversed(s[16..24]) + Reversed(s[24..]))[i]
              == s[31 - (8 * (3 - i / 8) + i % 8)]
    ensures v == HalfWord ==> (Reversed(s[..16]) + Reversed(s[16..]))[i] == s[31 - (16 * (1 - i / 16) + i % 16)]
  {
    if v == Byte {
      var t := s[8 * (i / 8)..8 * (i / 8) + 8];
      assert Reversed(t)[i % 8] == t[7 - i % 8];
    }
  }

  lemma EnterAt16(u: Narrow, v: Inversion, h: bv16, i: nat)
    requires i < 16 && v != Word
    ensures Enter16(u, v, h)[i]
            <==> At16(h, if v == None then 15 - i else if v == Byte then 8 * (1 - i / 8) + i % 8 else i)
  {
    hide Bits16, At16;
    var j := if v == None then 15 - i else if v == Byte then 8 * (1 - i / 8) + i % 8 else i;
    BitsAt16(h, 15 - j);
  }

  lemma EnterAt8(u: Narrow, v: Inversion, b: bv8, i: nat)
    requires i < 8 && (v == None || v == Byte)
    ensures Enter8(u, v, b)[i] <==> At8(b, if v == Byte then i else 7 - i)
  {
    hide Bits8, At8;
    BitsAt8(b, if v == Byte then 7 - i else i);
  }

  // Bytes, half-words and words one at a time.
  function Serial8(u: Narrow, v: Inversion, m: seq<bv8>): Bits {
    if m == [] then [] else Enter8(u, v, m[0]) + Serial8(u, v, m[1..])
  }

  function Serial16(u: Narrow, v: Inversion, m: seq<bv16>): Bits {
    if m == [] then [] else Enter16(u, v, m[0]) + Serial16(u, v, m[1..])
  }

  function Serial32(v: Inversion, m: seq<bv32>): Bits {
    if m == [] then [] else Enter32(v, m[0]) + Serial32(v, m[1..])
  }

  // Four bytes a word while they last, then a half-word and a byte.
  function Packed8(u: Narrow, v: Inversion, m: seq<bv8>): Bits {
    if |m| >= 4 then Enter32(v, Pack32(m[0], m[1], m[2], m[3])) + Packed8(u, v, m[4..])
    else if |m| == 3 then Enter16(u, v, Pack16(m[0], m[1])) + Enter8(u, v, m[2])
    else if |m| == 2 then Enter16(u, v, Pack16(m[0], m[1]))
    else if |m| == 1 then Enter8(u, v, m[0])
    else []
  }

  // Two half-words a word while they last, then one.
  function Packed16(u: Narrow, v: Inversion, m: seq<bv16>): Bits {
    if |m| >= 2 then Enter32(v, PackHalves(m[0], m[1])) + Packed16(u, v, m[2..])
    else if |m| == 1 then Enter16(u, v, m[0])
    else []
  }

  lemma Parts(a: Bits, b: Bits, c: Bits, d: Bits)
    requires |a| == |b| == |c| == |d| == 8
    ensures var s := a + b + c + d; s[..8] == a && s[8..16] == b && s[16..24] == c && s[24..] == d
  {
  }

  lemma WordIsBytes(u: Narrow, v: Inversion, a: bv8, b: bv8, c: bv8, d: bv8)
    requires v == None || v == Byte
    ensures Enter32(v, Pack32(a, b, c, d)) == Enter8(u, v, a) + Enter8(u, v, b) + Enter8(u, v, c) + Enter8(u, v, d)
  {
    hide Bits8, Bits32, Pack32, Reversed;
    BitsOfPack32(a, b, c, d);
    Parts(Bits8(a), Bits8(b), Bits8(c), Bits8(d));
  }

  lemma HalfWordIsBytes(u: Narrow, v: Inversion, a: bv8, b: bv8)
    requires v == None || v == Byte
    ensures Enter16(u, v, Pack16(a, b)) == Enter8(u, v, a) + Enter8(u, v, b)
  {
    hide Bits8, Bits16, Pack16, Reversed;
    BitsOfPack16(a, b);
    var s := Bits8(a) + Bits8(b);
    assert s[..8] == Bits8(a) && s[8..] == Bits8(b);
  }

  lemma WordIsHalves(u: Narrow, v: Inversion, a: bv16, b: bv16)
    requires v != Word
    ensures Enter32(v, PackHalves(a, b)) == Enter16(u, v, a) + Enter16(u, v, b)
  {
    hide Bits16, Bits32, PackHalves, Reversed;
    BitsOfHalves(a, b);
    var x, y := Bits16(a), Bits16(b);
    var s := x + y;
    assert s[..16] == x && s[16..] == y;
    assert s[..8] == x[..8] && s[8..16] == x[8..] && s[16..24] == y[..8] && s[24..] == y[8..];
  }

  // The fast form feeds the same bits as the serial one.
  lemma {:induction false} PackedIsSerial8(u: Narrow, v: Inversion, m: seq<bv8>)
    requires v == None || v == Byte
    ensures Packed8(u, v, m) == Serial8(u, v, m)
    decreases |m|
  {
    hide Enter8, Enter16, Enter32, Pack16, Pack32;
    if |m| >= 4 {
      WordIsBytes(u, v, m[0], m[1], m[2], m[3]);
      PackedIsSerial8(u, v, m[4..]);
      Unfold8(u, v, m);
      Associate(Enter8(u, v, m[0]), Enter8(u, v, m[1]), Enter8(u, v, m[2]), Enter8(u, v, m[3]), Serial8(u, v, m[4..]));
    } else if |m| >= 2 {
      HalfWordIsBytes(u, v, m[0], m[1]);
      var a := m[1..];
      assert Serial8(u, v, a) == Enter8(u, v, m[1]) + Serial8(u, v, a[1..]);
      assert a[1..] == m[2..];
      if |m| == 3 {
        assert m[2..][1..] == [];
        assert Serial8(u, v, m[2..]) == Enter8(u, v, m[2]) + [];
      }
    } else if |m| == 1 {
      assert m[1..] == [];
    }
  }

  lemma Associate(a: Bits, b: Bits, c: Bits, d: Bits, e: Bits)
    ensures a + b + c + d + e == a + (b + (c + (d + e)))
  {
  }

  lemma Unfold8(u: Narrow, v: Inversion, m: seq<bv8>)
    requires |m| >= 4
    ensures Serial8(u, v, m)
         == Enter8(u, v, m[0])
            + (Enter8(u, v, m[1]) + (Enter8(u, v, m[2]) + (Enter8(u, v, m[3]) + Serial8(u, v, m[4..]))))
  {
    hide Enter8;
    var a := m[1..];
    var b := a[1..];
    var c := b[1..];
    assert c[1..] == m[4..];
    assert a[0] == m[1] && b[0] == m[2] && c[0] == m[3];
    assert Serial8(u, v, c) == Enter8(u, v, c[0]) + Serial8(u, v, c[1..]);
    assert Serial8(u, v, b) == Enter8(u, v, b[0]) + Serial8(u, v, c);
    assert Serial8(u, v, a) == Enter8(u, v, a[0]) + Serial8(u, v, b);
  }

  lemma {:induction false} PackedIsSerial16(u: Narrow, v: Inversion, m: seq<bv16>)
    requires v != Word
    ensures Packed16(u, v, m) == Serial16(u, v, m)
    decreases |m|
  {
    hide Enter16, Enter32, PackHalves;
    if |m| >= 2 {
      WordIsHalves(u, v, m[0], m[1]);
      PackedIsSerial16(u, v, m[2..]);
      assert m[1..][1..] == m[2..];
      assert Serial16(u, v, m[1..]) == Enter16(u, v, m[1]) + Serial16(u, v, m[2..]);
    } else if |m| == 1 {
      assert m[1..] == [];
    }
  }

  lemma {:induction false} Serial8Splits(u: Narrow, v: Inversion, x: seq<bv8>, y: seq<bv8>)
    ensures Serial8(u, v, x + y) == Serial8(u, v, x) + Serial8(u, v, y)
    decreases |x|
  {
    if x == [] {
      assert x + y == y;
    } else {
      assert (x + y)[1..] == x[1..] + y;
      Serial8Splits(u, v, x[1..], y);
    }
  }

  lemma {:induction false} Serial16Splits(u: Narrow, v: Inversion, x: seq<bv16>, y: seq<bv16>)
    ensures Serial16(u, v, x + y) == Serial16(u, v, x) + Serial16(u, v, y)
    decreases |x|
  {
    if x == [] {
      assert x + y == y;
    } else {
      assert (x + y)[1..] == x[1..] + y;
      Serial16Splits(u, v, x[1..], y);
    }
  }

  lemma {:induction false} Serial32Splits(v: Inversion, x: seq<bv32>, y: seq<bv32>)
    ensures Serial32(v, x + y) == Serial32(v, x) + Serial32(v, y)
    decreases |x|
  {
    if x == [] {
      assert x + y == y;
    } else {
      assert (x + y)[1..] == x[1..] + y;
      Serial32Splits(v, x[1..], y);
    }
  }

  // The fast forms agree with the serial ones on all data exactly for these
  // inversions.
  lemma PackedAlwaysSerial8(u: Narrow, v: Inversion)
    ensures (forall m: seq<bv8> :: Packed8(u, v, m) == Serial8(u, v, m)) <==> v == None || v == Byte
  {
    if v == None || v == Byte {
      forall m: seq<bv8>
        ensures Packed8(u, v, m) == Serial8(u, v, m)
      {
        PackedIsSerial8(u, v, m);
      }
    } else {
      var x := if Enter8(u, v, 0)[0] then 0 else 1;
      var m: seq<bv8> := if v == HalfWord then [0, x] else [0, 0, 0, x];
      LastFirst(u, v, x);
      assert Serial8(u, v, m)[0] == Enter8(u, v, 0)[0];
      assert Packed8(u, v, m) != Serial8(u, v, m);
    }
  }

  // Inversion over more than a byte feeds the last bit of a half-word, or of a word,
  // first.
  lemma LastFirst(u: Narrow, v: Inversion, x: bv8)
    ensures v == HalfWord && (x == 0 || x == 1) ==> Packed8(u, v, [0, x])[0] == (x == 1)
    ensures v == Word && (x == 0 || x == 1) ==> Packed8(u, v, [0, 0, 0, x])[0] == (x == 1)
  {
    BitsOfPack16(0, x);
    BitsOfPack32(0, 0, 0, x);
    hide Bits16, Bits32;
    if v == HalfWord {
      assert Packed8(u, v, [0, x]) == Reversed(Bits8(0) + Bits8(x));
    } else if v == Word {
      var m: seq<bv8> := [0, 0, 0, x];
      assert Packed8(u, v, m) == Reversed(Bits8(0) + Bits8(0) + Bits8(0) + Bits8(x)) + Packed8(u, v, m[4..]);
    }
  }

  lemma PackedAlwaysSerial16(u: Narrow, v: Inversion)
    ensures (forall m: seq<bv16> :: Packed16(u, v, m) == Serial16(u, v, m)) <==> v != Word
  {
    if v != Word {
      forall m: seq<bv16>
        ensures Packed16(u, v, m) == Serial16(u, v, m)
      {
        PackedIsSerial16(u, v, m);
      }
    } else {
      var x := if Enter16(u, v, 0)[0] then 0 else 1;
      var m: seq<bv16> := [0, x];
      LastHalfFirst(u, x);
      assert Serial16(u, v, m)[0] == Enter16(u, v, 0)[0];
      assert Packed16(u, v, m) != Serial16(u, v, m);
    }
  }

  lemma LastHalfFirst(u: Narrow, x: bv16)
    requires x == 0 || x == 1
    ensures Packed16(u, Word, [0, x])[0] == (x == 1)
  {
    var m: seq<bv16> := [0, x];
    BitsOfHalves(0, x);
    assert Bits16(x)[15] == (x == 1);
    hide Bits16, Bits32;
    assert Packed16(u, Word, m) == Reversed(Bits16(0) + Bits16(x)) + Packed16(u, Word, m[2..]);
  }

  // Splits that go wrong: what is fed first does not depend on the last byte, or
  // half-word, any more.
  lemma HalfWordSplit(u: Narrow) returns (l: bv8)
    ensures Packed8(u, HalfWord, [0, l]) != Packed8(u, HalfWord, [0]) + Packed8(u, HalfWord, [l])
  {
    l := if Packed8(u, HalfWord, [0])[0] then 0 else 1;
    LastFirst(u, HalfWord, l);
    assert (Packed8(u, HalfWord, [0]) + Packed8(u, HalfWord, [l]))[0] == Packed8(u, HalfWord, [0])[0];
  }

  lemma WordSplit(u: Narrow) returns (l: bv8)
    ensures Packed8(u, Word, [0, 0, 0, l]) != Packed8(u, Word, [0, 0]) + Packed8(u, Word, [0, l])
  {
    l := if Packed8(u, Word, [0, 0])[0] then 0 else 1;
    LastFirst(u, Word, l);
    assert (Packed8(u, Word, [0, 0]) + Packed8(u, Word, [0, l]))[0] == Packed8(u, Word, [0, 0])[0];
  }

  lemma WordSplit16(u: Narrow) returns (l: bv16)
    ensures Packed16(u, Word, [0, l]) != Packed16(u, Word, [0]) + Packed16(u, Word, [l])
  {
    l := if Packed16(u, Word, [0])[0] then 0 else 1;
    LastHalfFirst(u, l);
    assert (Packed16(u, Word, [0]) + Packed16(u, Word, [l]))[0] == Packed16(u, Word, [0])[0];
  }

  // The bits of a register's value written out in whole bytes.
  function OwnBytes(w: Width, reg: Bits): Bits {
    if w == W7 then [false] + reg else reg
  }

  // A width of 7 with polynomial 1 and value 64: half of the bits, and the other half.
  const ONE: Bits := [false, false, false, false, false, false, true]
  const HIGH: Bits := [true, false, false, false, false, false, false]
  const HALFWAY: Bits := [false, false, false, true, true, false, false]

  lemma SevenFirst()
    ensures Feed(ONE, HIGH, [false, true, false, false]) == HALFWAY
  {
    var r1 := Step(ONE, HIGH, false);
    assert r1 == ONE;
    var r2 := Step(ONE, r1, true);
    assert r2 == [false, false, false, false, false, true, true];
    var r3 := Step(ONE, r2, false);
    assert r3 == [false, false, false, false, true, true, false];
    assert Step(ONE, r3, false) == HALFWAY;
    assert Feed(ONE, r3, [false]) == HALFWAY;
    assert Feed(ONE, r2, [false, false]) == HALFWAY;
    assert Feed(ONE, r1, [true, false, false]) == HALFWAY;
  }

  lemma SevenLast()
    ensures Feed(ONE, HALFWAY, [false, false, false, false])[0]
  {
    var r5 := Step(ONE, HALFWAY, false);
    assert r5 == [false, false, true, true, false, false, false];
    var r6 := Step(ONE, r5, false);
    assert r6 == [false, true, true, false, false, false, false];
    var r7 := Step(ONE, r6, false);
    assert r7 == [true, true, false, false, false, false, false];
    var r8 := Step(ONE, r7, false);
    assert r8[0];
    assert Feed(ONE, r7, [false]) == r8;
    assert Feed(ONE, r6, [false, false]) == r8;
    assert Feed(ONE, r5, [false, false, false]) == r8;
  }

  lemma SevenFails()
    ensures exists poly: Bits, reg: Bits ::
              |poly| == |reg| == 7 && Feed(poly, reg, OwnBytes(W7, reg)) != Zeros(7)
  {
    SevenFirst();
    SevenLast();
    hide Feed;
    var s, r := [false, true, false, false], [false, false, false, false];
    FeedSplits(ONE, HIGH, s, r);
    assert OwnBytes(W7, HIGH) == s + r;
    assert Feed(ONE, HIGH, OwnBytes(W7, HIGH)) != Zeros(7);
  }

  // Feeding a value its own bytes leaves zero, for all polynomials and values,
  // exactly when the width is a whole number of bytes.
  lemma ResidueAlways(w: Width)
    ensures (forall poly: Bits, reg: Bits | |poly| == |reg| == Size(w) ::
               Feed(poly, reg, OwnBytes(w, reg)) == Zeros(Size(w))) <==> w != W7
  {
    if w == W7 {
      SevenFails();
    } else {
      forall poly: Bits, reg: Bits | |poly| == |reg| == Size(w)
        ensures Feed(poly, reg, OwnBytes(w, reg)) == Zeros(Size(w))
      {
        Residue(poly, reg);
      }
    }
  }
}
