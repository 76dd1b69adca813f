// What the phases of a GCM job must do to the core, as closed forms over the
// whole data, and what GHASH has absorbed when they are over.  The drivers of
// module CrypDriver are proved to reach these states.
module CrypAuth {
  import opened AesCore

  /* --------------- what a phase must do to the core --------------- */

  predicate Idle(c: Core) {
    c.chain == Gcm && c.din == [] && c.dout == [] && !c.ccf
  }

  // The ciphertext side of payload data m, which is what GHASH absorbs.
  function CipherText(c: Core, k: Key, m: Bytes): (r: Bytes)
    ensures |r| == |m|
  {
    if c.decrypt then m else Crypt(k, c.dt, c.ctr, m)
  }

  function Minus(a: nat, b: nat): nat {
    if a <= b then 0 else a - b
  }

  // The core after the n whole blocks m have been entered in the header or
  // payload phase and everything it produced has been read.
  function Fed(c: Core, k: Key, n: nat, m: Bytes): Core {
    var d := c.(log := c.log + Writes(m), fuel := Minus(c.fuel, n));
    if c.phase == Payload then
      d.(ctr := c.ctr + n, ghash := c.ghash + Wire(c.dt, CipherText(c, k, m)))
    else
      d.(ghash := c.ghash + Wire(c.dt, m))
  }

  lemma FedStepHeader(c: Core, k: Key, n: nat, m: Bytes, b: Bytes)
    requires Idle(c) && c.en && c.phase == Header
    requires |m| == 16 * n && |b| == 16 && n < c.fuel
    ensures Enter(Fed(c, k, n, m), k, b) == Fed(c, k, n + 1, m + b).(ccf := true)
  {
    hide Crypt, Wire, Xor, KeyStream, Tag, Writes, Enter;
    var f := Fed(c, k, n, m);
    EnterCompletes(f, k, b);
    WritesAppend(4 * n, m, b);
    assert c.log + Writes(m) + Writes(b) == c.log + (Writes(m) + Writes(b));
    WireAppend(c.dt, 4 * n, m, b);
    assert c.ghash + Wire(c.dt, m) + Wire(c.dt, b) == c.ghash + (Wire(c.dt, m) + Wire(c.dt, b));
  }

  lemma FedStepPayload(c: Core, k: Key, n: nat, m: Bytes, b: Bytes)
    requires Idle(c) && c.en && c.phase == Payload
    requires |m| == 16 * n && |b| == 16 && n < c.fuel
    ensures Enter(Fed(c, k, n, m), k, b)
         == Fed(c, k, n + 1, m + b).(ccf := true, dout := Crypt(k, c.dt, c.ctr + n, b))
  {
    hide Crypt, Wire, Xor, KeyStream, Tag, Writes, Enter;
    var f := Fed(c, k, n, m);
    EnterCompletes(f, k, b);
    WritesAppend(4 * n, m, b);
    assert c.log + Writes(m) + Writes(b) == c.log + (Writes(m) + Writes(b));
    CompleteStreams(f, k, b);
    CryptAppend(k, c.dt, c.ctr, n, m, b);
    var w := CipherText(c, k, m);
    var v := if c.decrypt then b else Crypt(k, c.dt, c.ctr + n, b);
    WireAppend(c.dt, 4 * n, w, v);
    assert c.ghash + Wire(c.dt, w) + Wire(c.dt, v) == c.ghash + (Wire(c.dt, w) + Wire(c.dt, v));
  }

  lemma FedNothing(c: Core, k: Key)
    ensures Fed(c, k, 0, []) == c
  {
    assert c.log + Writes([]) == c.log;
    assert c.ghash + Wire(c.dt, []) == c.ghash;
  }

  function HeaderStart(c: Core, dt: DataType): Core {
    c.(phase := Header, dt := dt, en := true, log := c.log + [SetPhase(Header)])
  }

  function PayloadStart(c: Core, enable: bool): Core {
    c.(phase := Payload, en := c.en || enable, log := c.log + [SetPhase(Payload)])
  }

  function WholeBlocks(m: Bytes): (r: Bytes)
    ensures |r| == 16 * (|m| / 16) && r <= m
  {
    m[..16 * (|m| / 16)]
  }

  function Tail(m: Bytes): (r: Bytes)
    ensures |r| == |m| % 16 && WholeBlocks(m) + r == m
  {
    m[16 * (|m| / 16)..]
  }

  // The core at the end of a payload phase that started from c with data m.
  // A partial last block of an encryption takes the counter-mode detour: it
  // is encrypted without being absorbed, and its zero-padded ciphertext is
  // absorbed in the final phase.
  function PayloadDone(c: Core, k: Key, m: Bytes): Core {
    if c.decrypt || |m| % 16 == 0 then Fed(c, k, Blocks(|m|), Pad(m))
    else
      var f := Fed(c, k, |m| / 16, WholeBlocks(m));
      var e := Pad(Crypt(k, c.dt, f.ctr, Tail(m)));
      f.(phase := Final, ctr := f.ctr + 1, ghash := f.ghash + Wire(c.dt, e), fuel := Minus(f.fuel, 2),
         log := f.log + [SetChain(Ctr)] + Writes(Pad(Tail(m))) + [SetChain(Gcm), SetPhase(Final)] + Writes(e))
  }

  // Block computations a payload of n bytes takes.
  function Cost(n: nat, encrypt: bool): nat {
    n / 16 + if n % 16 == 0 then 0 else if encrypt then 2 else 1
  }

  // However the payload ends, GHASH has absorbed the ciphertext padded with
  // zeros to a whole number of blocks.
  lemma PayloadAbsorbs(c: Core, k: Key, m: Bytes)
    requires c.phase == Payload
    ensures PayloadDone(c, k, m).ghash == c.ghash + Wire(c.dt, Pad(CipherText(c, k, m)))
    ensures PayloadDone(c, k, m).dt == c.dt
  {
    hide Crypt, Wire, Writes, Pad, Blocks;
    if c.decrypt {
    } else if |m| % 16 == 0 {
      PadWhole(|m| / 16, m);
      PadWhole(|m| / 16, CipherText(c, k, m));
    } else {
      var q, w, t := |m| / 16, WholeBlocks(m), Tail(m);
      hide WholeBlocks, Tail;
      var cw, e := Crypt(k, c.dt, c.ctr, w), Crypt(k, c.dt, c.ctr + q, t);
      CryptAppend(k, c.dt, c.ctr, q, w, t);
      PadAppend(q, cw, e);
      WireAppend(c.dt, 4 * q, cw, Pad(e));
      assert c.ghash + Wire(c.dt, cw) + Wire(c.dt, Pad(e)) == c.ghash + (Wire(c.dt, cw) + Wire(c.dt, Pad(e)));
    }
  }

  /* ------------------ the last, partial block ------------------ */

  // Switching to counter mode before the partial block of an encryption, and
  // back to GCM in the final phase after it.
  function Detour(c: Core): Core {
    if c.decrypt then c else c.(chain := Ctr, log := c.log + [SetChain(Ctr)])
  }

  function Undo(c: Core): Core {
    c.(chain := Gcm, phase := Final, log := c.log + [SetChain(Gcm), SetPhase(Final)])
  }

  function Taken(c: Core): Core {
    c.(ccf := false, dout := [])
  }

  predicate InPayload(c: Core) {
    Idle(c) && c.en && c.phase == Payload
  }

  lemma TailEnters(c: Core, k: Key, t: Bytes)
    requires InPayload(c) && 0 < |t| < 16 && c.fuel >= 1
    ensures var e := Enter(Detour(c), k, Pad(t));
            e.ccf && e.dout == Crypt(k, c.dt, c.ctr, Pad(t)) && e.din == [] && e.fuel == c.fuel - 1
            && e.decrypt == c.decrypt
            && (c.decrypt ==> Taken(e) == PayloadDone(c, k, t))
  {
    hide Crypt, Wire, Xor, KeyStream, Tag, Writes, Enter, Pad;
    if c.decrypt {
      FedNothing(c, k);
      FedStepPayload(c, k, 0, [], Pad(t));
      assert [] + Pad(t) == Pad(t);
    } else {
      EnterCompletes(Detour(c), k, Pad(t));
      CompleteStreams(c, k, Pad(t));
    }
  }

  lemma DetourEnds(c: Core, k: Key, t: Bytes)
    requires InPayload(c) && 0 < |t| < 16 && c.fuel >= 2 && !c.decrypt
    ensures var e := Taken(Enter(Detour(c), k, Pad(t)));
            var d := Enter(Undo(e), k, Pad(Crypt(k, c.dt, c.ctr, t)));
            d.ccf && |d.dout| == 16 && Taken(d) == PayloadDone(c, k, t)
  {
    hide Crypt, Wire, Xor, KeyStream, Tag, Writes, Enter, Pad;
    EnterCompletes(Detour(c), k, Pad(t));
    var x := Pad(Crypt(k, c.dt, c.ctr, t));
    var e := Taken(Enter(Detour(c), k, Pad(t)));
    EnterCompletes(Undo(e), k, x);
    FedNothing(c, k);
    assert WholeBlocks(t) == [] && Tail(t) == t;
  }

  // A core that no longer answers only logs the writes.
  lemma EnterStalls(c: Core, k: Key, m: Bytes)
    requires c.din == [] && c.dout == [] && |m| == 16 && c.fuel == 0
    ensures Enter(c, k, m) == c.(log := c.log + Writes(m))
  {
    if c.en {
      EnterCompletes(c, k, m);
    } else {
      var l := c.log + [WriteDin(m[..4])] + [WriteDin(m[4..8])] + [WriteDin(m[8..12])] + [WriteDin(m[12..16])];
      assert l == c.log + Writes(m);
    }
  }

  // How a core that may stop answering takes a partial block: it completes
  // exactly while it has fuel.
  lemma TailAnswers(c: Core, k: Key, t: Bytes, payload: bool)
    requires Idle(c) && c.en && c.phase == (if payload then Payload else Header) && 0 < |t| < 16
    ensures var e := Enter(if payload then Detour(c) else c, k, Pad(t));
            (e.ccf <==> c.fuel >= 1) && (e.dout == [] || |e.dout| == 16)
            && (c.fuel >= 1 && payload ==> e.dout == Crypt(k, c.dt, c.ctr, Pad(t)))
            && (c.fuel >= 1 && !payload ==> e.(ccf := false) == Fed(c, k, 1, Pad(t)))
            && (c.fuel >= 1 && c.decrypt && payload ==> Taken(e) == PayloadDone(c, k, t))
            && e.decrypt == c.decrypt
  {
    hide Crypt, Wire, Xor, KeyStream, Tag, Writes, Enter, Pad;
    if c.fuel == 0 {
      EnterStalls(if payload then Detour(c) else c, k, Pad(t));
    } else if payload {
      TailEnters(c, k, t);
    } else {
      FedNothing(c, k);
      FedStepHeader(c, k, 0, [], Pad(t));
      assert [] + Pad(t) == Pad(t);
    }
  }

  lemma DetourAnswers(c: Core, k: Key, t: Bytes, x: Bytes)
    requires InPayload(c) && 0 < |t| < 16 && !c.decrypt && |x| == 16
    ensures var d := Enter(Undo(Taken(Enter(Detour(c), k, Pad(t)))), k, x);
            (d.ccf <==> c.fuel >= 2) && (d.dout == [] || |d.dout| == 16)
            && (c.fuel >= 2 && x == Pad(Crypt(k, c.dt, c.ctr, t)) ==> Taken(d) == PayloadDone(c, k, t))
  {
    hide Crypt, Wire, Xor, KeyStream, Tag, Writes, Enter, Pad, PayloadDone;
    var e := Taken(Enter(Detour(c), k, Pad(t)));
    EnterCompletes(Detour(c), k, Pad(t));
    EnterCompletes(Undo(e), k, x);
    if c.fuel >= 2 {
      DetourEnds(c, k, t);
    }
  }

  // Whole blocks and then the padded tail are the padded data.
  lemma FedTail(c: Core, k: Key, m: Bytes)
    requires |m| % 16 != 0
    ensures Fed(Fed(c, k, |m| / 16, WholeBlocks(m)), k, 1, Pad(Tail(m))) == Fed(c, k, Blocks(|m|), Pad(m))
  {
    var q, w, t := |m| / 16, WholeBlocks(m), Tail(m);
    assert Blocks(|m|) == q + 1;
    PadAppend(q, w, t);
    hide Crypt, Wire, Writes, Pad, WholeBlocks, Tail, Blocks;
    FedBoth(c, k, q, w, 1, Pad(t));
  }

  lemma FedBoth(c: Core, k: Key, n: nat, a: Bytes, l: nat, b: Bytes)
    requires |a| == 16 * n
    ensures Fed(Fed(c, k, n, a), k, l, b) == Fed(c, k, n + l, a + b)
  {
    hide Crypt, Wire, Writes;
    WritesAppend(4 * n, a, b);
    assert c.log + Writes(a) + Writes(b) == c.log + (Writes(a) + Writes(b));
    CryptAppend(k, c.dt, c.ctr, n, a, b);
    var f := Fed(c, k, n, a);
    var x := if c.phase == Payload then CipherText(c, k, a) else a;
    var y := if c.phase == Payload then CipherText(f, k, b) else b;
    WireAppend(c.dt, 4 * n, x, y);
    assert c.ghash + Wire(c.dt, x) + Wire(c.dt, y) == c.ghash + (Wire(c.dt, x) + Wire(c.dt, y));
  }

  lemma FedKeeps(c: Core, k: Key, n: nat, m: Bytes)
    ensures var f := Fed(c, k, n, m);
            f == c.(log := f.log, fuel := Minus(c.fuel, n), ctr := f.ctr, ghash := f.ghash)
            && f.ctr == if c.phase == Payload then c.ctr + n else c.ctr
  {
  }

  // One block of the header, answered or not.
  lemma HeaderStep(c: Core, k: Key, n: nat, m: Bytes, b: Bytes)
    requires Idle(c) && c.en && c.phase == Header && |m| == 16 * n && |b| == 16 && n <= c.fuel
    ensures var e := Enter(Fed(c, k, n, m), k, b);
            (e.ccf <==> n < c.fuel) && (e.ccf ==> e.(ccf := false) == Fed(c, k, n + 1, m + b))
  {
    hide Crypt, Wire, Writes, Enter;
    if n < c.fuel {
      FedStepHeader(c, k, n, m, b);
    } else {
      EnterStalls(Fed(c, k, n, m), k, b);
    }
  }

  // One block of the payload, answered or not.
  lemma PayloadStep(c: Core, k: Key, n: nat, m: Bytes, b: Bytes)
    requires InPayload(c) && |m| == 16 * n && |b| == 16 && n <= c.fuel
    ensures var e := Enter(Fed(c, k, n, m), k, b);
            (e.ccf <==> n < c.fuel)
            && (e.ccf ==> Taken(e) == Fed(c, k, n + 1, m + b) && e.dout == Crypt(k, c.dt, c.ctr + n, b))
  {
    hide Crypt, Wire, Writes, Enter;
    if n < c.fuel {
      FedStepPayload(c, k, n, m, b);
    } else {
      EnterStalls(Fed(c, k, n, m), k, b);
    }
  }

  // The whole payload phase is the whole blocks followed by the tail.
  lemma PayloadSplits(c: Core, k: Key, m: Bytes)
    requires c.phase == Payload && |m| % 16 != 0
    ensures PayloadDone(Fed(c, k, |m| / 16, WholeBlocks(m)), k, Tail(m)) == PayloadDone(c, k, m)
  {
    hide Crypt, Wire, Xor, KeyStream, Tag, Writes, Enter, Pad, WholeBlocks, Tail;
    FedNothing(Fed(c, k, |m| / 16, WholeBlocks(m)), k);
    SmallTail(Tail(m));
    if c.decrypt {
      FedTail(c, k, m);
    }
  }

  lemma WholePayload(c: Core, k: Key, m: Bytes)
    requires |m| % 16 == 0
    ensures PayloadDone(c, k, m) == Fed(c, k, |m| / 16, m)
  {
    PadWhole(|m| / 16, m);
  }

  lemma SmallTail(t: Bytes)
    requires |t| < 16
    ensures WholeBlocks(t) == [] && Tail(t) == t
  {
  }

  /* ------------------------- the final phase ------------------------- */

  // A 32-bit value, least significant byte first, as it is written to the
  // input register.
  function Le32(x: nat): (w: Bytes)
    ensures |w| == 4
  {
    [Octet(x), Octet(x / 256), Octet(x / 256 / 256), Octet(x / 256 / 256 / 256)]
  }

  // The low byte of x, from its two hexadecimal digits.
  function Octet(x: nat): bv8 {
    16 * Nibble(x / 16) + Nibble(x)
  }

  function Nibble(x: nat): (b: bv8)
    ensures b < 16 && b as nat == x % 16
  {
    [0, 1, 2, 3, 4, 5, 6, 7, 8, 9, 10, 11, 12, 13, 14, 15][x % 16]
  }

  lemma JoinNibbles(a: bv8, b: bv8)
    requires a < 16 && b < 16
    ensures (16 * a + b) as nat == 16 * a as nat + b as nat
  {
  }

  lemma TwoNibbles(x: nat)
    ensures x % 256 == 16 * (x / 16 % 16) + x % 16
  {
    var p, d := x / 16 / 16, 16 * (x / 16 % 16) + x % 16;
    assert x == 256 * p + d && d < 256;
    LowByte(p, d);
  }

  lemma LowByte(p: nat, d: nat)
    requires d < 256
    ensures (256 * p + d) % 256 == d
  {
  }

  lemma OctetValue(x: nat)
    ensures Octet(x) as nat == x % 256
  {
    JoinNibbles(Nibble(x / 16), Nibble(x));
    TwoNibbles(x);
  }

  // Bit i of a number.
  predicate NumberBit(x: nat, i: nat) {
    if i == 0 then x % 2 == 1 else NumberBit(x / 2, i - 1)
  }
  // The lowest bit, and the others.
  lemma NumberBits(q: nat, r: nat, i: nat)
    requires r < 2
    ensures NumberBit(2 * q + r, i) <==> if i == 0 then r == 1 else NumberBit(q, i - 1)
  {
    assert (2 * q + r) / 2 == q;
  }

  // A number of four bits, by its bits.
  lemma FourBits(q: nat, r0: nat, r1: nat, r2: nat, r3: nat, i: nat)
    requires r0 < 2 && r1 < 2 && r2 < 2 && r3 < 2 && i < 4
    ensures NumberBit(2 * (2 * (2 * (2 * q + r3) + r2) + r1) + r0, i) <==> [r0, r1, r2, r3][i] == 1
  {
    hide NumberBit;
    NumberBits(2 * (2 * (2 * q + r3) + r2) + r1, r0, i);
    if i > 0 {
      NumberBits(2 * (2 * q + r3) + r2, r1, i - 1);
      if i > 1 {
        NumberBits(2 * q + r3, r2, i - 2);
        if i > 2 {
          NumberBits(q, r3, i - 3);
        }
      }
    }
  }

  lemma DigitBits(x: nat, r0: nat, r1: nat, r2: nat, r3: nat, i: nat)
    requires r0 < 2 && r1 < 2 && r2 < 2 && r3 < 2 && i < 4 && x % 16 == 2 * (2 * (2 * r3 + r2) + r1) + r0
    ensures BitAt(Nibble(x), i) <==> [r0, r1, r2, r3][i] == 1
  {
  }

  lemma NibbleBits(x: nat, i: nat)
    requires i < 4
    ensures BitAt(Nibble(x), i) <==> NumberBit(x, i)
  {
    hide NumberBit, BitAt, Nibble;
    var r := x % 16;
    var r0, r1, r2, r3 := r % 2, r / 2 % 2, r / 4 % 2, r / 8;
    FourBits(x / 16, r0, r1, r2, r3, i);
    DigitBits(x, r0, r1, r2, r3, i);
  }

  lemma JoinedBits(a: bv8, b: bv8, i: nat)
    requires a < 16 && b < 16 && i < 4
    ensures BitAt(16 * a + b, i) <==> BitAt(b, i)
    ensures BitAt(16 * a + b, i + 4) <==> BitAt(a, i)
  {
  }
  lemma BitsAbove(x: nat, i: nat)
    ensures NumberBit(x, i + 4) <==> NumberBit(x / 16, i)
  {
    assert NumberBit(x, i + 4) <==> NumberBit(x / 2, i + 3);
    assert NumberBit(x / 2, i + 3) <==> NumberBit(x / 4, i + 2);
    assert NumberBit(x / 4, i + 2) <==> NumberBit(x / 8, i + 1);
    assert NumberBit(x / 8, i + 1) <==> NumberBit(x / 16, i);
  }
  lemma OctetBits(x: nat, i: nat)
    requires i < 8
    ensures BitAt(Octet(x), i) <==> NumberBit(x, i)
  {
    hide BitAt, NumberBit, Nibble;
    var a, b := Nibble(x / 16), Nibble(x);
    JoinedBits(a, b, i % 4);
    NibbleBits(x, i % 4);
    NibbleBits(x / 16, i % 4);
    if i >= 4 {
      BitsAbove(x, i - 4);
    }
  }
  lemma BitsBeyond(x: nat, i: nat)
    ensures NumberBit(x, i + 8) <==> NumberBit(x / 256, i)
  {
    hide NumberBit;
    BitsAbove(x, i + 4);
    BitsAbove(x / 16, i);
    assert x / 16 / 16 == x / 256;
  }

  lemma WordBits(x: nat, j: nat)
    requires j < 32
    ensures BitAt(Le32(x)[j / 8], j % 8) <==> NumberBit(x, j)
  {
    hide BitAt, NumberBit, Octet;
    var r := j % 8;
    OctetBits(x, r);
    BitsBeyond(x, r);
    OctetBits(x / 256, r);
    BitsBeyond(x, r + 8);
    BitsBeyond(x / 256, r);
    OctetBits(x / 256 / 256, r);
    BitsBeyond(x, r + 16);
    BitsBeyond(x / 256, r + 8);
    BitsBeyond(x / 256 / 256, r);
    OctetBits(x / 256 / 256 / 256, r);
  }

  lemma Remainder(x: nat, q: nat, r: nat)
    requires x == 0x1_0000_0000 * q + r && r < 0x1_0000_0000
    ensures x % 0x1_0000_0000 == r
  {
  }

  lemma FourDigits(x: nat, a: nat, b: nat, c: nat, d: nat, r0: nat, r1: nat, r2: nat, r3: nat)
    requires x == 256 * a + r0 && a == 256 * b + r1 && b == 256 * c + r2 && c == 256 * d + r3
    requires r0 < 256 && r1 < 256 && r2 < 256 && r3 < 256
    ensures x % 0x1_0000_0000 == 256 * (256 * (256 * r3 + r2) + r1) + r0
  {
    Remainder(x, d, 256 * (256 * (256 * r3 + r2) + r1) + r0);
  }

  lemma FourOctets(x: nat)
    ensures x % 0x1_0000_0000
         == 256 * (256 * (256 * (x / 256 / 256 / 256 % 256) + x / 256 / 256 % 256) + x / 256 % 256) + x % 256
  {
    var a, b, c := x / 256, x / 256 / 256, x / 256 / 256 / 256;
    FourDigits(x, a, b, c, c / 256, x % 256, a % 256, b % 256, c % 256);
  }

  function Reversed(w: Bytes): (r: Bytes)
    requires |w| == 4
    ensures |r| == 4
  {
    [w[3], w[2], w[1], w[0]]
  }

  // The 64-bit big-endian encoding of v modulo 2^64.
  function Be64(v: nat): (b: Bytes)
    ensures |b| == 8
  {
    Reversed(Le32(v / 0x1_0000_0000)) + Reversed(Le32(v))
  }

  // __RBIT, __REV, __ROR by 16 or nothing, according to the data type.
  function Swapped(dt: DataType, w: Bytes): (r: Bytes)
    requires |w| == 4
    ensures |r| == 4
  {
    match dt
    case Bits1 => [Rev8(w[3]), Rev8(w[2]), Rev8(w[1]), Rev8(w[0])]
    case Bits8 => [w[3], w[2], w[1], w[0]]
    case Bits16 => [w[2], w[3], w[0], w[1]]
    case Bits32 => w
  }

  // The last block: the bit lengths of header and payload, as words swapped in
  // software so that the swapping stage of the core undoes it.
  function LengthBlock(dt: DataType, h: nat, p: nat): (b: Bytes)
    ensures |b| == 16
  {
    Swapped(dt, Le32(8 * h / 0x1_0000_0000)) + Swapped(dt, Le32(8 * h))
    + Swapped(dt, Le32(8 * p / 0x1_0000_0000)) + Swapped(dt, Le32(8 * p))
  }

  lemma SwappedWire(dt: DataType, w: Bytes)
    requires |w| == 4
    ensures Wire(dt, Swapped(dt, w)) == Reversed(w)
  {
    hide Rev8, Peer;
    forall i | 0 <= i < 4
      ensures WireByte(dt, Swapped(dt, w), i) == w[3 - i]
    {
      PeerInWord(dt, i);
      Rev8Facts(w[3 - i], 0);
    }
  }

  // Whatever the data type, the core receives [8h]64 || [8p]64.
  lemma LengthBlockWire(dt: DataType, h: nat, p: nat)
    ensures Wire(dt, LengthBlock(dt, h, p)) == Be64(8 * h) + Be64(8 * p)
  {
    hide Wire, Le32, Swapped, Reversed;
    var a, b := Le32(8 * h / 0x1_0000_0000), Le32(8 * h);
    var c, d := Le32(8 * p / 0x1_0000_0000), Le32(8 * p);
    SwappedWire(dt, a);
    SwappedWire(dt, b);
    SwappedWire(dt, c);
    SwappedWire(dt, d);
    WireAppend(dt, 1, Swapped(dt, a), Swapped(dt, b));
    WireAppend(dt, 2, Swapped(dt, a) + Swapped(dt, b), Swapped(dt, c));
    WireAppend(dt, 3, Swapped(dt, a) + Swapped(dt, b) + Swapped(dt, c), Swapped(dt, d));
  }

  // The writes l are those of the two 64-bit bit lengths, high words first, with
  // the bits of each word where __RBIT, __REV and __ROR by 16 put them.
  ghost predicate LengthsWritten(dt: DataType, h: nat, p: nat, l: seq<Event>) {
    |l| == 4
    && forall k: nat, j: nat | k < 4 && j < 32 ::
      l[k].WriteDin? && |l[k].word| == 4
      && (BitAt(l[k].word[j / 8], j % 8)
          <==> NumberBit([8 * h / 0x1_0000_0000, 8 * h, 8 * p / 0x1_0000_0000, 8 * p][k],
                         match dt case Bits1 => 31 - j case Bits8 => 8 * (3 - j / 8) + j % 8
                         case Bits16 => (j + 16) % 32 case Bits32 => j))
  }

  lemma SwappedAt(dt: DataType, w: Bytes, b: nat, r: nat)
    requires |w| == 4 && b < 4 && r < 8
    ensures BitAt(Swapped(dt, w)[b], r) <==>
            match dt case Bits1 => BitAt(w[3 - b], 7 - r) case Bits8 => BitAt(w[3 - b], r)
                     case Bits16 => BitAt(w[if b < 2 then b + 2 else b - 2], r) case Bits32 => BitAt(w[b], r)
  {
    hide Rev8, BitAt;
    if dt == Bits1 {
      RevBits(w[3 - b], r);
    }
  }

  lemma SwappedBits(dt: DataType, x: nat, j: nat)
    requires j < 32
    ensures BitAt(Swapped(dt, Le32(x))[j / 8], j % 8)
            <==> NumberBit(x, match dt case Bits1 => 31 - j case Bits8 => 8 * (3 - j / 8) + j % 8
                              case Bits16 => (j + 16) % 32 case Bits32 => j)
  {
    hide BitAt, NumberBit, Swapped, Le32;
    BitPositions(j);
    SwappedAt(dt, Le32(x), j / 8, j % 8);
    WordBits(x, match dt case Bits1 => 31 - j case Bits8 => 8 * (3 - j / 8) + j % 8
                         case Bits16 => (j + 16) % 32 case Bits32 => j);
  }

  lemma WritesFour(a: Bytes, b: Bytes, c: Bytes, d: Bytes)
    requires |a| == |b| == |c| == |d| == 4
    ensures Writes(a + b + c + d) == [WriteDin(a), WriteDin(b), WriteDin(c), WriteDin(d)]
  {
    var m := a + b + c + d;
    assert m[..4] == a && m[4..8] == b && m[8..12] == c && m[12..16] == d;
  }

  lemma LengthWrites(dt: DataType, h: nat, p: nat)
    ensures LengthsWritten(dt, h, p, Writes(LengthBlock(dt, h, p)))
  {
    hide BitAt, NumberBit, Le32, Swapped;
    var v := [8 * h / 0x1_0000_0000, 8 * h, 8 * p / 0x1_0000_0000, 8 * p];
    var l := Writes(LengthBlock(dt, h, p));
    WritesFour(Swapped(dt, Le32(v[0])), Swapped(dt, Le32(v[1])), Swapped(dt, Le32(v[2])), Swapped(dt, Le32(v[3])));
    forall k: nat, j: nat | k < 4 && j < 32
      ensures BitAt(l[k].word[j / 8], j % 8)
              <==> NumberBit(v[k], match dt case Bits1 => 31 - j case Bits8 => 8 * (3 - j / 8) + j % 8
                                   case Bits16 => (j + 16) % 32 case Bits32 => j)
    {
      SwappedBits(dt, v[k], j);
    }
  }

  // Big-endian value of a byte string.
  function Value(s: Bytes): nat {
    if s == [] then 0 else 256 * Value(s[..|s| - 1]) + s[|s| - 1] as nat
  }

  lemma ValueStep(s: Bytes, b: bv8)
    ensures Value(s + [b]) == 256 * Value(s) + b as nat
  {
    assert (s + [b])[..|s|] == s;
  }

  lemma WordValue(x: nat, hi: Bytes)
    ensures Value(hi + Reversed(Le32(x))) == 0x1_0000_0000 * Value(hi) + x % 0x1_0000_0000
  {
    hide Octet, Value;
    OctetValue(x);
    OctetValue(x / 256);
    OctetValue(x / 256 / 256);
    OctetValue(x / 256 / 256 / 256);
    FourOctets(x);
    WordDigits(hi, Le32(x));
  }

  lemma WordDigits(hi: Bytes, w: Bytes)
    requires |w| == 4
    ensures Value(hi + Reversed(w))
         == 0x1_0000_0000 * Value(hi)
            + 256 * (256 * (256 * w[3] as nat + w[2] as nat) + w[1] as nat) + w[0] as nat
  {
    hide Value;
    var a := hi + [w[3]];
    var b := a + [w[2]];
    var c := b + [w[1]];
    assert hi + Reversed(w) == c + [w[0]];
    ValueStep(hi, w[3]);
    ValueStep(a, w[2]);
    ValueStep(b, w[1]);
    ValueStep(c, w[0]);
  }

  lemma Be64Value(v: nat)
    requires v < 0x1_0000_0000_0000_0000
    ensures Value(Be64(v)) == v
  {
    hide Le32;
    WordValue(v / 0x1_0000_0000, []);
    WordValue(v, Reversed(Le32(v / 0x1_0000_0000)));
    assert [] + Reversed(Le32(v / 0x1_0000_0000)) == Reversed(Le32(v / 0x1_0000_0000));
  }

  function FinalStart(c: Core, enable: bool): Core {
    c.(phase := Final, en := c.en || enable, log := c.log + [SetPhase(Final)])
  }

  // The core after the final phase; the tag it computed has been read.
  function FinalDone(c: Core, dt: DataType, h: nat, p: nat): Core {
    var l := LengthBlock(dt, h, p);
    c.(en := false, ghash := c.ghash + Wire(c.dt, l), fuel := Minus(c.fuel, 1), log := c.log + Writes(l))
  }

  // The core with the tag waiting to be read, and once it has been read.
  lemma FinalAnswers(c: Core, k: Key, dt: DataType, h: nat, p: nat)
    requires Idle(c) && c.en && c.phase == Final
    ensures var e := Enter(c, k, LengthBlock(dt, h, p));
            (e.ccf <==> c.fuel >= 1)
            && (c.fuel >= 1 ==> e.dout == Wire(c.dt, Tag(k, FinalDone(c, dt, h, p).ghash))
                                && Taken(e).(en := false) == FinalDone(c, dt, h, p))
  {
    hide Crypt, Wire, Xor, KeyStream, Tag, Writes, Enter, LengthBlock;
    EnterCompletes(c, k, LengthBlock(dt, h, p));
  }

  // The core after a job on header bytes a and payload m; the payload phase, which
  // takes no empty payload, is left out if there is none.
  function JobDone(c: Core, k: Key, dt: DataType, a: Bytes, m: Bytes): Core {
    FinalDone(FinalStart(MessageDone(c, k, dt, a, m), false), dt, |a|, |m|)
  }

  function HeaderDone(c: Core, k: Key, dt: DataType, a: Bytes): Core {
    Fed(HeaderStart(c, dt), k, Blocks(|a|), Pad(a))
  }

  function MessageDone(c: Core, k: Key, dt: DataType, a: Bytes, m: Bytes): Core {
    if m == [] then HeaderDone(c, k, dt, a) else PayloadDone(PayloadStart(HeaderDone(c, k, dt, a), false), k, m)
  }

  // Between the phases of a job the core is idle, on, and has fuel left.
  lemma JobPhases(c: Core, k: Key, dt: DataType, a: Bytes, m: Bytes)
    requires Idle(c) && c.fuel >= Blocks(|a|) + Cost(|m|, !c.decrypt) + 1
    ensures var h := HeaderDone(c, k, dt, a);
            Idle(h) && h.en && h.fuel >= Cost(|m|, !c.decrypt) + 1 && h.decrypt == c.decrypt && h.ctr == c.ctr
            && h.dt == dt && PayloadStart(h, true) == PayloadStart(h, false)
    ensures var p := MessageDone(c, k, dt, a, m); Idle(p) && p.en && p.fuel >= 1 && p.dt == dt
  {
    hide Crypt, Wire, Writes, Pad;
    if !c.decrypt && |m| % 16 != 0 {
    } else {
      assert Cost(|m|, !c.decrypt) == Blocks(|m|);
    }
  }

  // Steps 4 and 5 of Algorithm 4 in section 7.1 of NIST SP 800-38D: what GHASH
  // absorbs is A || 0^v || C || 0^u || [len(A)]64 || [len(C)]64, where C is the
  // ciphertext GCTR gives (for a decryption, the input).
  lemma JobAbsorbs(c: Core, k: Key, dt: DataType, a: Bytes, m: Bytes)
    requires c.ghash == []
    requires Aligned(dt, |a|) && Aligned(dt, |m|)
    ensures var x := Wire(dt, m);
            var y := if c.decrypt then x else Xor(x, KeyStream(k, c.ctr, |m|));
            JobDone(c, k, dt, a, m).ghash == Pad(Wire(dt, a)) + Pad(y) + Be64(8 * |a|) + Be64(8 * |m|)
  {
    hide Wire, Pad, Crypt, Writes, LengthBlock, Be64, Xor, KeyStream;
    JobAbsorbsMemory(c, k, dt, a, m);
    WirePad(dt, a);
    WirePad(dt, if c.decrypt then m else Crypt(k, dt, c.ctr, m));
    CryptIsGctr(k, dt, c.ctr, m);
  }

  // What the payload phase writes: the blocks, and for a partial last block of an
  // encryption the way through counter mode and back with its ciphertext.
  function PayloadWrites(k: Key, dt: DataType, decrypt: bool, ctr: nat, m: Bytes): seq<Event> {
    var q := |m| / 16;
    if m == [] then []
    else if decrypt || |m| % 16 == 0 then [SetPhase(Payload)] + Writes(Pad(m))
    else [SetPhase(Payload)] + Writes(m[..16 * q]) + [SetChain(AesCore.Ctr)] + Writes(Pad(m[16 * q..]))
         + [SetChain(Gcm), SetPhase(Final)] + Writes(Pad(Crypt(k, dt, ctr + q, m[16 * q..])))
  }

  lemma PayloadLog(c: Core, k: Key, m: Bytes)
    requires m != []
    ensures PayloadDone(PayloadStart(c, false), k, m).log
         == c.log + PayloadWrites(k, c.dt, c.decrypt, c.ctr, m)
  {
    hide Wire, Pad, Crypt, Writes, Blocks;
    if c.decrypt || |m| % 16 == 0 {
      assert c.log + [SetPhase(Payload)] + Writes(Pad(m)) == c.log + ([SetPhase(Payload)] + Writes(Pad(m)));
    } else {
      var q := |m| / 16;
      var s, f := PayloadStart(c, false), Fed(PayloadStart(c, false), k, q, m[..16 * q]);
      assert WholeBlocks(m) == m[..16 * q] && Tail(m) == m[16 * q..];
      hide WholeBlocks, Tail;
      FedKeeps(s, k, q, m[..16 * q]);
      var w, t, e := Writes(m[..16 * q]), Writes(Pad(m[16 * q..])), Writes(Pad(Crypt(k, c.dt, c.ctr + q, m[16 * q..])));
      assert f.log == c.log + [SetPhase(Payload)] + w;
      hide Fed;
      JoinSix(c.log, [SetPhase(Payload)], w, [SetChain(AesCore.Ctr)], t, [SetChain(Gcm), SetPhase(Final)], e);
    }
  }

  lemma JoinSix(l: seq<Event>, a: seq<Event>, b: seq<Event>, c: seq<Event>, d: seq<Event>, e: seq<Event>, f: seq<Event>)
    ensures l + a + b + c + d + e + f == l + (a + b + c + d + e + f)
  {
  }

  // Everything a job writes, in order: the phase selections with the padded header,
  // the payload and the lengths.
  lemma JobWrites(c: Core, k: Key, dt: DataType, a: Bytes, m: Bytes)
    ensures exists l :: LengthsWritten(dt, |a|, |m|, l)
                        && JobDone(c, k, dt, a, m).log
                           == c.log + [SetPhase(Header)] + Writes(Pad(a))
                              + PayloadWrites(k, dt, c.decrypt, c.ctr, m) + [SetPhase(Final)] + l
  {
    hide Wire, Pad, Crypt, Writes, LengthBlock, LengthsWritten, PayloadDone;
    var l, h := Writes(LengthBlock(dt, |a|, |m|)), HeaderDone(c, k, dt, a);
    LengthWrites(dt, |a|, |m|);
    if m == [] {
      assert PayloadWrites(k, dt, c.decrypt, c.ctr, m) == [];
    } else {
      PayloadLog(h, k, m);
    }
  }

  function Absorbed(c: Core, k: Key, dt: DataType, a: Bytes, m: Bytes): Bytes {
    var y := if c.decrypt then m else Crypt(k, dt, c.ctr, m);
    Wire(dt, Pad(a)) + Wire(dt, Pad(y)) + Be64(8 * |a|) + Be64(8 * |m|)
  }

  // The same for all lengths, in memory order: each padded buffer goes through
  // the swapping stage.
  lemma JobAbsorbsMemory(c: Core, k: Key, dt: DataType, a: Bytes, m: Bytes)
    requires c.ghash == []
    ensures JobDone(c, k, dt, a, m).ghash == Absorbed(c, k, dt, a, m)
  {
    hide Wire, Pad, Crypt, LengthBlock, Be64, MessageDone, Writes;
    MessageAbsorbs(c, k, dt, a, m);
    LengthBlockWire(dt, |a|, |m|);
    var g, l := MessageDone(c, k, dt, a, m).ghash, Be64(8 * |a|) + Be64(8 * |m|);
    assert JobDone(c, k, dt, a, m).ghash == g + l;
    assert g + l == g + Be64(8 * |a|) + Be64(8 * |m|);
  }

  lemma MessageAbsorbs(c: Core, k: Key, dt: DataType, a: Bytes, m: Bytes)
    requires c.ghash == []
    ensures var y, p := if c.decrypt then m else Crypt(k, dt, c.ctr, m), MessageDone(c, k, dt, a, m);
            p.ghash == Wire(dt, Pad(a)) + Wire(dt, Pad(y)) && p.dt == dt
  {
    hide Wire, Pad, Crypt, Writes, PayloadDone;
    assert [] + Wire(dt, Pad(a)) == Wire(dt, Pad(a));
    if m == [] {
      NothingPadded(dt);
    } else {
      PayloadAbsorbs(PayloadStart(HeaderDone(c, k, dt, a), false), k, m);
    }
  }

  lemma NothingPadded(dt: DataType)
    ensures Wire(dt, Pad([])) == []
  {
  }

  // Encrypting twice with the same keystream gives the data back.
  lemma CryptTwice(k: Key, dt: DataType, c: nat, m: Bytes)
    ensures Crypt(k, dt, c, Crypt(k, dt, c, m)) == m
  {
    hide Mask;
  }

  // A decryption of what an encryption put out gives the message back and makes
  // GHASH absorb the same, so that the tags agree.
  lemma DecryptsBack(c: Core, d: Core, k: Key, dt: DataType, a: Bytes, m: Bytes)
    requires c.ghash == d.ghash == [] && c.ctr == d.ctr && !c.decrypt && d.decrypt
    ensures var e := Crypt(k, dt, c.ctr, m);
            Crypt(k, dt, d.ctr, e) == m && JobDone(d, k, dt, a, e).ghash == JobDone(c, k, dt, a, m).ghash
  {
    hide JobDone, Crypt, Wire, Pad, Be64;
    CryptTwice(k, dt, c.ctr, m);
    JobAbsorbsMemory(c, k, dt, a, m);
    JobAbsorbsMemory(d, k, dt, a, Crypt(k, dt, c.ctr, m));
  }

  /* ------------------------ the header phase skipped ------------------------ */

  // The core after a job that goes from the initialisation to the payload, or to
  // the final phase.
  function SkipDone(c: Core, k: Key, dt: DataType, m: Bytes): Core {
    var p := if m == [] then c else PayloadDone(PayloadStart(c, true), k, m);
    FinalDone(FinalStart(p, m == []), dt, 0, |m|)
  }

  // Before the final phase the core is idle and has fuel left.
  lemma SkipPhases(c: Core, k: Key, m: Bytes)
    requires Idle(c) && c.fuel >= Cost(|m|, !c.decrypt) + 1
    ensures var p := PayloadDone(PayloadStart(c, true), k, m);
            Idle(p) && p.en && p.fuel >= 1 && p.dt == c.dt
  {
    hide Crypt, Wire, Writes, Pad;
    if !c.decrypt && |m| % 16 != 0 {
    } else {
      assert Cost(|m|, !c.decrypt) == Blocks(|m|);
    }
  }

  // Everything goes through the swapping stage as the core has it.
  lemma SkippedAbsorbs(c: Core, k: Key, dt: DataType, m: Bytes)
    requires c.ghash == []
    ensures var y := if c.decrypt then m else Crypt(k, c.dt, c.ctr, m);
            SkipDone(c, k, dt, m).ghash == Wire(c.dt, Pad(y)) + Wire(c.dt, LengthBlock(dt, 0, |m|))
  {
    hide Wire, Pad, Crypt, Writes, LengthBlock, PayloadDone;
    if m == [] {
      NothingPadded(c.dt);
    } else {
      PayloadAbsorbs(PayloadStart(c, true), k, m);
      var y := if c.decrypt then m else Crypt(k, c.dt, c.ctr, m);
      assert [] + Wire(c.dt, Pad(y)) == Wire(c.dt, Pad(y));
    }
  }

  // Only the header phase writes the data type to the control register; before
  // it the register says 32 bits.  With the header phase skipped the core
  // receives the lengths, of no header and any payload, exactly when that is the
  // data type.
  lemma SkippedHeader(dt: DataType)
    ensures (forall p: nat :: Wire(Bits32, LengthBlock(dt, 0, p)) == Be64(0) + Be64(8 * p)) <==> dt == Bits32
  {
    if dt == Bits32 {
      forall p: nat
        ensures Wire(Bits32, LengthBlock(dt, 0, p)) == Be64(0) + Be64(8 * p)
      {
        LengthBlockWire(dt, 0, p);
      }
    } else {
      SkippedOne(dt);
    }
  }

  lemma Eight()
    ensures Le32(8) == [8, 0, 0, 0]
  {
    assert Octet(8) == 8 && Octet(0) == 0;
    hide Octet;
    assert 8 / 256 == 0 / 256 == 0;
  }

  // A payload of one byte.
  lemma SkippedOne(dt: DataType)
    requires dt != Bits32
    ensures Wire(Bits32, LengthBlock(dt, 0, 1)) != Be64(0) + Be64(8 * 1)
  {
    Eight();
    Rev8Facts(0, 0);
    hide Rev8, Le32;
    var b := LengthBlock(dt, 0, 1);
    assert b[12] == Swapped(dt, Le32(8))[0] == 0;
    assert Wire(Bits32, b)[15] == WireByte(Bits32, b, 15) == b[12];
    assert (Be64(0) + Be64(8))[15] == Be64(8)[7] == 8;
  }

  // And what it puts out is the counter mode of the data type, for all keys and
  // payloads, exactly when that is 32 bits.
  lemma SkippedPayload(dt: DataType)
    ensures (forall k: Key, c: nat, m: Bytes | Aligned(dt, |m|) ::
               Wire(dt, Crypt(k, Bits32, c, m)) == Xor(Wire(dt, m), KeyStream(k, c, |m|))) <==> dt == Bits32
  {
    hide Wire, Crypt, Xor, KeyStream;
    if dt == Bits32 {
      forall k: Key, c: nat, m: Bytes | Aligned(dt, |m|)
        ensures Wire(dt, Crypt(k, Bits32, c, m)) == Xor(Wire(dt, m), KeyStream(k, c, |m|))
      {
        CryptIsGctr(k, dt, c, m);
      }
    } else {
      SkippedBlock(dt);
    }
  }

  // A block of zeros, and a keystream whose fourth bytes are 1.
  function FourthOne(): Key {
    Key((_, j) => if j == 3 then 1 else 0, (_, _) => 0)
  }

  lemma FourthOneMask()
    ensures Mask(FourthOne(), Bits32, 0, 0) == 1
  {
  }

  lemma FirstByteOne(m: Bytes)
    requires m == Zeros(16)
    ensures Crypt(FourthOne(), Bits32, 0, m)[0] == 1
  {
    FourthOneMask();
    hide Mask, FourthOne;
  }

  // Where the first byte in memory goes, the keystream is 0.
  lemma FirstByteGoes(dt: DataType)
    requires dt != Bits32
    ensures Peer(dt, 0) < 16 && Peer(dt, Peer(dt, 0)) == 0 && KeyStream(FourthOne(), 0, 16)[Peer(dt, 0)] == 0
  {
  }

  lemma SkippedBlock(dt: DataType)
    requires dt != Bits32
    ensures exists k: Key, m: Bytes | |m| == 16 ::
              Wire(dt, Crypt(k, Bits32, 0, m)) != Xor(Wire(dt, m), KeyStream(k, 0, 16))
  {
    var k, m, i := FourthOne(), Zeros(16), Peer(dt, 0);
    FirstByteOne(m);
    FirstByteGoes(dt);
    BitOne(dt);
    BitFacts(dt, 0, 0);
    hide Peer, Bit, Mask, Crypt, KeyStream, FourthOne;
    var e := Crypt(k, Bits32, 0, m);
    assert Wire(dt, e)[i] == WireByte(dt, e, i) == Bit(dt, 1);
    assert Wire(dt, m)[i] == WireByte(dt, m, i) == 0;
    assert Xor(Wire(dt, m), KeyStream(k, 0, 16))[i] == Xor8(0, 0) == 0;
  }
}
