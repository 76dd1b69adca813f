// The interrupt flag fields of the streams of a DMA controller, as chosen by
// DMA_CalcBaseAndBitshift, and the clear writes of HAL_DMA_IRQHandler,
// HAL_DMA_PollForTransfer and the start and abort functions.
module DmaFlags {

  datatype Location = Location(index: nat, base: nat)

  // The registers of stream n of the controller at address c.
  function Instance(c: nat, n: nat): nat {
    c + 16 + 24 * n
  }

  // DMA_CalcBaseAndBitshift.
  function CalcBaseAndBitshift(instance: nat): Location
    requires 16 <= instance % 256 < 208
  {
    var stream := (instance % 256 - 16) / 24;
    var offsets := [0, 6, 16, 22, 0, 6, 16, 22];
    var low := instance - instance % 1024;
    Location(offsets[stream], if stream > 3 then low + 4 else low)
  }

  lemma FindsStream(c: nat, n: nat)
    requires c % 1024 == 0 && n < 8
    ensures 16 <= Instance(c, n) % 256 < 208
    ensures CalcBaseAndBitshift(Instance(c, n))
         == Location([0, 6, 16, 22][n % 4], if n > 3 then c + 4 else c)
    ensures CalcBaseAndBitshift(Instance(c, n)).index == Shift(n) as nat
  {
    Residues(c, 16 + 24 * n);
  }

  lemma Residues(c: nat, x: nat)
    requires c % 1024 == 0 && x < 256
    ensures (c + x) % 256 == x && (c + x) % 1024 == x
  {
    var d := c / 1024;
    assert c == 1024 * d;
    Low256(4 * d, x);
    Low1024(d, x);
  }

  lemma Low256(q: nat, x: nat)
    requires x < 256
    ensures (256 * q + x) % 256 == x
  {
  }

  lemma Low1024(q: nat, x: nat)
    requires x < 1024
    ensures (1024 * q + x) % 1024 == x
  {
  }

  // Position of a stream's field in its status and clear registers.
  function Shift(n: nat): bv32
    requires n < 8
  {
    match n % 4 case 0 => 0 case 1 => 6 case 2 => 16 case _ => 22
  }

  datatype Flag = FE | DME | TE | HT | TC

  // The constants of the header, for stream 0.
  function Constant(f: Flag): bv32 {
    match f
    case FE => 0x00800001
    case DME => 0x00800004
    case TE => 0x00000008
    case HT => 0x00000010
    case TC => 0x00000020
  }

  // The bit the flag of stream 0 occupies.
  function Bit(f: Flag): bv32 {
    match f
    case FE => 0x01
    case DME => 0x04
    case TE => 0x08
    case HT => 0x10
    case TC => 0x20
  }

  const ALL: bv32 := 0x3F
  const FLAGS: bv32 := 0x3D

  // All the flags a status register holds; the other bits are reserved.
  const IMPLEMENTED: bv32 := 0x0F7D0F7D

  function FlagOf(n: nat, f: Flag): bv32
    requires n < 8
  {
    Bit(f) << Shift(n)
  }

  function FieldOf(n: nat): bv32
    requires n < 8
  {
    FLAGS << Shift(n)
  }

  // What the code tests and clears for flag f of stream n, and for all its flags.
  function Word(n: nat, f: Flag): bv32
    requires n < 8
  {
    Constant(f) << Shift(n)
  }

  function AllWord(n: nat): bv32
    requires n < 8
  {
    ALL << Shift(n)
  }

  // A clear register write x to status s.
  function Cleared(s: bv32, x: bv32): bv32 {
    s & !x
  }

  // The bits m of s.
  function Of(s: bv32, m: bv32): bv32 {
    s & m
  }

  // The flags are where the header has them for the streams of a register, but for the
  // stray bits.
  lemma HeaderBits(n: nat)
    requires n < 8
    ensures FlagOf(n, FE) == [0x1, 0x40, 0x1_0000, 0x40_0000][n % 4]
    ensures FlagOf(n, DME) == [0x4, 0x100, 0x4_0000, 0x100_0000][n % 4]
    ensures FlagOf(n, TE) == [0x8, 0x200, 0x8_0000, 0x200_0000][n % 4]
    ensures FlagOf(n, HT) == [0x10, 0x400, 0x10_0000, 0x400_0000][n % 4]
    ensures FlagOf(n, TC) == [0x20, 0x800, 0x20_0000, 0x800_0000][n % 4]
  {
  }

  // The fields of the four streams of a register are disjoint and together they
  // are the implemented bits.
  lemma FieldsPartition(i: nat, j: nat)
    requires i < 4 && j < 4 && i != j
    ensures Of(FieldOf(i), FieldOf(j)) == 0
    ensures FieldOf(0) | FieldOf(1) | FieldOf(2) | FieldOf(3) == IMPLEMENTED
  {
  }

  // A header constant shifted to its stream tests and clears, among the
  // implemented bits, exactly the stream's flag, although two of the constants
  // carry a stray bit 23.
  lemma ConstantHitsFlag(n: nat, f: Flag)
    requires n < 8
    ensures Of(Word(n, f), IMPLEMENTED) == FlagOf(n, f)
  {
  }

  lemma AllHitsField(n: nat)
    requires n < 8
    ensures Of(AllWord(n), IMPLEMENTED) == FieldOf(n)
  {
  }

  lemma FlagsDisjoint(i: nat, j: nat, f: Flag, g: Flag)
    requires i < 4 && j < 4 && (i != j || f != g)
    ensures Of(FlagOf(i, f), FlagOf(j, g)) == 0
  {
  }

  // Only the implemented bits y of a clear write x matter to flags m.
  lemma ClearEffect(s: bv32, x: bv32, y: bv32, m: bv32)
    requires Of(s, IMPLEMENTED) == s && Of(x, IMPLEMENTED) == y
    ensures Of(y, m) == 0 ==> Of(Cleared(s, x), m) == Of(s, m)
    ensures y == m ==> Of(Cleared(s, x), m) == 0
  {
  }

  // Clearing a flag, or all flags, of stream i leaves the flags of stream j of
  // the same register as they were and, of stream i, the other flags.
  lemma ClearIsLocal(s: bv32, i: nat, j: nat, f: Flag, g: Flag)
    requires i < 4 && j < 4 && Of(s, IMPLEMENTED) == s
    ensures Of(Cleared(s, Word(i, f)), FlagOf(i, f)) == 0
    ensures i != j || f != g ==> Of(Cleared(s, Word(i, f)), FlagOf(j, g)) == Of(s, FlagOf(j, g))
    ensures Of(Cleared(s, AllWord(i)), FieldOf(i)) == 0
    ensures i != j ==> Of(Cleared(s, AllWord(i)), FieldOf(j)) == Of(s, FieldOf(j))
  {
    hide FlagOf, FieldOf, Cleared, Word, AllWord, Of;
    ConstantHitsFlag(i, f);
    AllHitsField(i);
    ClearEffect(s, Word(i, f), FlagOf(i, f), FlagOf(i, f));
    ClearEffect(s, Word(i, f), FlagOf(i, f), FlagOf(j, g));
    ClearEffect(s, AllWord(i), FieldOf(i), FieldOf(i));
    ClearEffect(s, AllWord(i), FieldOf(i), FieldOf(j));
    if i != j {
      FieldsPartition(i, j);
    }
    if i != j || f != g {
      FlagsDisjoint(i, j, f, g);
    }
  }

  /* ------------------- the flags of a stream as a set ------------------- */

  // The flags of stream n that status register s shows.
  function FlagsOf(n: nat, s: bv32): set<Flag>
    requires n < 8
  {
    (if Of(s, FlagOf(n, FE)) != 0 then {FE} else {}) + (if Of(s, FlagOf(n, DME)) != 0 then {DME} else {})
    + (if Of(s, FlagOf(n, TE)) != 0 then {TE} else {}) + (if Of(s, FlagOf(n, HT)) != 0 then {HT} else {})
    + (if Of(s, FlagOf(n, TC)) != 0 then {TC} else {})
  }

  lemma ShowsFlag(n: nat, s: bv32, g: Flag)
    requires n < 8
    ensures g in FlagsOf(n, s) <==> Of(s, FlagOf(n, g)) != 0
  {
    hide Of, FlagOf;
  }

  // Removing a flag from the set of its stream is what the clear write for it does
  // to the register, and removing nothing is what it does to the other streams.
  lemma ClearRemoves(s: bv32, i: nat, j: nat, f: Flag)
    requires i < 4 && j < 4 && Of(s, IMPLEMENTED) == s
    ensures FlagsOf(j, Cleared(s, Word(i, f))) == if i == j then FlagsOf(j, s) - {f} else FlagsOf(j, s)
  {
    hide Of, FlagOf, FieldOf, Cleared, Word, AllWord, FlagsOf;
    var c := Cleared(s, Word(i, f));
    forall g: Flag
      ensures g in FlagsOf(j, c) <==> g in FlagsOf(j, s) && !(i == j && g == f)
    {
      ClearIsLocal(s, i, j, f, g);
      ShowsFlag(j, s, g);
      ShowsFlag(j, c, g);
    }
  }

  lemma FlagInField(n: nat, g: Flag)
    requires n < 8
    ensures Of(FieldOf(n), FlagOf(n, g)) == FlagOf(n, g)
  {
    BitInFlags(g);
    ShiftedWithin(FLAGS, Bit(g), Shift(n));
  }

  lemma BitInFlags(g: Flag)
    ensures Of(FLAGS, Bit(g)) == Bit(g)
  {
  }

  lemma ShiftedWithin(a: bv32, b: bv32, k: bv32)
    requires Of(a, b) == b && k < 32
    ensures Of(a << k, b << k) == b << k
  {
  }

  // Registers that agree on bits f agree on bits m among them.
  lemma Narrower(s: bv32, t: bv32, f: bv32, m: bv32)
    requires Of(f, m) == m && Of(s, f) == Of(t, f)
    ensures Of(s, m) == Of(t, m)
  {
  }

  lemma NoBits(m: bv32)
    ensures Of(0, m) == 0
  {
  }

  lemma ClearAllRemoves(s: bv32, i: nat, j: nat)
    requires i < 4 && j < 4 && Of(s, IMPLEMENTED) == s
    ensures FlagsOf(j, Cleared(s, AllWord(i))) == if i == j then {} else FlagsOf(j, s)
  {
    hide Of, FlagOf, FieldOf, Cleared, Word, AllWord, FlagsOf;
    var c := Cleared(s, AllWord(i));
    ClearIsLocal(s, i, j, FE, FE);
    forall g: Flag
      ensures g in FlagsOf(j, c) <==> g in FlagsOf(j, s) && i != j
    {
      ShowsFlag(j, s, g);
      ShowsFlag(j, c, g);
      FlagInField(j, g);
      NoBits(FieldOf(j));
      NoBits(FlagOf(j, g));
      Narrower(c, if i == j then 0 else s, FieldOf(j), FlagOf(j, g));
    }
  }
}
