// HAL_CRYPEx_AES and HAL_CRYPEx_AES_IT for the ECB, CBC and CTR modes, with
// suspension requests, and the functions that save and restore the
// initialisation vector, key and control registers around a suspension.  The
// cipher step is uninterpreted; buffers are sequences of 32-bit words, so that
// a pointer advance of 16 bytes is one of 4 words; counters are in bytes.
module AesBlocks {

  type Word = bv32

  datatype Iv = Iv(w3: Word, w2: Word, w1: Word, w0: Word)

  datatype Key = Key(k7: Word, k6: Word, k5: Word, k4: Word, k3: Word, k2: Word, k1: Word, k0: Word)

  // wide: 256-bit keys; mode: the operating and chaining modes and the data type.
  datatype Control = Control(en: bool, ccfie: bool, wide: bool, mode: nat)

  datatype Regs = Regs(cr: Control, key: Key, iv: Iv)

  datatype Block = Block(a: Word, b: Word, c: Word, d: Word)

  // One computation: the next initialisation vector and the output block.
  datatype Cipher = Cipher(next: (Control, Key, Iv, Block) -> Iv, out: (Control, Key, Iv, Block) -> Block)

  datatype State = Ready | Busy | Suspended
  datatype Status = OK | ERROR | BUSY | TIMEOUT

  function Rev(w: Word): Word {
    (w << 24) | ((w & 0xFF00) << 8) | ((w >> 8) & 0xFF00) | (w >> 24)
  }

  lemma RevTwice(w: Word)
    ensures Rev(Rev(w)) == w
  {
  }

  // The bytes of v are those of w in the opposite order.
  predicate Mirrors(v: Word, w: Word) {
    v & 0xFF == w >> 24 && (v >> 8) & 0xFF == (w >> 16) & 0xFF
    && (v >> 16) & 0xFF == (w >> 8) & 0xFF && v >> 24 == w & 0xFF
  }

  lemma RevMirrors(w: Word)
    ensures Mirrors(Rev(w), w)
  {
  }

  // What a computation depends on: the configuration without the enable bits,
  // and with a 128-bit key only the low four key words.
  function Setting(cr: Control): Control {
    cr.(en := true, ccfie := false)
  }

  function Effective(cr: Control, k: Key): Key {
    if cr.wide then k else k.(k7 := 0, k6 := 0, k5 := 0, k4 := 0)
  }

  function BlockAt(m: seq<Word>): Block
    requires |m| >= 4
  {
    Block(m[0], m[1], m[2], m[3])
  }

  function WordsOf(b: Block): (w: seq<Word>)
    ensures |w| == 4
  {
    [b.a, b.b, b.c, b.d]
  }

  function NextIv(f: Cipher, r: Regs, b: Block): Iv {
    f.next(Setting(r.cr), Effective(r.cr, r.key), r.iv, b)
  }

  function Result(f: Cipher, r: Regs, b: Block): Block {
    f.out(Setting(r.cr), Effective(r.cr, r.key), r.iv, b)
  }

  // The registers after one block.
  function Advance(f: Cipher, r: Regs, b: Block): Regs {
    r.(iv := NextIv(f, r, b))
  }

  // The registers after the first n blocks of m, and their output.
  function After(f: Cipher, r: Regs, m: seq<Word>, n: nat): (q: Regs)
    requires 4 * n <= |m|
    ensures q.cr == r.cr && q.key == r.key
  {
    if n == 0 then r
    else var q := After(f, r, m, n - 1); Advance(f, q, BlockAt(m[4 * (n - 1)..]))
  }

  function Output(f: Cipher, r: Regs, m: seq<Word>, n: nat): (o: seq<Word>)
    requires 4 * n <= |m|
    ensures |o| == 4 * n
  {
    if n == 0 then []
    else Output(f, r, m, n - 1) + WordsOf(Result(f, After(f, r, m, n - 1), BlockAt(m[4 * (n - 1)..])))
  }

  lemma StartsEmpty(f: Cipher, r: Regs, m: seq<Word>)
    ensures After(f, r, m, 0) == r && Output(f, r, m, 0) == []
  {
  }

  // w is what the cipher puts out for block j of m, and the next vector what it says, under
  // the configuration, the key words in use and the vector the blocks before have left.
  predicate Computes(f: Cipher, r: Regs, m: seq<Word>, j: nat, w: seq<Word>)
    requires 4 * j + 4 <= |m|
  {
    var cr, b := r.cr.(en := true, ccfie := false), Block(m[4 * j], m[4 * j + 1], m[4 * j + 2], m[4 * j + 3]);
    var k := if r.cr.wide then r.key else r.key.(k7 := 0, k6 := 0, k5 := 0, k4 := 0);
    var v := After(f, r, m, j).iv;
    var o := f.out(cr, k, v, b);
    w == [o.a, o.b, o.c, o.d] && After(f, r, m, j + 1).iv == f.next(cr, k, v, b) && (j == 0 ==> v == r.iv)
  }

  lemma LastComputes(f: Cipher, r: Regs, m: seq<Word>, j: nat)
    requires 4 * j + 4 <= |m|
    ensures Computes(f, r, m, j, Output(f, r, m, j + 1)[4 * j..])
    ensures Output(f, r, m, j + 1)[..4 * j] == Output(f, r, m, j)
  {
  }

  lemma {:induction false} OutputAt(f: Cipher, r: Regs, m: seq<Word>, n: nat, j: nat)
    requires 4 * n <= |m| && j < n
    ensures Computes(f, r, m, j, Output(f, r, m, n)[4 * j..4 * j + 4])
    decreases n
  {
    hide Computes, Result, WordsOf, BlockAt;
    LastComputes(f, r, m, n - 1);
    var o := Output(f, r, m, n);
    if j == n - 1 {
      assert o[4 * j..4 * j + 4] == o[4 * j..];
    } else {
      OutputAt(f, r, m, n - 1, j);
      assert o[..4 * (n - 1)][4 * j..4 * j + 4] == o[4 * j..4 * j + 4];
    }
  }

  // Interrupting a message after k blocks and going on from the registers then.
  lemma {:induction false} RunSplits(f: Cipher, r: Regs, m: seq<Word>, k: nat, n: nat)
    requires 4 * (k + n) <= |m|
    ensures After(f, r, m, k + n) == After(f, After(f, r, m, k), m[4 * k..], n)
    ensures Output(f, r, m, k + n) == Output(f, r, m, k) + Output(f, After(f, r, m, k), m[4 * k..], n)
  {
    hide Advance, Result, BlockAt, WordsOf;
    if n > 0 {
      RunSplits(f, r, m, k, n - 1);
      var s, t := After(f, r, m, k), m[4 * k..];
      assert t[4 * (n - 1)..] == m[4 * (k + n - 1)..];
      assert After(f, r, m, k + n) == Advance(f, After(f, r, m, k + n - 1), BlockAt(m[4 * (k + n - 1)..]));
    }
  }

  // Registers that compute the same.
  predicate Alike(r: Regs, s: Regs) {
    Setting(r.cr) == Setting(s.cr) && Effective(r.cr, r.key) == Effective(s.cr, s.key) && r.iv == s.iv
  }

  // They agree in the configuration, the vector and the low key words, and with a wide key
  // in the high ones.
  lemma AlikeMeans(r: Regs, s: Regs)
    ensures Alike(r, s) <==>
            r.cr.wide == s.cr.wide && r.cr.mode == s.cr.mode && r.iv == s.iv
            && r.key.k3 == s.key.k3 && r.key.k2 == s.key.k2 && r.key.k1 == s.key.k1 && r.key.k0 == s.key.k0
            && (r.cr.wide ==> r.key.k7 == s.key.k7 && r.key.k6 == s.key.k6
                              && r.key.k5 == s.key.k5 && r.key.k4 == s.key.k4)
  {
  }

  lemma AlikeStep(f: Cipher, r: Regs, s: Regs, b: Block)
    requires Alike(r, s)
    ensures Alike(Advance(f, r, b), Advance(f, s, b)) && Result(f, r, b) == Result(f, s, b)
  {
  }

  lemma {:induction false} AlikeRuns(f: Cipher, r: Regs, s: Regs, m: seq<Word>, n: nat)
    requires Alike(r, s) && 4 * n <= |m|
    ensures Alike(After(f, r, m, n), After(f, s, m, n))
    ensures Output(f, r, m, n) == Output(f, s, m, n)
  {
    hide Alike, Advance, Result, BlockAt, WordsOf;
    if n > 0 {
      AlikeRuns(f, r, s, m, n - 1);
      AlikeStep(f, After(f, r, m, n - 1), After(f, s, m, n - 1), BlockAt(m[4 * (n - 1)..]));
    }
  }

  // Blocks processed before a call stops: all n, or those up to the first, but
  // not the last, at whose end a suspension request is pending.  raised(i): a
  // request is made while block i is processed.
  function Halt(pending: bool, raised: nat -> bool, i: nat, n: nat): (h: nat)
    requires i < n
    ensures i < h <= n
    decreases n - i
  {
    if i + 1 == n then n
    else if pending || raised(i) then i + 1
    else Halt(false, raised, i + 1, n)
  }

  // Whether a request is pending when a call that was not suspended ends.
  predicate Pending(pending: bool, raised: nat -> bool, n: nat)
    requires n > 0
  {
    raised(n - 1) || (n == 1 && pending)
  }

  function Put(s: seq<Word>, p: nat, w: seq<Word>): (r: seq<Word>)
    ensures |r| == |s|
  {
    if p + |w| <= |s| then s[..p] + w + s[p + |w|..] else s
  }

  lemma PutNext(s: seq<Word>, p: nat, a: seq<Word>, b: seq<Word>)
    requires p + |a| + |b| <= |s|
    ensures Put(Put(s, p, a), p + |a|, b) == Put(s, p, a + b)
  {
  }

  lemma PutNothing(s: seq<Word>, p: nat)
    ensures Put(s, p, []) == s
  {
  }

  // The computation-complete interrupt disabled.
  function Quiet(r: Regs): Regs {
    r.(cr := r.cr.(ccfie := false))
  }

  function SavedIv(iv: Iv): seq<Word> {
    [Rev(iv.w3), Rev(iv.w2), Rev(iv.w1), Rev(iv.w0)]
  }

  function LoadedIv(s: seq<Word>): Iv
    requires |s| == 4
  {
    Iv(Rev(s[0]), Rev(s[1]), Rev(s[2]), Rev(s[3]))
  }

  function SavedKey(wide: bool, k: Key): (s: seq<Word>)
    ensures |s| == if wide then 8 else 4
  {
    (if wide then [Rev(k.k7), Rev(k.k6), Rev(k.k5), Rev(k.k4)] else [])
    + [Rev(k.k3), Rev(k.k2), Rev(k.k1), Rev(k.k0)]
  }

  function LoadedKey(wide: bool, s: seq<Word>, k: Key): Key
    requires |s| == if wide then 8 else 4
  {
    if wide then Key(Rev(s[0]), Rev(s[1]), Rev(s[2]), Rev(s[3]), Rev(s[4]), Rev(s[5]), Rev(s[6]), Rev(s[7]))
    else k.(k3 := Rev(s[0]), k2 := Rev(s[1]), k1 := Rev(s[2]), k0 := Rev(s[3]))
  }

  // Saved registers load back: the vector exactly, the key in all the words a
  // key of its size uses.
  lemma IvLoads(iv: Iv)
    ensures LoadedIv(SavedIv(iv)) == iv
  {
    hide Rev;
    RevTwice(iv.w3);
    RevTwice(iv.w2);
    RevTwice(iv.w1);
    RevTwice(iv.w0);
  }

  lemma KeyWords(wide: bool, k: Key, over: Key)
    ensures LoadedKey(wide, SavedKey(wide, k), over)
         == if wide then k else over.(k3 := k.k3, k2 := k.k2, k1 := k.k1, k0 := k.k0)
  {
    hide Rev;
    RevTwice(k.k7);
    RevTwice(k.k6);
    RevTwice(k.k5);
    RevTwice(k.k4);
    RevTwice(k.k3);
    RevTwice(k.k2);
    RevTwice(k.k1);
    RevTwice(k.k0);
  }

  lemma KeyLoads(cr: Control, k: Key, over: Key)
    ensures Effective(cr, LoadedKey(cr.wide, SavedKey(cr.wide, k), over)) == Effective(cr, k)
  {
    hide Rev, LoadedKey, SavedKey;
    KeyWords(cr.wide, k, over);
  }

  lemma KeyMirrors(k: Key)
    ensures Mirrors(Rev(k.k7), k.k7) && Mirrors(Rev(k.k6), k.k6) && Mirrors(Rev(k.k5), k.k5) && Mirrors(Rev(k.k4), k.k4)
    ensures Mirrors(Rev(k.k3), k.k3) && Mirrors(Rev(k.k2), k.k2) && Mirrors(Rev(k.k1), k.k1) && Mirrors(Rev(k.k0), k.k0)
  {
    hide Rev, Mirrors;
    RevMirrors(k.k7);
    RevMirrors(k.k6);
    RevMirrors(k.k5);
    RevMirrors(k.k4);
    RevMirrors(k.k3);
    RevMirrors(k.k2);
    RevMirrors(k.k1);
    RevMirrors(k.k0);
  }

  lemma AlikeSelf(r: Regs)
    ensures Alike(r, r)
  {
  }

  lemma AlikeTwice(a: Regs, b: Regs, c: Regs)
    requires Alike(a, b) && Alike(b, c)
    ensures Alike(a, c)
  {
  }

  // A call on the rest of a message, from registers like those it stopped with.
  lemma CallSplits(f: Cipher, q: Regs, r: Regs, m: seq<Word>, done: nat, h: nat)
    requires 4 * (done + h) <= |m| && Alike(q, After(f, r, m, done))
    ensures Alike(After(f, q, m[4 * done..], h), After(f, r, m, done + h))
    ensures Output(f, r, m, done + h) == Output(f, r, m, done) + Output(f, q, m[4 * done..], h)
  {
    RunSplits(f, r, m, done, h);
    AlikeRuns(f, q, After(f, r, m, done), m[4 * done..], h);
  }

  class Handle {
    const f: Cipher
    var regs: Regs
    var din: seq<Word>
    var dout: seq<Word>
    var ccf: bool
    // Computations the core still completes.
    var fuel: nat

    var state: State
    var locked: bool
    var suspend: bool
    var inBuf: seq<Word>
    var inPos: nat
    var inCount: nat
    var outBuf: array<Word>
    var outPos: nat
    var outCount: nat
    var completions: nat

    constructor (c: Cipher, r: Regs, n: nat)
      ensures f == c && regs == r && fuel == n && din == dout == [] && !ccf
      ensures state == Ready && !locked && !suspend && completions == 0
    {
      f, regs, fuel, din, dout, ccf := c, r, n, [], [], false;
      state, locked, suspend := Ready, false, false;
      inBuf, inPos, inCount, outPos, outCount, completions := [], 0, 0, 0, 0, 0;
      outBuf := new Word[0];
    }

    predicate Idle()
      reads `regs, `din, `ccf
    {
      regs.cr.en && din == [] && !ccf
    }

    // The handle can take a new call.
    predicate Free()
      reads this
    {
      Idle() && !regs.cr.ccfie && state == Ready && !locked
    }

    method WriteDin(w: Word)
      requires regs.cr.en && |din| < 4
      modifies `regs, `din, `dout, `ccf, `fuel
      ensures |old(din)| < 3 ==>
                din == old(din) + [w] && regs == old(regs) && dout == old(dout) && ccf == old(ccf) && fuel == old(fuel)
      ensures |old(din)| == 3 && old(fuel) == 0 ==> din == [] && regs == old(regs) && ccf == old(ccf) && fuel == 0
      ensures |old(din)| == 3 && old(fuel) > 0 ==>
                var b := BlockAt(old(din) + [w]);
                din == [] && ccf && fuel == old(fuel) - 1
                && regs == Advance(f, old(regs), b) && dout == WordsOf(Result(f, old(regs), b))
    {
      din := din + [w];
      if |din| == 4 {
        if fuel > 0 {
          var b := BlockAt(din);
          dout := WordsOf(Result(f, regs, b));
          regs := Advance(f, regs, b);
          ccf := true;
          fuel := fuel - 1;
        }
        din := [];
      }
    }

    method EnterBlock(m: seq<Word>, p: nat)
      requires Idle() && p + 4 <= |m|
      modifies `regs, `din, `dout, `ccf, `fuel
      ensures din == [] && (ccf <==> old(fuel) > 0)
      ensures if old(fuel) == 0 then regs == old(regs) && fuel == 0
              else fuel == old(fuel) - 1 && regs == Advance(f, old(regs), BlockAt(m[p..]))
                   && dout == WordsOf(Result(f, old(regs), BlockAt(m[p..])))
    {
      WriteDin(m[p]);
      WriteDin(m[p + 1]);
      WriteDin(m[p + 2]);
      assert din == [m[p], m[p + 1], m[p + 2]];
      assert BlockAt(din + [m[p + 3]]) == BlockAt(m[p..]);
      WriteDin(m[p + 3]);
    }

    method ReadBlock(output: array<Word>, p: nat)
      requires |dout| == 4 && p + 4 <= output.Length
      modifies `dout, output
      ensures output[..] == Put(old(output[..]), p, old(dout)) && dout == []
    {
      output[p], output[p + 1], output[p + 2], output[p + 3] := dout[0], dout[1], dout[2], dout[3];
      dout := [];
    }

    // Block i of message m, entered from registers r; its output goes to buffer
    // s at position q; false if the computation does not complete.
    method Process(input: seq<Word>, p: nat, output: array<Word>, q: nat,
                   ghost r: Regs, ghost m: seq<Word>, ghost s: seq<Word>, ghost to: nat, ghost i: nat)
      returns (ok: bool)
      requires Idle() && p + 4 <= |input| && 4 * i + 4 <= |m| && input[p..] == m[4 * i..]
      requires q == to + 4 * i && q + 4 <= output.Length
      requires regs == After(f, r, m, i) && output[..] == Put(s, to, Output(f, r, m, i))
      modifies `regs, `din, `dout, `ccf, `fuel, output
      ensures ok <==> old(fuel) > 0
      ensures ok ==> Idle() && fuel == old(fuel) - 1
      ensures ok ==> regs == After(f, r, m, i + 1) && output[..] == Put(s, to, Output(f, r, m, i + 1))
    {
      hide BlockAt, WordsOf, Put;
      EnterBlock(input, p);
      if !ccf {
        return false;
      }
      ccf := false;
      PutNext(s, to, Output(f, r, m, i), dout);
      ReadBlock(output, q);
      return true;
    }

    /* ----------------------------- polling ----------------------------- */

    // Suspended, with the pointers and the count that the message resumes from.
    predicate SuspendedAt(input: seq<Word>, p: nat, output: array<Word>, q: nat, left: nat)
      reads this
    {
      state == Suspended && !suspend && inBuf == input && inPos == p && inCount == left
      && outBuf == output && outPos == q
    }

    method Suspend(input: seq<Word>, p: nat, output: array<Word>, q: nat, left: nat)
      modifies `state, `suspend, `inBuf, `inPos, `inCount, `outBuf, `outPos
      ensures SuspendedAt(input, p, output, q, left)
    {
      suspend := false;
      outBuf, outPos := output, q;
      inBuf, inPos := input, p;
      inCount := left;
      state := Suspended;
    }

    // The suspension check at the end of a block.
    method Check(request: bool, input: seq<Word>, p: nat, output: array<Word>, q: nat, index: nat, size: nat)
      returns (halted: bool)
      modifies `state, `suspend, `inBuf, `inPos, `inCount, `outBuf, `outPos
      ensures halted == ((old(suspend) || request) && index + 16 < size)
      ensures if halted then SuspendedAt(input, p, output, q, size - (index + 16))
              else state == old(state) && suspend == (old(suspend) || request)
    {
      if request {
        suspend := true;
      }
      if suspend && index + 16 < size {
        Suspend(input, p, output, q, size - (index + 16));
        return true;
      }
      return false;
    }

    // CRYP_ProcessData on n blocks from input[at..] to output[to..].
    method ProcessData(input: seq<Word>, at: nat, ghost n: nat, size: nat,
                       output: array<Word>, to: nat, raised: nat -> bool) returns (status: Status)
      requires Idle() && n > 0 && size == 16 * n && at + 4 * n <= |input| && to + 4 * n <= output.Length
      requires state == Busy
      modifies `regs, `din, `dout, `ccf, `fuel, `state, `locked, `suspend,
               `inBuf, `inPos, `inCount, `outBuf, `outPos, output
      ensures status == if old(fuel) >= Halt(old(suspend), raised, 0, n) then OK else TIMEOUT
      ensures status == TIMEOUT ==> state == Ready && !locked
      ensures status == OK ==>
                var h := Halt(old(suspend), raised, 0, n);
                Idle() && fuel == old(fuel) - h && locked == old(locked)
                && regs == After(f, old(regs), input[at..], h)
                && output[..] == Put(old(output[..]), to, Output(f, old(regs), input[at..], h))
                && if h < n then SuspendedAt(input, at + 4 * h, output, to + 4 * h, size - 16 * h)
                   else state == Busy && suspend == Pending(old(suspend), raised, n)
    {
      hide After, Output, Put, Idle, SuspendedAt;
      ghost var r, s, m := regs, output[..], input[at..];
      ghost var h := Halt(suspend, raised, 0, n);
      PutNothing(s, to);
      StartsEmpty(f, r, m);
      var index, p, q := 0, at, to;
      ghost var i := 0;
      while index < size
        invariant index == 16 * i && i <= n && p == at + 4 * i && q == to + 4 * i
        invariant Idle() && fuel == old(fuel) - i && state == Busy && locked == old(locked)
        invariant regs == After(f, r, m, i) && output[..] == Put(s, to, Output(f, r, m, i))
        invariant if i < n then h == Halt(suspend, raised, i, n)
                  else h == n && suspend == Pending(old(suspend), raised, n)
        invariant if i == 0 then suspend == old(suspend) else i < n ==> !suspend
        decreases size - index
      {
        assert input[p..] == m[4 * i..];
        assert index / 16 == i;
        var ok := Process(input, p, output, q, r, m, s, to, i);
        p, q := p + 4, q + 4;
        if !ok {
          state, locked := Ready, false;
          return TIMEOUT;
        }
        var halted := Check(raised(index / 16), input, p, output, q, index, size);
        if halted {
          return OK;
        }
        index := index + 16;
        i := i + 1;
      }
      return OK;
    }

    // HAL_CRYPEx_AES for the modes other than key derivation.
    method Aes(input: seq<Word>, at: nat, ghost n: nat, size: nat,
               output: array?<Word>, to: nat, raised: nat -> bool) returns (status: Status)
      requires size == 16 * n && at + 4 * n <= |input| && (output != null ==> to + 4 * n <= output.Length)
      requires state == Ready ==> Idle()
      modifies `regs, `din, `dout, `ccf, `fuel, `state, `locked, `suspend,
               `inBuf, `inPos, `inCount, `outBuf, `outPos, if output == null then {} else {output}
      ensures status == BUSY || status == ERROR ==> unchanged(this)
      ensures old(state) != Ready ==> status == BUSY && state == old(state) && regs == old(regs)
      ensures old(state) == Ready && (output == null || size == 0) ==>
                status == ERROR && state == Ready && regs == old(regs)
      ensures old(state) == Ready && output != null && size != 0 && old(locked) ==>
                status == BUSY && state == Ready && regs == old(regs)
      ensures old(state) == Ready && output != null && size != 0 && !old(locked) ==>
                var h := Halt(old(suspend), raised, 0, n);
                !locked && status == (if old(fuel) >= h then OK else TIMEOUT)
                && (status == TIMEOUT ==> state == Ready)
                && (status == OK ==>
                      Idle() && fuel == old(fuel) - h && regs == After(f, old(regs), input[at..], h)
                      && output[..] == Put(old(output[..]), to, Output(f, old(regs), input[at..], h))
                      && if h < n then SuspendedAt(input, at + 4 * h, output, to + 4 * h, size - 16 * h)
                         else state == Ready && suspend == Pending(old(suspend), raised, n))
    {
      hide After, Output, Put;
      if state == Ready {
        if output == null || size == 0 {
          return ERROR;
        }
        if locked {
          return BUSY;
        }
        locked := true;
        state := Busy;
        status := ProcessData(input, at, n, size, output, to, raised);
        if status != OK {
          return TIMEOUT;
        }
        if state != Suspended {
          state := Ready;
        }
        locked := false;
        return OK;
      } else {
        return BUSY;
      }
    }

    /* ---------------------------- interrupts ---------------------------- */

    // Block i is in flight: its computation is complete and unread.
    ghost predicate InFlight(r: Regs, input: seq<Word>, at: nat, s: seq<Word>, to: nat, n: nat, i: nat)
      requires at + 4 * n <= |input|
      reads this, outBuf
    {
      i < n && to + 4 * n <= |s| == outBuf.Length
      && state == Busy && regs.cr.en && din == [] && ccf && |dout| == 4
      && inBuf == input && inPos == at + 4 * (i + 1) && inCount == 16 * (n - i - 1)
      && outPos == to + 4 * i && outCount == 16 * (n - i)
      && regs == After(f, r, input[at..], i + 1)
      && outBuf[..] == Put(s, to, Output(f, r, input[at..], i))
      && Output(f, r, input[at..], i + 1) == Output(f, r, input[at..], i) + dout
    }

    // The call has ended after h of n blocks.
    ghost predicate Ended(r: Regs, input: seq<Word>, at: nat, s: seq<Word>, to: nat, n: nat, h: nat)
      requires h <= n && at + 4 * n <= |input|
      reads this, outBuf
    {
      Idle() && regs == Quiet(After(f, r, input[at..], h)) && !locked
      && outBuf[..] == Put(s, to, Output(f, r, input[at..], h))
      && if h < n then SuspendedAt(input, at + 4 * h, outBuf, to + 4 * h, 16 * (n - h)) else state == Ready
    }

    // The next block from the input pointer.
    method EnterNext(ghost r: Regs, ghost m: seq<Word>, ghost i: nat)
      requires Idle() && inPos + 4 <= |inBuf| && inCount >= 16 && 4 * i + 4 <= |m| && inBuf[inPos..] == m[4 * i..]
      requires regs == After(f, r, m, i)
      modifies `regs, `din, `dout, `ccf, `fuel, `inPos, `inCount
      ensures inPos == old(inPos) + 4 && inCount == old(inCount) - 16 && din == [] && regs.cr == old(regs).cr
      ensures if old(fuel) == 0 then !ccf
              else ccf && fuel == old(fuel) - 1 && |dout| == 4 && regs == After(f, r, m, i + 1)
                   && Output(f, r, m, i + 1) == Output(f, r, m, i) + dout
    {
      hide BlockAt, WordsOf;
      var p := inPos;
      inPos := inPos + 4;
      inCount := inCount - 16;
      EnterBlock(inBuf, p);
    }

    // The set-up of an interrupt-driven call, and its first block.
    method Launch(input: seq<Word>, at: nat, ghost n: nat, size: nat, output: array<Word>, to: nat)
      requires Idle() && n > 0 && size == 16 * n && at + 4 * n <= |input| && to + 4 * n <= output.Length
      modifies `regs, `din, `dout, `ccf, `fuel, `state,
               `inBuf, `inPos, `inCount, `outBuf, `outPos, `outCount
      ensures state == Busy && outBuf == output && regs.cr == old(regs).cr.(ccfie := true)
      ensures old(fuel) > 0 ==>
                fuel == old(fuel) - 1
                && InFlight(old(regs).(cr := old(regs).cr.(ccfie := true)), input, at, output[..], to, n, 0)
    {
      hide After, Output, Put;
      inCount, inBuf, inPos := size, input, at;
      outBuf, outPos, outCount := output, to, size;
      state := Busy;
      regs := regs.(cr := regs.cr.(ccfie := true));
      StartsEmpty(f, regs, input[at..]);
      PutNothing(output[..], to);
      EnterNext(regs, input[at..], 0);
    }

    // HAL_CRYPEx_AES_IT for the modes other than key derivation.
    method AesIT(input: seq<Word>, at: nat, ghost n: nat, size: nat, output: array?<Word>, to: nat)
      returns (status: Status)
      requires size == 16 * n && at + 4 * n <= |input| && (output != null ==> to + 4 * n <= output.Length)
      requires state == Ready ==> Idle()
      modifies `regs, `din, `dout, `ccf, `fuel, `state,
               `inBuf, `inPos, `inCount, `outBuf, `outPos, `outCount
      ensures status != OK ==> unchanged(this)
      ensures old(state) != Ready ==> status == BUSY && state == old(state) && regs == old(regs)
      ensures old(state) == Ready && (output == null || size == 0) ==>
                status == ERROR && state == Ready && regs == old(regs)
      ensures old(state) == Ready && output != null && size != 0 && locked ==>
                status == BUSY && state == Ready && regs == old(regs)
      ensures old(state) == Ready && output != null && size != 0 && !locked ==>
                status == OK && state == Busy && outBuf == output && regs.cr == old(regs).cr.(ccfie := true)
                && (old(fuel) > 0 ==>
                      fuel == old(fuel) - 1
                      && InFlight(old(regs).(cr := old(regs).cr.(ccfie := true)), input, at, output[..], to, n, 0))
    {
      hide After, Output, Put, InFlight;
      if state == Ready {
        if output == null || size == 0 {
          return ERROR;
        }
        if locked {
          return BUSY;
        }
        Launch(input, at, n, size, output, to);
        return OK;
      } else {
        return BUSY;
      }
    }

    // The output of block i has been read.
    ghost predicate Retrieved(r: Regs, input: seq<Word>, at: nat, s: seq<Word>, to: nat, n: nat, i: nat)
      requires at + 4 * n <= |input|
      reads this, outBuf
    {
      i < n && to + 4 * n <= |s| == outBuf.Length && state == Busy && Idle()
      && inBuf == input && inPos == at + 4 * (i + 1) && inCount == 16 * (n - i - 1)
      && outPos == to + 4 * (i + 1) && outCount == 16 * (n - i - 1)
      && regs == After(f, r, input[at..], i + 1)
      && outBuf[..] == Put(s, to, Output(f, r, input[at..], i + 1))
    }

    method Retrieve(ghost r: Regs, ghost input: seq<Word>, ghost at: nat, ghost s: seq<Word>, ghost to: nat,
                    ghost n: nat, ghost i: nat)
      requires at + 4 * n <= |input| && InFlight(r, input, at, s, to, n, i)
      modifies `dout, `ccf, `outPos, `outCount, outBuf
      ensures Retrieved(r, input, at, s, to, n, i)
    {
      hide After, Output, Put;
      ccf := false;
      PutNext(s, to, Output(f, r, input[at..], i), dout);
      ReadBlock(outBuf, outPos);
      outPos := outPos + 4;
      outCount := outCount - 16;
    }

    method Stop(end: State)
      modifies `regs, `state, `locked
      ensures regs == Quiet(old(regs)) && state == end && !locked
    {
      regs := Quiet(regs);
      state := end;
      locked := false;
    }

    // The next block is entered.
    method GoOn(ghost r: Regs, ghost input: seq<Word>, ghost at: nat, ghost s: seq<Word>, ghost to: nat, ghost n: nat,
                ghost i: nat)
      requires at + 4 * n <= |input| && Retrieved(r, input, at, s, to, n, i) && i + 1 < n && fuel > 0
      modifies `regs, `din, `dout, `ccf, `fuel, `inPos, `inCount
      ensures InFlight(r, input, at, s, to, n, i + 1) && regs.cr == old(regs).cr && fuel == old(fuel) - 1
    {
      hide After, Output, Put;
      assert inBuf[inPos..] == input[at..][4 * (i + 1)..];
      EnterNext(r, input[at..], i + 1);
    }

    // The AES branch of HAL_CRYP_IRQHandler and CRYP_AES_IT.
    method Service(ghost r: Regs, ghost input: seq<Word>, ghost at: nat, ghost s: seq<Word>, ghost to: nat,
                   ghost n: nat, ghost i: nat)
      requires at + 4 * n <= |input| && InFlight(r, input, at, s, to, n, i) && (i + 1 < n && !suspend ==> fuel > 0)
      requires regs.cr.ccfie
      modifies `regs, `din, `dout, `ccf, `fuel, `state, `locked, `suspend, `completions,
               `inPos, `inCount, `outPos, `outCount, outBuf
      ensures if i + 1 < n && !old(suspend) then
                InFlight(r, input, at, s, to, n, i + 1) && regs.cr.ccfie && fuel == old(fuel) - 1 && !suspend
                && locked == old(locked) && completions == old(completions)
              else
                Ended(r, input, at, s, to, n, i + 1) && fuel == old(fuel)
                && (i + 1 == n ==> suspend == old(suspend))
                && completions == old(completions) + if i + 1 == n then 1 else 0
    {
      hide After, Output, Put, InFlight;
      Retrieve(r, input, at, s, to, n, i);
      if outCount == 0 {
        Stop(Ready);
        completions := completions + 1;
      } else if suspend {
        suspend := false;
        Stop(Suspended);
      } else {
        GoOn(r, input, at, s, to, n, i);
      }
    }

    // What a call on n blocks leaves, in either form.
    twostate predicate Called(input: seq<Word>, at: nat, n: nat, output: array<Word>, to: nat, raised: nat -> bool)
      requires n > 0 && at + 4 * n <= |input|
      reads this, output
    {
      var h := Halt(old(suspend), raised, 0, n);
      !locked && Idle() && fuel == old(fuel) - h && regs == After(f, old(regs), input[at..], h)
      && output[..] == Put(old(output[..]), to, Output(f, old(regs), input[at..], h))
      && if h < n then SuspendedAt(input, at + 4 * h, output, to + 4 * h, 16 * (n - h))
         else state == Ready && suspend == Pending(old(suspend), raised, n)
    }

    // The interrupts of a call whose first block is in flight.
    method Interrupts(ghost r: Regs, ghost input: seq<Word>, ghost at: nat, ghost s: seq<Word>, ghost to: nat,
                      ghost n: nat, raised: nat -> bool)
      requires at + 4 * n <= |input| && InFlight(r, input, at, s, to, n, 0) && regs.cr.ccfie && !locked
      requires fuel + 1 >= Halt(suspend, raised, 0, n)
      modifies `regs, `din, `dout, `ccf, `fuel, `state, `locked, `suspend, `completions,
               `inPos, `inCount, `outPos, `outCount, outBuf
      ensures var h := Halt(old(suspend), raised, 0, n);
              Ended(r, input, at, s, to, n, h) && fuel + h == old(fuel) + 1
              && (h == n ==> suspend == Pending(old(suspend), raised, n))
              && completions == old(completions) + if h == n then 1 else 0
    {
      hide After, Output, Put;
      ghost var h := Halt(suspend, raised, 0, n);
      var i := 0;
      while ccf && regs.cr.ccfie
        invariant i < n
        invariant state == Busy ==>
                    InFlight(r, input, at, s, to, n, i) && regs.cr.ccfie && fuel + i == old(fuel)
                    && h == Halt(suspend, raised, i, n) && (if i == 0 then suspend == old(suspend) else !suspend)
                    && !locked && completions == old(completions)
        invariant state != Busy ==>
                    h == i + 1 && Ended(r, input, at, s, to, n, h) && fuel + h == old(fuel) + 1
                    && (h == n ==> suspend == Pending(old(suspend), raised, n))
                    && completions == old(completions) + if h == n then 1 else 0
        decreases if state == Busy then n - i else 0
      {
        if raised(i) {
          suspend := true;
        }
        Service(r, input, at, s, to, n, i);
        if state == Busy {
          i := i + 1;
        }
      }
    }

    // HAL_CRYPEx_AES_IT and its interrupts.
    method AesByInterrupts(input: seq<Word>, at: nat, n: nat, output: array<Word>, to: nat, raised: nat -> bool)
      requires Free() && n > 0 && at + 4 * n <= |input| && to + 4 * n <= output.Length
      requires fuel >= Halt(suspend, raised, 0, n)
      modifies `regs, `din, `dout, `ccf, `fuel, `state, `locked, `suspend, `completions,
               `inBuf, `inPos, `inCount, `outBuf, `outPos, `outCount, output
      ensures Called(input, at, n, output, to, raised)
      ensures completions == old(completions) + if state == Ready then 1 else 0
    {
      hide After, Output, Put, InFlight, Halt;
      ghost var r0, s, h := regs, output[..], Halt(suspend, raised, 0, n);
      ghost var r := r0.(cr := r0.cr.(ccfie := true));
      var status := AesIT(input, at, n, 16 * n, output, to);
      Interrupts(r, input, at, s, to, n, raised);
      AlikeRuns(f, r0, r, input[at..], h);
    }

    /* ----------------------- suspension and resumption ----------------------- */

    // HAL_CRYPEx_Read_IVRegisters; the registers read as zero while enabled.
    method ReadIv() returns (saved: seq<Word>)
      ensures !regs.cr.en ==> saved == SavedIv(regs.iv)
      ensures !regs.cr.en ==>
                Mirrors(saved[0], regs.iv.w3) && Mirrors(saved[1], regs.iv.w2)
                && Mirrors(saved[2], regs.iv.w1) && Mirrors(saved[3], regs.iv.w0)
    {
      RevMirrors(regs.iv.w3);
      RevMirrors(regs.iv.w2);
      RevMirrors(regs.iv.w1);
      RevMirrors(regs.iv.w0);
      hide Rev, Mirrors;
      if regs.cr.en {
        return [0, 0, 0, 0];
      }
      return [Rev(regs.iv.w3), Rev(regs.iv.w2), Rev(regs.iv.w1), Rev(regs.iv.w0)];
    }

    // HAL_CRYPEx_Write_IVRegisters; ignored while enabled.
    method WriteIv(saved: seq<Word>)
      requires |saved| == 4
      modifies `regs
      ensures regs == if old(regs).cr.en then old(regs) else old(regs).(iv := LoadedIv(saved))
    {
      if !regs.cr.en {
        regs := regs.(iv := Iv(Rev(saved[0]), Rev(saved[1]), Rev(saved[2]), Rev(saved[3])));
      }
    }

    // HAL_CRYPEx_Read_KeyRegisters.
    method ReadKey(wide: bool) returns (saved: seq<Word>)
      ensures saved == SavedKey(wide, regs.key)
      ensures var p := if wide then 4 else 0;
              Mirrors(saved[p], regs.key.k3) && Mirrors(saved[p + 1], regs.key.k2)
              && Mirrors(saved[p + 2], regs.key.k1) && Mirrors(saved[p + 3], regs.key.k0)
      ensures wide ==> Mirrors(saved[0], regs.key.k7) && Mirrors(saved[1], regs.key.k6)
                       && Mirrors(saved[2], regs.key.k5) && Mirrors(saved[3], regs.key.k4)
    {
      KeyMirrors(regs.key);
      hide Rev, Mirrors;
      saved := [];
      if wide {
        saved := [Rev(regs.key.k7), Rev(regs.key.k6), Rev(regs.key.k5), Rev(regs.key.k4)];
      }
      saved := saved + [Rev(regs.key.k3), Rev(regs.key.k2), Rev(regs.key.k1), Rev(regs.key.k0)];
    }

    // HAL_CRYPEx_Write_KeyRegisters; ignored while enabled.
    method WriteKey(saved: seq<Word>, wide: bool)
      requires |saved| == if wide then 8 else 4
      modifies `regs
      ensures regs == if old(regs).cr.en then old(regs) else old(regs).(key := LoadedKey(wide, saved, old(regs).key))
    {
      if !regs.cr.en {
        var p := 0;
        if wide {
          var key := regs.key.(k7 := Rev(saved[0]), k6 := Rev(saved[1]), k5 := Rev(saved[2]), k4 := Rev(saved[3]));
          regs := regs.(key := key);
          p := 4;
        }
        var key := regs.key.(k3 := Rev(saved[p]), k2 := Rev(saved[p + 1]), k1 := Rev(saved[p + 2]),
                             k0 := Rev(saved[p + 3]));
        regs := regs.(key := key);
      }
    }

    // HAL_CRYPEx_Write_ControlRegister.
    method WriteControl(saved: Control)
      modifies `regs, `state
      ensures regs == old(regs).(cr := saved) && state == Ready
    {
      regs := regs.(cr := saved);
      state := Ready;
    }

    method Disable()
      modifies `regs
      ensures regs == old(regs).(cr := old(regs).cr.(en := false))
    {
      regs := regs.(cr := regs.cr.(en := false));
    }

    // A suspended message gives way to another one, which leaves the registers
    // as it pleases, and is set up again.
    method GiveWay(other: Regs)
      modifies `regs, `state
      ensures Alike(regs, old(regs)) && regs.cr == old(regs).cr && state == Ready
      // All registers are as they were, but for the words a short key does not use.
      ensures var k, was := regs.key, old(regs).key;
              regs.iv == old(regs).iv && k.k3 == was.k3 && k.k2 == was.k2 && k.k1 == was.k1 && k.k0 == was.k0
              && if regs.cr.wide then k == was
                 else k.k7 == other.key.k7 && k.k6 == other.key.k6 && k.k5 == other.key.k5 && k.k4 == other.key.k4
    {
      var wide, control := regs.cr.wide, regs.cr;
      Disable();
      var iv := ReadIv();
      var key := ReadKey(wide);
      regs := other;
      Disable();
      WriteIv(iv);
      WriteKey(key, wide);
      WriteControl(control);
      IvLoads(old(regs).iv);
      KeyLoads(old(regs).cr, old(regs).key, other.key);
      KeyWords(old(regs).cr.wide, old(regs).key, other.key);
    }

    // A call in either form.
    method Call(byInterrupts: bool, input: seq<Word>, at: nat, n: nat, output: array<Word>, to: nat,
                raised: nat -> bool)
      requires Free() && n > 0 && at + 4 * n <= |input| && to + 4 * n <= output.Length && fuel >= n
      modifies `regs, `din, `dout, `ccf, `fuel, `state, `locked, `suspend, `completions,
               `inBuf, `inPos, `inCount, `outBuf, `outPos, `outCount, output
      ensures Called(input, at, n, output, to, raised)
    {
      hide After, Output, Put, Halt;
      if byInterrupts {
        AesByInterrupts(input, at, n, output, to, raised);
      } else {
        var status := Aes(input, at, n, 16 * n, output, to, raised);
      }
    }

    // How far a message is: done blocks of it are in the output, and the
    // handle is ready at the end and suspended before.
    ghost predicate Reached(r: Regs, input: seq<Word>, s: seq<Word>, n: nat, output: array<Word>, done: nat)
      requires done <= n && 4 * n <= |input|
      reads this, output
    {
      Idle() && !regs.cr.ccfie && !locked && fuel >= n - done && 4 * n <= output.Length == |s|
      && Alike(regs, After(f, r, input, done))
      && output[..] == Put(s, 0, Output(f, r, input, done))
      && if done == n then state == Ready else SuspendedAt(input, 4 * done, output, 4 * done, 16 * (n - done))
    }

    // A call on the rest of a message of which done blocks are in the output.
    method Continue(ghost r: Regs, ghost s: seq<Word>, ghost n: nat, ghost done: nat,
                    input: seq<Word>, at: nat, left: nat, output: array<Word>, byInterrupts: bool, raised: nat -> bool)
      returns (ghost now: nat)
      requires Free() && left > 0 && n == done + left && at == 4 * done && fuel >= left
      requires 4 * n <= |input| && 4 * n <= output.Length == |s|
      requires Alike(regs, After(f, r, input, done)) && output[..] == Put(s, 0, Output(f, r, input, done))
      modifies `regs, `din, `dout, `ccf, `fuel, `state, `locked, `suspend, `completions,
               `inBuf, `inPos, `inCount, `outBuf, `outPos, `outCount, output
      ensures done < now <= n && Reached(r, input, s, n, output, now)
    {
      hide After, Output, Put, Alike, Halt;
      ghost var h := Halt(suspend, raised, 0, left);
      now := done + h;
      CallSplits(f, regs, r, input, done, h);
      PutNext(s, 0, Output(f, r, input, done), Output(f, regs, input[4 * done..], h));
      Call(byInterrupts, input, at, left, output, at, raised);
    }

    // A suspended message gives way and is resumed, by a call that may be
    // suspended again.
    method Resume(ghost r: Regs, ghost s: seq<Word>, ghost n: nat, ghost input: seq<Word>, ghost done: nat,
                  byInterrupts: bool, raised: nat -> bool, other: Regs)
      returns (ghost now: nat)
      requires done < n && 4 * n <= |input| && outBuf.Length >= 4 * n
      requires Reached(r, input, s, n, outBuf, done)
      modifies `regs, `din, `dout, `ccf, `fuel, `state, `locked, `suspend, `completions,
               `inBuf, `inPos, `inCount, `outBuf, `outPos, `outCount, outBuf
      ensures done < now <= n && Reached(r, input, s, n, old(outBuf), now)
    {
      hide After, Output, Put, Alike, Halt;
      GiveWay(other);
      AlikeTwice(regs, old(regs), After(f, r, input, done));
      now := Continue(r, s, n, done, inBuf, inPos, inCount / 16, outBuf, byInterrupts, raised);
    }

    // A message of n blocks; byInterrupts(c) is the form of call c, raised(c) its
    // suspension requests, and other(c) what happens to the registers after it.
    method Message(input: seq<Word>, n: nat, output: array<Word>,
                   byInterrupts: nat -> bool, raised: nat -> nat -> bool, other: nat -> Regs)
      requires Free() && n > 0 && 4 * n <= |input| && 4 * n <= output.Length && fuel >= n
      modifies `regs, `din, `dout, `ccf, `fuel, `state, `locked, `suspend, `completions,
               `inBuf, `inPos, `inCount, `outBuf, `outPos, `outCount, output
      ensures state == Ready && !locked
      ensures output[..] == Put(old(output[..]), 0, Output(f, old(regs), input, n))
      ensures Alike(regs, After(f, old(regs), input, n))
    {
      hide After, Output, Put, Alike, Halt;
      ghost var r, s := regs, output[..];
      StartsEmpty(f, r, input);
      PutNothing(s, 0);
      AlikeSelf(r);
      ghost var done := Continue(r, s, n, 0, input, 0, n, output, byInterrupts(0), raised(0));
      var call := 1;
      while state == Suspended
        invariant 0 < done <= n && Reached(r, input, s, n, output, done) && (done < n ==> outBuf == output)
        decreases n - done
      {
        done := Resume(r, s, n, input, done, byInterrupts(call), raised(call), other(call));
        call := call + 1;
      }
    }
  }
}
