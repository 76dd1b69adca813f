// HAL_CRYP_AESECB_Encrypt_IT, as the start of an operation and as its interrupt
// handler, and HAL_CRYP_AESECB_Encrypt with its polling loop, over the processor
// with an input and an output FIFO of eight words.  The cipher step and its
// chaining are those of module AesBlocks, so that what is proved holds for the
// other modes, whose functions differ in the registers they set up.
module CrypFifo {
  import opened AesBlocks

  const DEPTH := 8

  datatype Progress = Fresh | Process
  datatype Mode = Available | Working | TimedOut

  // An operation: the registers when the first of its k leftover blocks was entered,
  // those blocks and the input, what the output buffer held, and its length.
  datatype Job = Job(r: Regs, m: seq<Word>, k: nat, s: seq<Word>, n: nat)

  // Blocks entered, processed and retrieved, the leftover ones included.
  datatype Counts = Counts(a: nat, c: nat, b: nat)

  // Whatever the core has made of k leftover blocks, the output is that of the input
  // alone, for all ciphers and data, exactly if there are none.
  lemma OwnOutput(k: nat, c: nat)
    requires c <= k
    ensures (forall f: Cipher, r: Regs, stale: seq<Word>, m: seq<Word>, n: nat | |stale| == 4 * k && 0 < 4 * n <= |m| ::
               Output(f, r, stale + m, n) == Output(f, After(f, r, stale, c), m, n)) <==> k == 0
  {
    if k == 0 {
      forall f: Cipher, r: Regs, stale: seq<Word>, m: seq<Word>, n: nat | |stale| == 4 * k && 0 < 4 * n <= |m|
        ensures Output(f, r, stale + m, n) == Output(f, After(f, r, stale, c), m, n)
      {
        assert stale + m == m;
      }
    } else {
      var stale, m: seq<Word> := seq(4 * k, _ => 1), [0, 0, 0, 0];
      var r := Regs(Control(false, false, false, 0), Key(0, 0, 0, 0, 0, 0, 0, 0), Iv(0, 0, 0, 0));
      SameBlock(r, stale + m);
      SameBlock(After(IDENTITY, r, stale, c), m);
      assert Output(IDENTITY, r, stale + m, 1)[0] == 1 && Output(IDENTITY, After(IDENTITY, r, stale, c), m, 1)[0] == 0;
    }
  }

  // The cipher that puts out what it is given.
  const IDENTITY := Cipher((_, _, iv, _) => iv, (_, _, _, b) => b)

  lemma SameBlock(r: Regs, m: seq<Word>)
    requires |m| >= 4
    ensures Output(IDENTITY, r, m, 1) == [m[0], m[1], m[2], m[3]]
  {
    assert m[4 * 0..] == m;
    assert Output(IDENTITY, r, m, 0) == [];
  }

  lemma PutStarts(s: seq<Word>, w: seq<Word>)
    requires |w| <= |s|
    ensures Put(s, 0, w)[..|w|] == w
  {
  }

  lemma PartOfRest(a: seq<Word>, b: seq<Word>, i: nat, j: nat)
    requires i <= j <= |b|
    ensures (a + b)[|a| + i..|a| + j] == b[i..j]
  {
  }

  function Sum(counts: seq<nat>): nat {
    if counts == [] then 0 else Sum(counts[..|counts| - 1]) + counts[|counts| - 1]
  }

  class Processor {
    const f: Cipher
    var regs: Regs
    var inFifo: seq<Word>
    var outFifo: seq<Word>
    // Interrupt masks.
    var ini: bool
    var outi: bool

    var state: Mode
    var phase: Progress
    var locked: bool
    var inBuf: seq<Word>
    var inPos: nat
    var inCount: nat
    var outBuf: array<Word>
    var outPos: nat
    var outCount: nat
    // Input and output callbacks run so far.
    var inputs: nat
    var outputs: nat

    constructor (c: Cipher, r: Regs)
      ensures f == c && regs == r && Idle() && phase == Fresh && inputs == outputs == 0
    {
      f, regs, inFifo, outFifo, ini, outi := c, r, [], [], false, false;
      state, phase, locked := Available, Fresh, false;
      inBuf, inPos, inCount, outPos, outCount, inputs, outputs := [], 0, 0, 0, 0, 0, 0;
      outBuf := new Word[0];
    }

    // Ready for an operation: nothing in the FIFOs and no interrupt enabled.
    predicate Idle()
      reads `state, `locked, `inFifo, `outFifo, `ini, `outi
    {
      state == Available && !locked && inFifo == [] && outFifo == [] && !ini && !outi
    }

    // The masked interrupts: fewer than four words to process, words to read.
    predicate InputDue()
      reads `ini, `inFifo
    {
      ini && |inFifo| < 4
    }

    predicate OutputDue()
      reads `outi, `outFifo
    {
      outi && outFifo != []
    }

    predicate CoreDue()
      reads `inFifo, `outFifo
    {
      |inFifo| >= 4 && |outFifo| + 4 <= DEPTH
    }

    // The core takes a block and puts one out.
    method Core()
      requires CoreDue()
      modifies `regs, `inFifo, `outFifo
      ensures inFifo == old(inFifo)[4..]
      ensures outFifo == old(outFifo) + WordsOf(Result(f, old(regs), BlockAt(old(inFifo))))
      ensures regs == Advance(f, old(regs), BlockAt(old(inFifo)))
    {
      var b := BlockAt(inFifo);
      inFifo := inFifo[4..];
      outFifo := outFifo + WordsOf(Result(f, regs, b));
      regs := Advance(f, regs, b);
    }

    // Of message m, started from registers r, a blocks have been entered, c
    // processed and b retrieved.
    ghost predicate Flight(r: Regs, m: seq<Word>, a: nat, c: nat, b: nat)
      reads `regs, `inFifo, `outFifo
    {
      b <= c <= a && 4 * a <= |m| && regs == After(f, r, m, c)
      && inFifo == m[4 * c..4 * a] && |inFifo| <= DEPTH
      && outFifo == Output(f, r, m, c)[4 * b..] && |outFifo| <= DEPTH
    }

    lemma FlightSizes(r: Regs, m: seq<Word>, a: nat, c: nat, b: nat)
      requires Flight(r, m, a, c, b)
      ensures b <= c <= a && 4 * a <= |m| && |inFifo| == 4 * (a - c) && |outFifo| == 4 * (c - b)
    {
    }

    // The FIFOs are empty, or flushed by the next operation.
    predicate Clear()
      reads `phase, `inFifo, `outFifo
    {
      phase == Fresh || (inFifo == [] && outFifo == [])
    }

    // What an operation finds: k blocks in flight, of which c are processed.
    ghost predicate Leftover(r: Regs, stale: seq<Word>, k: nat, c: nat)
      reads `regs, `inFifo, `outFifo, `phase
    {
      k <= 1 && |stale| == 4 * k && if phase == Fresh then k == c == 0 && r == regs else Flight(r, stale, k, c, 0)
    }

    // The caller can see whether there are any.
    lemma ClearMeansNone(r: Regs, stale: seq<Word>, k: nat, c: nat)
      requires Leftover(r, stale, k, c)
      ensures c <= k && (Clear() <==> k == 0)
      ensures k == 0 ==> r == regs && stale == [] && c == 0
    {
      if phase != Fresh {
        FlightSizes(r, stale, k, c, 0);
      }
    }

    // An operation under way.
    ghost predicate Underway(j: Job, p: Counts)
      reads this, outBuf
    {
      Flight(j.r, j.m, p.a, p.c, p.b) && j.k <= 1 && j.k <= p.a <= j.k + j.n && p.b < j.n
      && state == Working && locked && phase == Process
      && 4 * (j.k + j.n) <= |j.m| && 4 * j.n <= |j.s| == outBuf.Length && inBuf == j.m[4 * j.k..]
      && inPos == 4 * (p.a - j.k) && inCount == 16 * (j.n - (p.a - j.k))
      && outPos == 4 * p.b && outCount == 16 * (j.n - p.b)
      && ini == (p.a < j.k + j.n) && outi
      && outBuf[..] == Put(j.s, 0, Output(f, j.r, j.m, p.c)[..4 * p.b])
    }

    // It is over, with as many blocks in flight as it found.
    ghost predicate Finished(j: Job, c: nat)
      reads this, outBuf
    {
      state == Available && !locked && !ini && !outi && phase == Process && inCount == outCount == 0
      && Flight(j.r, j.m, j.k + j.n, c, j.n) && outBuf[..] == Put(j.s, 0, Output(f, j.r, j.m, j.n))
    }

    // What the counters say: the bytes in flight are those left over and the
    // difference between what is left to retrieve and what is left to enter.
    // Something can always go on.
    lemma InFlight(j: Job, p: Counts)
      requires Underway(j, p)
      ensures outCount + 16 * j.k - inCount == 4 * (|inFifo| + |outFifo|)
      ensures j.k == 0 ==> inCount <= outCount
      ensures InputDue() || OutputDue() || CoreDue()
    {
      FlightSizes(j.r, j.m, p.a, p.c, p.b);
    }

    method CoreStep(ghost r: Regs, ghost m: seq<Word>, ghost a: nat, ghost c: nat, ghost b: nat)
      requires Flight(r, m, a, c, b) && CoreDue()
      modifies `regs, `inFifo, `outFifo
      ensures Flight(r, m, a, c + 1, b)
      ensures b <= c && Output(f, r, m, c + 1)[..4 * b] == Output(f, r, m, c)[..4 * b]
    {
      FlightSizes(r, m, a, c, b);
      assert BlockAt(inFifo) == BlockAt(m[4 * c..]);
      Core();
      assert inFifo == m[4 * (c + 1)..4 * a];
      assert Output(f, r, m, c + 1)[4 * b..]
          == Output(f, r, m, c)[4 * b..] + WordsOf(Result(f, After(f, r, m, c), BlockAt(m[4 * c..])));
    }

    // Four words to the data input register.
    method Feed(m: seq<Word>, p: nat)
      requires p + 4 <= |m|
      modifies `inFifo
      ensures inFifo == old(inFifo) + m[p..p + 4]
    {
      ghost var before := inFifo;
      inFifo := inFifo + [m[p]];
      inFifo := inFifo + [m[p + 1]];
      inFifo := inFifo + [m[p + 2]];
      inFifo := inFifo + [m[p + 3]];
      assert inFifo == before + m[p..p + 4];
    }

    // Four words from the data output register.
    method Take(output: array<Word>, p: nat)
      requires |outFifo| >= 4 && p + 4 <= output.Length
      modifies `outFifo, output
      ensures output[..] == Put(old(output[..]), p, old(outFifo)[..4]) && outFifo == old(outFifo)[4..]
    {
      ghost var was, o := output[..], outFifo[..4];
      assert o == [outFifo[0], outFifo[1], outFifo[2], outFifo[3]];
      output[p], output[p + 1], output[p + 2], output[p + 3] := outFifo[0], outFifo[1], outFifo[2], outFifo[3];
      assert output[..] == was[..p] + o + was[p + 4..];
      outFifo := outFifo[4..];
    }

    method FeedStep(input: seq<Word>, p: nat, ghost r: Regs, ghost m: seq<Word>, ghost a: nat, ghost c: nat,
                    ghost b: nat)
      requires Flight(r, m, a, c, b) && |inFifo| <= 4 && p + 4 <= |input|
      requires 4 * a + 4 <= |m| && input[p..p + 4] == m[4 * a..4 * a + 4]
      modifies `inFifo
      ensures Flight(r, m, a + 1, c, b)
    {
      hide After, Output;
      Feed(input, p);
      assert inFifo == m[4 * c..4 * (a + 1)];
    }

    method TakeStep(output: array<Word>, ghost r: Regs, ghost m: seq<Word>, ghost s: seq<Word>,
                    ghost a: nat, ghost c: nat, ghost b: nat, p: nat)
      requires Flight(r, m, a, c, b) && outFifo != [] && p == 4 * b && p + 4 <= output.Length == |s|
      requires output[..] == Put(s, 0, Output(f, r, m, c)[..4 * b])
      modifies `outFifo, output
      ensures Flight(r, m, a, c, b + 1) && output[..] == Put(s, 0, Output(f, r, m, c)[..4 * (b + 1)])
    {
      hide After, Output, Put;
      ghost var o := Output(f, r, m, c);
      FlightSizes(r, m, a, c, b);
      PutNext(s, 0, o[..4 * b], outFifo[..4]);
      assert o[..4 * b] + outFifo[..4] == o[..4 * (b + 1)];
      assert outFifo[4..] == o[4 * (b + 1)..];
      Take(output, p);
    }

    /* ----------------- HAL_CRYP_AESECB_Encrypt_IT ----------------- */

    // The operation started: nothing entered yet; the FIFOs are flushed on the
    // first one only.
    method Begin(input: seq<Word>, size: nat, output: array<Word>)
      requires state == Available && !locked
      modifies `state, `phase, `locked, `inBuf, `inPos, `inCount, `outBuf, `outPos, `outCount, `ini, `outi, `inFifo,
                 `outFifo
      ensures state == Working && locked && phase == Process && ini && outi
      ensures inBuf == input && outBuf == output && inPos == outPos == 0 && inCount == outCount == size
      ensures if old(phase) == Fresh then inFifo == [] && outFifo == []
              else inFifo == old(inFifo) && outFifo == old(outFifo)
    {
      locked := true;
      inCount := size;
      inBuf, inPos := input, 0;
      outBuf, outPos := output, 0;
      outCount := size;
      state := Working;
      if phase == Fresh {
        inFifo, outFifo := [], [];
        phase := Process;
      }
      ini, outi := true, true;
    }

    method EnterBlock(ghost j: Job, ghost p: Counts)
      requires Underway(j, p) && InputDue()
      modifies `inFifo, `inPos, `inCount, `ini, `inputs
      ensures Underway(j, p.(a := p.a + 1)) && inputs == old(inputs) + if p.a + 1 == j.k + j.n then 1 else 0
    {
      hide After, Output, Put, Flight;
      FlightSizes(j.r, j.m, p.a, p.c, p.b);
      FeedStep(inBuf, inPos, j.r, j.m, p.a, p.c, p.b);
      inPos := inPos + 4;
      inCount := inCount - 16;
      if inCount == 0 {
        ini := false;
        inputs := inputs + 1;
      }
    }

    method RetrieveBlock(ghost j: Job, ghost p: Counts)
      requires Underway(j, p) && !InputDue() && OutputDue()
      modifies `outFifo, `outPos, `outCount, `outi, `locked, `state, `outputs, outBuf
      ensures if p.b + 1 < j.n then Underway(j, p.(b := p.b + 1)) && outputs == old(outputs)
              else p.a == j.k + j.n && Finished(j, p.c) && outputs == old(outputs) + 1
    {
      hide After, Output, Put, Flight;
      FlightSizes(j.r, j.m, p.a, p.c, p.b);
      TakeStep(outBuf, j.r, j.m, j.s, p.a, p.c, p.b, outPos);
      outPos := outPos + 4;
      outCount := outCount - 16;
      if outCount == 0 {
        outi := false;
        locked := false;
        state := Available;
        outputs := outputs + 1;
        Prefix(j.r, j.m, j.n, p.c);
      }
    }

    // The start of an operation, with the leftover blocks processed.
    method StartIT(input: seq<Word>, size: nat, output: array<Word>, ghost j: Job, ghost c: nat)
      requires state == Available && !locked && j.n > 0 && size == 16 * j.n
      requires 4 * j.n <= |input| && 4 * j.n <= output.Length && j.s == output[..]
      requires 4 * j.k <= |j.m| && Leftover(j.r, j.m[..4 * j.k], j.k, c) && j.m[4 * j.k..] == input
      modifies `state, `phase, `locked, `inBuf, `inPos, `inCount, `outBuf, `outPos, `outCount, `ini, `outi,
               `inFifo, `outFifo
      ensures Underway(j, Counts(j.k, c, 0)) && outBuf == output
    {
      hide After, Output, Put;
      LeftoverFlies(j.r, j.m, j.k, c);
      Begin(input, size, output);
      PutNothing(j.s, 0);
      assert Output(f, j.r, j.m, c)[..4 * 0] == [];
    }

    // The one function, called to start an operation and from its interrupts, with
    // the counts it has come to; the leftover blocks processed at a start.
    method EncryptIT(input: seq<Word>, size: nat, output: array?<Word>, ghost j: Job, ghost p: Counts)
      returns (status: Status)
      requires state == Available && !locked ==>
                 j.n > 0 && size == 16 * j.n && 4 * j.n <= |input| && output != null && 4 * j.n <= output.Length
                 && j.s == output[..] && 4 * j.k <= |j.m| && Leftover(j.r, j.m[..4 * j.k], j.k, p.c)
                 && j.m[4 * j.k..] == input
      requires state != Available && (InputDue() || OutputDue()) ==> Underway(j, p)
      modifies `state, `phase, `locked, `inBuf, `inPos, `inCount, `outBuf, `outPos, `outCount, `ini, `outi,
               `inFifo, `outFifo, `inputs, `outputs, if state == Available then {} else {outBuf}
      ensures status == if old(state) == Available && old(locked) then BUSY else OK
      ensures old(state) == Available && !old(locked) ==>
                Underway(j, Counts(j.k, p.c, 0)) && outBuf == output && inputs == old(inputs) && outputs == old(outputs)
      ensures old(state) != Available && old(InputDue()) ==>
                Underway(j, p.(a := p.a + 1)) && outBuf == old(outBuf)
                && inputs == old(inputs) + (if p.a + 1 == j.k + j.n then 1 else 0) && outputs == old(outputs)
      ensures old(state) != Available && !old(InputDue()) && old(OutputDue()) ==>
                outBuf == old(outBuf) && inputs == old(inputs)
                && if p.b + 1 < j.n then Underway(j, p.(b := p.b + 1)) && outputs == old(outputs)
                   else p.a == j.k + j.n && Finished(j, p.c) && outputs == old(outputs) + 1
      ensures (if old(state) == Available then old(locked) else !old(InputDue()) && !old(OutputDue())) ==>
                state == old(state) && locked == old(locked) && ini == old(ini) && outi == old(outi)
                && inFifo == old(inFifo) && outFifo == old(outFifo) && outBuf[..] == old(outBuf[..])
                && unchanged(this)
    {
      hide Underway, Finished, Leftover;
      if state == Available {
        if locked {
          return BUSY;
        }
        StartIT(input, size, output, j, p.c);
        return OK;
      } else if InputDue() {
        EnterBlock(j, p);
      } else if OutputDue() {
        RetrieveBlock(j, p);
      }
      return OK;
    }

    // What is left over, seen as the beginning of what follows; nothing if the FIFOs
    // are about to be flushed.
    lemma LeftoverFlies(r: Regs, m: seq<Word>, k: nat, c: nat)
      requires 4 * k <= |m| && Leftover(r, m[..4 * k], k, c)
      ensures phase == Fresh ==> k == c == 0 && After(f, r, m, 0) == regs && Output(f, r, m, 0) == []
      ensures phase != Fresh ==> Flight(r, m, k, c, 0)
    {
      if phase == Fresh {
        StartsEmpty(f, r, m);
      } else {
        assert m[..4 * k] + m[4 * k..] == m;
        AlsoLonger(r, m[..4 * k], m[4 * k..], k, c);
      }
    }

    // The core takes a block of an operation.
    method CoreWorks(ghost j: Job, ghost p: Counts)
      requires Underway(j, p) && CoreDue()
      modifies `regs, `inFifo, `outFifo
      ensures Underway(j, p.(c := p.c + 1))
    {
      hide After, Output, Put;
      CoreStep(j.r, j.m, p.a, p.c, p.b);
    }

    // A whole operation of n blocks, with at most a block left over by an earlier one.
    // core(t): at step t the core takes a block, if it can, before an interrupt is
    // served.
    method EncryptByInterrupts(input: seq<Word>, n: nat, output: array<Word>, core: nat -> bool,
                               ghost r: Regs, ghost stale: seq<Word>, ghost k: nat, ghost from: nat)
      returns (ghost c: nat)
      requires n > 0 && 4 * n <= |input| && 4 * n <= output.Length
      requires state == Available && !locked && Leftover(r, stale, k, from)
      modifies this, output
      ensures Finished(Job(r, stale + input, k, old(output[..]), n), c) && outBuf == output
      ensures inputs == old(inputs) + 1 && outputs == old(outputs) + 1
      ensures old(Clear()) ==> output[..] == Put(old(output[..]), 0, Output(f, old(regs), input, n))
    {
      hide After, Output, Put, Flight;
      ghost var j, p := Job(r, stale + input, k, output[..], n), Counts(k, from, 0);
      ClearMeansNone(r, stale, k, from);
      assert j.m[..4 * k] == stale && j.m[4 * k..] == input;
      assert stale == [] ==> j.m == input;
      var status := EncryptIT(input, 16 * n, output, j, p);
      var t := 0;
      while state == Working
        invariant outBuf == output && p.a <= k + n && p.b <= n && p.c <= k + n
        invariant if state == Working then Underway(j, p) && outputs == old(outputs)
                  else Finished(j, p.c) && p.a == k + n && outputs == old(outputs) + 1
        invariant inputs == old(inputs) + if p.a == k + n then 1 else 0
        decreases state == Working, (k + n - p.a) + (k + n - p.c) + (n - p.b)
      {
        InFlight(j, p);
        FlightSizes(j.r, j.m, p.a, p.c, p.b);
        if CoreDue() && (core(t) || !(InputDue() || OutputDue())) {
          CoreWorks(j, p);
          p := p.(c := p.c + 1);
        } else {
          ghost var entering := InputDue();
          status := EncryptIT([], 0, null, j, p);
          p := if entering then p.(a := p.a + 1) else p.(b := p.b + 1);
        }
        t := t + 1;
      }
      c := p.c;
    }

    /* ----------------- HAL_CRYP_AESECB_Encrypt ----------------- */

    // Waiting for output: the core takes at most so many blocks meanwhile.
    method Wait(steps: nat, ghost r: Regs, ghost m: seq<Word>, ghost a: nat, ghost c: nat, ghost b: nat)
      returns (ghost now: nat)
      requires Flight(r, m, a, c, b)
      modifies `regs, `inFifo, `outFifo
      ensures c <= now <= a && Flight(r, m, a, now, b)
      ensures b <= c && Output(f, r, m, now)[..4 * b] == Output(f, r, m, c)[..4 * b]
      ensures steps > 0 && a > b ==> outFifo != []
    {
      hide After, Output;
      now := c;
      var k := 0;
      while k < steps && CoreDue()
        invariant k <= steps && c <= now <= a && Flight(r, m, a, now, b) && k <= now - c
        invariant Output(f, r, m, now)[..4 * b] == Output(f, r, m, c)[..4 * b]
        decreases steps - k
      {
        FlightSizes(r, m, a, now, b);
        CoreStep(r, m, a, now, b);
        now := now + 1;
        k := k + 1;
      }
      FlightSizes(r, m, a, now, b);
    }

    // CRYP_ProcessData with k blocks of an earlier message in flight: what comes out
    // is the output of those and the input together.
    method ProcessData(input: seq<Word>, size: nat, output: array<Word>, steps: nat -> nat,
                       ghost r: Regs, ghost stale: seq<Word>, ghost k: nat, ghost n: nat, ghost from: nat)
      returns (status: Status, ghost i: nat, ghost c: nat)
      requires size == 16 * n && 4 * n <= |input| && 4 * n <= output.Length
      requires k <= 1 && |stale| == 4 * k && Flight(r, stale, k, from, 0)
      modifies `regs, `inFifo, `outFifo, `state, `locked, output
      ensures i <= n && (status == OK <==> i == n) && (status == TIMEOUT <==> i < n)
      ensures Flight(r, stale + input, k + if i < n then i + 1 else n, c, i)
      ensures output[..] == Put(old(output[..]), 0, Output(f, r, stale + input, i))
      ensures if i < n then state == TimedOut && !locked && outFifo == []
              else state == old(state) && locked == old(locked)
      ensures (forall j :: 0 <= j < n ==> steps(j) > 0) ==> status == OK
    {
      hide After, Output, Put, Flight;
      ghost var m, s := stale + input, output[..];
      i, c := 0, from;
      AlsoLonger(r, stale, input, k, from);
      PutNothing(s, 0);
      var index, p := 0, 0;
      while index < size
        invariant index == 16 * i && i <= n && p == 4 * i
        invariant state == old(state) && locked == old(locked)
        invariant i <= c <= k + i && Flight(r, m, k + i, c, i) && output[..] == Put(s, 0, Output(f, r, m, c)[..4 * i])
        decreases size - index
      {
        assert m[4 * (k + i)..4 * (k + i) + 4] == input[p..p + 4];
        assert index / 16 == i;
        var ok;
        ok, c := ProcessBlock(input, p, output, steps(index / 16), r, m, s, k, i, c);
        if !ok {
          state := TimedOut;
          locked := false;
          return TIMEOUT, i, c;
        }
        p := p + 4;
        index := index + 16;
        i := i + 1;
      }
      Prefix(r, m, i, c);
      return OK, i, c;
    }

    // One round of its loop: a block in, a block out, unless none comes.
    method ProcessBlock(input: seq<Word>, p: nat, output: array<Word>, steps: nat,
                        ghost r: Regs, ghost m: seq<Word>, ghost s: seq<Word>, ghost k: nat, ghost i: nat, ghost c: nat)
      returns (ok: bool, ghost now: nat)
      requires k <= 1 && p == 4 * i && p + 4 <= |input| && p + 4 <= output.Length == |s|
      requires 4 * (k + i) + 4 <= |m| && m[4 * (k + i)..4 * (k + i) + 4] == input[p..p + 4]
      requires Flight(r, m, k + i, c, i) && output[..] == Put(s, 0, Output(f, r, m, c)[..4 * i])
      modifies `regs, `inFifo, `outFifo, output
      ensures if ok then i + 1 <= now <= k + i + 1 && Flight(r, m, k + i + 1, now, i + 1)
                         && output[..] == Put(s, 0, Output(f, r, m, now)[..4 * (i + 1)])
              else Flight(r, m, k + i + 1, now, i) && outFifo == [] && output[..] == Put(s, 0, Output(f, r, m, i))
      ensures steps > 0 ==> ok
    {
      hide After, Output, Put;
      FlightSizes(r, m, k + i, c, i);
      FeedStep(input, p, r, m, k + i, c, i);
      now := Wait(steps, r, m, k + i + 1, c, i);
      ok := outFifo != [];
      if ok {
        TakeStep(output, r, m, s, k + i + 1, now, i, p);
      } else {
        FlightSizes(r, m, k + i + 1, now, i);
        Prefix(r, m, i, now);
      }
    }

    lemma {:induction false} AlsoLonger(r: Regs, m: seq<Word>, more: seq<Word>, a: nat, c: nat)
      requires Flight(r, m, a, c, 0)
      ensures c <= a && Flight(r, m + more, a, c, 0)
      ensures Output(f, r, m + more, c)[..0] == []
    {
      Extends(r, m, more, c);
      assert (m + more)[4 * c..4 * a] == m[4 * c..4 * a];
    }

    // Output depends on the blocks already there, and grows at its end.
    lemma {:induction false} Extends(r: Regs, m: seq<Word>, more: seq<Word>, n: nat)
      requires 4 * n <= |m|
      ensures After(f, r, m + more, n) == After(f, r, m, n) && Output(f, r, m + more, n) == Output(f, r, m, n)
    {
      if n > 0 {
        Extends(r, m, more, n - 1);
        BlockPart(m, more, 4 * (n - 1));
      }
    }

    static lemma BlockPart(m: seq<Word>, more: seq<Word>, i: nat)
      requires i + 4 <= |m|
      ensures BlockAt((m + more)[i..]) == BlockAt(m[i..])
    {
    }

    lemma Shorter(a: seq<Word>, b: seq<Word>, n: nat)
      requires n <= |a|
      ensures (a + b)[..n] == a[..n]
    {
    }

    lemma {:induction false} Prefix(r: Regs, m: seq<Word>, i: nat, c: nat)
      requires i <= c && 4 * c <= |m|
      ensures Output(f, r, m, c)[..4 * i] == Output(f, r, m, i)
      decreases c
    {
      hide After, Result, BlockAt, WordsOf;
      if i < c {
        Prefix(r, m, i, c - 1);
        Shorter(Output(f, r, m, c - 1), WordsOf(Result(f, After(f, r, m, c - 1), BlockAt(m[4 * (c - 1)..]))), 4 * i);
      } else {
        assert Output(f, r, m, c)[..4 * i] == Output(f, r, m, c);
      }
    }

    // HAL_CRYP_AESECB_Encrypt.  The FIFOs are flushed before the first operation
    // only, so that a block a time-out left in them comes out first.
    method Encrypt(input: seq<Word>, n: nat, output: array<Word>, steps: nat -> nat,
                   ghost r: Regs, ghost stale: seq<Word>, ghost k: nat, ghost from: nat)
      returns (status: Status, ghost i: nat, ghost c: nat)
      requires 4 * n <= |input| && 4 * n <= output.Length && Leftover(r, stale, k, from)
      modifies `regs, `inFifo, `outFifo, `state, `phase, `locked, output
      ensures old(locked) ==>
                status == BUSY && unchanged(this) && output[..] == old(output[..])
      ensures !old(locked) ==>
                i <= n && status == (if i == n then OK else TIMEOUT)
                && state == (if i == n then Available else TimedOut) && !locked && phase == Process
                && Flight(r, stale + input, k + if i < n then i + 1 else n, c, i)
                && output[..] == Put(old(output[..]), 0, Output(f, r, stale + input, i))
      ensures !old(locked) && (forall j :: 0 <= j < n ==> steps(j) > 0) ==> i == n
      ensures !old(locked) && old(Clear()) ==> output[..] == Put(old(output[..]), 0, Output(f, old(regs), input, i))
    {
      hide After, Output, Put;
      i, c := 0, 0;
      if locked {
        return BUSY, 0, 0;
      }
      ClearMeansNone(r, stale, k, from);
      assert stale == [] ==> stale + input == input;
      locked := true;
      state := Working;
      if phase == Fresh {
        inFifo, outFifo := [], [];
        phase := Process;
        StartsEmpty(f, r, stale);
      }
      status, i, c := ProcessData(input, 16 * n, output, steps, r, stale, k, n, from);
      if status != OK {
        return TIMEOUT, i, c;
      }
      state := Available;
      locked := false;
    }

    // What is in flight after an operation, as the next one finds it.
    lemma Handover(r: Regs, m: seq<Word>, a: nat, c: nat, b: nat)
      requires Flight(r, m, a, c, b)
      ensures Flight(After(f, r, m, b), m[4 * b..4 * a], a - b, c - b, 0)
    {
      hide After, Output;
      var t := m[..4 * a];
      assert t + m[4 * a..] == m && m[4 * c..4 * a] == t[4 * c..4 * a];
      Extends(r, t, m[4 * a..], c);
      Extends(r, t, m[4 * a..], b);
      HandoverExact(r, t, a, c, b);
      assert t[4 * b..] == m[4 * b..4 * a];
    }

    lemma HandoverExact(r: Regs, m: seq<Word>, a: nat, c: nat, b: nat)
      requires Flight(r, m, a, c, b) && |m| == 4 * a
      ensures Flight(After(f, r, m, b), m[4 * b..], a - b, c - b, 0)
    {
      hide After, Output;
      var q, rest := After(f, r, m, b), m[4 * b..];
      RunSplits(f, r, m, b, c - b);
      assert inFifo == rest[4 * (c - b)..4 * (a - b)];
      assert outFifo == Output(f, q, rest, c - b);
    }

    // An operation on clear FIFOs, and the next one: if the first does not time out the
    // output of the second is that of its input; if it times out on block i, it is
    // that of the abandoned block followed by the input, without its last block.
    method EncryptTwice(first: seq<Word>, n1: nat, output1: array<Word>, steps1: nat -> nat,
                        second: seq<Word>, n2: nat, output2: array<Word>, steps2: nat -> nat)
      returns (status: Status, ghost i: nat)
      requires 4 * n1 <= |first| && 4 * n1 <= output1.Length
      requires 4 * n2 <= |second| && 4 * n2 <= output2.Length && forall j :: 0 <= j < n2 ==> steps2(j) > 0
      requires !locked && Clear()
      modifies `regs, `inFifo, `outFifo, `state, `phase, `locked, output1, output2
      ensures i <= n1 && state == Available && !locked
      ensures status == if i == n1 then OK else TIMEOUT
      ensures Clear() <==> status == OK
      ensures var abandoned := if i == n1 then [] else first[4 * i..4 * i + 4];
              var o := old(output2[..]);
              var before := if output1 != output2 then o else Put(o, 0, Output(f, old(regs), first, i));
              output2[..] == Put(before, 0, Output(f, After(f, old(regs), first, i), abandoned + second, n2))
    {
      hide After, Output, Put;
      ghost var r, k := regs, 0;
      ghost var c, j, d;
      StartsEmpty(f, r, []);
      status, i, c := Encrypt(first, n1, output1, steps1, r, [], 0, 0);
      assert [] + first == first;
      k := if i == n1 then 0 else 1;
      Handover(r, first, i + k, c, i);
      var again;
      ghost var q, stale := After(f, r, first, i), first[4 * i..4 * (i + k)];
      again, j, d := Encrypt(second, n2, output2, steps2, q, stale, k, c - i);
      FlightSizes(q, stale + second, k + n2, d, n2);
    }

    // A later state of the FIFOs, seen from the first of the messages.
    lemma Lift(r: Regs, m: seq<Word>, b: nat, e: nat, c: nat, i: nat)
      requires 4 * (b + e) <= |m| && Flight(After(f, r, m, b), m[4 * b..4 * (b + e)], e, c, i)
      ensures Flight(r, m, b + e, b + c, b + i)
      ensures Output(f, r, m, b + i) == Output(f, r, m, b) + Output(f, After(f, r, m, b), m[4 * b..4 * (b + e)], i)
    {
      hide After, Output;
      var q, rest, more := After(f, r, m, b), m[4 * b..4 * (b + e)], m[4 * (b + e)..];
      assert rest + more == m[4 * b..];
      Extends(q, rest, more, c);
      Extends(q, rest, more, i);
      RunSplits(f, r, m, b, c);
      RunSplits(f, r, m, b, i);
      assert rest[4 * c..4 * e] == m[4 * (b + c)..4 * (b + e)];
      assert Output(f, r, m, b + c)[4 * (b + i)..] == Output(f, q, rest, c)[4 * i..];
    }

    // Any number of operations, of counts[j] blocks each, on one input after another:
    // a block left over before them stays in flight to the end, and the outputs
    // together are those of the block and the inputs.
    method EncryptAll(input: seq<Word>, counts: seq<nat>, output: array<Word>, steps: nat -> nat -> nat,
                      ghost r: Regs, ghost stale: seq<Word>, ghost k: nat, ghost from: nat)
      returns (results: seq<Word>, ghost c: nat)
      requires |input| == 4 * Sum(counts) && (forall j :: 0 <= j < |counts| ==> 4 * counts[j] <= output.Length)
      requires forall j: nat, i: nat :: steps(j)(i) > 0
      requires !locked && phase == Process && Leftover(r, stale, k, from)
      modifies `regs, `inFifo, `outFifo, `state, `phase, `locked, output
      ensures !locked && phase == Process
      ensures Flight(r, stale + input, k + Sum(counts), c, Sum(counts)) && (Clear() <==> old(Clear()))
      ensures results == Output(f, r, stale + input, Sum(counts))
    {
      hide After, Output, Put, Flight;
      ghost var m := stale + input;
      var j, at := 0, 0;
      results, c := [], from;
      AlsoLonger(r, stale, input, k, from);
      StartsEmpty(f, r, m);
      ClearMeansNone(r, stale, k, from);
      while j < |counts|
        invariant j <= |counts| && at == Sum(counts[..j]) && 4 * at <= |input|
        invariant !locked && phase == Process && Flight(r, m, k + at, c, at)
        invariant results == Output(f, r, m, at)
      {
        assert counts[..j + 1][..j] == counts[..j];
        SumGrows(counts, j + 1);
        var n := counts[j];
        PartOfRest(stale, input, 4 * at, 4 * (at + n));
        var result;
        result, c := EncryptNext(input[4 * at..4 * (at + n)], n, output, steps(j), r, m, k, at, c);
        results := results + result;
        at := at + n;
        j := j + 1;
      }
      assert counts[..j] == counts;
      FlightSizes(r, m, k + at, c, at);
    }

    // One of them.
    method EncryptNext(message: seq<Word>, n: nat, output: array<Word>, steps: nat -> nat,
                       ghost r: Regs, ghost m: seq<Word>, ghost k: nat, ghost at: nat, ghost c: nat)
      returns (result: seq<Word>, ghost now: nat)
      requires |message| == 4 * n <= output.Length && forall i: nat :: steps(i) > 0
      requires 4 * (k + at + n) <= |m| && m[4 * (k + at)..4 * (k + at + n)] == message
      requires !locked && phase == Process && k <= 1 && Flight(r, m, k + at, c, at)
      modifies `regs, `inFifo, `outFifo, `state, `phase, `locked, output
      ensures !locked && phase == Process && Flight(r, m, k + (at + n), now, at + n)
      ensures Output(f, r, m, at + n) == Output(f, r, m, at) + result
    {
      hide After, Output, Put, Flight;
      FlightSizes(r, m, k + at, c, at);
      Handover(r, m, k + at, c, at);
      ghost var q, left := After(f, r, m, at), m[4 * at..4 * (k + at)];
      ghost var before := output[..];
      var status;
      ghost var i, d;
      status, i, d := Encrypt(message, n, output, steps, q, left, k, c - at);
      assert left + message == m[4 * at..4 * (at + (k + n))];
      Lift(r, m, at, k + n, d, n);
      PutStarts(before, Output(f, q, left + message, n));
      result := output[..4 * n];
      now := at + d;
    }

    lemma {:induction false} SumGrows(counts: seq<nat>, j: nat)
      requires j <= |counts|
      ensures Sum(counts[..j]) <= Sum(counts)
      decreases |counts|
    {
      if j < |counts| {
        SumGrows(counts[..|counts| - 1], j);
        assert counts[..|counts| - 1][..j] == counts[..j];
      } else {
        assert counts[..j] == counts;
      }
    }
  }
}
