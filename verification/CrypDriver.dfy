// HAL_CRYPEx_AES_Auth (polling), HAL_CRYPEx_AES_Auth_IT with its interrupt
// service CRYP_AES_Auth_IT, and CRYP_Padding, for the GCM chaining mode of the
// build without the NPBLB field.
module CrypDriver {
  import opened AesCore
  import opened CrypAuth
  import opened CrypWords

  datatype State = Ready | Busy | Error
  datatype Status = OK | ERROR | BUSY | TIMEOUT
  datatype Progress = Start | InitOver | HeaderOver | PayloadOver | FinalOver
  datatype Select = InitPhase | HeaderPhase | PayloadPhase | FinalPhase | Unknown
  datatype Option<T> = None | Some(value: T)

  // Block computations that a last block of fewer than 16 bytes takes.
  function TailCost(payload: bool, encrypt: bool): nat {
    if payload && encrypt then 2 else 1
  }

  // An interrupt-driven phase: the core once the phase is selected, the output
  // buffer then, and the message or the size given for the final phase.
  datatype Job = Job(start: Core, before: Bytes, message: Bytes, size: nat)

  // Entered(n): block n - 1 has been entered and its computation is awaited;
  // Again: so is the masked output block; Over: the phase is over.
  datatype Stage = Entered(n: nat) | Again | Over

  lemma BlocksAbove(l: nat, n: nat)
    requires 16 * n < l
    ensures n < Blocks(l) && Words(l) == 4 * n + Words(l - 16 * n) && l <= 4 * Words(l)
    ensures l - 16 * n <= 16 ==> Blocks(l) == n + 1
    ensures l - 16 * n > 16 ==> Blocks(l) > n + 1
  {
  }

  // Parts of what is at the beginning of b.
  lemma SamePart(b: Bytes, m: Bytes, i: nat, j: nat)
    requires i <= j <= |m| <= |b| && b[..|m|] == m
    ensures b[i..j] == m[i..j] && b[i..][..j - i] == m[i..j]
    ensures j == |m| ==> b[i..][..j - i] == m[i..]
  {
    var p := b[..|m|];
    forall k | i <= k < j
      ensures b[k] == m[k]
    {
      assert p[k] == b[k];
    }
    assert b[i..j] == m[i..j];
    assert b[i..][..j - i] == b[i..j];
  }

  lemma FuelLeft(n: nat, i: nat, encrypt: bool)
    requires 16 * i < n
    ensures i < Cost(n, encrypt)
    ensures encrypt && n - 16 * i < 16 ==> i + 2 <= Cost(n, encrypt)
  {
    if n - 16 * i < 16 {
      assert n / 16 == i;
    }
  }

  lemma TailFacts(j: Job, q: nat)
    requires 0 < |j.message| - 16 * q < 16
    ensures q == |j.message| / 16 && |j.message| % 16 == |j.message| - 16 * q && Blocks(|j.message|) == q + 1
    ensures WholeBlocks(j.message) == j.message[..16 * q] && Tail(j.message) == j.message[16 * q..]
    ensures Words(|j.message|) == 4 * q + Words(|j.message| - 16 * q)
  {
    assert |j.message| / 16 == q;
  }

  lemma WholeMessage(c: Core, k: Key, m: Bytes, n: nat)
    requires |m| == 16 * n
    ensures PayloadDone(c, k, m) == Fed(c, k, n, m)
    ensures Stored(Crypt(k, c.dt, c.ctr, m)) == Crypt(k, c.dt, c.ctr, m)
    ensures Blocks(|m|) == n && |m| % 16 == 0
  {
    WholePayload(c, k, m);
    StoredWhole(n, Crypt(k, c.dt, c.ctr, m));
  }

  class Handle {
    const key: Key
    var core: Core

    // Init structure: the phase to run, the data type, the memory at the
    // header pointer (None for a null pointer) and the header size.  The
    // operating mode is the decrypt field of the core.
    var select: Select
    var dataType: DataType
    var header: Option<Bytes>
    var headerSize: nat

    var state: State
    var phase: Progress
    var locked: bool
    // Input pointer and counter; output pointer and counter.
    var inBuf: Bytes
    var inPos: nat
    var inCount: nat
    var outBuf: array<bv8>
    var outPos: nat
    var outCount: nat
    // Computation-complete interrupt enable; callbacks run so far.
    var ccfie: bool
    var completions: nat
    var errors: nat

    constructor (k: Key, c: Core, dt: DataType, h: Option<Bytes>, n: nat)
      ensures key == k && core == c && dataType == dt && header == h && headerSize == n
      ensures state == Ready && phase == Start && !locked && !ccfie && completions == errors == 0
      ensures fresh(outBuf)
    {
      key, core, dataType, header, headerSize := k, c, dt, h, n;
      select, state, phase, locked := InitPhase, Ready, Start, false;
      inBuf, inPos, inCount, outPos, outCount := [], 0, 0, 0, 0;
      outBuf := new bv8[0];
      ccfie, completions, errors := false, 0, 0;
    }

    // What the caller must make readable: the whole words of the header.
    predicate HeaderReadable()
      reads `header, `headerSize
    {
      match header case None => headerSize == 0 case Some(m) => 4 * Words(headerSize) <= |m|
    }

    function HeaderBytes(): (h: Bytes)
      requires HeaderReadable()
      reads `header, `headerSize
      ensures |h| == headerSize
    {
      match header case None => [] case Some(m) => m[..headerSize]
    }

    /* ---------------------------- blocks ---------------------------- */

    method WriteBlock(m: Bytes, p: nat)
      requires p + 16 <= |m|
      modifies `core
      ensures core == Enter(old(core), key, m[p..p + 16])
    {
      hide Din;
      BlockWords(m, p);
      core := Din(core, key, m[p..p + 4]);
      core := Din(core, key, m[p + 4..p + 8]);
      core := Din(core, key, m[p + 8..p + 12]);
      core := Din(core, key, m[p + 12..p + 16]);
    }

    // A last block of n bytes: complete words, then the incomplete word masked,
    // then zero words.
    method EnterPadded(m: Bytes, n: nat)
      requires 0 < n < 16 && 4 * Words(n) <= |m|
      modifies `core
      ensures core == Enter(old(core), key, Pad(m[..n]))
    {
      hide Pad, Din, Word, Masked, Enter;
      ghost var p := Pad(m[..n]);
      var i := 0;
      while i < n / 4
        invariant 0 <= i <= n / 4
        invariant core == EnterWords(old(core), key, p, i)
      {
        PadWord(m, n, i);
        core := Din(core, key, Word(m, i));
        i := i + 1;
      }
      if n % 4 != 0 {
        PadWord(m, n, i);
        core := Din(core, key, Masked(Word(m, i), n % 4));
        i := i + 1;
      }
      var j := 0;
      while j < 4 - Words(n)
        invariant 0 <= j <= 4 - Words(n)
        invariant core == EnterWords(old(core), key, p, Words(n) + j)
      {
        PadWord(m, n, Words(n) + j);
        core := Din(core, key, Zeros(4));
        j := j + 1;
      }
      EnterWordsAll(old(core), key, p);
    }

    method StoreWord(p: nat, w: Bytes)
      requires |w| == 4 && p + 4 <= outBuf.Length
      modifies outBuf
      ensures outBuf[..] == Splice(old(outBuf[..]), p, w)
    {
      outBuf[p], outBuf[p + 1], outBuf[p + 2], outBuf[p + 3] := w[0], w[1], w[2], w[3];
    }

    method ReadWord() returns (w: Bytes)
      modifies `core
      ensures |w| == 4 && w == Dout(old(core)) && core == AfterRead(old(core))
    {
      w := Dout(core);
      core := AfterRead(core);
    }

    // Four reads of the output register into a local buffer.
    method ReadFour() returns (tmp: Bytes)
      requires core.dout == [] || |core.dout| == 16
      modifies `core
      ensures |tmp| == 16 && core == old(core).(dout := [])
      ensures tmp == Output(old(core))
    {
      ghost var d := core.dout;
      tmp := [];
      var i := 0;
      while i < 4
        invariant 0 <= i <= 4 && |tmp| == 4 * i
        invariant |d| == 16 ==> core == old(core).(dout := d[4 * i..]) && tmp == d[..4 * i]
        invariant d == [] ==> core == old(core) && tmp == Zeros(4 * i)
      {
        if |d| == 16 {
          DropWord(d, i);
        }
        var w := ReadWord();
        tmp := tmp + w;
        i := i + 1;
      }
    }

    // A whole output block to the buffer.
    method ReadBlock(p: nat)
      requires |core.dout| == 16 && p + 16 <= outBuf.Length
      modifies `core, outBuf
      ensures core == old(core).(dout := [])
      ensures outBuf[..] == Splice(old(outBuf[..]), p, old(core.dout))
    {
      hide Splice;
      ghost var d, s := core.dout, outBuf[..];
      SpliceNothing(s, p);
      var i := 0;
      while i < 4
        invariant 0 <= i <= 4
        invariant core == old(core).(dout := d[4 * i..])
        invariant outBuf[..] == Splice(s, p, d[..4 * i])
      {
        DropWord(d, i);
        SpliceNext(s, p, d[..4 * i], Word(d, i));
        var w := ReadWord();
        StoreWord(p + 4 * i, w);
        i := i + 1;
      }
      assert d[..16] == d;
    }

    // The output of a last block of n bytes: complete words and the incomplete
    // word, masked, go to the buffer; the masked block is kept.
    method ReadTail(p: nat, n: nat) returns (tmp: Bytes)
      requires 0 < n < 16 && p + 4 * Words(n) <= outBuf.Length
      requires core.dout == [] || |core.dout| == 16
      modifies `core, outBuf
      ensures core == old(core).(dout := [])
      ensures |tmp| == 16
      ensures forall j {:trigger Word(tmp, j)} | 0 <= j < Words(n) ::
                Word(tmp, j) == Word(Pad(Output(old(core))[..n]), j)
      ensures outBuf[..] == Splice(old(outBuf[..]), p, Pad(Output(old(core))[..n])[..4 * Words(n)])
    {
      hide Splice, Word, Masked, Pad;
      ghost var s := outBuf[..];
      SpliceNothing(s, p);
      tmp := ReadFour();
      ghost var d, e := tmp, Pad(tmp[..n]);
      var i := 0;
      while i < n / 4
        invariant 0 <= i <= n / 4
        invariant core == old(core).(dout := [])
        invariant forall j | 0 <= j < i :: Word(tmp, j) == Word(e, j)
        invariant outBuf[..] == Splice(s, p, e[..4 * i])
      {
        PadWord(d, n, i);
        DropWord(e, i);
        SpliceNext(s, p, e[..4 * i], Word(e, i));
        StoreWord(p + 4 * i, Word(tmp, i));
        i := i + 1;
      }
      if n % 4 != 0 {
        PadWord(d, n, i);
        DropWord(e, i);
        SpliceNext(s, p, e[..4 * i], Word(e, i));
        var w := Masked(Word(tmp, i), n % 4);
        tmp := Splice(tmp, 4 * i, w);
        forall j | 0 <= j < 4
          ensures Word(tmp, j) == if j == i then w else Word(d, j)
        {
          SpliceWord(d, i, w, j);
        }
        StoreWord(p + 4 * i, w);
      }
    }

    // The rest of the kept block masked with zero words.
    method ZeroRest(block: Bytes, n: nat) returns (tmp: Bytes)
      requires |block| == 16 && n < 16
      ensures |tmp| == 16
      ensures forall j {:trigger Word(tmp, j)} | 0 <= j < 4 ::
                Word(tmp, j) == if j < Words(n) then Word(block, j) else Zeros(4)
    {
      hide Splice, Word;
      tmp := block;
      var i := 0;
      while i < 4 - Words(n)
        invariant 0 <= i <= 4 - Words(n)
        invariant |tmp| == 16
        invariant forall j | 0 <= j < 4 ::
          Word(tmp, j) == if Words(n) <= j < Words(n) + i then Zeros(4) else Word(block, j)
      {
        ghost var was := tmp;
        tmp := Splice(tmp, 4 * (Words(n) + i), Zeros(4));
        forall j | 0 <= j < 4
          ensures Word(tmp, j) == if j == Words(n) + i then Zeros(4) else Word(was, j)
        {
          SpliceWord(was, Words(n) + i, Zeros(4), j);
        }
        i := i + 1;
      }
    }

    // A wait whose failure is reported through the error callback only.
    method WaitOrReport()
      modifies `core, `state, `locked, `errors
      ensures core == old(core).(ccf := false)
      ensures errors == old(errors) + if old(core).ccf then 0 else 1
      ensures if old(core).ccf then state == old(state) && locked == old(locked) else state == Ready && !locked
    {
      if !core.ccf {
        state, locked, errors := Ready, false, errors + 1;
      }
      core := core.(ccf := false);
    }

    // CRYP_Padding with polling.
    method Padding(n: nat)
      requires 0 < n < 16 && inPos + 4 * Words(n) <= |inBuf|
      requires Idle(core) && core.en
      requires select == HeaderPhase || select == PayloadPhase
      requires core.phase == if select == PayloadPhase then Payload else Header
      requires select == PayloadPhase ==> outPos + 4 * Words(n) <= outBuf.Length
      modifies `core, `state, `locked, `errors, if select == PayloadPhase then {outBuf} else {}
      ensures errors == old(errors) + Minus(TailCost(select == PayloadPhase, !old(core).decrypt), old(core).fuel)
      ensures if errors == old(errors) then state == old(state) && locked == old(locked) else state == Ready && !locked
      ensures var c, t := old(core), inBuf[inPos..inPos + n];
              c.fuel >= TailCost(select == PayloadPhase, !c.decrypt) ==>
                if select == HeaderPhase then core == Fed(c, key, 1, Pad(t))
                else core == PayloadDone(c, key, t)
                     && outBuf[..] == Splice(old(outBuf[..]), outPos, Pad(Crypt(key, c.dt, c.ctr, t))[..4 * Words(n)])
    {
      hide Pad, Enter, Crypt, Splice, Word, Fed, PayloadDone, Writes;
      ghost var c, t, payload := core, inBuf[inPos..inPos + n], select == PayloadPhase;
      assert inBuf[inPos..][..n] == t;
      if select == PayloadPhase && !core.decrypt {
        core := core.(chain := Ctr, log := core.log + [SetChain(Ctr)]);
      }
      EnterPadded(inBuf[inPos..], n);
      TailAnswers(c, key, t, payload);
      ghost var e := core;
      WaitOrReport();
      if select == PayloadPhase {
        ghost var d := Output(core);
        var tmp := ReadTail(outPos, n);
        CryptPadded(key, c.dt, c.ctr, t);
        if !core.decrypt {
          SelectFinal();
          tmp := ZeroRest(tmp, n);
          MaskedBlock(d, n, tmp);
          DetourAnswers(c, key, t, tmp);
          WriteBlock(tmp, 0);
          assert tmp[0..16] == tmp;
          WaitOrReport();
          tmp := ReadFour();
        }
      }
    }

    // Back to GCM, in the final phase.
    method SelectFinal()
      modifies `core
      ensures core == Undo(old(core))
    {
      core := core.(chain := Gcm, log := core.log + [SetChain(Gcm)]);
      core := core.(phase := Final, log := core.log + [SetPhase(Final)]);
      assert old(core).log + [SetChain(Gcm)] + [SetPhase(Final)] == old(core).log + [SetChain(Gcm), SetPhase(Final)];
    }

    /* ----------------------- polling, phase by phase ----------------------- */

    predicate Live()
      reads this
    {
      Idle(core) && (core.en || phase == InitOver)
    }

    // The first q blocks of the header m; false on a time-out.
    method HeaderBlocks(m: Bytes, q: nat) returns (ok: bool)
      requires 16 * q <= |m| && Idle(core) && core.en && core.phase == Header
      modifies `core, `state, `locked
      ensures ok <==> old(core).fuel >= q
      ensures !ok ==> state == Ready && !locked
      ensures ok ==> core == Fed(old(core), key, q, m[..16 * q])
    {
      hide Enter, Fed, Idle;
      ghost var c := core;
      FedNothing(c, key);
      var i := 0;
      while i < q
        invariant 0 <= i <= q && c.fuel >= i
        invariant core == Fed(c, key, i, m[..16 * i])
      {
        WriteBlock(m, 16 * i);
        assert m[..16 * i] + m[16 * i..16 * i + 16] == m[..16 * (i + 1)];
        HeaderStep(c, key, i, m[..16 * i], m[16 * i..16 * i + 16]);
        if !core.ccf {
          state, locked := Ready, false;
          return false;
        }
        core := core.(ccf := false);
        i := i + 1;
      }
      ok := true;
    }

    // The header phase; false on a time-out.
    method FeedHeader() returns (ok: bool)
      requires select == HeaderPhase && HeaderReadable() && Idle(core)
      modifies `core, `state, `locked, `phase, `errors, `inBuf, `inPos
      ensures ok <==> old(core).fuel >= headerSize / 16
      ensures !ok ==> state == Ready && !locked && phase == old(phase) && errors == old(errors)
      ensures ok ==> phase == HeaderOver
      ensures ok ==>
                var cost := if headerSize % 16 == 0 then 0 else 1;
                errors == old(errors) + Minus(cost, Minus(old(core).fuel, headerSize / 16))
      ensures old(core).fuel >= Blocks(headerSize) ==>
                core == Fed(HeaderStart(old(core), dataType), key, Blocks(headerSize), Pad(HeaderBytes()))
    {
      hide Pad, Enter, Crypt, Fed, Writes;
      core := HeaderStart(core, dataType);
      ghost var c := core;
      var m := match header case None => [] case Some(b) => b;
      ok := HeaderBlocks(m, headerSize / 16);
      if ok {
        EndHeader(m, c);
        phase := HeaderOver;
      }
    }

    // The bytes after the last whole block of the header.
    method EndHeader(m: Bytes, ghost c: Core)
      requires select == HeaderPhase && headerSize <= |m| && 4 * Words(headerSize) <= |m|
      requires Idle(c) && c.en && c.phase == Header && c.fuel >= headerSize / 16
      requires core == Fed(c, key, headerSize / 16, m[..16 * (headerSize / 16)])
      modifies `core, `state, `locked, `errors, `inBuf, `inPos
      ensures errors == old(errors) + Minus(if headerSize % 16 == 0 then 0 else 1, Minus(c.fuel, headerSize / 16))
      ensures c.fuel >= Blocks(headerSize) ==> core == Fed(c, key, Blocks(headerSize), Pad(m[..headerSize]))
    {
      hide Pad, Enter, Crypt, Fed, Writes, WholeBlocks, Tail, Blocks, Words;
      var q := headerSize / 16;
      WholePart(m, headerSize);
      FedKeeps(c, key, q, m[..16 * q]);
      if headerSize % 16 != 0 {
        inBuf, inPos := m, 16 * q;
        FedTail(c, key, m[..headerSize]);
        Padding(headerSize % 16);
      }
    }

    // The first q blocks of payload m, their output to the buffer; false on a
    // time-out.
    method PayloadBlocks(m: Bytes, q: nat) returns (ok: bool)
      requires 16 * q <= |m| && InPayload(core) && 16 * q <= outBuf.Length
      modifies `core, `state, `locked, outBuf
      ensures ok <==> old(core).fuel >= q
      ensures !ok ==> state == Ready && !locked
      ensures ok ==> core == Fed(old(core), key, q, m[..16 * q])
      ensures ok ==> outBuf[..] == Splice(old(outBuf[..]), 0, Crypt(key, old(core).dt, old(core).ctr, m[..16 * q]))
    {
      hide Enter, Fed, InPayload, Crypt, Splice;
      ghost var c, s := core, outBuf[..];
      FedNothing(c, key);
      SpliceNothing(s, 0);
      assert Crypt(key, c.dt, c.ctr, []) == [];
      var i := 0;
      while i < q
        invariant 0 <= i <= q && c.fuel >= i
        invariant core == Fed(c, key, i, m[..16 * i])
        invariant outBuf[..] == Splice(s, 0, Crypt(key, c.dt, c.ctr, m[..16 * i]))
      {
        ghost var a, b := m[..16 * i], m[16 * i..16 * i + 16];
        WriteBlock(m, 16 * i);
        assert a + b == m[..16 * (i + 1)];
        PayloadStep(c, key, i, a, b);
        if !core.ccf {
          state, locked := Ready, false;
          return false;
        }
        core := core.(ccf := false);
        ReadBlock(16 * i);
        CryptAppend(key, c.dt, c.ctr, i, a, b);
        SpliceNext(s, 0, Crypt(key, c.dt, c.ctr, a), Crypt(key, c.dt, c.ctr + i, b));
        i := i + 1;
      }
      ok := true;
    }

    // The payload phase; false on a time-out.
    method FeedPayload(input: Bytes, size: nat, output: array<bv8>) returns (ok: bool)
      requires select == PayloadPhase && 4 * Words(size) <= |input| && 4 * Words(size) <= output.Length && Live()
      modifies `core, `state, `locked, `phase, `errors, `inBuf, `inPos, `outBuf, `outPos, output
      ensures ok <==> old(core).fuel >= size / 16
      ensures !ok ==> state == Ready && !locked && phase == old(phase) && errors == old(errors)
      ensures ok ==> phase == PayloadOver
      ensures ok ==>
                var cost := if size % 16 == 0 then 0 else TailCost(true, !old(core).decrypt);
                errors == old(errors) + Minus(cost, Minus(old(core).fuel, size / 16))
      ensures old(core).fuel >= Cost(size, !old(core).decrypt) ==>
                core == PayloadDone(PayloadStart(old(core), old(phase) == InitOver), key, input[..size])
                && output[..]
                   == Splice(old(output[..]), 0, Stored(Crypt(key, old(core).dt, old(core).ctr, input[..size])))
    {
      hide Pad, Enter, Crypt, Fed, Writes, WholeBlocks, Tail, Splice, Stored, PayloadDone;
      core := PayloadStart(core, phase == InitOver);
      outBuf, outPos := output, 0;
      ghost var c := core;
      WholePart(input, size);
      ok := PayloadBlocks(input, size / 16);
      if ok {
        EndPayload(input, size, c, old(output[..]));
        phase := PayloadOver;
      }
    }

    // The bytes after the last whole block.
    method EndPayload(input: Bytes, size: nat, ghost c: Core, ghost s: Bytes)
      requires select == PayloadPhase && 4 * Words(size) <= |input| && 4 * Words(size) <= outBuf.Length == |s|
      requires InPayload(c) && c.fuel >= size / 16
      requires core == Fed(c, key, size / 16, input[..16 * (size / 16)])
      requires outBuf[..] == Splice(s, 0, Crypt(key, c.dt, c.ctr, input[..16 * (size / 16)]))
      modifies `core, `state, `locked, `errors, `inBuf, `inPos, `outPos, outBuf
      ensures var cost := if size % 16 == 0 then 0 else TailCost(true, !c.decrypt);
              errors == old(errors) + Minus(cost, Minus(c.fuel, size / 16))
      ensures c.fuel >= Cost(size, !c.decrypt) ==>
                core == PayloadDone(c, key, input[..size])
                && outBuf[..] == Splice(s, 0, Stored(Crypt(key, c.dt, c.ctr, input[..size])))
    {
      hide Pad, Enter, Crypt, Fed, Writes, WholeBlocks, Tail, Splice, Stored, PayloadDone;
      var q := size / 16;
      WholePart(input, size);
      StoredOutput(key, c.dt, c.ctr, s, input, q, size % 16);
      FedKeeps(c, key, q, input[..16 * q]);
      if size % 16 != 0 {
        inBuf, inPos, outPos := input, 16 * q, 16 * q;
        PayloadSplits(c, key, input[..size]);
        Padding(size % 16);
      } else {
        WholePayload(c, key, input[..size]);
      }
    }

    // The bit lengths, each as two words swapped for the data type.
    method WriteLengths(size: nat)
      modifies `core
      ensures core == Enter(old(core), key, LengthBlock(dataType, headerSize, size))
      ensures exists l :: LengthsWritten(dataType, headerSize, size, l) && core.log == old(core).log + l
    {
      hide Din, Swapped, Le32, LengthsWritten;
      LengthWrites(dataType, headerSize, size);
      EnterLogs(core, key, LengthBlock(dataType, headerSize, size));
      ghost var b := LengthBlock(dataType, headerSize, size);
      var headerlength, inputlength := 8 * headerSize, 8 * size;
      var w0 := Swapped(dataType, Le32(headerlength / 0x1_0000_0000));
      var w1 := Swapped(dataType, Le32(headerlength));
      var w2 := Swapped(dataType, Le32(inputlength / 0x1_0000_0000));
      var w3 := Swapped(dataType, Le32(inputlength));
      core := Din(core, key, w0);
      core := Din(core, key, w1);
      core := Din(core, key, w2);
      core := Din(core, key, w3);
      FourWords(w0, w1, w2, w3);
    }

    // The final phase; false on a time-out.
    method FeedFinal(size: nat, output: array<bv8>) returns (ok: bool)
      requires select == FinalPhase && 16 <= output.Length && Live()
      modifies `core, `state, `locked, `phase, `outBuf, output
      ensures ok <==> old(core).fuel >= 1
      ensures !ok ==> state == Ready && !locked && phase == old(phase) && output[..] == old(output[..])
      ensures ok ==> phase == FinalOver
                     && core == FinalDone(FinalStart(old(core), old(phase) == InitOver), dataType, headerSize, size)
                     && output[..] == Splice(old(output[..]), 0, Wire(core.dt, Tag(key, core.ghash)))
      ensures exists l :: LengthsWritten(dataType, headerSize, size, l)
                          && core.log == old(core).log + [SetPhase(Final)] + l
    {
      hide Enter, Splice, Wire, Tag, LengthBlock, Writes, LengthsWritten;
      core := FinalStart(core, phase == InitOver);
      FinalAnswers(core, key, dataType, headerSize, size);
      WriteLengths(size);
      if !core.ccf {
        state, locked := Ready, false;
        return false;
      }
      outBuf := output;
      ReadBlock(0);
      core := core.(ccf := false);
      phase := FinalOver;
      core := core.(en := false);
      ok := true;
    }

    // The parameter check both forms start with.
    predicate Rejects(input: Option<Bytes>, size: nat, output: array?<bv8>)
      reads `select, `header, `headerSize
    {
      match select
      case HeaderPhase => header.Some? && headerSize == 0
      case PayloadPhase => input.None? || output == null || size == 0
      case FinalPhase => output == null
      case _ => false
    }

    // What the caller must provide: word accesses to its buffers are whole.
    predicate Buffers(input: Option<Bytes>, size: nat, output: array?<bv8>)
      reads `select, `header, `headerSize
    {
      match select
      case HeaderPhase => HeaderReadable()
      case PayloadPhase =>
        (input.Some? ==> 4 * Words(size) <= |input.value|) && (output != null ==> 4 * Words(size) <= output.Length)
      case FinalPhase => output != null ==> 16 <= output.Length
      case _ => true
    }

    // The computations that must complete for the call not to time out.
    function Awaited(size: nat): nat
      reads `select, `headerSize
    {
      match select
      case HeaderPhase => headerSize / 16
      case PayloadPhase => size / 16
      case FinalPhase => 1
      case _ => 0
    }

    // Computations that failed to complete in CRYP_Padding, where that is
    // reported through the error callback and the call still succeeds.
    function Swallowed(c: Core, size: nat): nat
      reads `select, `headerSize
    {
      match select
      case HeaderPhase => Minus(if headerSize % 16 == 0 then 0 else 1, Minus(c.fuel, headerSize / 16))
      case PayloadPhase => Minus(if size % 16 == 0 then 0 else TailCost(true, !c.decrypt), Minus(c.fuel, size / 16))
      case _ => 0
    }

    // The core answers throughout the phase.
    predicate Answers(c: Core, size: nat)
      reads `select, `headerSize
    {
      match select
      case InitPhase => c.ccf
      case HeaderPhase => c.fuel >= Blocks(headerSize)
      case PayloadPhase => c.fuel >= Cost(size, !c.decrypt)
      case FinalPhase => c.fuel >= 1
      case Unknown => false
    }

    // What the selected phase leaves: the core, the progress mark and the
    // output buffer.
    function GoalCore(c: Core, over: Progress, m: Bytes, size: nat): Core
      requires select == HeaderPhase ==> HeaderReadable()
      reads `select, `dataType, `header, `headerSize
    {
      match select
      case InitPhase => c.(ccf := false)
      case HeaderPhase => HeaderDone(c, key, dataType, HeaderBytes())
      case PayloadPhase => PayloadDone(PayloadStart(c, over == InitOver), key, m)
      case FinalPhase => FinalDone(FinalStart(c, over == InitOver), dataType, headerSize, size)
      case Unknown => c
    }

    function GoalMark(): Progress
      reads `select
    {
      match select
      case InitPhase => InitOver
      case HeaderPhase => HeaderOver
      case PayloadPhase => PayloadOver
      case _ => FinalOver
    }

    function GoalOutput(c: Core, over: Progress, m: Bytes, size: nat, before: Bytes): Bytes
      reads `select, `dataType, `headerSize
    {
      match select
      case PayloadPhase => Splice(before, 0, Stored(Crypt(key, c.dt, c.ctr, m)))
      case FinalPhase =>
        var f := FinalDone(FinalStart(c, over == InitOver), dataType, headerSize, size);
        Splice(before, 0, Wire(c.dt, Tag(key, f.ghash)))
      case _ => before
    }

    function Message(input: Option<Bytes>, size: nat): Bytes
      requires select == PayloadPhase && input.Some? ==> size <= |input.value|
      reads `select
    {
      if select == PayloadPhase && input.Some? then input.value[..size] else []
    }

    // HAL_CRYPEx_AES_Auth.
    method Auth(input: Option<Bytes>, size: nat, output: array?<bv8>) returns (status: Status)
      requires Buffers(input, size, output) && (select != InitPhase ==> Live())
      modifies `core, `state, `locked, `phase, `errors, `inBuf, `inPos, `outBuf, `outPos,
               if output == null then {} else {output}
      ensures old(state) != Ready || Rejects(input, size, output) || old(locked) ==> unchanged(this)
      ensures old(state) != Ready ==> status == BUSY && state == old(state) && core == old(core)
      ensures old(state) == Ready && Rejects(input, size, output) ==>
                status == ERROR && state == Ready && core == old(core)
      ensures old(state) == Ready && !Rejects(input, size, output) ==>
                if old(locked) then status == BUSY && state == Ready && core == old(core)
                else !locked && state == (if select == Unknown then Error else Ready)
      ensures old(state) == Ready && !old(locked) && !Rejects(input, size, output) ==>
                status == if select == Unknown then ERROR
                          else if select == InitPhase && !old(core).ccf then TIMEOUT
                          else if select == InitPhase || old(core).fuel >= Awaited(size) then OK
                          else TIMEOUT
      ensures errors == old(errors) + if old(state) == Ready && status == OK then Swallowed(old(core), size) else 0
      ensures old(state) == Ready && !old(locked) && !Rejects(input, size, output) && Answers(old(core), size) ==>
                status == OK && phase == GoalMark()
                && core == GoalCore(old(core), old(phase), Message(input, size), size)
      ensures old(state) == Ready && !old(locked) && !Rejects(input, size, output) && Answers(old(core), size)
                && output != null ==>
                output[..] == GoalOutput(old(core), old(phase), Message(input, size), size, old(output[..]))
    {
      hide GoalCore, GoalOutput, GoalMark, Message, Answers, Swallowed, Awaited, Buffers, Rejects;
      if state == Ready {
        if Rejects(input, size, output) {
          return ERROR;
        }
        if locked {
          return BUSY;
        }
        locked := true;
        state := Busy;
        status := RunPhase(input, size, output);
        if status != OK {
          return;
        }
        state, locked := Ready, false;
        return OK;
      } else {
        return BUSY;
      }
    }

    // The phase selected.
    method RunPhase(input: Option<Bytes>, size: nat, output: array?<bv8>) returns (status: Status)
      requires Buffers(input, size, output) && (select != InitPhase ==> Live()) && !Rejects(input, size, output)
      modifies `core, `state, `locked, `phase, `errors, `inBuf, `inPos, `outBuf, `outPos,
               if output == null then {} else {output}
      ensures status == if select == Unknown then ERROR
                        else if (if select == InitPhase then old(core).ccf else old(core).fuel >= Awaited(size)) then OK
                        else TIMEOUT
      ensures status != OK ==> !locked && state == if select == Unknown then Error else Ready
      ensures errors == old(errors) + if status == OK then Swallowed(old(core), size) else 0
      ensures Answers(old(core), size) ==>
                status == OK && phase == GoalMark()
                && core == GoalCore(old(core), old(phase), Message(input, size), size)
      ensures Answers(old(core), size) && output != null ==>
                output[..] == GoalOutput(old(core), old(phase), Message(input, size), size, old(output[..]))
    {
      hide Fed, PayloadDone, Splice, Stored, Crypt, Pad, Wire, Tag, LengthBlock, Writes;
      var ok := true;
      match select {
        case InitPhase =>
          if !core.ccf {
            state, locked := Ready, false;
            return TIMEOUT;
          }
          core := core.(ccf := false);
          phase := InitOver;
        case HeaderPhase =>
          ok := FeedHeader();
        case PayloadPhase =>
          ok := FeedPayload(input.value, size, output);
        case FinalPhase =>
          ok := FeedFinal(size, output);
        case Unknown =>
          state, locked := Error, false;
          return ERROR;
      }
      return if ok then OK else TIMEOUT;
    }

    /* ----------------- the header phase under interrupts ----------------- */

    ghost predicate HeaderAt(c: Core, n: nat)
      requires HeaderReadable()
      reads this
    {
      state == Busy && ccfie && select == HeaderPhase && header.Some? && inBuf == header.value
      && 0 < n <= Blocks(headerSize)
      && core == Fed(c, key, n, Pad(HeaderBytes())[..16 * n]).(ccf := true)
      && inCount == Minus(headerSize, 16 * n) && (inCount > 0 ==> inPos == 16 * n)
    }

    // The next header block, or the last bytes padded.
    method EnterHeader(ghost c: Core, ghost n: nat)
      requires HeaderReadable() && header.Some? && inBuf == header.value && inPos == 16 * n
      requires inCount > 0 && inCount == headerSize - 16 * n
      requires Idle(c) && c.en && c.phase == Header
      requires core == Fed(c, key, n, Pad(HeaderBytes())[..16 * n])
      modifies `core, `inPos, `inCount
      ensures n + 1 <= Blocks(headerSize)
      ensures c.fuel >= Blocks(headerSize) ==>
                core == Fed(c, key, n + 1, Pad(HeaderBytes())[..16 * (n + 1)]).(ccf := true)
      ensures inCount == Minus(headerSize, 16 * (n + 1)) && (inCount > 0 ==> inPos == 16 * (n + 1))
    {
      hide Fed, Enter, Pad, Idle, Blocks, Words;
      ghost var p := Pad(HeaderBytes());
      var at := inPos;
      BlocksAbove(headerSize, n);
      PadBlock(inBuf, headerSize, n);
      if c.fuel >= n {
        HeaderStep(c, key, n, p[..16 * n], p[16 * n..16 * n + 16]);
      }
      if inCount < 16 {
        var difflength := inCount;
        inCount := 0;
        assert inBuf[at..][..difflength] == inBuf[16 * n..headerSize];
        EnterPadded(inBuf[at..], difflength);
      } else {
        inPos := inPos + 16;
        inCount := inCount - 16;
        WriteBlock(inBuf, at);
      }
    }

    // The end of a phase in the interrupt service.
    method Finish(over: Progress)
      modifies `core, `state, `phase, `locked, `ccfie, `completions
      ensures core == old(core).(ccf := false)
      ensures state == Ready && phase == over && !locked && !ccfie && completions == old(completions) + 1
    {
      core := core.(ccf := false);
      ccfie := false;
      state := Ready;
      phase := over;
      locked := false;
      completions := completions + 1;
    }

    method ServeHeader(ghost c: Core, ghost n: nat)
      requires HeaderReadable() && HeaderAt(c, n)
      requires Idle(c) && c.en && c.phase == Header && c.fuel >= Blocks(headerSize)
      modifies `core, `state, `phase, `locked, `ccfie, `completions, `inPos, `inCount
      ensures n < Blocks(headerSize) ==> HeaderAt(c, n + 1) && phase == old(phase) && completions == old(completions)
      ensures n == Blocks(headerSize) ==>
                core == Fed(c, key, n, Pad(HeaderBytes())) && state == Ready && phase == HeaderOver
                && !locked && !ccfie && completions == old(completions) + 1
    {
      hide Fed, Pad;
      ghost var p := Pad(HeaderBytes());
      FedKeeps(c, key, n, p[..16 * n]);
      if inCount == 0 {
        assert p[..16 * Blocks(headerSize)] == p;
        Finish(HeaderOver);
      } else {
        core := core.(ccf := false);
        EnterHeader(c, n);
      }
    }

    /* ---------------- the payload phase under interrupts ---------------- */

    // The core when block n - 1 of the message has been entered.
    ghost function PayloadEntered(c: Core, m: Bytes, n: nat): Core
      requires 0 < n <= Blocks(|m|)
    {
      var f := Fed(c, key, n - 1, m[..16 * (n - 1)]);
      if 16 * n <= |m| then Enter(f, key, m[16 * (n - 1)..16 * n])
      else Enter(Detour(f), key, Pad(m[16 * (n - 1)..]))
    }

    ghost predicate PayloadBuffers(j: Job)
      reads this
    {
      4 * Words(|j.message|) <= |inBuf| && inBuf[..|j.message|] == j.message
      && 4 * Words(|j.message|) <= outBuf.Length == |j.before|
    }

    // The first n blocks of output are in the buffer and the counters say so.
    ghost predicate Retrieved(j: Job, n: nat)
      reads this, outBuf
    {
      16 * n <= |j.message|
      && outBuf[..] == Splice(j.before, 0, Crypt(key, j.start.dt, j.start.ctr, j.message[..16 * n]))
      && outCount == |j.message| - 16 * n && outPos == 16 * n
    }

    ghost predicate InputLeft(j: Job, n: nat)
      reads this
    {
      inCount == Minus(|j.message|, 16 * n) && (inCount > 0 ==> inPos == 16 * n)
    }

    ghost predicate PayloadAt(j: Job, st: Stage)
      reads this, outBuf
    {
      var c, m := j.start, j.message;
      PayloadBuffers(j)
      && match st
      case Entered(n) =>
        state == Busy && ccfie && select == PayloadPhase
        && 0 < n <= Blocks(|m|) && core == PayloadEntered(c, m, n) && Retrieved(j, n - 1) && InputLeft(j, n)
      case Again =>
        state == Busy && ccfie && select == PayloadPhase
        && core.ccf && |core.dout| == 16 && Taken(core) == PayloadDone(c, key, m)
        && outBuf[..] == Splice(j.before, 0, Stored(Crypt(key, c.dt, c.ctr, m))) && outCount == 0
      case Over =>
        state == Ready && phase == PayloadOver && !ccfie && !locked
        && core == PayloadDone(c, key, m)
        && outBuf[..] == Splice(j.before, 0, Stored(Crypt(key, c.dt, c.ctr, m)))
    }

    static ghost predicate Answered(j: Job) {
      j.start.fuel >= Cost(|j.message|, !j.start.decrypt)
    }

    static ghost predicate Runs(j: Job) {
      InPayload(j.start) && Answered(j) && |j.message| > 0
    }

    static ghost function Next(j: Job, st: Stage): Stage {
      match st
      case Entered(n) =>
        if n < Blocks(|j.message|) then Entered(n + 1)
        else if j.start.decrypt || |j.message| % 16 == 0 then Over
        else Again
      case _ => Over
    }

    // The next payload block, or the last bytes padded.
    method EnterPayload(ghost j: Job, ghost n: nat)
      requires PayloadBuffers(j) && InputLeft(j, n) && inCount > 0
      requires core == Fed(j.start, key, n, j.message[..16 * n])
      modifies `core, `inPos, `inCount
      ensures n < Blocks(|j.message|)
      ensures core == PayloadEntered(j.start, j.message, n + 1)
      ensures InputLeft(j, n + 1)
    {
      hide Fed, Enter, Pad, Crypt, Writes, Wire, Blocks, Words;
      ghost var m := j.message;
      BlocksAbove(|m|, n);
      var at := inPos;
      if inCount < 16 {
        var difflength := inCount;
        inCount := 0;
        SamePart(inBuf, m, at, |m|);
        if !core.decrypt {
          core := core.(chain := Ctr, log := core.log + [SetChain(Ctr)]);
        }
        EnterPadded(inBuf[at..], difflength);
      } else {
        inPos := inPos + 16;
        inCount := inCount - 16;
        SamePart(inBuf, m, 16 * n, 16 * (n + 1));
        WriteBlock(inBuf, at);
      }
    }

    // The masked output of a partial block t is entered again after f.
    method Reenter(block: Bytes, n: nat, ghost f: Core, ghost t: Bytes)
      requires InPayload(f) && f.fuel >= 2 && !f.decrypt && 0 < |t| == n < 16 && |block| == 16
      requires core.dout == [] && Taken(core) == Taken(Enter(Detour(f), key, Pad(t)))
      requires forall i {:trigger Word(block, i)} | 0 <= i < Words(n) ::
                 Word(block, i) == Word(Pad(Crypt(key, f.dt, f.ctr, Pad(t))[..n]), i)
      modifies `core
      ensures core.ccf && |core.dout| == 16 && Taken(core) == PayloadDone(f, key, t)
    {
      hide Fed, Enter, Pad, Crypt, Word, PayloadDone, Words;
      SelectFinal();
      var tmp := ZeroRest(block, n);
      MaskedBlock(Crypt(key, f.dt, f.ctr, Pad(t)), n, tmp);
      CryptPadded(key, f.dt, f.ctr, t);
      core := core.(ccf := false);
      DetourEnds(f, key, t);
      WriteBlock(tmp, 0);
      assert tmp[0..16] == tmp;
    }

    // The output of the last, partial block.
    method ServeTail(ghost j: Job, ghost n: nat)
      requires Runs(j) && PayloadAt(j, Entered(n)) && 0 < outCount < 16
      modifies `core, `state, `phase, `locked, `ccfie, `completions, `outCount, outBuf
      ensures PayloadAt(j, Next(j, Entered(n)))
      ensures if state == Busy then completions == old(completions) && phase == old(phase) && !j.start.decrypt
              else completions == old(completions) + 1
    {
      hide Fed, Enter, Pad, Crypt, Writes, Wire, Splice, Stored, Tail, WholeBlocks, PayloadDone, Cost, Word;
      ghost var c, m := j.start, j.message;
      ghost var q, t := n - 1, m[16 * (n - 1)..];
      ghost var f := Fed(c, key, q, m[..16 * q]);
      TailFacts(j, q);
      FuelLeft(|m|, q, !c.decrypt);
      FedKeeps(c, key, q, m[..16 * q]);
      StoredOutput(key, c.dt, c.ctr, j.before, m, q, outCount);
      assert m[..16 * q + outCount] == m && m[16 * q..16 * q + outCount] == t;
      CryptPadded(key, c.dt, c.ctr + q, t);
      TailEnters(f, key, t);
      PayloadSplits(c, key, m);
      var difflength := outCount;
      outCount := 0;
      var tmp := ReadTail(outPos, difflength);
      if !core.decrypt {
        Reenter(tmp, difflength, f, t);
      } else {
        Finish(PayloadOver);
      }
    }

    // The output of a whole block.
    method RetrieveBlock(ghost j: Job, ghost n: nat)
      requires Runs(j) && PayloadAt(j, Entered(n)) && outCount >= 16
      modifies `core, `outPos, `outCount, outBuf
      ensures Taken(core) == Fed(j.start, key, n, j.message[..16 * n]) && core.dout == []
      ensures Retrieved(j, n)
    {
      hide Fed, Enter, Pad, Crypt, Writes, Wire, Splice, Tail, WholeBlocks, PayloadDone, Cost, Blocks;
      ghost var c, m := j.start, j.message;
      ghost var a, b := m[..16 * (n - 1)], m[16 * (n - 1)..16 * n];
      assert a + b == m[..16 * n];
      FuelLeft(|m|, n - 1, !c.decrypt);
      PayloadStep(c, key, n - 1, a, b);
      CryptAppend(key, c.dt, c.ctr, n - 1, a, b);
      SpliceNext(j.before, 0, Crypt(key, c.dt, c.ctr, a), Crypt(key, c.dt, c.ctr + n - 1, b));
      ReadBlock(outPos);
      outPos := outPos + 16;
      outCount := outCount - 16;
    }

    // The output of a whole block, then the next input if any is left.
    method ServeBlock(ghost j: Job, ghost n: nat)
      requires Runs(j) && PayloadAt(j, Entered(n)) && outCount >= 16
      modifies `core, `state, `phase, `locked, `ccfie, `completions,
               `inPos, `inCount, `outPos, `outCount, outBuf
      ensures PayloadAt(j, Next(j, Entered(n))) && Next(j, Entered(n)) != Again
      ensures if state == Busy then completions == old(completions) && phase == old(phase)
              else completions == old(completions) + 1
    {
      hide Fed, Enter, Pad, Crypt, Splice, Stored, PayloadEntered, PayloadDone, Cost;
      ghost var c, m := j.start, j.message;
      RetrieveBlock(j, n);
      FedKeeps(c, key, n, m[..16 * n]);
      if outCount == 0 {
        assert m[..16 * n] == m;
        WholeMessage(c, key, m, n);
        Finish(PayloadOver);
      } else {
        core := core.(ccf := false);
        EnterPayload(j, n);
      }
    }

    // The output of the masked block is read and discarded.
    method ServeAgain(ghost j: Job)
      requires PayloadAt(j, Again)
      modifies `core, `state, `phase, `locked, `ccfie, `completions
      ensures PayloadAt(j, Over) && completions == old(completions) + 1
    {
      hide Fed, PayloadDone, Splice, Stored, Crypt;
      var tmp := ReadFour();
      Finish(PayloadOver);
    }

    // The payload branch of CRYP_AES_Auth_IT.
    method ServePayload(ghost j: Job, ghost st: Stage)
      requires Runs(j) && PayloadAt(j, st) && st != Over
      modifies `core, `state, `phase, `locked, `ccfie, `completions,
               `inPos, `inCount, `outPos, `outCount, outBuf
      ensures PayloadAt(j, Next(j, st))
      ensures completions == old(completions) + if Next(j, st) == Over then 1 else 0
      ensures Next(j, st) != Over ==> phase == old(phase)
    {
      hide Fed, PayloadDone, PayloadEntered, Splice, Stored, Crypt;
      if 0 < outCount < 16 {
        ServeTail(j, st.n);
      } else if outCount != 0 {
        ServeBlock(j, st.n);
      } else {
        ServeAgain(j);
      }
    }

    // The final branch of CRYP_AES_Auth_IT.
    method ServeFinal()
      requires |core.dout| == 16 && outPos + 16 <= outBuf.Length
      modifies `core, `state, `phase, `locked, `ccfie, `completions, outBuf
      ensures core == Taken(old(core)).(en := false)
      ensures outBuf[..] == Splice(old(outBuf[..]), outPos, old(core).dout)
      ensures state == Ready && phase == FinalOver && !locked && !ccfie && completions == old(completions) + 1
    {
      ReadBlock(outPos);
      Finish(FinalOver);
      core := core.(en := false);
    }

    /* --------------------- the whole interrupt form --------------------- */

    ghost predicate Serving()
      reads this
    {
      state == Busy && ccfie && core.ccf
    }

    ghost predicate Served(over: Progress)
      reads this
    {
      state == Ready && phase == over && !ccfie && !locked
    }

    ghost predicate FinalAt(j: Job, st: Stage)
      reads this, outBuf
    {
      var f := FinalDone(j.start, dataType, headerSize, j.size);
      var tag := Wire(j.start.dt, Tag(key, f.ghash));
      16 <= outBuf.Length
      && match st
         case Entered(n) =>
           Serving() && core.dout == tag && Taken(core).(en := false) == f && outPos == 0 && outBuf[..] == j.before
         case Again => false
         case Over => Served(FinalOver) && core == f && outBuf[..] == Splice(j.before, 0, tag)
    }

    // Where an interrupt-driven phase is.
    ghost predicate At(j: Job, st: Stage)
      reads this, outBuf
    {
      match select
      case InitPhase =>
        if st == Over then Served(InitOver) && core == j.start.(ccf := false)
        else Serving() && core == j.start
      case HeaderPhase =>
        HeaderReadable() && Idle(j.start) && j.start.en && j.start.phase == Header
        && j.start.fuel >= Blocks(headerSize) && outBuf[..] == j.before
        && (match st
            case Entered(n) => HeaderAt(j.start, n)
            case Again => false
            case Over =>
              Served(HeaderOver) && core == Fed(j.start, key, Blocks(headerSize), Pad(HeaderBytes())))
      case PayloadPhase => Runs(j) && PayloadAt(j, st)
      case FinalPhase => FinalAt(j, st)
      case Unknown => false
    }

    ghost function Follow(j: Job, st: Stage): Stage
      reads this
    {
      match select
      case HeaderPhase => if st.Entered? && st.n < Blocks(headerSize) then Entered(st.n + 1) else Over
      case PayloadPhase => Next(j, st)
      case _ => Over
    }

    // CRYP_AES_Auth_IT without a suspension request.
    method AuthService(ghost j: Job, ghost st: Stage) returns (status: Status)
      requires state == Busy && select != Unknown ==> At(j, st) && st != Over
      modifies `core, `state, `phase, `locked, `ccfie, `completions, `inPos, `inCount, `outPos, `outCount,
               if select == PayloadPhase || select == FinalPhase then {outBuf} else {}
      ensures old(state) != Busy ==> status == BUSY && core == old(core) && state == old(state)
      ensures old(state) == Busy && select == Unknown ==> status == ERROR && state == Error && !locked
      ensures old(state) == Busy && select != Unknown ==>
                status == OK && At(j, Follow(j, st))
                && completions == old(completions) + if Follow(j, st) == Over then 1 else 0
    {
      hide Fed, PayloadDone, PayloadEntered, Splice, Stored, Crypt, Wire, Tag, FinalDone, Pad;
      if state == Busy {
        match select {
          case InitPhase =>
            Finish(InitOver);
          case HeaderPhase =>
            ServeHeader(j.start, st.n);
          case PayloadPhase =>
            ServePayload(j, st);
          case FinalPhase =>
            ServeFinal();
          case Unknown =>
            core, state, locked := core.(ccf := false), Error, false;
            return ERROR;
        }
        return OK;
      } else {
        return BUSY;
      }
    }

    ghost function Begun(c: Core, over: Progress, size: nat, m: Bytes, before: Bytes): Job
      reads `select, `dataType, `headerSize
    {
      match select
      case HeaderPhase => Job(HeaderStart(c, dataType), before, m, headerSize)
      case PayloadPhase => Job(PayloadStart(c, over == InitOver), before, m, size)
      case FinalPhase => Job(FinalStart(c, over == InitOver), before, m, size)
      case _ => Job(c, before, m, size)
    }

    lemma InitBegun(size: nat)
      requires select == InitPhase && state == Busy && ccfie && core.ccf
      ensures At(Job(core, outBuf[..], [], size), Entered(1))
    {
    }

    method BeginHeader()
      requires select == HeaderPhase && HeaderReadable() && Idle(core) && state == Busy
      modifies `core, `state, `inBuf, `inPos, `inCount
      ensures headerSize == 0 ==> state == Ready && core == HeaderStart(old(core), dataType)
      ensures headerSize > 0 && ccfie && old(core).fuel >= Blocks(headerSize) ==>
                At(Job(HeaderStart(old(core), dataType), outBuf[..], [], headerSize), Entered(1))
    {
      hide Fed, Pad, Enter, Writes;
      inCount := headerSize;
      inBuf := match header case None => [] case Some(m) => m;
      inPos := 0;
      core := HeaderStart(core, dataType);
      if inCount == 0 {
        state := Ready;
      } else {
        FedNothing(core, key);
        assert Pad(HeaderBytes())[..0] == [];
        EnterHeader(core, 0);
      }
    }

    method BeginPayload(input: Bytes, size: nat, output: array<bv8>)
      requires select == PayloadPhase && Live() && state == Busy && ccfie && size > 0
      requires 4 * Words(size) <= |input| && 4 * Words(size) <= output.Length
      modifies `core, `inBuf, `inPos, `inCount, `outBuf, `outPos, `outCount
      ensures outBuf == output
      ensures old(core).fuel >= Cost(size, !old(core).decrypt) ==>
                At(Job(PayloadStart(old(core), phase == InitOver), output[..], input[..size], size), Entered(1))
    {
      hide Fed, Pad, Enter, Writes, Splice, Crypt, PayloadEntered;
      inCount, outCount := size, size;
      inBuf, inPos := input, 0;
      outBuf, outPos := output, 0;
      core := PayloadStart(core, phase == InitOver);
      FedNothing(core, key);
      SpliceNothing(output[..], 0);
      ghost var j := Job(core, output[..], input[..size], size);
      assert Crypt(key, core.dt, core.ctr, []) == [];
      EnterPayload(j, 0);
    }

    method BeginFinal(size: nat, output: array<bv8>)
      requires select == FinalPhase && Live() && state == Busy && ccfie && 16 <= output.Length
      modifies `core, `outBuf, `outPos
      ensures outBuf == output
      ensures old(core).fuel >= 1 ==>
                At(Job(FinalStart(old(core), phase == InitOver), output[..], [], size), Entered(1))
    {
      hide Wire, Tag, FinalDone, Enter, Writes, LengthBlock;
      outBuf, outPos := output, 0;
      core := FinalStart(core, phase == InitOver);
      ghost var c := core;
      WriteLengths(size);
      FinalAnswers(c, key, dataType, headerSize, size);
    }

    // HAL_CRYPEx_AES_Auth_IT.
    method AuthIT(input: Option<Bytes>, size: nat, output: array?<bv8>) returns (status: Status)
      requires Buffers(input, size, output) && (select != InitPhase ==> Live())
      modifies `core, `state, `ccfie, `inBuf, `inPos, `inCount, `outBuf, `outPos, `outCount
      ensures old(state) != Ready || Rejects(input, size, output) || locked ==> unchanged(this)
      ensures old(state) != Ready ==> status == BUSY && state == old(state) && core == old(core)
      ensures old(state) == Ready && Rejects(input, size, output) ==>
                status == ERROR && state == Ready && core == old(core)
      ensures old(state) == Ready && !Rejects(input, size, output) && locked ==>
                status == BUSY && state == Ready && core == old(core)
      ensures old(state) == Ready && !Rejects(input, size, output) && !locked ==>
                ccfie && status == (if select == Unknown then ERROR else OK) && (select == Unknown ==> state == Error)
      ensures old(state) == Ready && !Rejects(input, size, output) && !locked && Answers(old(core), size) ==>
                if select == HeaderPhase && headerSize == 0
                then state == Ready && core == HeaderStart(old(core), dataType) && outBuf == old(outBuf)
                else At(Begun(old(core), phase, size, Message(input, size), outBuf[..]), Entered(1))
                     && outBuf == if (select == PayloadPhase || select == FinalPhase) && output != null then output
                                  else old(outBuf)
    {
      hide At, HeaderStart, PayloadStart, FinalStart;
      if state == Ready {
        if Rejects(input, size, output) {
          return ERROR;
        }
        if locked {
          return BUSY;
        }
        state := Busy;
        ccfie := true;
        match select {
          case InitPhase =>
            assert Answers(core, size) ==> At(Job(core, outBuf[..], [], size), Entered(1)) by {
              if core.ccf {
                InitBegun(size);
              }
            }
          case HeaderPhase =>
            BeginHeader();
          case PayloadPhase =>
            BeginPayload(input.value, size, output);
          case FinalPhase =>
            BeginFinal(size, output);
          case Unknown =>
            state := Error;
            return ERROR;
        }
        return OK;
      } else {
        return BUSY;
      }
    }

    ghost function Rank(j: Job, st: Stage): nat
      reads this
    {
      match st
      case Entered(n) => 2 + Minus(Blocks(headerSize) + Blocks(|j.message|), n)
      case Again => 1
      case Over => 0
    }

    lemma Pending(j: Job, st: Stage)
      requires At(j, st)
      ensures select != Unknown && if st == Over then !ccfie else Serving()
      ensures st != Over ==> Rank(j, Follow(j, st)) < Rank(j, st)
    {
      hide Fed, Crypt, Wire, Writes, Splice, Stored, Pad, Enter, PayloadDone, Cost, FinalDone, Tag, LengthBlock;
      if select == PayloadPhase && st.Entered? {
        var c, m, n := j.start, j.message, st.n;
        var f := Fed(c, key, n - 1, m[..16 * (n - 1)]);
        FedKeeps(c, key, n - 1, m[..16 * (n - 1)]);
        FuelLeft(|m|, n - 1, !c.decrypt);
        if 16 * n <= |m| {
          PayloadStep(c, key, n - 1, m[..16 * (n - 1)], m[16 * (n - 1)..16 * n]);
        } else {
          TailEnters(f, key, m[16 * (n - 1)..]);
        }
      }
    }

    // The interrupts of a phase, one for each completed computation.
    method Interrupts(ghost j: Job)
      requires At(j, Entered(1))
      modifies `core, `state, `phase, `locked, `ccfie, `completions, `inPos, `inCount, `outPos, `outCount,
               if select == PayloadPhase || select == FinalPhase then {outBuf} else {}
      ensures At(j, Over) && completions == old(completions) + 1
    {
      hide At;
      ghost var st := Entered(1);
      Pending(j, st);
      while core.ccf && ccfie
        invariant select != Unknown && At(j, st) && (if st == Over then !ccfie else Serving())
        invariant completions == old(completions) + if st == Over then 1 else 0
        decreases Rank(j, st)
      {
        Pending(j, st);
        var status := AuthService(j, st);
        st := Follow(j, st);
        Pending(j, st);
      }
    }

    // HAL_CRYPEx_AES_Auth_IT and the interrupts it gives rise to.
    method AuthByInterrupts(input: Option<Bytes>, size: nat, output: array?<bv8>) returns (status: Status)
      requires Buffers(input, size, output) && (select != InitPhase ==> Live())
      requires state == Ready && !locked && !Rejects(input, size, output) && Answers(core, size)
      modifies `core, `state, `phase, `locked, `ccfie, `completions,
               `inBuf, `inPos, `inCount, `outBuf, `outPos, `outCount, if output == null then {} else {output}
      ensures status == OK && state == Ready && !locked
      ensures core == GoalCore(old(core), old(phase), Message(input, size), size)
      ensures (select == PayloadPhase || select == FinalPhase) && output != null ==>
                output[..] == GoalOutput(old(core), old(phase), Message(input, size), size, old(output[..]))
      ensures if select == HeaderPhase && headerSize == 0
              then phase == old(phase) && ccfie && completions == old(completions)
              else phase == GoalMark() && !ccfie && completions == old(completions) + 1
    {
      hide At, GoalCore, GoalOutput, Begun, HeaderStart;
      ghost var c, o, m := core, phase, Message(input, size);
      status := AuthIT(input, size, output);
      if select == HeaderPhase && headerSize == 0 {
        EmptyHeaderGoal(c, o, m, size);
      } else {
        ghost var before := outBuf[..];
        Interrupts(Begun(c, o, size, m, before));
        Reached(c, o, size, m, before);
      }
    }

    lemma EmptyHeaderGoal(c: Core, over: Progress, m: Bytes, size: nat)
      requires select == HeaderPhase && headerSize == 0 && HeaderReadable()
      ensures GoalCore(c, over, m, size) == HeaderStart(c, dataType)
    {
      FedNothing(HeaderStart(c, dataType), key);
    }

    // A finished phase is where the polling form ends.
    lemma Reached(c: Core, over: Progress, size: nat, m: Bytes, before: Bytes)
      requires At(Begun(c, over, size, m, before), Over) && (select == HeaderPhase ==> HeaderReadable())
      ensures state == Ready && !locked && !ccfie && phase == GoalMark()
      ensures core == GoalCore(c, over, m, size)
      ensures select == PayloadPhase || select == FinalPhase ==> outBuf[..] == GoalOutput(c, over, m, size, before)
    {
      hide Fed, PayloadDone, Splice, Stored, Crypt, Wire, Tag, FinalDone, Pad;
    }

    /* ------------------------- a whole GCM job ------------------------- */

    // After HAL_CRYPEx_AES initialisation: the hash key computation is over and
    // the core, which has switched itself off, answers whatever comes.
    predicate Initialised(size: nat)
      reads this
    {
      state == Ready && !locked && core.ccf && Idle(core.(ccf := false)) && !core.en && core.ghash == []
      && core.fuel >= Blocks(headerSize) + Cost(size, !core.decrypt) + 1
      && HeaderReadable() && (header.Some? ==> headerSize > 0)
    }

    // What a job leaves: the core, what GHASH has absorbed, the output, and the tag
    // of what has been absorbed; read back and swapped for the data type, the output
    // is the message xored with the keystream from the initial counter on, and the
    // tag that of the key.
    twostate predicate JobIsDone(input: Bytes, size: nat, output: array<bv8>, tag: array<bv8>)
      requires HeaderReadable() && size <= |input| && size <= output.Length && 16 <= tag.Length
      reads this, output, tag
    {
      var c, m := old(core).(ccf := false), input[..size];
      core == JobDone(c, key, dataType, HeaderBytes(), m)
      && core.ghash == Absorbed(c, key, dataType, HeaderBytes(), m)
      && output[..] == Splice(old(output[..]), 0, Stored(Crypt(key, dataType, c.ctr, m)))
      && tag[..] == Splice(old(tag[..]), 0, Wire(dataType, Tag(key, core.ghash)))
      && ReadBack(key, dataType, c.ctr, m, core.ghash, output[..], tag[..])
    }

    lemma NothingSwallowed(c: Core, size: nat)
      requires Answers(c, size)
      ensures Swallowed(c, size) == 0
    {
    }

    // One phase by polling, where the core answers.
    method PollPhase(input: Option<Bytes>, size: nat, output: array?<bv8>)
      requires Buffers(input, size, output) && (select != InitPhase ==> Live())
      requires state == Ready && !locked && !Rejects(input, size, output) && Answers(core, size)
      modifies `core, `state, `locked, `phase, `errors, `inBuf, `inPos, `outBuf, `outPos,
               if output == null then {} else {output}
      ensures state == Ready && !locked && phase == GoalMark() && errors == old(errors)
      ensures core == GoalCore(old(core), old(phase), Message(input, size), size)
      ensures output != null ==>
                output[..] == GoalOutput(old(core), old(phase), Message(input, size), size, old(output[..]))
    {
      hide Fed, PayloadDone, Splice, Stored, Crypt, Pad, Wire, Tag, LengthBlock, Writes;
      NothingSwallowed(core, size);
      var status := Auth(input, size, output);
    }

    // The first two phases by polling.
    method OpenByPolling(ghost size: nat)
      requires Initialised(size)
      modifies `select, `core, `state, `locked, `phase, `errors, `inBuf, `inPos, `outBuf, `outPos
      ensures state == Ready && !locked && phase == HeaderOver && errors == old(errors)
      ensures core == HeaderDone(old(core).(ccf := false), key, dataType, HeaderBytes())
    {
      hide HeaderDone, Cost, Blocks;
      select := InitPhase;
      PollPhase(None, 0, null);
      select := HeaderPhase;
      PollPhase(None, 0, null);
    }

    lemma NoPayload(s: Bytes, dt: DataType, c: nat, m: Bytes)
      requires m == []
      ensures Splice(s, 0, Stored(Crypt(key, dt, c, m))) == s
    {
    }

    // The payload phase by polling, if there is a payload.
    method PayloadByPolling(input: Bytes, size: nat, output: array<bv8>)
      requires 4 * Words(size) <= |input| && 4 * Words(size) <= output.Length
      requires Live() && state == Ready && !locked && core.fuel >= Cost(size, !core.decrypt)
      modifies `select, `core, `state, `locked, `phase, `errors, `inBuf, `inPos, `outBuf, `outPos, output
      ensures state == Ready && !locked && phase == (if size == 0 then old(phase) else PayloadOver)
                && errors == old(errors)
      ensures core == if size == 0 then old(core)
                      else PayloadDone(PayloadStart(old(core), old(phase) == InitOver), key, input[..size])
      ensures output[..] == Splice(old(output[..]), 0, Stored(Crypt(key, old(core).dt, old(core).ctr, input[..size])))
    {
      hide PayloadDone, Splice, Stored, Crypt, Cost, PayloadStart, HeaderDone, FinalDone, FinalStart, Wire, Tag;
      if size > 0 {
        select := PayloadPhase;
        PollPhase(Some(input), size, output);
      } else {
        NoPayload(output[..], core.dt, core.ctr, input[..size]);
      }
    }

    // The final phase by polling.
    method FinalByPolling(size: nat, tag: array<bv8>)
      requires Live() && state == Ready && !locked && core.fuel >= 1 && 16 <= tag.Length
      modifies `select, `core, `state, `locked, `phase, `errors, `inBuf, `inPos, `outBuf, `outPos, tag
      ensures state == Ready && !locked && phase == FinalOver && errors == old(errors)
      ensures core == FinalDone(FinalStart(old(core), old(phase) == InitOver), dataType, headerSize, size)
      ensures tag[..] == Splice(old(tag[..]), 0, Wire(old(core).dt, Tag(key, core.ghash)))
    {
      hide PayloadDone, Splice, Stored, Crypt, Wire, Tag, FinalDone, FinalStart, PayloadStart;
      select := FinalPhase;
      PollPhase(None, size, tag);
    }

    // The phases by polling; the payload phase is for a payload only.
    method JobByPolling(input: Bytes, size: nat, output: array<bv8>, tag: array<bv8>)
      requires Initialised(size) && output != tag
      requires 4 * Words(size) <= |input| && 4 * Words(size) <= output.Length && 16 <= tag.Length
      modifies `select, `core, `state, `locked, `phase, `errors, `inBuf, `inPos, `outBuf, `outPos, output, tag
      ensures state == Ready && !locked && phase == FinalOver && errors == old(errors)
      ensures JobIsDone(input, size, output, tag)
    {
      hide HeaderDone, PayloadDone, Splice, Stored, Crypt, Wire, Tag, FinalDone, Cost, PayloadStart, Blocks, Absorbed,
           ReadBack;
      ghost var s, t := output[..], tag[..];
      ghost var c, a, m := core.(ccf := false), HeaderBytes(), input[..size];
      JobPhases(c, key, dataType, a, m);
      JobAbsorbsMemory(c, key, dataType, a, m);
      OpenByPolling(size);
      assert core == HeaderDone(c, key, dataType, a);
      PayloadByPolling(input, size, output);
      assert core == MessageDone(c, key, dataType, a, m);
      FinalByPolling(size, tag);
      OutputReads(key, dataType, c.ctr, m, core.ghash, s, t);
    }

    // The first two phases under interrupts; without a header the second one
    // ends at once and unmarked.
    method OpenByInterrupts(ghost size: nat)
      requires Initialised(size)
      modifies `select, `core, `state, `phase, `locked, `ccfie, `completions,
               `inBuf, `inPos, `inCount, `outBuf, `outPos, `outCount
      ensures state == Ready && !locked && phase == if headerSize == 0 then InitOver else HeaderOver
      ensures completions == old(completions) + if headerSize == 0 then 1 else 2
      ensures core == HeaderDone(old(core).(ccf := false), key, dataType, HeaderBytes())
    {
      hide HeaderDone, Cost, Blocks;
      select := InitPhase;
      var status := AuthByInterrupts(None, 0, null);
      select := HeaderPhase;
      status := AuthByInterrupts(None, 0, null);
    }

    // The payload phase under interrupts, if there is a payload.
    method PayloadByInterrupts(input: Bytes, size: nat, output: array<bv8>)
      requires 4 * Words(size) <= |input| && 4 * Words(size) <= output.Length && core.dt == dataType
      requires Idle(core) && core.en && state == Ready && !locked && core.fuel >= Cost(size, !core.decrypt)
      modifies `select, `core, `state, `phase, `locked, `ccfie, `completions,
               `inBuf, `inPos, `inCount, `outBuf, `outPos, `outCount, output
      ensures state == Ready && !locked && completions == old(completions) + if size == 0 then 0 else 1
      ensures core == if size == 0 then old(core)
                      else PayloadDone(PayloadStart(old(core), old(phase) == InitOver), key, input[..size])
      ensures output[..] == Splice(old(output[..]), 0, Stored(Crypt(key, dataType, old(core).ctr, input[..size])))
    {
      hide PayloadDone, Splice, Stored, Crypt, Cost, PayloadStart, HeaderDone, FinalDone, FinalStart, Wire, Tag;
      if size > 0 {
        select := PayloadPhase;
        var status := AuthByInterrupts(Some(input), size, output);
      } else {
        NoPayload(output[..], core.dt, core.ctr, input[..size]);
      }
    }

    // The final phase under interrupts.
    method FinalByInterrupts(size: nat, tag: array<bv8>)
      requires Live() && state == Ready && !locked && core.fuel >= 1 && 16 <= tag.Length
      modifies `select, `core, `state, `phase, `locked, `ccfie, `completions,
               `inBuf, `inPos, `inCount, `outBuf, `outPos, `outCount, tag
      ensures state == Ready && !locked && !ccfie && phase == FinalOver && completions == old(completions) + 1
      ensures core == FinalDone(FinalStart(old(core), old(phase) == InitOver), dataType, headerSize, size)
      ensures tag[..] == Splice(old(tag[..]), 0, Wire(old(core).dt, Tag(key, core.ghash)))
    {
      hide PayloadDone, Splice, Stored, Crypt, Wire, Tag, FinalDone, FinalStart, PayloadStart;
      select := FinalPhase;
      var status := AuthByInterrupts(None, size, tag);
    }

    // The phases under interrupts.
    method JobByInterrupts(input: Bytes, size: nat, output: array<bv8>, tag: array<bv8>)
      requires Initialised(size) && output != tag
      requires 4 * Words(size) <= |input| && 4 * Words(size) <= output.Length && 16 <= tag.Length
      modifies `select, `core, `state, `phase, `locked, `ccfie, `completions,
               `inBuf, `inPos, `inCount, `outBuf, `outPos, `outCount, output, tag
      ensures state == Ready && !locked && !ccfie && phase == FinalOver
      ensures completions == old(completions) + (if headerSize == 0 then 2 else 3) + if size == 0 then 0 else 1
      ensures JobIsDone(input, size, output, tag)
    {
      hide HeaderDone, PayloadDone, Splice, Stored, Crypt, Wire, Tag, FinalDone, Cost, PayloadStart, Blocks, Absorbed,
           ReadBack;
      ghost var s, t := output[..], tag[..];
      ghost var c, a, m := core.(ccf := false), HeaderBytes(), input[..size];
      JobPhases(c, key, dataType, a, m);
      JobAbsorbsMemory(c, key, dataType, a, m);
      OpenByInterrupts(size);
      assert core == HeaderDone(c, key, dataType, a);
      PayloadByInterrupts(input, size, output);
      assert core == MessageDone(c, key, dataType, a, m);
      FinalByInterrupts(size, tag);
      OutputReads(key, dataType, c.ctr, m, core.ghash, s, t);
    }

    // A job whose header phase is skipped: everything goes through the core with the
    // data type its control register holds since the initialisation.
    method JobWithoutHeader(input: Bytes, size: nat, output: array<bv8>, tag: array<bv8>)
      requires Initialised(size) && headerSize == 0 && core.dt == Bits32 && output != tag
      requires 4 * Words(size) <= |input| && 4 * Words(size) <= output.Length && 16 <= tag.Length
      modifies `select, `core, `state, `locked, `phase, `errors, `inBuf, `inPos, `outBuf, `outPos, output, tag
      ensures state == Ready && !locked && phase == FinalOver && errors == old(errors)
      ensures var c, m := old(core).(ccf := false), input[..size];
              core == SkipDone(c, key, dataType, m)
              && output[..] == Splice(old(output[..]), 0, Stored(Crypt(key, Bits32, c.ctr, m)))
              && tag[..] == Splice(old(tag[..]), 0, Wire(Bits32, Tag(key, core.ghash)))
    {
      hide PayloadDone, Splice, Stored, Crypt, Wire, Tag, FinalDone, Cost, PayloadStart, Blocks;
      ghost var c, m := core.(ccf := false), input[..size];
      SkipPhases(c, key, m);
      select := InitPhase;
      PollPhase(None, 0, null);
      PayloadByPolling(input, size, output);
      FinalByPolling(size, tag);
    }
  }

  // What an encryption put out, decrypted with the same key, header and initial
  // counter block, is the message, and the two tags are the same.
  method EncryptThenDecrypt(e: Handle, d: Handle, input: Bytes, size: nat, cipher: array<bv8>, tag: array<bv8>,
                            plain: array<bv8>, check: array<bv8>)
    requires e.Initialised(size) && d.Initialised(size) && e != d
    requires !e.core.decrypt && d.core.decrypt && e.core.ctr == d.core.ctr
    requires e.key == d.key && e.dataType == d.dataType && e.header == d.header && e.headerSize == d.headerSize
    requires 4 * Words(size) <= |input| && cipher.Length == plain.Length && 4 * Words(size) <= cipher.Length
    requires tag.Length >= 16 && check.Length >= 16
    requires cipher != tag && plain != check && cipher != plain && cipher != check && tag != plain && tag != check
    modifies e, d, cipher, tag, plain, check
    ensures plain[..size] == input[..size] && check[..16] == tag[..16]
  {
    hide JobDone, Absorbed, Stored, Splice, Crypt, Wire, Tag, Cost, Blocks;
    ghost var c0, d0, m := e.core.(ccf := false), d.core.(ccf := false), input[..size];
    ghost var k, dt, a := e.key, e.dataType, e.HeaderBytes();
    ghost var s0, t0, p0, x0 := cipher[..], tag[..], plain[..], check[..];
    e.JobByPolling(input, size, cipher, tag);
    DecryptsBack(c0, d0, k, dt, a, m);
    StoredStarts(s0, Crypt(k, dt, c0.ctr, m));
    var text := cipher[..];
    assert text[..size] == Crypt(k, dt, c0.ctr, m);
    d.JobByInterrupts(text, size, plain, check);
    StoredStarts(p0, Crypt(k, dt, d0.ctr, text[..size]));
    SpliceStarts(t0, Wire(dt, Tag(k, e.core.ghash)));
    SpliceStarts(x0, Wire(dt, Tag(k, d.core.ghash)));
  }
}
