// The life cycle of a DMA stream handle: the functions of stm32f7xx_hal_dma.c
// and the multi-buffer starts of stm32f7xx_hal_dma_ex.c, over any interleaving
// of calls and interrupts.  The callbacks are recorded and do not re-enter.
module Dma {
  import opened DmaFlags

  datatype State = Reset | Ready | Busy | Timeout | Error | Abort
  datatype Status = OK | ERROR | BUSY | TIMEOUT
  datatype Direction = PeripheralToMemory | MemoryToPeripheral | MemoryToMemory
  datatype Failure = TransferError | FifoError | DirectModeError | TimedOut | BadParameter | NoTransfer | NotSupported
  datatype Callback = Complete | HalfComplete | M1Complete | M1HalfComplete | Failed | Aborted
  datatype CallbackId = One(c: Callback) | All | Unknown

  // What a call or an interrupt does to the lock: a start takes it, and the end of
  // the transfer in one of these ways releases it.
  datatype Cause = ByReset | ByAbort | ByPolling | ByCompletion | ByAbortEnd | ByError
  datatype Effect = Begun | Freed(cause: Cause) | Same

  function Failures(isr: set<Flag>): set<Failure> {
    (if TE in isr then {TransferError} else {})
    + (if FE in isr then {FifoError} else {})
    + (if DME in isr then {DirectModeError} else {})
  }

  // Errors noted from the first n readings after the one found, one for each flag.
  ghost predicate Noted(before: set<Failure>, after: set<Failure>, r: seq<set<Flag>>, n: nat)
    requires n < |r|
  {
    (TransferError in after <==> TransferError in before || exists i :: 0 < i <= n && TE in r[i])
    && (FifoError in after <==> FifoError in before || exists i :: 0 < i <= n && FE in r[i])
    && (DirectModeError in after <==> DirectModeError in before || exists i :: 0 < i <= n && DME in r[i])
    && forall f :: f in after && f !in before ==> f == TransferError || f == FifoError || f == DirectModeError
  }

  // Which flags, raised with their interrupts enabled, give which errors.
  predicate Adds(before: set<Failure>, after: set<Failure>, te: bool, fe: bool, dme: bool) {
    (TransferError in after <==> TransferError in before || te)
    && (FifoError in after <==> FifoError in before || fe)
    && (DirectModeError in after <==> DirectModeError in before || dme)
  }

  // Polling goes on over the first n readings: neither the level nor, after the one
  // found, a transfer error.
  ghost predicate Quiet(r: seq<set<Flag>>, n: nat, wanted: Flag)
    requires n <= |r|
  {
    forall i :: 0 <= i < n ==> wanted !in r[i] && (i > 0 ==> TE !in r[i])
  }

  // Reading e ends the polling.
  ghost predicate EndsAt(r: seq<set<Flag>>, e: nat, wanted: Flag, before: set<Failure>) {
    e < |r| && Quiet(r, e, wanted)
    && if TransferError in before then e == 0 else wanted in r[e] || (e > 0 && TE in r[e])
  }

  lemma NotedNext(before: set<Failure>, middle: set<Failure>, after: set<Failure>, r: seq<set<Flag>>, n: nat)
    requires n + 1 < |r| && Noted(before, middle, r, n) && after == middle + Failures(r[n + 1])
    ensures Noted(before, after, r, n + 1)
  {
    if TE in r[n + 1] {
      assert TransferError in after;
    }
  }

  // Polling that has ended has met a transfer error or the level.
  lemma EndOfPolling(r: seq<set<Flag>>, e: nat, wanted: Flag, before: set<Failure>, after: set<Failure>)
    requires EndsAt(r, e, wanted, before) && Noted(before, after, r, e)
    ensures TransferError !in after <==>
            TransferError !in before
            && exists k :: 0 <= k < |r| && wanted in r[k] && forall i :: 0 < i <= k ==> TE !in r[i]
    ensures TransferError in before || exists k :: 0 <= k < |r| && (wanted in r[k] || (k > 0 && TE in r[k]))
  {
    if TransferError !in after {
      assert wanted in r[e];
    } else if TransferError !in before {
      assert e > 0 && TE in r[e];
      forall k | 0 <= k < |r| && wanted in r[k]
        ensures 0 < e <= k
      {
      }
    }
  }

  // What may happen to a handle: calls, and interrupts that find the stream's
  // status bits as given; stuck: the stream does not stop in time.
  datatype Op =
    | InitOp(stuck: bool) | DeInitOp | StartOp(length: nat, interrupts: bool) | MultiOp(length: nat)
    | AbortOp(stuck: bool) | AbortItOp | PollOp(full: bool, readings: seq<set<Flag>>, stuck: bool)
    | RegisterOp(id: CallbackId, given: bool) | UnRegisterOp(of: CallbackId)
    | InterruptOp(isr: set<Flag>, turned: bool, stuck: bool)

  function LockedAfter(es: seq<Effect>, locked: bool): bool {
    if es == [] then locked
    else match es[|es| - 1]
      case Begun => true
      case Freed(_) => false
      case Same => LockedAfter(es[..|es| - 1], locked)
  }

  // Starts and releases take turns.
  predicate Alternates(es: seq<Effect>, locked: bool) {
    if es == [] then true
    else
      var before := es[..|es| - 1];
      Alternates(before, locked)
      && match es[|es| - 1]
         case Begun => !LockedAfter(before, locked)
         case Freed(_) => LockedAfter(before, locked)
         case Same => true
  }

  function Starts(es: seq<Effect>): nat {
    if es == [] then 0 else Starts(es[..|es| - 1]) + if es[|es| - 1].Begun? then 1 else 0
  }

  function Releases(es: seq<Effect>): nat {
    if es == [] then 0 else Releases(es[..|es| - 1]) + if es[|es| - 1].Freed? then 1 else 0
  }

  // Every start but one still going on has been released, and no release is
  // without its start.
  lemma {:induction false} Balanced(es: seq<Effect>, locked: bool)
    requires Alternates(es, locked)
    ensures Starts(es) + (if locked then 1 else 0) == Releases(es) + if LockedAfter(es, locked) then 1 else 0
  {
    if es == [] {
    } else {
      Balanced(es[..|es| - 1], locked);
    }
  }

  lemma Extended(es: seq<Effect>, e: Effect, locked: bool)
    requires Alternates(es, locked)
    requires e.Begun? ==> !LockedAfter(es, locked)
    requires e.Freed? ==> LockedAfter(es, locked)
    ensures Alternates(es + [e], locked)
    ensures LockedAfter(es + [e], locked) == if e == Same then LockedAfter(es, locked) else e.Begun?
  {
    assert (es + [e])[..|es|] == es;
  }

  // What a handle was like before a call or an interrupt: state, lock, circular mode,
  // whether its transfers end, two interrupt enables, and whether a transfer error has
  // been noted.
  datatype Setting = Setting(state: State, locked: bool, circular: bool, ends: bool, tcie: bool, teie: bool,
                             failed: bool)

  // How a call that returned the status, or an interrupt, ends a transfer.
  function Ending(op: Op, status: Status, b: Setting): Effect {
    if !b.locked then Same
    else match op
      case InitOp(_) => Freed(ByReset)
      case DeInitOp => if b.state == Abort then Freed(ByReset) else Same
      case AbortOp(_) => Freed(ByAbort)
      case PollOp(full, _, _) =>
        if b.state == Abort || (!b.circular && (full || status != OK)) then Freed(ByPolling) else Same
      case InterruptOp(isr, _, _) =>
        var done := TC in isr && b.tcie;
        if done && b.state == Abort then Freed(ByAbortEnd)
        else if done && b.ends then Freed(ByCompletion)
        else if b.failed || (TE in isr && b.teie) then Freed(ByError)
        else Same
      case _ => Same
  }

  // What releases the lock: a completed transfer that does not repeat, the end of an
  // abort or a transfer error in an interrupt, an abort, an initialisation, or polling
  // that is over.
  predicate Caused(op: Op, status: Status, e: Effect, b: Setting) {
    var done := op.InterruptOp? && TC in op.isr && b.tcie;
    (e == Freed(ByCompletion) <==> b.locked && b.state != Abort && b.ends && done)
    && (e == Freed(ByAbortEnd) <==> b.locked && b.state == Abort && done)
    && (e == Freed(ByError) <==>
        b.locked && op.InterruptOp? && !(done && (b.state == Abort || b.ends))
        && (b.failed || (TE in op.isr && b.teie)))
    && (e == Freed(ByAbort) <==> b.locked && op.AbortOp?)
    && (e == Freed(ByReset) <==> b.locked && (op.InitOp? || (op.DeInitOp? && b.state == Abort)))
    && (e == Freed(ByPolling) <==>
        b.locked && op.PollOp? && (b.state == Abort || (!b.circular && (op.full || status != OK))))
  }

  lemma EndingCaused(op: Op, status: Status, b: Setting)
    ensures Caused(op, status, Ending(op, status, b), b)
    ensures !b.locked ==> Caused(op, status, Begun, b)
  {
  }

  class Stream {
    // Registers; flags: the status bits of this stream.
    var enabled: bool
    var tcie: bool
    var htie: bool
    var teie: bool
    var dmeie: bool
    var feie: bool
    var circular: bool
    var dbm: bool
    var ct: bool
    var ndtr: nat
    var par: nat
    var m0: nat
    var m1: nat
    var flags: set<Flag>

    // Init structure: direction, circular mode, and whether the FIFO threshold
    // and the memory burst do not go together.
    var direction: Direction
    var circularMode: bool
    var badFifo: bool

    var state: State
    var locked: bool
    var errors: set<Failure>
    var callbacks: set<Callback>
    // The callbacks called so far.
    var calls: seq<Callback>

    // A handle in arbitrary memory.
    constructor (s: State, l: bool, d: Direction, c: bool, bad: bool)
      ensures state == s && locked == l && direction == d && circularMode == c && badFifo == bad
    {
      enabled, tcie, htie, teie, dmeie, feie := false, false, false, false, false, false;
      circular, dbm, ct, ndtr, par, m0, m1, flags := false, false, false, 0, 0, 0, 0, {};
      direction, circularMode, badFifo := d, c, bad;
      state, locked, errors, callbacks, calls := s, l, {}, {}, [];
    }

    // A busy handle is locked, and a locked one is busy or being aborted; so a
    // ready handle is unlocked.
    predicate Inv()
      reads `state, `locked
    {
      (state == Busy ==> locked) && (locked ==> state == Busy || state == Abort)
    }

    /* --------------------------- life cycle --------------------------- */

    // Disabling the stream; stuck: its enable bit does not clear in time.
    method Disable(stuck: bool) returns (done: bool)
      modifies `enabled
      ensures done == !enabled && enabled == (old(enabled) && stuck)
    {
      enabled := enabled && stuck;
      return !enabled;
    }

    // HAL_DMA_Init, whatever the handle held.
    method Init(stuck: bool) returns (status: Status)
      modifies this
      ensures Inv() && !locked
      ensures direction == old(direction) && circularMode == old(circularMode) && badFifo == old(badFifo)
      ensures status == if old(enabled) && stuck then TIMEOUT else if badFifo then ERROR else OK
      ensures state == if status == TIMEOUT then Timeout else Ready
      ensures errors == match status case OK => {} case TIMEOUT => {TimedOut} case _ => {BadParameter}
      ensures status != TIMEOUT ==> circular == circularMode && !dbm && !ct
      ensures status == OK ==> flags == {}
    {
      locked := false;
      state := Busy;
      var done := Disable(stuck);
      if !done {
        errors := {TimedOut};
        state := Timeout;
        return TIMEOUT;
      }
      circular, dbm, ct := circularMode, false, false;
      if badFifo {
        errors := {BadParameter};
        state := Ready;
        return ERROR;
      }
      flags := {};
      errors := {};
      state := Ready;
      return OK;
    }

    // HAL_DMA_DeInit.
    method DeInit() returns (status: Status)
      requires Inv()
      modifies `enabled, `tcie, `htie, `teie, `dmeie, `feie, `circular, `dbm, `ct, `ndtr, `par, `m0, `m1,
               `flags, `errors, `state, `locked
      ensures Inv() && status == (if old(state) == Busy then BUSY else OK)
      ensures status == OK ==>
                state == Reset && !locked && errors == {} && flags == {}
                && !enabled && !tcie && !teie && !dmeie && !feie && !htie && !circular && !dbm && !ct
                && ndtr == par == m0 == m1 == 0
      ensures status == BUSY ==> unchanged(this)
    {
      if state == Busy {
        return BUSY;
      }
      ClearControl();
      ndtr, par, m0, m1 := 0, 0, 0, 0;
      flags := {};
      errors := {};
      state := Reset;
      locked := false;
      return OK;
    }

    method ClearControl()
      modifies `enabled, `tcie, `htie, `teie, `dmeie, `feie, `circular, `dbm, `ct
      ensures !enabled && !tcie && !teie && !dmeie && !feie && !htie && !circular && !dbm && !ct
    {
      enabled, tcie, htie, teie, dmeie, feie := false, false, false, false, false, false;
      circular, dbm, ct := false, false, false;
    }

    // The peripheral and the memory at the ends of the transfer.
    predicate Addressed(source: nat, destination: nat)
      reads `direction, `par, `m0
    {
      if direction == MemoryToPeripheral then par == destination && m0 == source else par == source && m0 == destination
    }

    // DMA_SetConfig and DMA_MultiBufferSetConfig.
    method SetConfig(source: nat, destination: nat, length: nat)
      modifies `ndtr, `par, `m0
      ensures ndtr == length
      ensures Addressed(source, destination)
    {
      ndtr := length;
      if direction == MemoryToPeripheral {
        par, m0 := destination, source;
      } else {
        par, m0 := source, destination;
      }
    }

    method SetDouble(source: nat, destination: nat, second: nat, length: nat)
      modifies `dbm, `ndtr, `par, `m0, `m1
      ensures dbm && m1 == second && ndtr == length && Addressed(source, destination)
    {
      dbm := true;
      m1 := second;
      SetConfig(source, destination, length);
    }

    // The flags cleared, the interrupts enabled and then the stream.
    method Launch(half: bool)
      modifies `flags, `tcie, `teie, `dmeie, `feie, `htie, `enabled
      ensures flags == {} && tcie && teie && dmeie && feie && htie == (old(htie) || half) && enabled
    {
      flags := {};
      tcie, teie, dmeie, feie := true, true, true, true;
      if half {
        htie := true;
      }
      enabled := true;
    }

    // HAL_DMA_Start and HAL_DMA_Start_IT: a ready handle is never refused.
    method Start(source: nat, destination: nat, length: nat, interrupts: bool) returns (status: Status)
      requires Inv()
      modifies `state, `locked, `errors, `dbm, `ndtr, `par, `m0, `flags, `tcie, `teie, `dmeie, `feie, `htie, `enabled
      ensures Inv() && status == if old(state) == Ready then OK else BUSY
      ensures status == OK ==>
                state == Busy && errors == {} && enabled && !dbm && ndtr == length && Addressed(source, destination)
                && (if interrupts then
                      tcie && teie && dmeie && feie && flags == {} && (HalfComplete in callbacks ==> htie)
                    else unchanged(`tcie, `teie, `dmeie, `feie, `htie, `flags))
      ensures status == BUSY ==> unchanged(this)
    {
      if locked {
        return BUSY;
      }
      locked := true;
      if state == Ready {
        state := Busy;
        errors := {};
        dbm := false;
        SetConfig(source, destination, length);
        if interrupts {
          Launch(HalfComplete in callbacks);
        } else {
          enabled := true;
        }
        return OK;
      } else {
        locked := false;
        return BUSY;
      }
    }

    // HAL_DMAEx_MultiBufferStart_IT.
    method MultiBufferStartIT(source: nat, destination: nat, second: nat, length: nat) returns (status: Status)
      requires Inv()
      modifies `state, `locked, `errors, `dbm, `ndtr, `par, `m0, `m1, `flags, `tcie, `teie, `dmeie, `feie, `htie,
                 `enabled
      ensures Inv()
      ensures status == if direction == MemoryToMemory then ERROR else if old(state) == Ready then OK else BUSY
      ensures status == ERROR ==> errors == {NotSupported}
      ensures status == OK ==>
                state == Busy && errors == {} && enabled && dbm && m1 == second && ndtr == length
                && Addressed(source, destination)
                && tcie && teie && dmeie && feie && flags == {}
                && (HalfComplete in callbacks || M1HalfComplete in callbacks ==> htie)
      ensures status == BUSY ==> unchanged(this)
      ensures status == ERROR ==> unchanged(`state, `locked, `enabled, `dbm, `ndtr, `par, `m0, `m1, `flags)
                                  && unchanged(`tcie, `teie, `dmeie, `feie, `htie)
    {
      if direction == MemoryToMemory {
        errors := {NotSupported};
        return ERROR;
      }
      if locked {
        return BUSY;
      }
      locked := true;
      if state == Ready {
        state := Busy;
        errors := {};
        SetDouble(source, destination, second, length);
        Launch(HalfComplete in callbacks || M1HalfComplete in callbacks);
        return OK;
      } else {
        locked := false;
        return BUSY;
      }
    }

    // HAL_DMAEx_MultiBufferStart does not release the lock it takes when the
    // handle is not ready: the invariant is kept exactly when that does not
    // happen to an idle handle.
    method MultiBufferStart(source: nat, destination: nat, second: nat, length: nat) returns (status: Status)
      requires Inv()
      modifies `state, `locked, `errors, `dbm, `ndtr, `par, `m0, `m1, `enabled
      ensures Inv() <==> direction == MemoryToMemory || old(state) == Ready || old(state) == Busy || old(state) == Abort
      ensures !Inv() ==> status == BUSY && locked && state == old(state)
      ensures status == if direction == MemoryToMemory then ERROR else if old(state) == Ready then OK else BUSY
      ensures status == OK ==>
                state == Busy && locked && enabled && dbm && m1 == second && ndtr == length
                && Addressed(source, destination)
      ensures status == ERROR ==> locked == old(locked)
      ensures errors == if direction == MemoryToMemory then {NotSupported} else old(errors)
      ensures status != OK ==> dbm == old(dbm) && ndtr == old(ndtr) && par == old(par) && m0 == old(m0) && m1 == old(m1)
                               && enabled == old(enabled) && state == old(state)
    {
      if direction == MemoryToMemory {
        errors := {NotSupported};
        return ERROR;
      } else {
        if locked {
          return BUSY;
        }
        locked := true;
        if state == Ready {
          state := Busy;
          SetDouble(source, destination, second, length);
          enabled := true;
          return OK;
        } else {
          return BUSY;
        }
      }
    }

    method DisableInterrupts()
      modifies `tcie, `teie, `dmeie, `feie, `htie
      ensures !tcie && !teie && !dmeie && !feie && (HalfComplete in callbacks || M1HalfComplete in callbacks ==> !htie)
    {
      tcie, teie, dmeie, feie := false, false, false, false;
      if HalfComplete in callbacks || M1HalfComplete in callbacks {
        htie := false;
      }
    }

    // HAL_DMA_Abort.
    method AbortTransfer(stuck: bool) returns (status: Status)
      requires Inv()
      modifies `state, `locked, `errors, `enabled, `tcie, `teie, `dmeie, `feie, `htie, `flags
      ensures Inv() && !locked
      ensures status == if old(state) != Busy then ERROR else if old(enabled) && stuck then TIMEOUT else OK
      ensures status == ERROR ==> state == old(state) && errors == {NoTransfer}
      ensures status == TIMEOUT ==> state == Timeout && errors == {TimedOut}
      ensures status == OK ==> state == Ready && errors == old(errors) && flags == {} && !enabled
      ensures if status == ERROR then
                tcie == old(tcie) && teie == old(teie) && dmeie == old(dmeie) && feie == old(feie) && htie == old(htie)
                && enabled == old(enabled) && flags == old(flags)
              else
                !tcie && !teie && !dmeie && !feie
                && (HalfComplete in callbacks || M1HalfComplete in callbacks ==> !htie)
      ensures status == TIMEOUT ==> enabled && flags == old(flags)
    {
      if state != Busy {
        errors := {NoTransfer};
        locked := false;
        return ERROR;
      } else {
        DisableInterrupts();
        var done := Disable(stuck);
        if !done {
          errors := {TimedOut};
          locked := false;
          state := Timeout;
          return TIMEOUT;
        }
        flags := {};
        locked := false;
        state := Ready;
      }
      return OK;
    }

    // HAL_DMA_Abort_IT.
    method AbortIT() returns (status: Status)
      requires Inv()
      modifies `state, `errors, `enabled
      ensures Inv() && status == if old(state) == Busy then OK else ERROR
      ensures status == OK ==> state == Abort && locked && !enabled && errors == old(errors)
      ensures status == ERROR ==> state == old(state) && errors == {NoTransfer} && enabled == old(enabled)
    {
      if state != Busy {
        errors := {NoTransfer};
        return ERROR;
      } else {
        state := Abort;
        enabled := false;
      }
      return OK;
    }

    // One reading of the status in HAL_DMA_PollForTransfer.
    method NoteErrors(isr: set<Flag>)
      modifies `errors, `flags
      ensures errors == old(errors) + Failures(isr) && flags == old(flags) - isr * {TE, FE, DME}
    {
      if TE in isr {
        errors := errors + {TransferError};
        flags := flags - {TE};
      }
      if FE in isr {
        errors := errors + {FifoError};
        flags := flags - {FE};
      }
      if DME in isr {
        errors := errors + {DirectModeError};
        flags := flags - {DME};
      }
    }

    // The wait of HAL_DMA_PollForTransfer; readings: the successive values of the status
    // until the time is up.  False when it is, and otherwise the reading that ended the
    // wait.
    method Await(wanted: Flag, readings: seq<set<Flag>>) returns (ok: bool, ghost e: nat)
      requires Inv() && state == Busy
      modifies `state, `locked, `errors, `flags
      ensures Inv()
      ensures var r := [old(flags)] + readings;
              if ok then
                state == Busy && EndsAt(r, e, wanted, old(errors)) && Noted(old(errors), errors, r, e)
                && flags == r[e] - if e == 0 then {} else {FE, DME, TE}
              else
                state == Ready && !locked && errors == {TimedOut}
                && Quiet(r, |r|, wanted) && TransferError !in old(errors)
    {
      hide Failures;
      var tmpisr := flags;
      var i := 0;
      ghost var r := [flags] + readings;
      while wanted !in tmpisr && TransferError !in errors
        invariant i < |r| && state == Busy && locked && tmpisr == r[i]
        invariant Quiet(r, i, wanted) && Noted(old(errors), errors, r, i)
        invariant flags == r[i] - if i == 0 then {} else {FE, DME, TE}
        invariant TransferError in old(errors) ==> i == 0
        decreases |r| - i
      {
        if i == |readings| {
          errors := {TimedOut};
          locked := false;
          state := Ready;
          return false, 0;
        }
        tmpisr := readings[i];
        flags := tmpisr;
        ghost var noted := errors;
        NoteErrors(tmpisr);
        NotedNext(old(errors), noted, errors, r, i);
        i := i + 1;
      }
      return true, i;
    }

    // HAL_DMA_PollForTransfer.  With r the status found and the readings, polling succeeds
    // exactly if the level is reached before any transfer error is read, and times out
    // exactly if neither is read; otherwise, on a transfer error read or left from before,
    // it fails.
    method PollForTransfer(full: bool, readings: seq<set<Flag>>, stuck: bool) returns (status: Status)
      requires Inv()
      modifies `state, `locked, `errors, `enabled, `tcie, `teie, `dmeie, `feie, `htie, `flags
      ensures Inv()
      ensures old(state) != Busy ==> status == ERROR && state == old(state) && !locked && errors == {NoTransfer}
      ensures old(state) == Busy && circular ==>
                status == ERROR && state == Busy && locked && errors == {NotSupported} && flags == old(flags)
      ensures old(state) == Busy && !circular ==>
                if status == OK && !full then state == Busy else state == Ready && !locked
      ensures status == TIMEOUT ==> errors == {TimedOut}
      ensures status == OK ==> HT !in flags && (full ==> TC !in flags)
      ensures status == OK || status == TIMEOUT ==> unchanged(`enabled, `tcie, `teie, `dmeie, `feie, `htie)
      ensures status == ERROR && old(state) == Busy && !circular ==>
                !tcie && !teie && !dmeie && !feie && enabled == (old(enabled) && stuck)
      ensures old(state) == Busy && !circular ==>
                var r, wanted := [old(flags)] + readings, if full then TC else HT;
                (status == OK <==>
                  TransferError !in old(errors)
                  && exists k :: 0 <= k < |r| && wanted in r[k] && forall i :: 0 < i <= k ==> TE !in r[i])
                && (status == TIMEOUT <==>
                  TransferError !in old(errors)
                  && forall k :: 0 <= k < |r| ==> wanted !in r[k] && (k > 0 ==> TE !in r[k]))
                && status != BUSY
      // The reading that ends the polling, the errors noted up to it and the flags left.
      ensures old(state) == Busy && !circular && status != TIMEOUT ==>
                var r := [old(flags)] + readings;
                exists e: nat :: EndsAt(r, e, if full then TC else HT, old(errors))
                            && (if status == ERROR && old(enabled) && stuck then errors == {TimedOut}
                                else Noted(old(errors), errors, r, e))
                            && if status == ERROR then HT !in flags && TC !in flags
                               else flags == r[e] - (if e == 0 then {} else {FE, DME, TE})
                                             - if full then {HT, TC} else {HT}
    {
      if state != Busy {
        errors := {NoTransfer};
        locked := false;
        return ERROR;
      }
      if circular {
        errors := {NotSupported};
        return ERROR;
      }
      var ok;
      ghost var e, r := 0, [flags] + readings;
      ok, e := Await(if full then TC else HT, readings);
      hide Noted;
      if !ok {
        return TIMEOUT;
      }
      EndOfPolling(r, e, if full then TC else HT, old(errors), errors);
      hide EndsAt;
      if TransferError in errors {
        var ignored := AbortTransfer(stuck);
        flags := flags - {HT, TC};
        locked := false;
        state := Ready;
        return ERROR;
      }
      if full {
        flags := flags - {HT, TC};
        locked := false;
        state := Ready;
      } else {
        flags := flags - {HT};
      }
      return OK;
    }

    // HAL_DMA_RegisterCallback; given: not a null pointer, which would take the
    // callback away.  An identifier that is none is accepted and ignored.
    method RegisterCallback(id: CallbackId, given: bool) returns (status: Status)
      requires Inv()
      modifies `locked, `callbacks
      ensures Inv() && status == if old(locked) then BUSY else if state == Ready then OK else ERROR
      ensures callbacks == if status != OK || !id.One? then old(callbacks)
                           else if given then old(callbacks) + {id.c} else old(callbacks) - {id.c}
      ensures locked == old(locked)
    {
      if locked {
        return BUSY;
      }
      locked := true;
      status := OK;
      if state == Ready {
        if id.One? {
          callbacks := if given then callbacks + {id.c} else callbacks - {id.c};
        }
      } else {
        status := ERROR;
      }
      locked := false;
    }

    // HAL_DMA_UnRegisterCallback.
    method UnRegisterCallback(id: CallbackId) returns (status: Status)
      requires Inv()
      modifies `locked, `callbacks
      ensures Inv() && status == if old(locked) then BUSY else if state == Ready && id != Unknown then OK else ERROR
      ensures callbacks == if status != OK then old(callbacks) else if id.One? then old(callbacks) - {id.c} else {}
      ensures locked == old(locked)
    {
      if locked {
        return BUSY;
      }
      locked := true;
      status := OK;
      if state == Ready {
        match id {
          case One(c) =>
            callbacks := callbacks - {c};
          case All =>
            callbacks := {};
          case Unknown =>
            status := ERROR;
        }
      } else {
        status := ERROR;
      }
      locked := false;
    }

    /* ---------------------------- interrupts ---------------------------- */

    // The call of callback c if it is registered and due.
    function Due(due: bool, c: Callback): seq<Callback>
      reads `callbacks
    {
      if due && c in callbacks then [c] else []
    }

    method Call(c: Callback)
      modifies `calls
      ensures calls == old(calls) + Due(true, c)
    {
      if c in callbacks {
        calls := calls + [c];
      }
    }

    // The three error branches of HAL_DMA_IRQHandler.
    method NoteEnabledErrors(isr: set<Flag>)
      modifies `errors, `flags, `teie
      ensures errors == old(errors) + Failures(Enabled(isr, old(teie), feie, dmeie))
      ensures flags == old(flags) - Enabled(isr, old(teie), feie, dmeie)
      ensures teie == (old(teie) && TE !in isr)
      ensures Adds(old(errors), errors, TE in isr && old(teie), FE in isr && feie, DME in isr && dmeie)
    {
      if TE in isr && teie {
        teie := false;
        flags := flags - {TE};
        errors := errors + {TransferError};
      }
      if FE in isr && feie {
        flags := flags - {FE};
        errors := errors + {FifoError};
      }
      if DME in isr && dmeie {
        flags := flags - {DME};
        errors := errors + {DirectModeError};
      }
    }

    static function Enabled(isr: set<Flag>, te: bool, fe: bool, dme: bool): set<Flag> {
      isr * ((if te then {TE} else {}) + (if fe then {FE} else {}) + (if dme then {DME} else {}))
    }

    static lemma HasTransferError(isr: set<Flag>, te: bool, fe: bool, dme: bool)
      ensures TransferError in Failures(Enabled(isr, te, fe, dme)) <==> TE in isr && te
    {
    }

    // The status bits left when those of errors noted are cleared, and those of the two
    // transfer interrupts that are enabled.
    static function Remaining(isr: set<Flag>, noted: set<Flag>, ht: bool, tc: bool): set<Flag> {
      isr - noted - (if ht then {HT} else {}) - (if tc then {TC} else {})
    }

    static lemma CompleteRemoved(isr: set<Flag>, noted: set<Flag>, ht: bool, tc: bool)
      ensures Remaining(isr, noted, ht, tc)
           == Remaining(isr, noted, ht, false) - if TC in isr && tc then {TC} else {}
    {
    }

    // The half-transfer branch.
    method HandleHalf(isr: set<Flag>)
      modifies `flags, `htie, `calls
      ensures calls == old(calls) + Due(HT in isr && old(htie), HalfCallback())
      ensures HalfCallback() == if dbm && ct then M1HalfComplete else HalfComplete
      ensures htie == (old(htie) && (HT !in isr || dbm || circular))
      ensures flags == old(flags) - if HT in isr && old(htie) then {HT} else {}
    {
      if HT in isr && htie {
        flags := flags - {HT};
        if dbm {
          if !ct {
            Call(HalfComplete);
          } else {
            Call(M1HalfComplete);
          }
        } else {
          if !circular {
            htie := false;
          }
          Call(HalfComplete);
        }
      }
    }

    // The callback for the memory in use, when it is half full.
    function HalfCallback(): Callback
      reads `dbm, `ct
    {
      if dbm && ct then M1HalfComplete else HalfComplete
    }

    // The callback for the memory just completed.
    function CompleteCallback(): Callback
      reads `dbm, `ct
    {
      if dbm && !ct then M1Complete else Complete
    }

    // The transfer-complete branch; true if it ended an abort.
    method HandleComplete(isr: set<Flag>) returns (aborted: bool)
      requires Inv()
      modifies `flags, `tcie, `teie, `dmeie, `feie, `htie, `state, `locked, `calls
      ensures Inv() && aborted == (TC in isr && old(tcie) && old(state) == Abort)
      ensures aborted ==> state == Ready && !locked && !tcie && !teie && !dmeie && !feie && flags == {}
                          && calls == old(calls) + Due(true, Aborted)
      ensures !aborted ==>
                calls == old(calls) + Due(TC in isr && old(tcie), CompleteCallback())
                && CompleteCallback() == if dbm && !ct then M1Complete else Complete
      ensures !aborted ==> flags == old(flags) - if TC in isr && old(tcie) then {TC} else {}
      ensures !aborted ==>
                if TC in isr && old(tcie) && !dbm && !circular then state == Ready && !locked && !tcie
                else state == old(state) && locked == old(locked) && tcie == old(tcie)
      ensures aborted ==> HalfComplete in callbacks || M1HalfComplete in callbacks ==> !htie
      ensures !aborted ==> teie == old(teie) && dmeie == old(dmeie) && feie == old(feie) && htie == old(htie)
    {
      if TC in isr && tcie {
        flags := flags - {TC};
        if state == Abort {
          DisableInterrupts();
          flags := {};
          locked := false;
          state := Ready;
          Call(Aborted);
          return true;
        }
        if dbm {
          if !ct {
            Call(M1Complete);
          } else {
            Call(Complete);
          }
        } else {
          if !circular {
            tcie := false;
            locked := false;
            state := Ready;
          }
          Call(Complete);
        }
      }
      return false;
    }

    // The branches before that of transfer completion.
    method NoteAndHalf(isr: set<Flag>)
      requires isr == flags
      modifies `errors, `flags, `teie, `htie, `calls
      ensures errors == old(errors) + Failures(Enabled(isr, old(teie), feie, dmeie))
      ensures calls == old(calls) + Due(HT in isr && old(htie), HalfCallback())
      ensures flags == Remaining(isr, Enabled(isr, old(teie), feie, dmeie), old(htie), false)
      ensures teie == (old(teie) && TE !in isr) && htie == (old(htie) && (HT !in isr || dbm || circular))
      ensures Adds(old(errors), errors, TE in isr && old(teie), FE in isr && feie, DME in isr && dmeie)
    {
      hide Failures, Enabled, Due, Adds;
      NoteEnabledErrors(isr);
      HandleHalf(isr);
    }

    // Its branches for the flags found; true if an abort is over.
    method HandleFlags() returns (aborted: bool)
      requires Inv()
      modifies `errors, `flags, `tcie, `teie, `dmeie, `feie, `htie, `state, `locked, `calls
      ensures Inv() && aborted == (TC in old(flags) && old(tcie) && old(state) == Abort)
      ensures errors == old(errors) + Failures(Enabled(old(flags), old(teie), old(feie), old(dmeie)))
      ensures Adds(old(errors), errors, TE in old(flags) && old(teie), FE in old(flags) && old(feie),
                   DME in old(flags) && old(dmeie))
      ensures calls == old(calls) + Due(HT in old(flags) && old(htie), HalfCallback())
                       + if aborted then Due(true, Aborted) else Due(TC in old(flags) && old(tcie), CompleteCallback())
      ensures aborted ==>
                state == Ready && !locked && flags == {} && !tcie && !teie && !dmeie && !feie
                && (HalfComplete in callbacks || M1HalfComplete in callbacks ==> !htie)
      ensures !aborted ==>
                tcie == (old(tcie) && (TC !in old(flags) || dbm || circular))
                && htie == (old(htie) && (HT !in old(flags) || dbm || circular))
                && teie == (old(teie) && TE !in old(flags)) && dmeie == old(dmeie) && feie == old(feie)
      ensures !aborted ==>
                flags == Remaining(old(flags), Enabled(old(flags), old(teie), old(feie), old(dmeie)),
                                   old(htie), old(tcie))
      ensures !aborted ==>
                if TC in old(flags) && old(tcie) && !dbm && !circular then state == Ready && !locked
                else state == old(state) && locked == old(locked)
    {
      hide Failures, Enabled, Due, HalfCallback, CompleteCallback, Adds, Remaining;
      var tmpisr := flags;
      CompleteRemoved(tmpisr, Enabled(tmpisr, teie, feie, dmeie), htie, tcie);
      NoteAndHalf(tmpisr);
      aborted := HandleComplete(tmpisr);
    }

    // HAL_DMA_IRQHandler: the handle ends up ready and unlocked exactly when a
    // transfer that does not repeat is complete, an abort is over or the stream
    // has had a transfer error, and is otherwise unchanged.
    method IRQHandler(stuck: bool)
      requires Inv()
      modifies `errors, `flags, `tcie, `teie, `dmeie, `feie, `htie, `state, `locked, `calls, `enabled
      ensures Inv()
      ensures errors == old(errors) + Failures(Enabled(old(flags), old(teie), old(feie), old(dmeie)))
      ensures var done := TC in old(flags) && old(tcie);
              if (done && (old(state) == Abort || (!dbm && !circular))) || TransferError in errors then
                state == Ready && !locked
              else state == old(state) && locked == old(locked)
      ensures var done := TC in old(flags) && old(tcie);
              calls == old(calls) + Due(HT in old(flags) && old(htie), HalfCallback())
                       + if done && old(state) == Abort then Due(true, Aborted)
                         else Due(done, CompleteCallback()) + Due(errors != {}, Failed)
      // Interrupts that have done their work are disabled, and after a transfer error the
      // stream.
      ensures if TC in old(flags) && old(tcie) && old(state) == Abort then
                !tcie && !teie && !dmeie && !feie
                && (HalfComplete in callbacks || M1HalfComplete in callbacks ==> !htie)
                && enabled == old(enabled)
              else
                tcie == (old(tcie) && (TC !in old(flags) || dbm || circular))
                && htie == (old(htie) && (HT !in old(flags) || dbm || circular))
                && teie == (old(teie) && TE !in old(flags)) && dmeie == old(dmeie) && feie == old(feie)
                && enabled == (old(enabled) && (TransferError in errors ==> stuck))
      // The flags whose interrupts are enabled are cleared, and no other; after an
      // abort all are.
      ensures var done := TC in old(flags) && old(tcie);
              flags == if done && old(state) == Abort then {}
                       else Remaining(old(flags), Enabled(old(flags), old(teie), old(feie), old(dmeie)),
                                      old(htie), old(tcie))
      ensures Adds(old(errors), errors, TE in old(flags) && old(teie), FE in old(flags) && old(feie),
                   DME in old(flags) && old(dmeie))
    {
      hide Failures, Enabled, Due, HalfCallback, CompleteCallback, Adds, Remaining;
      var aborted := HandleFlags();
      if aborted {
        return;
      }
      ManageErrors(stuck);
    }

    // The last part of HAL_DMA_IRQHandler.
    method ManageErrors(stuck: bool)
      requires Inv()
      modifies `state, `locked, `enabled, `calls
      ensures Inv() && calls == old(calls) + Due(errors != {}, Failed)
      ensures if TransferError in errors then state == Ready && !locked && enabled == (old(enabled) && stuck)
              else state == old(state) && locked == old(locked) && enabled == old(enabled)
    {
      if errors != {} {
        if TransferError in errors {
          state := Abort;
          var done := Disable(stuck);
          locked := false;
          state := Ready;
        }
        Call(Failed);
      }
    }

    /* ------------------------------- runs ------------------------------- */

    // The calls that start a transfer.
    predicate StartsTransfer(op: Op)
      reads `direction
    {
      op.StartOp? || (op.MultiOp? && direction != MemoryToMemory)
    }

    function Current(): Setting
      reads `state, `locked, `circular, `dbm, `tcie, `teie, `errors
    {
      Setting(state, locked, circular, !dbm && !circular, tcie, teie, TransferError in errors)
    }

    // An interrupt that finds the status bits and the current memory as given.
    method Serve(isr: set<Flag>, turned: bool, stuck: bool)
      requires Inv()
      modifies this
      ensures Inv() && direction == old(direction)
      ensures locked == (old(locked) && Ending(InterruptOp(isr, turned, stuck), OK, old(Current())) == Same)
    {
      hide Failures, Enabled, Due, HalfCallback, CompleteCallback, Adds, Remaining;
      flags, ct := isr, turned;
      HasTransferError(isr, teie, feie, dmeie);
      IRQHandler(stuck);
    }

    // One call or interrupt: a start succeeds, and takes the lock, exactly on a ready
    // handle; the lock is released in the ways above and no other.
    method Perform(op: Op) returns (status: Status, ghost e: Effect)
      requires Inv()
      modifies this
      ensures Inv() && direction == old(direction)
      ensures e == if StartsTransfer(op) && old(state) == Ready then Begun else Ending(op, status, old(Current()))
      ensures StartsTransfer(op) ==> status == if old(state) == Ready then OK else BUSY
      ensures e == Begun <==> StartsTransfer(op) && old(state) == Ready
      ensures Caused(op, status, e, old(Current()))
      ensures e.Begun? ==> !old(locked) && locked && state == Busy
      ensures e.Freed? ==> old(locked) && !locked
      ensures e == Same ==> locked == old(locked)
    {
      hide Failures, Enabled, Due, HalfCallback, CompleteCallback, Addressed, Adds, Caused, Remaining;
      ghost var ready := state == Ready;
      status := OK;
      match op {
        case InitOp(stuck) =>
          status := Init(stuck);
        case DeInitOp =>
          status := DeInit();
        case StartOp(n, interrupts) =>
          status := Start(0, 0, n, interrupts);
        case MultiOp(n) =>
          status := MultiBufferStartIT(0, 0, 0, n);
        case AbortOp(stuck) =>
          status := AbortTransfer(stuck);
        case AbortItOp =>
          status := AbortIT();
        case PollOp(full, readings, stuck) =>
          status := PollForTransfer(full, readings, stuck);
        case RegisterOp(id, given) =>
          status := RegisterCallback(id, given);
        case UnRegisterOp(id) =>
          status := UnRegisterCallback(id);
        case InterruptOp(isr, turned, stuck) =>
          Serve(isr, turned, stuck);
      }
      e := if StartsTransfer(op) && ready then Begun else Ending(op, status, old(Current()));
      EndingCaused(op, status, old(Current()));
    }

    // Any interleaving of calls and interrupts, with what each returned and did and
    // the state it found.
    method Run(ops: seq<Op>) returns (ghost effects: seq<Effect>, statuses: seq<Status>, ghost states: seq<State>)
      requires Inv()
      modifies this
      ensures Inv() && (state == Ready ==> !locked)
      ensures |effects| == |statuses| == |ops| && |states| == |ops| + 1 && states[0] == old(state)
                && states[|ops|] == state
      ensures forall i :: 0 <= i < |ops| && StartsTransfer(ops[i]) ==>
                (effects[i] == Begun <==> states[i] == Ready) && (statuses[i] == OK <==> states[i] == Ready)
      ensures forall i :: 0 <= i < |ops| && !StartsTransfer(ops[i]) ==> effects[i] != Begun
      ensures Alternates(effects, old(locked)) && locked == LockedAfter(effects, old(locked))
      ensures Starts(effects) + (if old(locked) then 1 else 0) == Releases(effects) + if locked then 1 else 0
    {
      hide Caused, Ending;
      effects, statuses, states := [], [], [state];
      var n := 0;
      while n < |ops|
        invariant n <= |ops| && Inv() && direction == old(direction)
        invariant |effects| == |statuses| == n && |states| == n + 1 && states[0] == old(state) && states[n] == state
        invariant forall i :: 0 <= i < n && StartsTransfer(ops[i]) ==>
                    (effects[i] == Begun <==> states[i] == Ready) && (statuses[i] == OK <==> states[i] == Ready)
        invariant forall i :: 0 <= i < n && !StartsTransfer(ops[i]) ==> effects[i] != Begun
        invariant Alternates(effects, old(locked)) && locked == LockedAfter(effects, old(locked))
      {
        var status;
        ghost var e;
        status, e := Perform(ops[n]);
        Extended(effects, e, old(locked));
        effects, statuses, states := effects + [e], statuses + [status], states + [state];
        n := n + 1;
      }
      Balanced(effects, old(locked));
    }
  }
}
