// HAL_CAN_Transmit_IT, HAL_CAN_Receive_IT, HAL_CAN_IRQHandler, CAN_Transmit_IT
// and CAN_Receive_IT: one enumeration stands for the set of operations under
// way, and must agree with the interrupt enables.
module Can {
  import opened CanFrames

  datatype State =
    | Reset | Ready | Busy | BusyTx | BusyRx0 | BusyRx1 | BusyTxRx0 | BusyTxRx1 | BusyRx0Rx1 | BusyTxRx0Rx1
    | Timeout | Error

  datatype Status = OK | ERROR | BUSY
  datatype Fifo = Fifo0 | Fifo1
  // The set of operations under way.
  datatype Operations = Operations(tx: bool, rx0: bool, rx1: bool)
  datatype Failure = Overrun0 | Overrun1 | TxFail | Bus

  // The status bits of a transmit mailbox: request completed, transmission ok,
  // mailbox empty.
  datatype Slot = Slot(rqcp: bool, txok: bool, tme: bool)

  const EMPTY := Slot(false, false, true)
  const SENDING := Slot(false, false, false)
  const SENT := Slot(true, true, true)
  // Given up without success.
  const LOST := Slot(true, false, true)

  // __HAL_CAN_TRANSMIT_STATUS.
  predicate TransmitStatus(s: Slot) {
    s.rqcp && s.txok && s.tme
  }

  // The state is an operation's or ready.
  predicate Encodes(s: State) {
    s != Reset && s != Busy && s != Timeout && s != Error
  }

  function Pending(s: State): Operations {
    match s
    case BusyTx => Operations(true, false, false)
    case BusyRx0 => Operations(false, true, false)
    case BusyRx1 => Operations(false, false, true)
    case BusyTxRx0 => Operations(true, true, false)
    case BusyTxRx1 => Operations(true, false, true)
    case BusyRx0Rx1 => Operations(false, true, true)
    case BusyTxRx0Rx1 => Operations(true, true, true)
    case _ => NONE
  }

  const NONE := Operations(false, false, false)
  const TX_ONLY := Operations(true, false, false)

  predicate Has(p: Operations, f: Fifo) {
    if f == Fifo0 then p.rx0 else p.rx1
  }

  function Put(p: Operations, f: Fifo, on: bool): Operations {
    if f == Fifo0 then p.(rx0 := on) else p.(rx1 := on)
  }

  // The encoding is one to one.
  lemma PendingBijective(p: Operations)
    ensures exists s :: Encodes(s) && Pending(s) == p
    ensures forall s, u | Encodes(s) && Encodes(u) && Pending(s) == p && Pending(u) == p :: s == u
  {
    var s := match p
      case Operations(false, false, false) => Ready
      case Operations(false, false, true) => BusyRx1
      case Operations(false, true, false) => BusyRx0
      case Operations(false, true, true) => BusyRx0Rx1
      case Operations(true, false, false) => BusyTx
      case Operations(true, false, true) => BusyTxRx1
      case Operations(true, true, false) => BusyTxRx0
      case Operations(true, true, true) => BusyTxRx0Rx1;
    assert Encodes(s) && Pending(s) == p;
  }

  // The state switches of the four functions.
  function WithTx(s: State): State {
    match s
    case BusyRx0 => BusyTxRx0
    case BusyRx1 => BusyTxRx1
    case BusyRx0Rx1 => BusyTxRx0Rx1
    case _ => BusyTx
  }

  function WithoutTx(s: State): State {
    match s
    case BusyTxRx0 => BusyRx0
    case BusyTxRx1 => BusyRx1
    case BusyTxRx0Rx1 => BusyRx0Rx1
    case _ => Ready
  }

  function WithRx(f: Fifo, s: State): State {
    if f == Fifo0 then
      match s
      case BusyTx => BusyTxRx0
      case BusyRx1 => BusyRx0Rx1
      case BusyTxRx1 => BusyTxRx0Rx1
      case _ => BusyRx0
    else
      match s
      case BusyTx => BusyTxRx1
      case BusyRx0 => BusyRx0Rx1
      case BusyTxRx0 => BusyTxRx0Rx1
      case _ => BusyRx1
  }

  function WithoutRx(f: Fifo, s: State): State {
    if f == Fifo0 then
      match s
      case BusyTxRx0 => BusyTx
      case BusyRx0Rx1 => BusyRx1
      case BusyTxRx0Rx1 => BusyTxRx1
      case _ => Ready
    else
      match s
      case BusyTxRx1 => BusyTx
      case BusyRx0Rx1 => BusyRx0
      case BusyTxRx0Rx1 => BusyTxRx0
      case _ => Ready
  }

  // Each switch adds or removes its operation exactly on the states it is meant
  // for; elsewhere the default branch forgets what was pending.
  lemma Switches(s: State, f: Fifo)
    requires Encodes(s)
    ensures Encodes(WithTx(s)) && Encodes(WithoutTx(s)) && Encodes(WithRx(f, s)) && Encodes(WithoutRx(f, s))
    ensures Pending(WithTx(s)) == Pending(s).(tx := true) <==> !Pending(s).tx || Pending(s) == TX_ONLY
    ensures Pending(s).tx ==> Pending(WithTx(s)) == TX_ONLY
    ensures Pending(WithoutTx(s)) == Pending(s).(tx := false) <==> Pending(s).tx || Pending(s) == NONE
    ensures Pending(WithRx(f, s)) == Put(Pending(s), f, true) <==>
            !Has(Pending(s), f) || Pending(s) == Put(NONE, f, true)
    ensures Pending(WithoutRx(f, s)) == Put(Pending(s), f, false) <==> Has(Pending(s), f) || Pending(s) == NONE
  {
  }

  predicate AnySent(s: seq<Slot>) {
    exists i :: 0 <= i < |s| && TransmitStatus(s[i])
  }

  // Clearing the completion flags of all mailboxes.
  function Cleared(s: seq<Slot>): (r: seq<Slot>)
    ensures |r| == |s|
  {
    seq(|s|, i requires 0 <= i < |s| => s[i].(rqcp := false, txok := false))
  }

  /* ------------------ what the handler makes of the state ------------------ */

  function AfterTx(s: State, tx: bool): State {
    if tx then WithoutTx(s) else s
  }

  function AfterRx(f: Fifo, s: State, r: bool): State {
    if r then WithoutRx(f, s) else s
  }

  function AfterAll(s: State, tx: bool, r0: bool, r1: bool): State {
    AfterRx(Fifo1, AfterRx(Fifo0, AfterTx(s, tx), r0), r1)
  }

  // Whether the error interrupts stay enabled.
  function GroupTx(g: bool, s: State, tx: bool): bool {
    g && !(tx && s == BusyTx)
  }

  function GroupRx(g: bool, s: State, r: bool): bool {
    g && !(r && (s == BusyRx0 || s == BusyRx1))
  }

  function GroupAll(g: bool, s: State, tx: bool, r0: bool, r1: bool): bool {
    GroupRx(GroupRx(GroupTx(g, s, tx), AfterTx(s, tx), r0), AfterRx(Fifo0, AfterTx(s, tx), r0), r1)
  }

  // What is still pending after the given ends.
  function Left(p: Operations, tx: bool, r0: bool, r1: bool): Operations {
    Operations(p.tx && !tx, p.rx0 && !r0, p.rx1 && !r1)
  }

  // When only pending operations end, exactly those are removed, and the error
  // interrupts stay enabled exactly while something is pending.
  lemma Settles(s: State, tx: bool, r0: bool, r1: bool)
    requires Encodes(s) && (tx ==> Pending(s).tx) && (r0 ==> Pending(s).rx0) && (r1 ==> Pending(s).rx1)
    ensures var after := AfterAll(s, tx, r0, r1);
            Encodes(after) && Pending(after) == Left(Pending(s), tx, r0, r1)
            && GroupAll(Pending(s) != NONE, s, tx, r0, r1) == (Pending(after) != NONE)
  {
  }

  /* ------------------- what a run is meant to amount to ------------------- */

  // The transmission: none, on the bus, completed, or given up.
  datatype Tx = NoTx | OnBus(f: Frame) | Done(f: Frame) | Lost(f: Frame)

  // The operations asked for and not yet completed, the transmission, the messages
  // that have arrived and not been read, the frames that went over the bus, and
  // the completions told to the caller.
  datatype World = World(pending: Operations, tx: Tx, queue0: seq<Mailbox>, queue1: seq<Mailbox>,
                         carried: seq<Frame>, sent: nat, received0: seq<Frame>, received1: seq<Frame>)

  // A new transmission is asked for only when none is pending.
  function Step(w: World, op: Op): World {
    match op
    case TransmitOp(f) =>
      if w.pending.tx then w else w.(pending := w.pending.(tx := true), tx := OnBus(f))
    case ReceiveOp(fifo) =>
      w.(pending := Put(w.pending, fifo, true))
    case SentOp(success) =>
      if !w.tx.OnBus? then w
      else if success then w.(tx := Done(w.tx.f), carried := w.carried + [w.tx.f])
      else w.(tx := Lost(w.tx.f))
    case ArrivesOp(fifo, m) =>
      if fifo == Fifo0 then w.(queue0 := w.queue0 + [m]) else w.(queue1 := w.queue1 + [m])
    case InterruptOp =>
      Complete1(Complete0(CompleteTx(w)))
  }

  function CompleteTx(w: World): World {
    if w.pending.tx && w.tx.Done? then w.(pending := w.pending.(tx := false), tx := NoTx, sent := w.sent + 1) else w
  }

  // The oldest message that has arrived is the one received.
  function Complete0(w: World): World {
    if w.pending.rx0 && w.queue0 != [] then
      w.(pending := w.pending.(rx0 := false), queue0 := w.queue0[1..], received0 := w.received0 + [Decode(w.queue0[0])])
    else w
  }

  function Complete1(w: World): World {
    if w.pending.rx1 && w.queue1 != [] then
      w.(pending := w.pending.(rx1 := false), queue1 := w.queue1[1..], received1 := w.received1 + [Decode(w.queue1[0])])
    else w
  }

  function After(w: World, ops: seq<Op>): World {
    if ops == [] then w else Step(After(w, ops[..|ops| - 1]), ops[|ops| - 1])
  }

  /* ------------------------- what it keeps account of ------------------------- */

  predicate Sound(w: World) {
    (w.pending.tx <==> w.tx != NoTx) && |w.carried| == w.sent + if w.tx.Done? then 1 else 0
  }

  // The frames accepted for transmission.
  function Asked(w: World, ops: seq<Op>): seq<Frame> {
    if ops == [] then []
    else
      var before := ops[..|ops| - 1];
      Asked(w, before) + AskedNow(After(w, before), ops[|ops| - 1])
  }

  function AskedNow(w: World, op: Op): seq<Frame> {
    if op.TransmitOp? && !w.pending.tx then [op.f] else []
  }

  // The frame accepted that has not gone over the bus.
  function Outstanding(tx: Tx): seq<Frame> {
    match tx case OnBus(f) => [f] case Lost(f) => [f] case _ => []
  }

  // The receptions accepted from a FIFO, and the messages that arrived in it.
  function Wanted(w: World, ops: seq<Op>, f: Fifo): nat {
    if ops == [] then 0
    else
      var before := ops[..|ops| - 1];
      Wanted(w, before, f) + WantedNow(After(w, before), ops[|ops| - 1], f)
  }

  function WantedNow(w: World, op: Op, f: Fifo): nat {
    if op == ReceiveOp(f) && !Has(w.pending, f) then 1 else 0
  }

  function Arrived(ops: seq<Op>, f: Fifo): seq<Frame> {
    if ops == [] then [] else Arrived(ops[..|ops| - 1], f) + ArrivedNow(ops[|ops| - 1], f)
  }

  function ArrivedNow(op: Op, f: Fifo): seq<Frame> {
    if op.ArrivesOp? && op.to == f then [Decode(op.m)] else []
  }

  function Decoded(q: seq<Mailbox>): (r: seq<Frame>)
    ensures |r| == |q|
  {
    seq(|q|, i requires 0 <= i < |q| => Decode(q[i]))
  }

  function Open(p: Operations, f: Fifo): nat {
    if Has(p, f) then 1 else 0
  }

  // Frames accepted are the frames carried, in order, and at most one outstanding;
  // each carried is told to the caller but one that is about to be.
  lemma {:induction false} SentAccounts(w: World, ops: seq<Op>)
    requires Sound(w)
    ensures var v := After(w, ops);
            Sound(v) && v.carried + Outstanding(v.tx) == w.carried + Outstanding(w.tx) + Asked(w, ops)
  {
    hide Outstanding, AskedNow, Step, Sound;
    if ops == [] {
    } else {
      var before := ops[..|ops| - 1];
      SentAccounts(w, before);
      SentStep(After(w, before), ops[|ops| - 1]);
    }
  }

  lemma SentCount(w: World, ops: seq<Op>)
    requires Sound(w)
    ensures var v := After(w, ops);
            v.sent + (if v.pending.tx then 1 else 0) == w.sent + (if w.pending.tx then 1 else 0) + |Asked(w, ops)|
  {
    hide Step, Asked;
    SentAccounts(w, ops);
    var v := After(w, ops);
    assert |v.carried + Outstanding(v.tx)| == |w.carried + Outstanding(w.tx)| + |Asked(w, ops)|;
  }

  lemma SentStep(w: World, op: Op)
    requires Sound(w)
    ensures var v := Step(w, op);
            Sound(v) && v.carried + Outstanding(v.tx) == w.carried + Outstanding(w.tx) + AskedNow(w, op)
  {
    hide Decode;
  }

  // Messages are received in the order they arrived, none left out and none twice.
  lemma {:induction false} ReceivedInOrder(w: World, ops: seq<Op>)
    ensures var v := After(w, ops);
            v.received0 + Decoded(v.queue0) == w.received0 + Decoded(w.queue0) + Arrived(ops, Fifo0)
            && v.received1 + Decoded(v.queue1) == w.received1 + Decoded(w.queue1) + Arrived(ops, Fifo1)
  {
    hide Decode, Decoded, ArrivedNow, Step;
    if ops == [] {
    } else {
      ReceivedInOrder(w, ops[..|ops| - 1]);
      OrderKept(After(w, ops[..|ops| - 1]), ops[|ops| - 1]);
    }
  }

  lemma OrderKept(w: World, op: Op)
    ensures var v := Step(w, op);
            v.received0 + Decoded(v.queue0) == w.received0 + Decoded(w.queue0) + ArrivedNow(op, Fifo0)
            && v.received1 + Decoded(v.queue1) == w.received1 + Decoded(w.queue1) + ArrivedNow(op, Fifo1)
  {
    OrderKept0(w, op);
    OrderKept1(w, op);
    hide Decode, Decoded, ArrivedNow, Step;
  }

  lemma OrderKept0(w: World, op: Op)
    ensures var v := Step(w, op);
            v.received0 + Decoded(v.queue0) == w.received0 + Decoded(w.queue0) + ArrivedNow(op, Fifo0)
  {
    hide Decode;
  }

  lemma OrderKept1(w: World, op: Op)
    ensures var v := Step(w, op);
            v.received1 + Decoded(v.queue1) == w.received1 + Decoded(w.queue1) + ArrivedNow(op, Fifo1)
  {
    hide Decode;
  }

  // Every reception accepted is completed once, but one still pending.
  lemma {:induction false} ReceivedAccounts(w: World, ops: seq<Op>)
    ensures var v := After(w, ops);
            |v.received0| + Open(v.pending, Fifo0) == |w.received0| + Open(w.pending, Fifo0) + Wanted(w, ops, Fifo0)
            && |v.received1| + Open(v.pending, Fifo1) == |w.received1| + Open(w.pending, Fifo1) + Wanted(w, ops, Fifo1)
  {
    hide Step, WantedNow, Open;
    if ops == [] {
    } else {
      ReceivedAccounts(w, ops[..|ops| - 1]);
      ReceivedStep(After(w, ops[..|ops| - 1]), ops[|ops| - 1]);
    }
  }

  lemma ReceivedStep(w: World, op: Op)
    ensures var v := Step(w, op);
            |v.received0| + Open(v.pending, Fifo0) == |w.received0| + Open(w.pending, Fifo0) + WantedNow(w, op, Fifo0)
            && |v.received1| + Open(v.pending, Fifo1)
               == |w.received1| + Open(w.pending, Fifo1) + WantedNow(w, op, Fifo1)
  {
    hide Decode;
  }

  // A mailbox that holds f if f is in range; every receiver then decodes it as f.
  ghost predicate Carries(m: Mailbox, f: Frame) {
    WellFormed(f) ==> Holds(m, f) && forall filter: Word, time: Word :: Decode(Delivered(m, filter, time)) == f
  }

  lemma RequestCarries(was: Mailbox, f: Frame)
    ensures var m := Requested(Encode(was, f)); Carries(m, f) && Asking(m.ir) && SameAbove(m.dtr, was.dtr)
  {
    hide Holds, WellFormed, Asking, SameAbove, Requested, Encode;
    RequestAsks(was, f);
    if WellFormed(f) {
      RequestHolds(was, f);
    }
    HoldsCarries(Requested(Encode(was, f)), f);
  }

  lemma HoldsCarries(m: Mailbox, f: Frame)
    requires WellFormed(f) ==> Holds(m, f)
    ensures Carries(m, f)
  {
    hide Holds, WellFormed, Decode, Delivered;
    if WellFormed(f) {
      forall filter: Word, time: Word
        ensures Decode(Delivered(m, filter, time)) == f
      {
        HoldsDelivered(m, f, filter, time);
      }
    }
  }

  lemma ReleasedCarries(m: Mailbox, f: Frame)
    requires Carries(m, f)
    ensures Carries(Released(m), f) && !Asking(Released(m).ir)
  {
    hide Holds, WellFormed, Released, Asking;
    ReleasedHolds(m, f);
    HoldsCarries(Released(m), f);
  }

  function SlotOf(tx: Tx): Slot {
    match tx case NoTx => EMPTY case OnBus(_) => SENDING case Done(_) => SENT case Lost(_) => LOST
  }

  datatype Op =
    | TransmitOp(f: Frame) | ReceiveOp(fifo: Fifo) | SentOp(success: bool) | ArrivesOp(to: Fifo, m: Mailbox)
    | InterruptOp

  class Handle {
    // Transmit mailboxes and their status; receive FIFOs, oldest message first.
    var slots: seq<Slot>
    var mailboxes: seq<Mailbox>
    var fifo0: seq<Mailbox>
    var fifo1: seq<Mailbox>

    // Interrupt enables: transmit mailbox empty, message pending and overrun of
    // each FIFO, and the group of error interrupts.
    var tmeie: bool
    var fmp0: bool
    var fov0: bool
    var fmp1: bool
    var fov1: bool
    var errorGroup: bool

    var state: State
    var locked: bool
    var errors: set<Failure>
    var txMsg: Frame
    var rxMsg: Frame
    var rx1Msg: Frame
    // Transmission callbacks run so far, and the messages the reception callbacks
    // were given.
    var sent: nat
    var received0: seq<Frame>
    var received1: seq<Frame>
    // The mailboxes that have gone over the bus.
    ghost var bus: seq<Mailbox>

    constructor (f: Frame)
      ensures Refines(World(NONE, NoTx, [], [], [], 0, [], [])) && state == Ready
    {
      slots, mailboxes := [EMPTY, EMPTY, EMPTY], [Mailbox(0, 0, 0, 0), Mailbox(0, 0, 0, 0), Mailbox(0, 0, 0, 0)];
      fifo0, fifo1 := [], [];
      tmeie, fmp0, fov0, fmp1, fov1, errorGroup := false, false, false, false, false, false;
      state, locked, errors := Ready, false, {};
      txMsg, rxMsg, rx1Msg := f, f, f;
      sent, received0, received1, bus := 0, [], [], [];
    }

    predicate Shape()
      reads `slots, `mailboxes
    {
      |slots| == |mailboxes| == 3
    }

    // The state and the interrupt enables agree.
    predicate Inv()
      reads `slots, `mailboxes, `state, `fmp0, `fov0, `fmp1, `fov1, `errorGroup, `tmeie, `locked
    {
      Shape() && Encodes(state) && !locked
      && fmp0 == fov0 == Pending(state).rx0
      && fmp1 == fov1 == Pending(state).rx1
      && errorGroup == (Pending(state) != NONE)
      && (Pending(state).tx ==> tmeie)
    }

    // The handle shows w: the state its pending operations, mailbox 0 its
    // transmission, requested exactly while it is on the bus, and the others none.
    ghost predicate Refines(w: World)
      reads this
    {
      Inv() && errors == {} && Pending(state) == w.pending && (w.pending.tx <==> w.tx != NoTx)
      && slots == [SlotOf(w.tx), EMPTY, EMPTY] && (w.tx != NoTx ==> Carries(mailboxes[0], w.tx.f))
      && (w.tx.OnBus? <==> Asking(mailboxes[0].ir))
      && fifo0 == w.queue0 && fifo1 == w.queue1
      && |bus| == |w.carried| && (forall i :: 0 <= i < |bus| ==> Asking(bus[i].ir) && Carries(bus[i], w.carried[i]))
      && sent == w.sent && received0 == w.received0 && received1 == w.received1
    }

    /* ----------------------------- requests ----------------------------- */

    // The first empty mailbox, 3 if there is none.
    static function FirstEmpty(s: seq<Slot>): (m: nat)
      requires |s| == 3
      ensures m <= 3 && (m < 3 ==> s[m].tme) && forall i :: 0 <= i < m ==> !s[i].tme
    {
      if s[0].tme then 0 else if s[1].tme then 1 else if s[2].tme then 2 else 3
    }

    // HAL_CAN_Transmit_IT.
    method TransmitIT() returns (status: Status)
      requires Inv()
      modifies `slots, `mailboxes, `state, `locked, `errors, `txMsg, `tmeie, `errorGroup
      ensures status == if FirstEmpty(old(slots)) == 3 then ERROR else OK
      ensures status == ERROR ==> state == Error && !Inv()
      ensures status == ERROR ==> unchanged(`slots, `mailboxes, `locked, `errors, `txMsg, `tmeie, `errorGroup)
      ensures status == OK ==>
                var m := FirstEmpty(old(slots));
                mailboxes == old(mailboxes)[m := Requested(Encode(old(mailboxes)[m], old(txMsg)))]
                && slots == old(slots)[m := SENDING] && errors == {}
      // The request bit is set and the registers hold the message.
      ensures status == OK ==>
                var m := FirstEmpty(old(slots));
                Asking(mailboxes[m].ir) && SameAbove(mailboxes[m].dtr, old(mailboxes)[m].dtr)
                && (WellFormed(old(txMsg)) ==> Holds(mailboxes[m], old(txMsg)))
                && txMsg == old(txMsg).(dlc := old(txMsg).dlc & 0x0F)
      ensures status == OK && !Pending(old(state)).tx ==> Inv() && Pending(state) == Pending(old(state)).(tx := true)
      // With a transmission pending already, a pending reception is forgotten.
      ensures status == OK && Pending(old(state)).tx ==>
                Pending(state) == TX_ONLY && (Inv() <==> Pending(old(state)) == TX_ONLY)
    {
      hide WithTx, Encode, Requested, Holds, WellFormed, Asking, SameAbove;
      Switches(state, Fifo0);
      if slots[0].tme || slots[1].tme || slots[2].tme {
        if locked {
          return BUSY;
        }
        locked := true;
        var transmitmailbox := 2;
        if slots[0].tme {
          transmitmailbox := 0;
        } else if slots[1].tme {
          transmitmailbox := 1;
        }
        Send(transmitmailbox);
      } else {
        state := Error;
        return ERROR;
      }
      return OK;
    }

    // The message to mailbox m, and its transmission requested.
    method Send(m: nat)
      requires Shape() && m < 3
      modifies `slots, `mailboxes, `state, `locked, `errors, `txMsg, `tmeie, `errorGroup
      ensures state == WithTx(old(state)) && errors == {} && !locked && errorGroup && tmeie
      ensures mailboxes == old(mailboxes)[m := Requested(Encode(old(mailboxes)[m], old(txMsg)))]
      ensures slots == old(slots)[m := SENDING]
      ensures Asking(mailboxes[m].ir) && SameAbove(mailboxes[m].dtr, old(mailboxes)[m].dtr)
              && (WellFormed(old(txMsg)) ==> Holds(mailboxes[m], old(txMsg)))
      ensures txMsg == old(txMsg).(dlc := old(txMsg).dlc & 0x0F)
    {
      hide WithTx, Encode, Requested, Holds, WellFormed, Asking, SameAbove;
      RequestCarries(mailboxes[m], txMsg);
      Fill(m);
      BeginTx();
      locked := false;
      RequestTransmission(m);
    }

    // The identifier, length and data registers of mailbox m.
    method Fill(m: nat)
      requires Shape() && m < 3
      modifies `mailboxes, `txMsg
      ensures mailboxes == old(mailboxes)[m := Encode(old(mailboxes)[m], old(txMsg))]
      ensures txMsg == old(txMsg).(dlc := old(txMsg).dlc & 0x0F)
    {
      hide Encode;
      mailboxes := mailboxes[m := Encode(mailboxes[m], txMsg)];
      txMsg := txMsg.(dlc := txMsg.dlc & 0x0F);
    }

    method BeginTx()
      modifies `state, `errors
      ensures state == WithTx(old(state)) && errors == {}
    {
      state := WithTx(state);
      errors := {};
    }

    method RequestTransmission(m: nat)
      requires Shape() && m < 3
      modifies `mailboxes, `slots, `errorGroup, `tmeie
      ensures mailboxes == old(mailboxes)[m := Requested(old(mailboxes)[m])]
      ensures slots == old(slots)[m := SENDING] && errorGroup && tmeie
    {
      mailboxes := mailboxes[m := Requested(mailboxes[m])];
      slots := slots[m := SENDING];
      errorGroup, tmeie := true, true;
    }

    // HAL_CAN_Receive_IT.
    method ReceiveIT(f: Fifo) returns (status: Status)
      requires Inv()
      modifies `state, `locked, `errors, `tmeie, `errorGroup, `fmp0, `fov0, `fmp1, `fov1
      ensures Inv() && status == if Has(Pending(old(state)), f) then BUSY else OK
      ensures Pending(state) == Put(Pending(old(state)), f, true)
      ensures status == OK ==> errors == {}
      ensures status == BUSY ==> unchanged(this)
    {
      Switches(state, f);
      hide WithRx;
      if f == Fifo0 && (state == BusyRx0 || state == BusyTxRx0 || state == BusyRx0Rx1 || state == BusyTxRx0Rx1) {
        return BUSY;
      }
      if f == Fifo1 && (state == BusyRx1 || state == BusyTxRx1 || state == BusyRx0Rx1 || state == BusyTxRx0Rx1) {
        return BUSY;
      }
      if locked {
        return BUSY;
      }
      locked := true;
      state := WithRx(f, state);
      errors := {};
      errorGroup, tmeie := true, true;
      locked := false;
      if f == Fifo0 {
        fov0, fmp0 := true, true;
      } else {
        fov1, fmp1 := true, true;
      }
      return OK;
    }

    /* ---------------------------- interrupts ---------------------------- */

    // CAN_Transmit_IT.
    method TransmitDone()
      modifies `state, `tmeie, `errorGroup, `sent
      ensures state == WithoutTx(old(state)) && !tmeie && sent == old(sent) + 1
      ensures errorGroup == GroupTx(old(errorGroup), old(state), true)
    {
      tmeie := false;
      if state == BusyTx {
        errorGroup := false;
      }
      state := WithoutTx(state);
      sent := sent + 1;
    }

    // CAN_Receive_IT: the oldest message of a FIFO is decoded and released, and the
    // interrupts of the FIFO are disabled.
    method ReceiveDone(f: Fifo)
      requires (if f == Fifo0 then fifo0 else fifo1) != []
      modifies `state, `errorGroup, `fmp0, `fov0, `fmp1, `fov1, `fifo0, `fifo1, `rxMsg, `rx1Msg, `received0, `received1
      ensures state == WithoutRx(f, old(state)) && errorGroup == GroupRx(old(errorGroup), old(state), true)
      ensures if f == Fifo0 then Holds(old(fifo0)[0], rxMsg) else Holds(old(fifo1)[0], rx1Msg)
      ensures if f == Fifo0 then
                rxMsg == Decode(old(fifo0)[0]) && fifo0 == old(fifo0)[1..] && received0 == old(received0) + [rxMsg]
                && !fov0 && !fmp0 && rx1Msg == old(rx1Msg) && Untouched1()
              else
                rx1Msg == Decode(old(fifo1)[0]) && fifo1 == old(fifo1)[1..] && received1 == old(received1) + [rx1Msg]
                && !fov1 && !fmp1 && rxMsg == old(rxMsg) && Untouched0()
    {
      hide Decode, Holds;
      Take(f);
      if state == BusyRx0 || state == BusyRx1 {
        errorGroup := false;
      }
      state := WithoutRx(f, state);
      if f == Fifo0 {
        received0 := received0 + [rxMsg];
      } else {
        received1 := received1 + [rx1Msg];
      }
    }

    twostate predicate Untouched0()
      reads `fifo0, `received0, `fmp0, `fov0
    {
      fifo0 == old(fifo0) && received0 == old(received0) && fmp0 == old(fmp0) && fov0 == old(fov0)
    }

    twostate predicate Untouched1()
      reads `fifo1, `received1, `fmp1, `fov1
    {
      fifo1 == old(fifo1) && received1 == old(received1) && fmp1 == old(fmp1) && fov1 == old(fov1)
    }

    method Take(f: Fifo)
      requires (if f == Fifo0 then fifo0 else fifo1) != []
      modifies `fmp0, `fov0, `fmp1, `fov1, `fifo0, `fifo1, `rxMsg, `rx1Msg
      ensures if f == Fifo0 then Holds(old(fifo0)[0], rxMsg) else Holds(old(fifo1)[0], rx1Msg)
      ensures if f == Fifo0 then
                rxMsg == Decode(old(fifo0)[0]) && fifo0 == old(fifo0)[1..] && !fov0 && !fmp0
                && rx1Msg == old(rx1Msg) && fifo1 == old(fifo1) && fov1 == old(fov1) && fmp1 == old(fmp1)
              else
                rx1Msg == Decode(old(fifo1)[0]) && fifo1 == old(fifo1)[1..] && !fov1 && !fmp1
                && rxMsg == old(rxMsg) && fifo0 == old(fifo0) && fov0 == old(fov0) && fmp0 == old(fmp0)
    {
      hide Decode, Holds;
      if f == Fifo0 {
        DecodeHolds(fifo0[0], Decode(fifo0[0]));
        rxMsg := Decode(fifo0[0]);
        fifo0 := fifo0[1..];
        fov0, fmp0 := false, false;
      } else {
        DecodeHolds(fifo1[0], Decode(fifo1[0]));
        rx1Msg := Decode(fifo1[0]);
        fifo1 := fifo1[1..];
        fov1, fmp1 := false, false;
      }
    }

    // The ends the flags and the enables give rise to.
    predicate TxEnds()
      reads `tmeie, `slots
    {
      tmeie && AnySent(slots)
    }

    predicate RxEnds(f: Fifo)
      reads `fmp0, `fmp1, `fifo0, `fifo1
    {
      if f == Fifo0 then fmp0 && fifo0 != [] else fmp1 && fifo1 != []
    }

    // Each end that is flagged and enabled is made and told, and the oldest messages
    // are read.
    twostate predicate Ended()
      reads `slots, `sent, `fifo0, `fifo1, `rxMsg, `rx1Msg, `received0, `received1
    {
      slots == (if old(TxEnds()) then Cleared(old(slots)) else old(slots))
      && sent == old(sent) + (if old(TxEnds()) then 1 else 0)
      && (if old(RxEnds(Fifo0)) then
            rxMsg == Decode(old(fifo0)[0]) && fifo0 == old(fifo0)[1..] && received0 == old(received0) + [rxMsg]
          else fifo0 == old(fifo0) && received0 == old(received0))
      && (if old(RxEnds(Fifo1)) then
            rx1Msg == Decode(old(fifo1)[0]) && fifo1 == old(fifo1)[1..] && received1 == old(received1) + [rx1Msg]
          else fifo1 == old(fifo1) && received1 == old(received1))
    }

    // The state and the enables make the ends and no other change.
    twostate predicate Settled()
      reads `state, `errorGroup, `tmeie, `fmp0, `fov0, `fmp1, `fov1
    {
      var tx, r0, r1 := old(TxEnds()), old(RxEnds(Fifo0)), old(RxEnds(Fifo1));
      state == AfterAll(old(state), tx, r0, r1) && errorGroup == old(Grouped()) && tmeie == (old(tmeie) && !tx)
      && fmp0 == (old(fmp0) && !r0) && fov0 == (old(fov0) && !r0)
      && fmp1 == (old(fmp1) && !r1) && fov1 == (old(fov1) && !r1)
    }

    predicate GivenUp()
      reads `state, `errorGroup, `tmeie, `fmp0, `fov0, `fmp1, `fov1
    {
      state == Ready && !errorGroup && !tmeie && !fmp0 && !fov0 && !fmp1 && !fov1
    }

    // HAL_CAN_IRQHandler in any state, with the overrun flags and the bus errors as
    // found.
    method IRQHandler(overrun0: bool, overrun1: bool, bus: bool)
      requires Shape()
      modifies `slots, `state, `tmeie, `errorGroup, `fmp0, `fov0, `fmp1, `fov1, `fifo0, `fifo1,
               `rxMsg, `rx1Msg, `errors, `sent, `received0, `received1
      ensures Shape() && Ended() && if errors == {} then Settled() else GivenUp()
      ensures TxFail in errors ==> TxFail in old(errors)
      ensures errors == {} <==>
                old(errors) == {} && !(overrun0 && old(fov0)) && !(overrun1 && old(fov1)) && !(bus && old(Grouped()))
    {
      hide Ended, GivenUp, AfterAll, Grouped;
      var errorcode: set<Failure> := {};
      if overrun0 && fov0 {
        errorcode := errorcode + {Overrun0};
      }
      if overrun1 && fov1 {
        errorcode := errorcode + {Overrun1};
      }
      var fail := MakeEnds();
      if fail {
        errorcode := errorcode + {TxFail};
      }
      ManageErrors(errorcode, bus);
    }

    // Transmission and reception parts together.
    method MakeEnds() returns (fail: bool)
      requires Shape()
      modifies `slots, `state, `tmeie, `errorGroup, `fmp0, `fov0, `fmp1, `fov1, `fifo0, `fifo1,
               `rxMsg, `rx1Msg, `sent, `received0, `received1
      ensures Shape() && !fail && Ended() && Settled() && errorGroup == old(Grouped())
    {
      hide AfterTx, AfterRx, GroupTx, GroupRx, Decode, Cleared, AnySent;
      fail := EndOfTransmission();
      Receptions();
    }

    // The error interrupts once the ends are made.
    predicate Grouped()
      reads `errorGroup, `state, `tmeie, `slots, `fmp0, `fmp1, `fifo0, `fifo1
    {
      GroupAll(errorGroup, state, TxEnds(), RxEnds(Fifo0), RxEnds(Fifo1))
    }

    // The transmission part of the handler; its result is the failure branch,
    // which the status condition rules out: a mailbox that has given up without
    // success shows no status.
    method EndOfTransmission() returns (fail: bool)
      requires Shape()
      modifies `slots, `state, `tmeie, `errorGroup, `sent
      ensures Shape() && !fail && slots == if old(TxEnds()) then Cleared(old(slots)) else old(slots)
      ensures state == AfterTx(old(state), old(TxEnds()))
                && errorGroup == GroupTx(old(errorGroup), old(state), old(TxEnds()))
      ensures tmeie == (old(tmeie) && !old(TxEnds())) && sent == old(sent) + if old(TxEnds()) then 1 else 0
      ensures old(TxEnds()) <==>
              old(tmeie) && exists i :: 0 <= i < 3 && old(slots)[i].rqcp && old(slots)[i].txok && old(slots)[i].tme
    {
      hide WithoutTx;
      fail := false;
      if tmeie {
        if AnySent(slots) {
          if slots[0].txok || slots[1].txok || slots[2].txok {
            TransmitDone();
          } else {
            fail := true;
          }
          slots := Cleared(slots);
        }
      }
    }

    // The reception part of the handler.
    method Receptions()
      modifies `state, `errorGroup, `fmp0, `fov0, `fmp1, `fov1, `fifo0, `fifo1, `rxMsg, `rx1Msg, `received0, `received1
      ensures var r0, r1 := old(RxEnds(Fifo0)), old(RxEnds(Fifo1));
              state == AfterRx(Fifo1, AfterRx(Fifo0, old(state), r0), r1)
              && errorGroup == GroupRx(GroupRx(old(errorGroup), old(state), r0), AfterRx(Fifo0, old(state), r0), r1)
      ensures if old(RxEnds(Fifo0)) then
                rxMsg == Decode(old(fifo0)[0]) && fifo0 == old(fifo0)[1..] && received0 == old(received0) + [rxMsg]
                && !fmp0 && !fov0
              else Untouched0()
      ensures if old(RxEnds(Fifo1)) then
                rx1Msg == Decode(old(fifo1)[0]) && fifo1 == old(fifo1)[1..] && received1 == old(received1) + [rx1Msg]
                && !fmp1 && !fov1
              else Untouched1()
    {
      hide WithoutRx, Decode;
      if fmp0 && fifo0 != [] {
        ReceiveDone(Fifo0);
      }
      if fmp1 && fifo1 != [] {
        ReceiveDone(Fifo1);
      }
    }

    // The error part of the handler.
    method ManageErrors(code: set<Failure>, bus: bool)
      modifies `errors, `state, `tmeie, `errorGroup, `fmp0, `fov0, `fmp1, `fov1
      ensures errors == old(errors) + code + if bus && old(errorGroup) then {Bus} else {}
      ensures if errors == {} then Unchanged() else GivenUp()
    {
      errors := errors + code;
      if bus && errorGroup {
        errors := errors + {Bus};
      }
      if errors != {} {
        state := Ready;
        errorGroup, fmp0, fov0, fmp1, fov1, tmeie := false, false, false, false, false, false;
      }
    }

    twostate predicate Unchanged()
      reads `state, `errorGroup, `tmeie, `fmp0, `fov0, `fmp1, `fov1
    {
      state == old(state) && tmeie == old(tmeie) && errorGroup == old(errorGroup)
      && fmp0 == old(fmp0) && fov0 == old(fov0) && fmp1 == old(fmp1) && fov1 == old(fov1)
    }

    /* ------------------------------- runs ------------------------------- */

    // An error-free interrupt makes exactly the ends of the abstract step.
    method Interrupt(ghost w: World)
      requires Refines(w)
      modifies `slots, `state, `tmeie, `errorGroup, `fmp0, `fov0, `fmp1, `fov1, `fifo0, `fifo1,
               `rxMsg, `rx1Msg, `errors, `sent, `received0, `received1
      ensures Refines(Step(w, InterruptOp))
    {
      hide Decode, WellFormed, Carries, AfterAll, GroupAll, Asking;
      SlotEnds(w.tx);
      Settles(state, TxEnds(), RxEnds(Fifo0), RxEnds(Fifo1));
      IRQHandler(false, false, false);
    }

    lemma SlotEnds(tx: Tx)
      ensures AnySent([SlotOf(tx), EMPTY, EMPTY]) == tx.Done?
      ensures tx.Done? ==> Cleared([SlotOf(tx), EMPTY, EMPTY]) == [EMPTY, EMPTY, EMPTY]
    {
      var s := [SlotOf(tx), EMPTY, EMPTY];
      if tx.Done? {
        assert TransmitStatus(s[0]);
      }
    }

    method Request(f: Frame, ghost w: World)
      requires Refines(w)
      modifies `slots, `mailboxes, `state, `locked, `errors, `txMsg, `tmeie, `errorGroup
      ensures Refines(Step(w, TransmitOp(f)))
    {
      hide Decode, WellFormed, Carries, Encode, Requested, Holds, Asking, SameAbove;
      if !Pending(state).tx {
        RequestCarries(mailboxes[0], f);
        txMsg := f;
        var status := TransmitIT();
      }
    }

    // A frame whose transmission is requested goes over the bus or is given up; either
    // way the hardware takes the request back.
    method Leave(success: bool, ghost w: World)
      requires Refines(w)
      modifies `slots, `mailboxes, `bus
      ensures Refines(Step(w, SentOp(success)))
    {
      hide Decode, WellFormed, Carries, Released, Asking;
      if slots[0] == SENDING && Asking(mailboxes[0].ir) {
        ReleasedCarries(mailboxes[0], w.tx.f);
        slots := slots[0 := if success then SENT else LOST];
        if success {
          bus := bus + [mailboxes[0]];
        }
        mailboxes := mailboxes[0 := Released(mailboxes[0])];
      }
    }

    // One operation of a run: a request, with a new transmission only when none is
    // pending, something the hardware does, or an interrupt that finds no error.
    method Perform(op: Op, ghost w: World)
      requires Refines(w)
      modifies this
      ensures Refines(Step(w, op))
    {
      hide Decode, WellFormed, Carries, Released, Asking;
      match op {
        case TransmitOp(f) =>
          Request(f, w);
        case ReceiveOp(f) =>
          var status := ReceiveIT(f);
        case SentOp(success) =>
          Leave(success, w);
        case ArrivesOp(f, m) =>
          if f == Fifo0 {
            fifo0 := fifo0 + [m];
          } else {
            fifo1 := fifo1 + [m];
          }
        case InterruptOp =>
          Interrupt(w);
      }
    }

    // A run from any handle that shows w: it ends showing what the operations amount
    // to, so that messages are received in order, and the requests accepted are those
    // completed and those the state says are pending.
    method Run(ops: seq<Op>, ghost w: World)
      requires Refines(w) && Sound(w)
      modifies this
      ensures Refines(After(w, ops)) && Sound(After(w, ops))
      ensures received0 + Decoded(fifo0) == old(received0) + old(Decoded(fifo0)) + Arrived(ops, Fifo0)
      ensures received1 + Decoded(fifo1) == old(received1) + old(Decoded(fifo1)) + Arrived(ops, Fifo1)
      ensures var p, q := old(Pending(state)), Pending(state);
              |received0| + Open(q, Fifo0) == |old(received0)| + Open(p, Fifo0) + Wanted(w, ops, Fifo0)
              && |received1| + Open(q, Fifo1) == |old(received1)| + Open(p, Fifo1) + Wanted(w, ops, Fifo1)
              && sent + (if q.tx then 1 else 0) == old(sent) + (if p.tx then 1 else 0) + |Asked(w, ops)|
    {
      hide Step, Decoded, Open, Pending, Asked, Wanted, Arrived;
      SentAccounts(w, ops);
      SentCount(w, ops);
      ReceivedInOrder(w, ops);
      ReceivedAccounts(w, ops);
      var n := 0;
      while n < |ops|
        invariant n <= |ops| && Refines(After(w, ops[..n]))
      {
        Perform(ops[n], After(w, ops[..n]));
        assert ops[..n + 1][..n] == ops[..n];
        n := n + 1;
      }
      assert ops[..n] == ops;
    }
  }
}
