// The registers a frame is written to by HAL_CAN_Transmit and
// HAL_CAN_Transmit_IT, and read from by HAL_CAN_Receive and CAN_Receive_IT.
module CanFrames {

  type Word = bv32

  const ID_STD: Word := 0
  const ID_EXT: Word := 4
  const RTR_REMOTE: Word := 2
  const TXRQ: Word := 1

  // id: the standard or the extended identifier, according to ide.
  datatype Frame = Frame(ide: Word, id: Word, rtr: Word, dlc: Word, data: Data)

  datatype Data = Data(b0: bv8, b1: bv8, b2: bv8, b3: bv8, b4: bv8, b5: bv8, b6: bv8, b7: bv8)

  // A mailbox: identifier, length, low and high data registers.
  datatype Mailbox = Mailbox(ir: Word, dtr: Word, lr: Word, hr: Word)

  function Pack(a: bv8, b: bv8, c: bv8, d: bv8): Word {
    ((d as Word) << 24) | ((c as Word) << 16) | ((b as Word) << 8) | (a as Word)
  }

  // The identifier register with only its request bit kept and an identifier set, and
  // the length set in its register.
  function Identified(was: Word, ide: Word, id: Word, rtr: Word): Word {
    if ide == ID_STD then (was & TXRQ) | (id << 21) | rtr else (was & TXRQ) | (id << 3) | ide | rtr
  }

  function Measured(was: Word, dlc: Word): Word {
    (was & 0xFFFFFFF0) | (dlc & 0x0F)
  }

  // Writing a frame over the earlier contents of a transmit mailbox.
  function Encode(was: Mailbox, f: Frame): Mailbox {
    Mailbox(Identified(was.ir, f.ide, f.id, f.rtr),
            Measured(was.dtr, f.dlc),
            Pack(f.data.b0, f.data.b1, f.data.b2, f.data.b3),
            Pack(f.data.b4, f.data.b5, f.data.b6, f.data.b7))
  }

  function Flagged(ir: Word): Word {
    ir | TXRQ
  }

  function Requested(m: Mailbox): Mailbox {
    m.(ir := Flagged(m.ir))
  }

  // The request bit cleared, as the hardware does when the request is completed.
  function Unasked(ir: Word): Word {
    ir & !TXRQ
  }

  function Released(m: Mailbox): Mailbox {
    m.(ir := Unasked(m.ir))
  }

  // The length with the filter match index and the time stamp of the receiver.
  function Stamped(dtr: Word, filter: Word, time: Word): Word {
    (dtr & 0x0F) | ((filter & 0xFF) << 8) | (time << 16)
  }

  // What arrives in a receive mailbox.
  function Delivered(m: Mailbox, filter: Word, time: Word): Mailbox {
    m.(ir := Unasked(m.ir), dtr := Stamped(m.dtr, filter, time))
  }

  function Byte(w: Word, shift: nat): bv8
    requires shift == 0 || shift == 8 || shift == 16 || shift == 24
  {
    (0xFF & (if shift == 0 then w else if shift == 8 then w >> 8 else if shift == 16 then w >> 16 else w >> 24)) as bv8
  }

  function Identifier(ir: Word): Word {
    if ID_EXT & ir == ID_STD then 0x7FF & (ir >> 21) else 0x1FFFFFFF & (ir >> 3)
  }

  function DataOf(lr: Word, hr: Word): Data {
    Data(Byte(lr, 0), Byte(lr, 8), Byte(lr, 16), Byte(lr, 24), Byte(hr, 0), Byte(hr, 8), Byte(hr, 16), Byte(hr, 24))
  }

  function Decode(m: Mailbox): Frame {
    Frame(ID_EXT & m.ir, Identifier(m.ir), RTR_REMOTE & m.ir, 0x0F & m.dtr, DataOf(m.lr, m.hr))
  }

  // The frames with fields in range.
  predicate WellFormed(f: Frame) {
    (if f.ide == ID_STD then f.id < 0x800 else f.ide == ID_EXT && f.id < 0x20000000)
    && (f.rtr == 0 || f.rtr == RTR_REMOTE) && f.dlc < 0x10
  }

  predicate HoldsData(lr: Word, hr: Word, d: Data) {
    lr & 0xFF == d.b0 as Word && (lr >> 8) & 0xFF == d.b1 as Word
    && (lr >> 16) & 0xFF == d.b2 as Word && lr >> 24 == d.b3 as Word
    && hr & 0xFF == d.b4 as Word && (hr >> 8) & 0xFF == d.b5 as Word
    && (hr >> 16) & 0xFF == d.b6 as Word && hr >> 24 == d.b7 as Word
  }

  predicate HoldsId(ir: Word, ide: Word, id: Word, rtr: Word) {
    ir & 0x4 == ide && ir & 0x2 == rtr && if ide == 0 then ir >> 21 == id else ir >> 3 == id
  }

  predicate HoldsLength(dtr: Word, dlc: Word) {
    dtr & 0xF == dlc
  }

  // The registers hold frame f: bit 2 of the identifier register is IDE and bit 1 RTR,
  // a standard identifier is in bits 31 to 21 and an extended one in bits 31 to 3, the
  // length is in bits 3 to 0 and data byte i in byte i of the two data registers.
  predicate Holds(m: Mailbox, f: Frame) {
    HoldsId(m.ir, f.ide, f.id, f.rtr) && HoldsLength(m.dtr, f.dlc) && HoldsData(m.lr, m.hr, f.data)
  }

  lemma PackHolds(d: Data)
    ensures HoldsData(Pack(d.b0, d.b1, d.b2, d.b3), Pack(d.b4, d.b5, d.b6, d.b7), d)
  {
  }

  lemma StandardHolds(was: Word, id: Word, rtr: Word)
    requires (rtr == 0 || rtr == RTR_REMOTE) && id < 0x800
    ensures HoldsId(((was & TXRQ) | (id << 21) | rtr) | TXRQ, ID_STD, id, rtr)
  {
  }

  lemma ExtendedHolds(was: Word, id: Word, rtr: Word)
    requires (rtr == 0 || rtr == RTR_REMOTE) && id < 0x20000000
    ensures HoldsId(((was & TXRQ) | (id << 3) | ID_EXT | rtr) | TXRQ, ID_EXT, id, rtr)
  {
  }

  lemma IdentifiedHolds(was: Word, ide: Word, id: Word, rtr: Word)
    requires rtr == 0 || rtr == RTR_REMOTE
    requires if ide == ID_STD then id < 0x800 else ide == ID_EXT && id < 0x20000000
    ensures HoldsId(Flagged(Identified(was, ide, id, rtr)), ide, id, rtr)
  {
    hide HoldsId;
    if ide == ID_STD {
      StandardHolds(was, id, rtr);
    } else {
      ExtendedHolds(was, id, rtr);
    }
  }

  // The transmission request bit is set.
  predicate Asking(ir: Word) {
    ir & 0x1 == 1
  }

  // The bits above the length are the same.
  predicate SameAbove(a: Word, b: Word) {
    a >> 4 == b >> 4
  }

  lemma MeasuredHolds(was: Word, dlc: Word)
    ensures dlc < 0x10 ==> HoldsLength(Measured(was, dlc), dlc)
    ensures SameAbove(Measured(was, dlc), was)
  {
  }

  lemma Asks(ir: Word)
    ensures Asking(Flagged(ir))
  {
  }

  // A mailbox requested for transmission asks for it, with the bits that are no part of a
  // frame left as they were.
  lemma RequestAsks(was: Mailbox, f: Frame)
    ensures var m := Requested(Encode(was, f)); Asking(m.ir) && SameAbove(m.dtr, was.dtr)
  {
    hide Pack, Flagged, Identified, Measured, Asking, SameAbove;
    Asks(Identified(was.ir, f.ide, f.id, f.rtr));
    MeasuredHolds(was.dtr, f.dlc);
  }

  // And it holds the frame, if that is in range.
  lemma RequestHolds(was: Mailbox, f: Frame)
    requires WellFormed(f)
    ensures Holds(Requested(Encode(was, f)), f)
  {
    MeasuredHolds(was.dtr, f.dlc);
    IdentifiedHolds(was.ir, f.ide, f.id, f.rtr);
    hide HoldsId, HoldsLength, HoldsData, Pack, Flagged, Identified, Measured, WellFormed, SameAbove;
    PackHolds(f.data);
  }

  lemma Masks(x: Word)
    ensures (RTR_REMOTE & x == 0 || RTR_REMOTE & x == RTR_REMOTE) && (ID_EXT & x == ID_STD || ID_EXT & x == ID_EXT)
    ensures 0x0F & x < 0x10 && 0x7FF & x < 0x800 && 0x1FFFFFFF & x < 0x20000000
  {
  }

  lemma DecodedId(ir: Word, ide: Word, id: Word, rtr: Word)
    ensures HoldsId(ir, ide, id, rtr) <==> ide == ID_EXT & ir && id == Identifier(ir) && rtr == RTR_REMOTE & ir
  {
  }

  lemma DecodedData(lr: Word, hr: Word, d: Data)
    ensures HoldsData(lr, hr, d) <==> d == DataOf(lr, hr)
  {
  }

  lemma DecodedLength(dtr: Word, dlc: Word)
    ensures HoldsLength(dtr, dlc) <==> dlc == 0x0F & dtr
  {
  }

  // What is decoded is the one frame the registers hold.
  lemma DecodeHolds(m: Mailbox, f: Frame)
    ensures Holds(m, f) <==> f == Decode(m)
  {
    hide HoldsId, HoldsLength, HoldsData, Identifier, DataOf;
    DecodedId(m.ir, f.ide, f.id, f.rtr);
    DecodedLength(m.dtr, f.dlc);
    DecodedData(m.lr, m.hr, f.data);
  }

  lemma UnaskedHolds(ir: Word, ide: Word, id: Word, rtr: Word)
    ensures HoldsId(Unasked(ir), ide, id, rtr) <==> HoldsId(ir, ide, id, rtr)
    ensures !Asking(Unasked(ir))
  {
  }

  lemma StampedHolds(dtr: Word, filter: Word, time: Word, dlc: Word)
    ensures HoldsLength(Stamped(dtr, filter, time), dlc) <==> HoldsLength(dtr, dlc)
  {
  }

  // A receiver decodes the frame that the transmit mailbox holds, whatever filter matched
  // and whenever.
  lemma HoldsDelivered(m: Mailbox, f: Frame, filter: Word, time: Word)
    requires Holds(m, f)
    ensures Decode(Delivered(m, filter, time)) == f
  {
    hide HoldsId, HoldsLength, HoldsData, Unasked, Stamped, Decode;
    UnaskedHolds(m.ir, f.ide, f.id, f.rtr);
    StampedHolds(m.dtr, filter, time, f.dlc);
    DecodeHolds(Delivered(m, filter, time), f);
  }

  lemma ReleasedHolds(m: Mailbox, f: Frame)
    ensures !Asking(Released(m).ir) && (Holds(Released(m), f) <==> Holds(m, f))
  {
    hide HoldsId, HoldsLength, HoldsData, Unasked, Asking;
    UnaskedHolds(m.ir, f.ide, f.id, f.rtr);
  }

  // A frame in range is received as it was sent, whatever the mailbox held before.
  lemma RoundTrip(was: Mailbox, f: Frame, filter: Word, time: Word)
    requires WellFormed(f)
    ensures Decode(Delivered(Requested(Encode(was, f)), filter, time)) == f
  {
    hide Holds, Encode, Requested, Delivered, Decode;
    RequestHolds(was, f);
    HoldsDelivered(Requested(Encode(was, f)), f, filter, time);
  }

  // What a receiver decodes is in range, so no other frame survives the trip.
  lemma RoundTripAlways(f: Frame)
    ensures (forall was: Mailbox, filter: Word, time: Word ::
               Decode(Delivered(Requested(Encode(was, f)), filter, time)) == f) <==> WellFormed(f)
  {
    if WellFormed(f) {
      forall was: Mailbox, filter: Word, time: Word
        ensures Decode(Delivered(Requested(Encode(was, f)), filter, time)) == f
      {
        RoundTrip(was, f, filter, time);
      }
    } else {
      var was := Mailbox(0, 0, 0, 0);
      DecodedInRange(Delivered(Requested(Encode(was, f)), 0, 0));
      assert Decode(Delivered(Requested(Encode(was, f)), 0, 0)) != f;
    }
  }

  lemma DecodedInRange(m: Mailbox)
    ensures WellFormed(Decode(m))
  {
    Masks(m.ir);
    Masks(m.dtr);
    Masks(m.ir >> 21);
    Masks(m.ir >> 3);
    hide DataOf;
  }
}
