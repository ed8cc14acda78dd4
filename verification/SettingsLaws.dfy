/** What a user of the integer controls can rely on. */
module SettingsLaws {
  import opened Wrappers
  import opened Bytes
  import opened LittleEndian
  import opened ControlStore
  import opened ControlStoreLaws
  import opened Settings

  /** The bytes in a register, or none. */
  function At(k: Kernel, a: Address): seq<byte> {
    if Register(k, a).Some? then Register(k, a).value else []
  }

  /** The numbers that the registers stand for. */
  function ViewOf(k: Kernel): View {
    var pt := At(k, PANTILT);
    View(
      Decode(Brightness, At(k, Brightness.At())),
      Decode(Contrast, At(k, Contrast.At())),
      Decode(Saturation, At(k, Saturation.At())),
      Decode(Zoom, At(k, Zoom.At())),
      Decode(Focus, At(k, Focus.At())),
      At(k, WHITE_BALANCE_AUTO) != [0],
      FromLe(At(k, WHITE_BALANCE_TEMPERATURE)),
      if |pt| == 8 then I32FromLe(pt[..4]) else 0,
      if |pt| == 8 then I32FromLe(pt[4..]) else 0)
  }

  /** An accepted SET changes one register. */
  lemma SetOpView(k: Kernel, a: Address, p: seq<byte>)
    requires RightSize(a, |p|) && SetOp(k, a, p).result.Ok?
    ensures forall b :: At(SetOp(k, a, p).kernel, b) == if b == a then p else At(k, b)
  {
    hide Set, RightSize, Register;
    forall b ensures At(SetOp(k, a, p).kernel, b) == if b == a then p else At(k, b) {
      SetWritesOneRegister(k, a, p, b);
    }
  }

  lemma SameView(k: Kernel, k': Kernel)
    requires forall b :: At(k', b) == At(k, b)
    ensures ViewOf(k') == ViewOf(k)
  {
    hide At, Decode, FromLe, I32FromLe;
  }

  /** A GET of the right size into a zeroed buffer finds the register and changes nothing. */
  lemma FetchedView(k: Kernel, a: Address, n: nat)
    requires RightSize(a, n)
    ensures Fetched(k, a, n).result.Ok? ==> Fetched(k, a, n).result.value == At(k, a) && |At(k, a)| == n
    ensures Fetched(k, a, n).kernel.ctrls == k.ctrls && Fetched(k, a, n).kernel.units == k.units
  {
    hide Get, Register, RightSize;
    GetReadsTheRegister(k, a, n);
  }

  lemma {:induction false} Unwritten(k: Kernel, k': Kernel)
    requires k'.ctrls == k.ctrls && k'.units == k.units
    ensures ViewOf(k') == ViewOf(k)
    ensures forall b :: At(k', b) == At(k, b)
  {
    hide ViewOf, Register;
    forall b ensures At(k', b) == At(k, b) {
      SameRegister(k, k', b);
    }
    SameView(k, k');
  }

  // ---- one operation ----

  lemma NumberIsSet(k: Kernel, c: Control, v: int)
    requires InRange(c, v) && SetOp(k, c.At(), Encode(v)).result.Ok?
    ensures ViewOf(SetOp(k, c.At(), Encode(v)).kernel) == ViewOf(k).WithNumber(c, v)
  {
    hide SetOp, At, Decode, Encode, FromLe, I32FromLe;
    SetOpView(k, c.At(), Encode(v));
    DecodeOfEncode(c, v);
  }

  lemma KelvinIsSet(k: Kernel, v: u16)
    requires SetOp(k, WHITE_BALANCE_TEMPERATURE, Encode(v)).result.Ok?
    ensures ViewOf(SetOp(k, WHITE_BALANCE_TEMPERATURE, Encode(v)).kernel) == ViewOf(k).(kelvin := v)
  {
    hide SetOp, At, Decode, FromLe, I32FromLe;
    SetOpView(k, WHITE_BALANCE_TEMPERATURE, Encode(v));
    FromOfTo2(v);
  }

  lemma {:induction false} AutoIsSet(k: Kernel, b: byte)
    requires SetOp(k, WHITE_BALANCE_AUTO, [b]).result.Ok?
    ensures ViewOf(SetOp(k, WHITE_BALANCE_AUTO, [b]).kernel) == ViewOf(k).(auto := b != 0)
  {
    hide SetOp, At, Decode, FromLe, I32FromLe;
    SetOpView(k, WHITE_BALANCE_AUTO, [b]);
    assert b != 0 ==> [b][0] != [0 as byte][0];
  }

  lemma PanTiltIsSet(k: Kernel, p: i32, t: i32)
    requires SetOp(k, PANTILT, I32ToLe(p) + I32ToLe(t)).result.Ok?
    ensures ViewOf(SetOp(k, PANTILT, I32ToLe(p) + I32ToLe(t)).kernel) == ViewOf(k).(pan := p, tilt := t)
  {
    hide SetOp, At, Decode, FromLe, I32FromLe, I32ToLe;
    var bytes := I32ToLe(p) + I32ToLe(t);
    SetOpView(k, PANTILT, bytes);
    assert bytes[..4] == I32ToLe(p) && bytes[4..] == I32ToLe(t);
    I32OfLe(p);
    I32OfLe(t);
  }

  predicate IsGet(op: Op) {
    op.GetNumber? || op.GetWhiteBalance? || op.GetPanTilt?
  }

  lemma GetRefines(k: Kernel, op: Op)
    requires IsGet(op) && Perform(k, op).result.Ok?
    ensures Apply(ViewOf(k), op) == (ViewOf(k), Perform(k, op).result)
  {
    hide Fetched, At, Decode, FromLe, I32FromLe;
    match op
    case GetNumber(c) => FetchedView(k, c.At(), 2);
    case GetWhiteBalance =>
      var k' := Fetched(k, WHITE_BALANCE_AUTO, 1).kernel;
      FetchedView(k, WHITE_BALANCE_AUTO, 1);
      Unwritten(k, k');
      FetchedView(k', WHITE_BALANCE_TEMPERATURE, 2);
    case GetPanTilt => FetchedView(k, PANTILT, 8);
    case _ =>
  }

  lemma GetChangesNothing(k: Kernel, op: Op)
    requires IsGet(op)
    ensures Perform(k, op).kernel.ctrls == k.ctrls && Perform(k, op).kernel.units == k.units
  {
    hide Fetched, Decode, FromLe, I32FromLe;
    match op
    case GetNumber(c) => FetchedView(k, c.At(), 2);
    case GetWhiteBalance =>
      var k' := Fetched(k, WHITE_BALANCE_AUTO, 1).kernel;
      FetchedView(k, WHITE_BALANCE_AUTO, 1);
      FetchedView(k', WHITE_BALANCE_TEMPERATURE, 2);
    case GetPanTilt => FetchedView(k, PANTILT, 8);
    case _ =>
  }

  /** An operation that succeeds does to the camera what its user thinks of, and answers so;
      and it reports a number out of range exactly when it is. */
  lemma {:induction false} PerformRefines(k: Kernel, op: Op)
    ensures Perform(k, op).result.Ok? ==>
      Apply(ViewOf(k), op) == (ViewOf(Perform(k, op).kernel), Perform(k, op).result)
    ensures Perform(k, op).result == Err(OutOfRange) <==> Apply(ViewOf(k), op).1 == Err(OutOfRange)
    ensures Perform(k, op).result == Err(OutOfRange) ==> Perform(k, op).kernel == k
  {
    OnlyRangeIsOutOfRange(k, op);
    if Perform(k, op).result.Ok? {
      SuccessRefines(k, op);
    }
  }

  lemma OnlyRangeIsOutOfRange(k: Kernel, op: Op)
    ensures Perform(k, op).result == Err(OutOfRange) <==> op.SetNumber? && !InRange(op.c, op.v)
  {
    hide SCtrl, XuSet, PayloadToI32, CidFor, Get, Decode, Encode, FromLe, I32FromLe;
    forall a, p ensures Set(k, a, p).result != Err(OutOfRange) {
      SetErrors(k, a, p);
    }
    if op.SetManualWhiteBalance? {
      SetErrors(SetOp(k, WHITE_BALANCE_AUTO, [0]).kernel, WHITE_BALANCE_TEMPERATURE,
        Encode(if op.kelvin.Some? then op.kelvin.value else DEFAULT_KELVIN));
    }
  }

  lemma SetErrors(k: Kernel, a: Address, p: seq<byte>)
    ensures Set(k, a, p).result != Err(OutOfRange)
  {
  }

  lemma {:induction false} SuccessRefines(k: Kernel, op: Op)
    requires Perform(k, op).result.Ok?
    ensures Apply(ViewOf(k), op) == (ViewOf(Perform(k, op).kernel), Perform(k, op).result)
  {
    hide SetOp, Fetched, ViewOf, Decode, Encode, FromLe, I32FromLe, I32ToLe;
    match op
    case SetNumber(c, v) => NumberIsSet(k, c, v);
    case SetAutoWhiteBalance => AutoIsSet(k, 1);
    case SetManualWhiteBalance(kelvin) =>
      AutoIsSet(k, 0);
      KelvinIsSet(SetOp(k, WHITE_BALANCE_AUTO, [0]).kernel, if kelvin.Some? then kelvin.value else DEFAULT_KELVIN);
    case SetPanTilt(p, t) => PanTiltIsSet(k, p, t);
    case _ =>
      GetRefines(k, op);
      GetChangesNothing(k, op);
      Unwritten(k, Perform(k, op).kernel);
  }

  // ---- failures ----

  /** The kernel takes the pan of a camera that has both axes. */
  predicate PanWasTaken(k: Kernel, p: i32) {
    SCtrl(k, CID_PAN_ABSOLUTE, p).result.Ok? && CID_TILT_ABSOLUTE in k.ctrls
  }

  /** The camera takes the first half of a manual white balance, the end of auto, or of a
      pan and tilt, a new pan. */
  predicate TakesHalf(k: Kernel, op: Op) {
    match op
    case SetManualWhiteBalance(_) => ViewOf(k).auto && SetOp(k, WHITE_BALANCE_AUTO, [0]).result.Ok?
    case SetPanTilt(p, _) => ViewOf(k).pan != p && PanWasTaken(k, p)
    case _ => false
  }

  /** An operation that the camera refuses leaves the settings as they were, except that a
      refused white balance temperature may follow the switch to manual, and a refused tilt
      the new pan. */
  lemma {:induction false} RefusedOpChangesNothing(k: Kernel, op: Op)
    requires Perform(k, op).result == Err(Usb)
    ensures ViewOf(Perform(k, op).kernel) == ViewOf(k) <==> !TakesHalf(k, op)
  {
    hide SetOp, PanWasTaken, Fetched, ViewOf, Decode, Encode, FromLe, I32FromLe, I32ToLe;
    match op
    case SetNumber(c, v) => RefusedSetKeepsView(k, c.At(), Encode(v));
    case SetAutoWhiteBalance => RefusedSetKeepsView(k, WHITE_BALANCE_AUTO, [1]);
    case SetManualWhiteBalance(kelvin) =>
      var v := if kelvin.Some? then kelvin.value else DEFAULT_KELVIN;
      if SetOp(k, WHITE_BALANCE_AUTO, [0]).result.Err? {
        RefusedSetKeepsView(k, WHITE_BALANCE_AUTO, [0]);
      } else {
        AutoIsSet(k, 0);
        RefusedSetKeepsView(SetOp(k, WHITE_BALANCE_AUTO, [0]).kernel, WHITE_BALANCE_TEMPERATURE, Encode(v));
      }
    case SetPanTilt(p, t) => RefusedPanTilt(k, p, t);
    case _ =>
      GetChangesNothing(k, op);
      Unwritten(k, Perform(k, op).kernel);
  }

  lemma {:induction false} RefusedSetKeepsView(k: Kernel, a: Address, p: seq<byte>)
    requires SetOp(k, a, p).result.Err? && !IsPantilt(a)
    ensures ViewOf(SetOp(k, a, p).kernel) == ViewOf(k)
  {
    hide Set, ViewOf;
    RefusedSetChangesNothing(k, a, p);
    Unwritten(k, SetOp(k, a, p).kernel);
  }

  lemma PanHalf(k: Kernel, k': Kernel, p: i32, b: Address)
    requires CID_PAN_ABSOLUTE in k.ctrls && k'.ctrls == k.ctrls[CID_PAN_ABSOLUTE := p] && k'.units == k.units
    ensures b != PANTILT ==> At(k', b) == At(k, b)
    ensures CID_TILT_ABSOLUTE in k.ctrls ==>
      && At(k, PANTILT) == I32ToLe(k.ctrls[CID_PAN_ABSOLUTE]) + I32ToLe(k.ctrls[CID_TILT_ABSOLUTE])
      && At(k', PANTILT) == I32ToLe(p) + I32ToLe(k.ctrls[CID_TILT_ABSOLUTE])
    ensures CID_TILT_ABSOLUTE !in k.ctrls ==> At(k', PANTILT) == At(k, PANTILT)
  {
    hide I32ToLe;
  }

  lemma {:induction false} PanHalfView(k: Kernel, k': Kernel, p: i32)
    requires CID_PAN_ABSOLUTE in k.ctrls && k'.ctrls == k.ctrls[CID_PAN_ABSOLUTE := p] && k'.units == k.units
    ensures CID_TILT_ABSOLUTE in k.ctrls ==> ViewOf(k') == ViewOf(k).(pan := p)
    ensures CID_TILT_ABSOLUTE !in k.ctrls ==> ViewOf(k') == ViewOf(k)
  {
    hide At, Decode, FromLe, I32FromLe, I32ToLe;
    forall b ensures b != PANTILT || CID_TILT_ABSOLUTE !in k.ctrls ==> At(k', b) == At(k, b) {
      PanHalf(k, k', p, b);
    }
    if CID_TILT_ABSOLUTE in k.ctrls {
      PanHalf(k, k', p, PANTILT);
      var was, tilt := I32ToLe(k.ctrls[CID_PAN_ABSOLUTE]), I32ToLe(k.ctrls[CID_TILT_ABSOLUTE]);
      assert (was + tilt)[4..] == tilt;
      assert (I32ToLe(p) + tilt)[..4] == I32ToLe(p) && (I32ToLe(p) + tilt)[4..] == tilt;
      I32OfLe(p);
    }
  }

  lemma {:induction false} RefusedPanTilt(k: Kernel, p: i32, t: i32)
    requires SetOp(k, PANTILT, I32ToLe(p) + I32ToLe(t)).result.Err?
    ensures ViewOf(SetOp(k, PANTILT, I32ToLe(p) + I32ToLe(t)).kernel)
         == if PanWasTaken(k, p) then ViewOf(k).(pan := p) else ViewOf(k)
  {
    hide ViewOf, FromLe, I32FromLe, I32ToLe;
    var bytes := I32ToLe(p) + I32ToLe(t);
    var k' := SetOp(k, PANTILT, bytes).kernel;
    assert bytes[..4] == I32ToLe(p);
    I32OfLe(p);
    if SCtrl(k, CID_PAN_ABSOLUTE, p).result.Ok? {
      PanHalfView(k, k', p);
    } else {
      Unwritten(k, k');
    }
  }

  /** All of it together, for one operation. */
  lemma OperationMeans(k: Kernel, op: Op)
    ensures var o, expected := Perform(k, op), Apply(ViewOf(k), op);
      && (o.result.Ok? ==> (ViewOf(o.kernel), o.result) == expected)
      && (o.result == Err(OutOfRange) <==> expected.1 == Err(OutOfRange))
      && (o.result.Err? && !TakesHalf(k, op) ==> ViewOf(o.kernel) == ViewOf(k))
      && (IsGet(op) ==> ViewOf(o.kernel) == ViewOf(k))
  {
    hide ViewOf, Perform, Apply, TakesHalf;
    var o := Perform(k, op);
    PerformRefines(k, op);
    assert o.result.Err? ==> o.result.error == Usb || o.result.error == OutOfRange;
    if o.result == Err(Usb) {
      RefusedOpChangesNothing(k, op);
    }
    if IsGet(op) {
      GetChangesNothing(k, op);
      Unwritten(k, o.kernel);
    }
  }

  /** What a refused operation of two halves may have changed. */
  lemma RefusedHalves(k: Kernel, op: Op)
    requires Perform(k, op).result.Err?
    ensures op.SetManualWhiteBalance? ==>
      ViewOf(Perform(k, op).kernel) == ViewOf(k) || ViewOf(Perform(k, op).kernel) == ViewOf(k).(auto := false)
    ensures op.SetPanTilt? ==>
      ViewOf(Perform(k, op).kernel) == ViewOf(k) || ViewOf(Perform(k, op).kernel) == ViewOf(k).(pan := op.pan)
  {
    hide SetOp, ViewOf, Encode, I32ToLe;
    if op.SetManualWhiteBalance? {
      var v := if op.kelvin.Some? then op.kelvin.value else DEFAULT_KELVIN;
      if SetOp(k, WHITE_BALANCE_AUTO, [0]).result.Err? {
        RefusedSetKeepsView(k, WHITE_BALANCE_AUTO, [0]);
      } else {
        AutoIsSet(k, 0);
        RefusedSetKeepsView(SetOp(k, WHITE_BALANCE_AUTO, [0]).kernel, WHITE_BALANCE_TEMPERATURE, Encode(v));
      }
    } else if op.SetPanTilt? {
      RefusedPanTilt(k, op.pan, op.tilt);
    }
  }

  // ---- the settings by number ----

  /** The control of the Linux V4L2 interface behind each number. */
  function ControlId(c: Control): nat {
    match c
    case Brightness => 0x0098_0900
    case Contrast => 0x0098_0901
    case Saturation => 0x0098_0902
    case Zoom => 0x009a_090d
    case Focus => 0x009a_090a
  }

  function Held(k: Kernel, cid: nat): int {
    if cid in k.ctrls then k.ctrls[cid] else 0
  }

  /** The sixteen low bits, with a sign in brightness. */
  function Low(c: Control, v: int): int {
    if c.Brightness? && v % 0x1_0000 >= 0x8000 then v % 0x1_0000 - 0x1_0000 else v % 0x1_0000
  }

  lemma TwoLowBytes(k: Kernel, a: Address, cid: Cid, c: Control)
    requires CidFor(a) == Some(cid) && !IsPantilt(a) && Width(cid) == 2
    ensures Decode(c, At(k, a)) == Low(c, Held(k, cid)) && FromLe(At(k, a)) == Held(k, cid) % 0x1_0000
  {
    hide FromLe, I32ToLe, CidFor;
    if cid in k.ctrls {
      I32Low(k.ctrls[cid]);
    } else {
      FromLeNothing();
    }
  }

  lemma FromLeNothing()
    ensures FromLe([]) == 0
  {
  }

  lemma OneLowByte(k: Kernel)
    ensures At(k, WHITE_BALANCE_AUTO) != [0] <==> 0x0098_090c !in k.ctrls || k.ctrls[0x0098_090c] % 0x100 != 0
  {
    hide I32ToLe;
    if 0x0098_090c in k.ctrls {
      I32Low(k.ctrls[0x0098_090c]);
    }
  }

  lemma TwoHalves(k: Kernel)
    ensures var pt := At(k, PANTILT);
      if 0x009a_0908 in k.ctrls && 0x009a_0909 in k.ctrls then
        && |pt| == 8
        && I32FromLe(pt[..4]) == k.ctrls[0x009a_0908] && I32FromLe(pt[4..]) == k.ctrls[0x009a_0909]
      else pt == []
  {
    hide I32ToLe, I32FromLe;
    if 0x009a_0908 in k.ctrls && 0x009a_0909 in k.ctrls {
      var pan, tilt := k.ctrls[0x009a_0908], k.ctrls[0x009a_0909];
      I32OfLe(pan);
      I32OfLe(tilt);
      assert (I32ToLe(pan) + I32ToLe(tilt))[..4] == I32ToLe(pan);
      assert (I32ToLe(pan) + I32ToLe(tilt))[4..] == I32ToLe(tilt);
    }
  }

  lemma {:induction false} NumberIsControl(k: Kernel, c: Control)
    ensures ViewOf(k).Number(c) == Low(c, Held(k, ControlId(c)))
  {
    TwoLowBytes(k, Address(3, 0x02), 0x0098_0900, Brightness);
    TwoLowBytes(k, Address(3, 0x03), 0x0098_0901, Contrast);
    TwoLowBytes(k, Address(3, 0x07), 0x0098_0902, Saturation);
    TwoLowBytes(k, Address(1, 0x0b), 0x009a_090d, Zoom);
    TwoLowBytes(k, Address(1, 0x06), 0x009a_090a, Focus);
    hide At, Decode, FromLe, I32FromLe, Low, Held;
  }

  /** The settings are what nine controls of the kernel hold, each by its number. */
  lemma {:induction false} ViewIsControls(k: Kernel)
    ensures forall c :: ViewOf(k).Number(c) == Low(c, Held(k, ControlId(c)))
    ensures ViewOf(k).auto <==> 0x0098_090c !in k.ctrls || k.ctrls[0x0098_090c] % 0x100 != 0
    ensures ViewOf(k).kelvin == Held(k, 0x0098_091a) % 0x1_0000
    ensures 0x009a_0908 in k.ctrls && 0x009a_0909 in k.ctrls ==>
      ViewOf(k).pan == k.ctrls[0x009a_0908] && ViewOf(k).tilt == k.ctrls[0x009a_0909]
  {
    forall c ensures ViewOf(k).Number(c) == Low(c, Held(k, ControlId(c))) {
      NumberIsControl(k, c);
    }
    TwoLowBytes(k, Address(3, 0x0a), 0x0098_091a, Focus);
    OneLowByte(k);
    TwoHalves(k);
    hide At, Decode, FromLe, I32FromLe, Low, Held, ControlId;
  }

  /** A call that stores v in one control, as an operation. */
  ghost predicate Puts(k: Kernel, o: Outcome<Answer>, cid: nat, v: i32) {
    if k.accepts(k.calls) && cid in k.ctrls then
      o == Outcome(k.(calls := k.calls + 1, ctrls := k.ctrls[cid := v]), Ok(Done))
    else
      o == Outcome(k.(calls := k.calls + 1), Err(Usb))
  }

  lemma SetOpPuts(k: Kernel, a: Address, cid: Cid, p: seq<byte>)
    requires CidFor(a) == Some(cid) && !IsPantilt(a)
    ensures Puts(k, SetOp(k, a, p), cid, PayloadToI32(cid, p))
  {
    hide CidFor, PayloadToI32;
  }

  lemma EncodedValue(cid: Cid, v: int)
    requires if cid == 0x0098_0900 then -32768 <= v <= 32767 else 0 <= v <= 65535
    ensures PayloadToI32(cid, Encode(v)) == v
  {
    hide FromLe, ToLe;
    FromOfTo2(if v < 0 then v + 0x1_0000 else v);
  }

  /** The five numbers by their controls and bounds: in range, the number is stored in the
      control of its number; out of range, the kernel is not called at all. */
  lemma {:induction false} NumberIsPut(k: Kernel, c: Control, v: int)
    ensures if (if c.Brightness? then -32768 <= v <= 32767 else 0 <= v <= 65535) then
              Puts(k, Perform(k, SetNumber(c, v)), ControlId(c), v)
            else Perform(k, SetNumber(c, v)) == Outcome(k, Err(OutOfRange))
  {
    hide SetOp, Encode, PayloadToI32, Puts;
    if if c.Brightness? then -32768 <= v <= 32767 else 0 <= v <= 65535 {
      SetOpPuts(k, c.At(), ControlId(c), Encode(v));
      EncodedValue(ControlId(c), v);
    }
  }

  lemma OneByteValue(cid: Cid, b: byte)
    ensures PayloadToI32(cid, [b]) == Num(b)
  {
    hide FromLe;
    FromLeOne(b);
  }

  /** Auto puts 1 in one control. Manual puts 0 there and then, if that was taken, the
      temperature in the other, 6500 if none is given. */
  lemma {:induction false} WhiteBalanceIsPut(k: Kernel, kelvin: Option<u16>)
    ensures Puts(k, Perform(k, SetAutoWhiteBalance), 0x0098_090c, 1)
    ensures var half, o := SetOp(k, WHITE_BALANCE_AUTO, [0]), Perform(k, SetManualWhiteBalance(kelvin));
      && Puts(k, half, 0x0098_090c, 0)
      && if half.result.Err? then o == half
         else Puts(half.kernel, o, 0x0098_091a, if kelvin.Some? then kelvin.value else 6500)
  {
    hide SetOp, Encode, PayloadToI32, Puts;
    var v := if kelvin.Some? then kelvin.value else 6500;
    OneByteValue(0x0098_090c, 0);
    OneByteValue(0x0098_090c, 1);
    SetOpPuts(k, WHITE_BALANCE_AUTO, 0x0098_090c, [1]);
    SetOpPuts(k, WHITE_BALANCE_AUTO, 0x0098_090c, [0]);
    SetOpPuts(SetOp(k, WHITE_BALANCE_AUTO, [0]).kernel, WHITE_BALANCE_TEMPERATURE, 0x0098_091a, Encode(v));
    EncodedValue(0x0098_091a, v);
  }

  /** A position that is taken is put in the two controls of its axes. */
  lemma {:induction false} PanTiltIsPut(k: Kernel, p: i32, t: i32)
    ensures var o := Perform(k, SetPanTilt(p, t));
      && (o.result.Ok? <==> k.accepts(k.calls) && k.accepts(k.calls + 1)
                            && 0x009a_0908 in k.ctrls && 0x009a_0909 in k.ctrls)
      && (o.result.Ok? ==> o.kernel.ctrls == k.ctrls[0x009a_0908 := p][0x009a_0909 := t])
  {
    hide I32ToLe, I32FromLe, Set;
    var bytes := I32ToLe(p) + I32ToLe(t);
    assert bytes[..4] == I32ToLe(p) && bytes[4..] == I32ToLe(t);
    I32OfLe(p);
    I32OfLe(t);
    PantiltByNumber(k, Cur, bytes, 8);
  }

  // ---- any sequence of operations ----

  function KernelAfterOps(k: Kernel, ops: seq<Op>): Kernel {
    if ops == [] then k else Perform(KernelAfterOps(k, ops[..|ops| - 1]), ops[|ops| - 1]).kernel
  }

  function ResultOf(k: Kernel, ops: seq<Op>, i: nat): Result<Answer, Error>
    requires i < |ops|
  {
    Perform(KernelAfterOps(k, ops[..i]), ops[i]).result
  }

  /** The camera refused this operation after it had taken the first half of it. */
  ghost predicate HalfPerformed(k: Kernel, op: Op) {
    Perform(k, op).result == Err(Usb) && TakesHalf(k, op)
  }

  ghost predicate NeverHalfPerformed(k: Kernel, ops: seq<Op>) {
    forall i :: 0 <= i < |ops| ==> !HalfPerformed(KernelAfterOps(k, ops[..i]), ops[i])
  }

  /** What the user expects of an operation that the camera may refuse. */
  function ApplyUnless(w: View, op: Op, refused: bool): (View, Result<Answer, Error>) {
    if refused then (w, Err(Usb)) else Apply(w, op)
  }

  /** The settings after the operations that the camera did not refuse. */
  function ViewAfterOps(w: View, k: Kernel, ops: seq<Op>): View {
    if ops == [] then w
    else
      var n := |ops| - 1;
      ApplyUnless(ViewAfterOps(w, k, ops[..n]), ops[n], ResultOf(k, ops, n) == Err(Usb)).0
  }

  lemma NeverHalfPrefix(k: Kernel, ops: seq<Op>, n: nat)
    requires NeverHalfPerformed(k, ops) && n <= |ops|
    ensures NeverHalfPerformed(k, ops[..n])
  {
    hide HalfPerformed, KernelAfterOps;
    forall i | 0 <= i < n ensures !HalfPerformed(KernelAfterOps(k, ops[..n][..i]), ops[..n][i]) {
      assert ops[..n][..i] == ops[..i] && ops[..n][i] == ops[i];
    }
  }

  lemma StepRefines(k: Kernel, op: Op)
    requires !HalfPerformed(k, op)
    ensures var o := Perform(k, op);
      ApplyUnless(ViewOf(k), op, o.result == Err(Usb)) == (ViewOf(o.kernel), o.result)
  {
    hide ViewOf, Perform, Apply, SetOp, PanWasTaken;
    var o := Perform(k, op);
    if o.result == Err(Usb) {
      RefusedOpChangesNothing(k, op);
    } else {
      PerformRefines(k, op);
      RangeErrorKeepsView(ViewOf(k), op);
      assert o.result.Err? ==> o.result.error == Usb || o.result.error == OutOfRange;
    }
  }

  lemma RangeErrorKeepsView(w: View, op: Op)
    ensures Apply(w, op).1.Err? ==> Apply(w, op) == (w, Err(OutOfRange))
  {
  }

  lemma {:induction false} OpsRefine(k: Kernel, ops: seq<Op>)
    requires NeverHalfPerformed(k, ops)
    ensures ViewOf(KernelAfterOps(k, ops)) == ViewAfterOps(ViewOf(k), k, ops)
    decreases |ops|
  {
    hide ViewOf, Perform, ApplyUnless, HalfPerformed;
    if ops != [] {
      var n := |ops| - 1;
      NeverHalfPrefix(k, ops, n);
      OpsRefine(k, ops[..n]);
      StepRefines(KernelAfterOps(k, ops[..n]), ops[n]);
    }
  }

  /** Over any sequence of operations, of which the camera may refuse any as long as it
      leaves none half performed, each that it does not refuse answers what its user expects
      from the unrefused ones before it: a setting reads back as last set, whatever else was
      set or refused in between, and a number out of range is an error and nothing more. */
  lemma {:induction false} EveryAnswerIsExpected(k: Kernel, ops: seq<Op>, i: nat)
    requires NeverHalfPerformed(k, ops) && i < |ops|
    ensures var r := ResultOf(k, ops, i);
      r == ApplyUnless(ViewAfterOps(ViewOf(k), k, ops[..i]), ops[i], r == Err(Usb)).1
  {
    hide ViewOf, Perform, ApplyUnless, HalfPerformed, KernelAfterOps, ViewAfterOps;
    NeverHalfPrefix(k, ops, i);
    OpsRefine(k, ops[..i]);
    StepRefines(KernelAfterOps(k, ops[..i]), ops[i]);
  }

  // ---- samples ----

  /** The kernel accepts the n-th call from here, a read of a control that the camera has. */
  predicate Answers(k: Kernel, n: nat, cid: Cid) {
    k.accepts(k.calls + n) && cid in k.ctrls
  }

  /** Only n calls have passed. */
  ghost predicate Later(k: Kernel, was: Kernel, n: nat) {
    k.ctrls == was.ctrls && k.units == was.units && k.accepts == was.accepts && k.calls == was.calls + n
  }

  lemma ReadIsView(k: Kernel, was: Kernel, n: nat, op: Op)
    requires IsGet(op) && Later(k, was, n) && Perform(k, op).result.Ok?
    ensures Apply(ViewOf(was), op).1 == Perform(k, op).result
  {
    hide ViewOf, Perform, Apply;
    Unwritten(was, k);
    GetRefines(k, op);
  }

  lemma ReadNumber(k: Kernel, was: Kernel, n: nat, c: Control)
    requires Later(k, was, n)
    ensures var o, cid := Perform(k, GetNumber(c)), CidFor(c.At()).value;
      && Later(o.kernel, was, n + 1)
      && NumberOf(o.result) == if Answers(was, n, cid) then ViewOf(was).Number(c) else 0
  {
    hide ViewOf, Decode, I32ToLe;
    if Perform(k, GetNumber(c)).result.Ok? {
      ReadIsView(k, was, n, GetNumber(c));
    }
  }

  lemma ReadPanTilt(k: Kernel, was: Kernel, n: nat)
    requires Later(k, was, n)
    ensures var o, half := Perform(k, GetPanTilt), Answers(was, n, CID_PAN_ABSOLUTE);
      && Later(o.kernel, was, if half then n + 2 else n + 1)
      && (o.result.Ok? <==> half && Answers(was, n + 1, CID_TILT_ABSOLUTE))
      && (o.result.Ok? ==> o.result.value == PanTilt(ViewOf(was).pan, ViewOf(was).tilt))
  {
    hide ViewOf, I32FromLe, I32ToLe;
    if Perform(k, GetPanTilt).result.Ok? {
      ReadIsView(k, was, n, GetPanTilt);
    }
  }

  /** A status sample shows, field by field, the setting if its read was answered and the
      default if not, and taking it changes nothing. The reads are separate calls: one that
      fails does not touch another. */
  lemma SampleShowsView(k: Kernel)
    ensures var (k', snap) := Sampled(k);
      var v, pan := ViewOf(k), Answers(k, 3, CID_PAN_ABSOLUTE);
      var both := pan && Answers(k, 4, CID_TILT_ABSOLUTE);
      && k'.ctrls == k.ctrls && k'.units == k.units
      && snap.brightness == (if Answers(k, 0, CID_BRIGHTNESS) then v.brightness else 0)
      && snap.contrast == (if Answers(k, 1, CID_CONTRAST) then v.contrast else 0)
      && snap.saturation == (if Answers(k, 2, CID_SATURATION) then v.saturation else 0)
      && (snap.pan, snap.tilt) == (if both then (v.pan as real / 540000.0, v.tilt as real / 540000.0) else (0.0, 0.0))
      && snap.zoom == (if Answers(k, if pan then 5 else 4, CID_ZOOM_ABSOLUTE) then v.zoom else 0)
  {
    hide ViewOf, Perform, Answers, NumberOf;
    var pan := Answers(k, 3, CID_PAN_ABSOLUTE);
    ReadNumber(k, k, 0, Brightness);
    var b := Perform(k, GetNumber(Brightness)).kernel;
    ReadNumber(b, k, 1, Contrast);
    var c := Perform(b, GetNumber(Contrast)).kernel;
    ReadNumber(c, k, 2, Saturation);
    var s := Perform(c, GetNumber(Saturation)).kernel;
    ReadPanTilt(s, k, 3);
    ReadNumber(Perform(s, GetPanTilt).kernel, k, if pan then 5 else 4, Zoom);
  }
}
