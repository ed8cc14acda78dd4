/** What the numeric controls of an open device do to the registers
    (crates/libobsbot-core/src/device.rs), on the Linux route. */
module Settings {
  import opened Wrappers
  import opened Bytes
  import opened LittleEndian
  import opened ControlStore

  datatype Control = Brightness | Contrast | Saturation | Zoom | Focus {
    function At(): Address {
      match this
      case Brightness => Address(3, 0x02)
      case Contrast => Address(3, 0x03)
      case Saturation => Address(3, 0x07)
      case Zoom => Address(1, 0x0b)
      case Focus => Address(1, 0x06)
    }
  }

  const WHITE_BALANCE_TEMPERATURE := Address(3, 0x0a)
  const WHITE_BALANCE_AUTO := Address(3, 0x0b)
  const DEFAULT_KELVIN := 6500

  type u16 = n: nat | n < 0x1_0000

  /** Brightness is an i16, the others are u16. */
  predicate InRange(c: Control, v: int) {
    if c.Brightness? then -0x8000 <= v < 0x8000 else 0 <= v < 0x1_0000
  }

  function Encode(v: int): (p: seq<byte>)
    requires -0x8000 <= v < 0x1_0000
    ensures |p| == 2
  {
    ToLe(if v < 0 then v + 0x1_0000 else v, 2)
  }

  function Decode(c: Control, p: seq<byte>): int {
    if c.Brightness? && FromLe(p) >= 0x8000 then FromLe(p) - 0x1_0000 else FromLe(p)
  }

  lemma DecodeOfEncode(c: Control, v: int)
    requires InRange(c, v)
    ensures Decode(c, Encode(v)) == v
  {
    hide FromLe, ToLe;
    FromOfTo2(if v < 0 then v + 0x1_0000 else v);
  }

  // ---- what a user asks for ----

  datatype Op =
    | SetNumber(c: Control, v: int)
    | GetNumber(c: Control)
    | SetAutoWhiteBalance
    | SetManualWhiteBalance(kelvin: Option<u16>)
    | GetWhiteBalance
    | SetPanTilt(pan: i32, tilt: i32)
    | GetPanTilt

  datatype Answer = Done | Number(v: int) | WhiteBalance(auto: bool, kelvin: int) | PanTilt(pan: int, tilt: int)

  /** What the camera is set to, as its user thinks of it. */
  datatype View = View(
    brightness: int, contrast: int, saturation: int, zoom: int, focus: int,
    auto: bool, kelvin: int, pan: int, tilt: int)
  {
    function Number(c: Control): int {
      match c
      case Brightness => brightness
      case Contrast => contrast
      case Saturation => saturation
      case Zoom => zoom
      case Focus => focus
    }

    function WithNumber(c: Control, v: int): View {
      match c
      case Brightness => this.(brightness := v)
      case Contrast => this.(contrast := v)
      case Saturation => this.(saturation := v)
      case Zoom => this.(zoom := v)
      case Focus => this.(focus := v)
    }
  }

  function Apply(w: View, op: Op): (View, Result<Answer, Error>) {
    match op
    case SetNumber(c, v) =>
      if InRange(c, v) then (w.WithNumber(c, v), Ok(Done)) else (w, Err(OutOfRange))
    case GetNumber(c) => (w, Ok(Answer.Number(w.Number(c))))
    case SetAutoWhiteBalance => (w.(auto := true), Ok(Done))
    case SetManualWhiteBalance(k) =>
      (w.(auto := false, kelvin := if k.Some? then k.value else DEFAULT_KELVIN), Ok(Done))
    case GetWhiteBalance => (w, Ok(WhiteBalance(w.auto, w.kelvin)))
    case SetPanTilt(p, t) => (w.(pan := p, tilt := t), Ok(Done))
    case GetPanTilt => (w, Ok(PanTilt(w.pan, w.tilt)))
  }

  // ---- what the device does ----

  function SetOp(k: Kernel, a: Address, p: seq<byte>): (done: Outcome<Answer>)
    ensures done.result.Ok? ==> done.result.value == Done
  {
    var o := Set(k, a, p);
    Outcome(o.kernel, if o.result.Ok? then Ok(Done) else Err(o.result.error))
  }

  /** The buffer of a GET that starts out as n zeros. */
  function Fetched(k: Kernel, a: Address, n: nat): Outcome<seq<byte>> {
    var o := Get(k, Cur, a, n);
    Outcome(o.kernel,
      if o.result.Err? || |o.result.value| > n then Err(Usb) else Ok(Over(ZeroBytes(n), o.result.value)))
  }

  function Perform(k: Kernel, op: Op): (o: Outcome<Answer>)
    ensures op.GetNumber? && o.result.Ok? ==> o.result.value.Number?
    ensures op.GetPanTilt? && o.result.Ok? ==> o.result.value.PanTilt?
  {
    match op
    case SetNumber(c, v) =>
      if InRange(c, v) then SetOp(k, c.At(), Encode(v)) else Outcome(k, Err(OutOfRange))
    case GetNumber(c) =>
      var g := Fetched(k, c.At(), 2);
      Outcome(g.kernel, if g.result.Ok? then Ok(Answer.Number(Decode(c, g.result.value))) else Err(g.result.error))
    case SetAutoWhiteBalance => SetOp(k, WHITE_BALANCE_AUTO, [1])
    case SetManualWhiteBalance(kelvin) =>
      var o := SetOp(k, WHITE_BALANCE_AUTO, [0]);
      if o.result.Err? then o
      else SetOp(o.kernel, WHITE_BALANCE_TEMPERATURE, Encode(if kelvin.Some? then kelvin.value else DEFAULT_KELVIN))
    case GetWhiteBalance =>
      var a := Fetched(k, WHITE_BALANCE_AUTO, 1);
      if a.result.Err? then Outcome(a.kernel, Err(a.result.error))
      else
        var t := Fetched(a.kernel, WHITE_BALANCE_TEMPERATURE, 2);
        Outcome(t.kernel,
          if t.result.Err? then Err(t.result.error)
          else Ok(WhiteBalance(a.result.value != [0], FromLe(t.result.value))))
    case SetPanTilt(p, t) => SetOp(k, PANTILT, I32ToLe(p) + I32ToLe(t))
    case GetPanTilt =>
      var g := Fetched(k, PANTILT, 8);
      Outcome(g.kernel,
        if g.result.Err? || |g.result.value| != 8 then Err(Usb)
        else Ok(PanTilt(I32FromLe(g.result.value[..4]), I32FromLe(g.result.value[4..]))))
  }

  /** The numbers of one status sample. A read that fails leaves its default. */
  datatype Sample = Sample(brightness: int, contrast: int, saturation: int, pan: real, tilt: real, zoom: int)

  const PAN_TILT_SCALE := 540000.0

  function Normalised(arcSeconds: int): real {
    arcSeconds as real / PAN_TILT_SCALE
  }

  function NumberOf(r: Result<Answer, Error>): int {
    if r.Ok? && r.value.Number? then r.value.v else 0
  }

  function Sampled(k: Kernel): (Kernel, Sample) {
    var b := Perform(k, GetNumber(Brightness));
    var c := Perform(b.kernel, GetNumber(Contrast));
    var s := Perform(c.kernel, GetNumber(Saturation));
    var pt := Perform(s.kernel, GetPanTilt);
    var z := Perform(pt.kernel, GetNumber(Zoom));
    (z.kernel,
     Sample(NumberOf(b.result), NumberOf(c.result), NumberOf(s.result),
       if pt.result.Ok? && pt.result.value.PanTilt? then Normalised(pt.result.value.pan) else 0.0,
       if pt.result.Ok? && pt.result.value.PanTilt? then Normalised(pt.result.value.tilt) else 0.0,
       NumberOf(z.result)))
  }
}
