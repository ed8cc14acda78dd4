/** The Linux control route (crates/libobsbot-core/src/transport/uvcvideo.rs, and its use in
    crates/libobsbot-core/src/transport/usb.rs): UVC registers on top of the kernel's V4L2
    controls. */
module ControlStore {
  import opened Wrappers
  import opened Bytes
  import opened LittleEndian

  /** `Error::Usb`, without its text, and `Error::OutOfRange`. */
  datatype Error = Usb | OutOfRange

  /** A UVC control: the unit that has it and its selector there. */
  datatype Address = Address(entity: nat, selector: nat)

  datatype Request = Cur | Min | Max

  // ---- the kernel ----

  type Cid = nat

  const CID_BASE := 0x0098_0900
  const CID_CAMERA_CLASS_BASE := 0x009a_0900

  const CID_BRIGHTNESS := CID_BASE
  const CID_CONTRAST := CID_BASE + 1
  const CID_SATURATION := CID_BASE + 2
  const CID_AUTO_WHITE_BALANCE := CID_BASE + 12
  const CID_WHITE_BALANCE_TEMPERATURE := CID_BASE + 26
  const CID_PAN_ABSOLUTE := CID_CAMERA_CLASS_BASE + 8
  const CID_TILT_ABSOLUTE := CID_CAMERA_CLASS_BASE + 9
  const CID_FOCUS_ABSOLUTE := CID_CAMERA_CLASS_BASE + 10
  const CID_ZOOM_ABSOLUTE := CID_CAMERA_CLASS_BASE + 13

  /** The driver behind one /dev/videoN handle: the current values of its controls and their
      least and greatest, and the same of the registers of the extension units. The n-th ioctl
      may be refused for any reason. */
  datatype Kernel = Kernel(
    ctrls: map<Cid, i32>,
    ranges: map<Cid, (i32, i32)>,
    units: map<Address, seq<byte>>,
    limits: map<Address, (seq<byte>, seq<byte>)>,
    accepts: nat -> bool,
    calls: nat)

  /** A call's result, and what it left behind. */
  datatype Outcome<T> = Outcome(kernel: Kernel, result: Result<T, Error>)

  function SCtrl(k: Kernel, cid: Cid, value: i32): Outcome<()> {
    if k.accepts(k.calls) && cid in k.ctrls then
      Outcome(k.(calls := k.calls + 1, ctrls := k.ctrls[cid := value]), Ok(()))
    else
      Outcome(k.(calls := k.calls + 1), Err(Usb))
  }

  function GCtrl(k: Kernel, cid: Cid): Outcome<i32> {
    Outcome(k.(calls := k.calls + 1),
      if k.accepts(k.calls) && cid in k.ctrls then Ok(k.ctrls[cid]) else Err(Usb))
  }

  function QueryCtrl(k: Kernel, cid: Cid): Outcome<(i32, i32)> {
    Outcome(k.(calls := k.calls + 1),
      if k.accepts(k.calls) && cid in k.ranges then Ok(k.ranges[cid]) else Err(Usb))
  }

  /** UVCIOC_CTRL_QUERY for a SET: the kernel insists on the register's own size. */
  function XuSet(k: Kernel, a: Address, payload: seq<byte>): Outcome<()> {
    if |payload| < 0x1_0000 then
      if k.accepts(k.calls) && a in k.units && |k.units[a]| == |payload| then
        Outcome(k.(calls := k.calls + 1, units := k.units[a := payload]), Ok(()))
      else Outcome(k.(calls := k.calls + 1), Err(Usb))
    else Outcome(k, Err(Usb))
  }

  /** The register, or one of its limits, as the request asks. */
  function XuBytes(k: Kernel, req: Request, a: Address): Option<seq<byte>> {
    match req
    case Cur => if a in k.units then Some(k.units[a]) else None
    case Min => if a in k.limits then Some(k.limits[a].0) else None
    case Max => if a in k.limits then Some(k.limits[a].1) else None
  }

  function XuGet(k: Kernel, req: Request, a: Address, size: nat): Outcome<seq<byte>> {
    if size < 0x1_0000 then
      var bytes := XuBytes(k, req, a);
      Outcome(k.(calls := k.calls + 1),
        if k.accepts(k.calls) && bytes.Some? && |bytes.value| == size then Ok(bytes.value) else Err(Usb))
    else Outcome(k, Err(Usb))
  }

  // ---- uvcvideo.rs ----

  function CidFor(a: Address): Option<Cid> {
    match a
    case Address(3, 0x02) => Some(CID_BRIGHTNESS)
    case Address(3, 0x03) => Some(CID_CONTRAST)
    case Address(3, 0x07) => Some(CID_SATURATION)
    case Address(3, 0x0a) => Some(CID_WHITE_BALANCE_TEMPERATURE)
    case Address(3, 0x0b) => Some(CID_AUTO_WHITE_BALANCE)
    case Address(1, 0x06) => Some(CID_FOCUS_ABSOLUTE)
    case Address(1, 0x0b) => Some(CID_ZOOM_ABSOLUTE)
    case _ => None
  }

  const PANTILT := Address(1, 0x0d)

  predicate IsPantilt(a: Address) {
    a == PANTILT
  }

  predicate IsSigned2Byte(cid: Cid) {
    cid == CID_BRIGHTNESS
  }

  function PayloadToI32(cid: Cid, p: seq<byte>): i32 {
    FromLeBound(p);
    if |p| == 1 then FromLe(p)
    else if |p| == 2 then
      if IsSigned2Byte(cid) && FromLe(p) >= 0x8000 then FromLe(p) - 0x1_0000 else FromLe(p)
    else if |p| == 4 then I32FromLe(p)
    else 0
  }

  function PantiltSet(k: Kernel, p: seq<byte>): Outcome<()> {
    if |p| != 8 then Outcome(k, Err(Usb))
    else
      var pan := SCtrl(k, CID_PAN_ABSOLUTE, I32FromLe(p[..4]));
      if pan.result.Err? then pan else SCtrl(pan.kernel, CID_TILT_ABSOLUTE, I32FromLe(p[4..]))
  }

  function Set(k: Kernel, a: Address, p: seq<byte>): Outcome<()> {
    if IsPantilt(a) then PantiltSet(k, p)
    else match CidFor(a)
      case Some(cid) => SCtrl(k, cid, PayloadToI32(cid, p))
      case None => XuSet(k, a, p)
  }

  /** The value of one V4L2 control that a GET asks for. */
  function Ask(k: Kernel, req: Request, cid: Cid): Outcome<i32> {
    match req
    case Cur => GCtrl(k, cid)
    case Min => var q := QueryCtrl(k, cid); Outcome(q.kernel, if q.result.Ok? then Ok(q.result.value.0) else Err(Usb))
    case Max => var q := QueryCtrl(k, cid); Outcome(q.kernel, if q.result.Ok? then Ok(q.result.value.1) else Err(Usb))
  }

  /** The bytes that a GET of n bytes writes. */
  function Get(k: Kernel, req: Request, a: Address, n: nat): Outcome<seq<byte>> {
    if IsPantilt(a) then
      if n < 8 then Outcome(k, Err(Usb))
      else
        var pan := Ask(k, req, CID_PAN_ABSOLUTE);
        if pan.result.Err? then Outcome(pan.kernel, Err(Usb))
        else
          var tilt := Ask(pan.kernel, req, CID_TILT_ABSOLUTE);
          Outcome(tilt.kernel,
            if tilt.result.Err? then Err(Usb) else Ok(I32ToLe(pan.result.value) + I32ToLe(tilt.result.value)))
    else match CidFor(a)
      case Some(cid) =>
        var v := Ask(k, req, cid);
        Outcome(v.kernel,
          if v.result.Err? then Err(Usb) else Ok(I32ToLe(v.result.value)[..if n < 4 then n else 4]))
      case None => XuGet(k, req, a, n)
  }
}
