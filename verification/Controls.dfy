/** The numeric setters and getters of an open device (crates/libobsbot-core/src/device.rs).
    The model's numbers stand for `f32` where the source takes or returns one. */
module Controls {
  import opened Wrappers
  import opened Bytes
  import opened LittleEndian
  import opened ControlStore
  import opened ControlStoreLaws
  import opened UvcTransport
  import opened Settings
  import opened SettingsLaws

  /** A conversion to an integer type drops the fraction. */
  function Truncate(x: real): int {
    if x >= 0.0 then x.Floor else -(-x).Floor
  }

  lemma TruncateBounds(x: real)
    ensures x >= 0.0 ==> Truncate(x) as real <= x < Truncate(x) as real + 1.0
    ensures x < 0.0 ==> Truncate(x) as real - 1.0 < x <= Truncate(x) as real
    ensures -540000.0 <= x <= 540000.0 ==> -540000 <= Truncate(x) <= 540000
  {
  }

  lemma InScale(x: real)
    requires -1.0 <= x <= 1.0
    ensures PAN_TILT_SCALE == 540000.0 && -540000 <= Truncate(x * 540000.0) <= 540000
  {
    TruncateBounds(x * 540000.0);
  }

  /** A position comes back no further from the centre, within one arc-second, and exactly
      when it is a whole number of arc-seconds. */
  lemma {:induction false} PositionRoundTrip(x: real)
    requires -1.0 <= x <= 1.0
    ensures var a := Truncate(x * 540000.0);
      && -540000 <= a <= 540000
      && (if x >= 0.0 then 0.0 <= Normalised(a) <= x else x <= Normalised(a) <= 0.0)
      && Normalised(a) == a as real / 540000.0
      && -1.0 / 540000.0 < x - Normalised(a) < 1.0 / 540000.0
      && (Normalised(a) == x <==> exists n: int :: x == Normalised(n))
  {
    TruncateBounds(x * PAN_TILT_SCALE);
    if n: int :| x == Normalised(n) {
      assert x * PAN_TILT_SCALE == n as real;
      TruncateWhole(n);
    }
  }

  lemma TruncateWhole(n: int)
    ensures Truncate(n as real) == n
  {
  }

  class Device {
    const node: VideoNode

    constructor (node: VideoNode)
      ensures this.node == node
    {
      this.node := node;
    }

    /** `set_brightness`, `set_contrast`, `set_saturation`. */
    method SetNumber(c: Control, v: int) returns (r: Result<(), Error>)
      modifies node
      ensures var o := Perform(old(node.kernel), Op.SetNumber(c, v));
        node.kernel == o.kernel && r == if o.result.Ok? then Ok(()) else Err(o.result.error)
      ensures r.Ok? ==> ViewOf(node.kernel) == ViewOf(old(node.kernel)).WithNumber(c, v)
      ensures r == Err(OutOfRange) <==> if c.Brightness? then !(-32768 <= v <= 32767) else !(0 <= v <= 65535)
      ensures r.Err? ==> ViewOf(node.kernel) == ViewOf(old(node.kernel))
    {
      hide ViewOf, Set, Encode;
      ghost var was := node.kernel;
      if !InRange(c, v) {
        r := Err(OutOfRange);
      } else {
        r := node.UvcSet(c.At(), Encode(v));
      }
      assert r.Ok? ==> r.value == ();
      OperationMeans(was, Op.SetNumber(c, v));
    }

    /** `set_zoom` and `set_focus`. */
    method SetLens(c: Control, v: real) returns (r: Result<(), Error>)
      requires c.Zoom? || c.Focus?
      modifies node
      ensures r.Ok? ==> ViewOf(node.kernel) == ViewOf(old(node.kernel)).WithNumber(c, v.Floor)
      ensures r == Err(OutOfRange) <==> !(0.0 <= v <= 65535.0)
      ensures r.Err? ==> ViewOf(node.kernel) == ViewOf(old(node.kernel))
    {
      if !(0.0 <= v <= 65535.0) {
        return Err(OutOfRange);
      }
      r := SetNumber(c, v.Floor);
    }

    /** A zeroed buffer, filled by a GET. */
    method Fetch(a: Address, n: nat) returns (r: Result<seq<byte>, Error>)
      modifies node
      ensures Outcome(node.kernel, r) == Fetched(old(node.kernel), a, n)
    {
      var buf := new byte[n](_ => 0);
      assert buf[..] == ZeroBytes(n);
      var got := node.UvcGet(Cur, a, buf);
      if got.Err? {
        return Err(got.error);
      }
      r := Ok(buf[..]);
    }

    /** `brightness`, `contrast`, `saturation`, `zoom`, `focus`. */
    method GetNumber(c: Control) returns (r: Result<int, Error>)
      modifies node
      ensures var o := Perform(old(node.kernel), Op.GetNumber(c));
        node.kernel == o.kernel && r == if o.result.Ok? then Ok(o.result.value.v) else Err(o.result.error)
      ensures r.Ok? ==> r.value == ViewOf(old(node.kernel)).Number(c)
      ensures ViewOf(node.kernel) == ViewOf(old(node.kernel))
    {
      ghost var was := node.kernel;
      var buf := Fetch(c.At(), 2);
      r := if buf.Err? then Err(buf.error) else Ok(Decode(c, buf.value));
      OperationMeans(was, Op.GetNumber(c));
    }

    /** `set_white_balance`; no mode means Auto. */
    method SetWhiteBalance(manual: bool, kelvin: Option<u16>) returns (r: Result<(), Error>)
      modifies node
      ensures var o := Perform(old(node.kernel), if manual then SetManualWhiteBalance(kelvin) else SetAutoWhiteBalance);
        node.kernel == o.kernel && r == if o.result.Ok? then Ok(()) else Err(o.result.error)
      ensures r.Ok? && !manual ==> ViewOf(node.kernel) == ViewOf(old(node.kernel)).(auto := true)
      ensures r.Ok? && manual ==> ViewOf(node.kernel) == ViewOf(old(node.kernel)).(
        auto := false, kelvin := if kelvin.Some? then kelvin.value else 6500)
      ensures r.Err? ==>
        || ViewOf(node.kernel) == ViewOf(old(node.kernel))
        || (manual && ViewOf(node.kernel) == ViewOf(old(node.kernel)).(auto := false))
    {
      ghost var was := node.kernel;
      ghost var op := if manual then SetManualWhiteBalance(kelvin) else SetAutoWhiteBalance;
      r := WriteWhiteBalance(manual, kelvin);
      OperationMeans(was, op);
      if r.Err? {
        RefusedHalves(was, op);
      }
    }

    method WriteWhiteBalance(manual: bool, kelvin: Option<u16>) returns (r: Result<(), Error>)
      modifies node
      ensures var o := Perform(old(node.kernel), if manual then SetManualWhiteBalance(kelvin) else SetAutoWhiteBalance);
        node.kernel == o.kernel && r == if o.result.Ok? then Ok(()) else Err(o.result.error)
    {
      hide Encode, Register, RightSize;
      if !manual {
        r := node.UvcSet(WHITE_BALANCE_AUTO, [1]);
        return;
      }
      r := node.UvcSet(WHITE_BALANCE_AUTO, [0]);
      if r.Err? {
        return;
      }
      var k := if kelvin.Some? then kelvin.value else DEFAULT_KELVIN;
      r := node.UvcSet(WHITE_BALANCE_TEMPERATURE, Encode(k));
    }

    method ReadWhiteBalance() returns (r: Result<(bool, int), Error>)
      modifies node
      ensures var o := Perform(old(node.kernel), Op.GetWhiteBalance);
        node.kernel == o.kernel
        && r == if o.result.Ok? then Ok((o.result.value.auto, o.result.value.kelvin)) else Err(o.result.error)
    {
      hide FromLe, Fetched;
      var auto := Fetch(WHITE_BALANCE_AUTO, 1);
      if auto.Err? {
        return Err(auto.error);
      }
      var kelvin := Fetch(WHITE_BALANCE_TEMPERATURE, 2);
      if kelvin.Err? {
        return Err(kelvin.error);
      }
      r := Ok((auto.value != [0], FromLe(kelvin.value)));
    }

    /** `white_balance`. */
    method GetWhiteBalance() returns (r: Result<(bool, int), Error>)
      modifies node
      ensures var o := Perform(old(node.kernel), Op.GetWhiteBalance);
        node.kernel == o.kernel
        && r == if o.result.Ok? then Ok((o.result.value.auto, o.result.value.kelvin)) else Err(o.result.error)
      ensures r.Ok? ==> r.value == (ViewOf(old(node.kernel)).auto, ViewOf(old(node.kernel)).kelvin)
      ensures ViewOf(node.kernel) == ViewOf(old(node.kernel))
    {
      hide ViewOf, Perform;
      ghost var was := node.kernel;
      r := ReadWhiteBalance();
      OperationMeans(was, Op.GetWhiteBalance);
    }

    method SetArcSeconds(pan: i32, tilt: i32) returns (r: Result<(), Error>)
      modifies node
      ensures r.Ok? ==> ViewOf(node.kernel) == ViewOf(old(node.kernel)).(pan := pan, tilt := tilt)
      ensures r.Err? ==> r.error == Usb
      ensures r.Err? ==>
        || ViewOf(node.kernel) == ViewOf(old(node.kernel))
        || ViewOf(node.kernel) == ViewOf(old(node.kernel)).(pan := pan)
    {
      ghost var was := node.kernel;
      r := node.UvcSet(PANTILT, I32ToLe(pan) + I32ToLe(tilt));
      hide ViewOf, I32ToLe, Set;
      OperationMeans(was, Op.SetPanTilt(pan, tilt));
      if r.Err? {
        RefusedHalves(was, Op.SetPanTilt(pan, tilt));
      }
    }

    /** `set_pan_tilt`. */
    method SetPanTilt(pan: real, tilt: real) returns (r: Result<(), Error>)
      modifies node
      ensures r == Err(OutOfRange) <==> !(-1.0 <= pan <= 1.0 && -1.0 <= tilt <= 1.0)
      ensures r.Ok? ==> ViewOf(node.kernel) == ViewOf(old(node.kernel)).(
        pan := Truncate(pan * 540000.0), tilt := Truncate(tilt * 540000.0))
      ensures r == Err(OutOfRange) ==> node.kernel == old(node.kernel)
      ensures r.Err? ==>
        || ViewOf(node.kernel) == ViewOf(old(node.kernel))
        || ViewOf(node.kernel) == ViewOf(old(node.kernel)).(pan := Truncate(pan * 540000.0))
    {
      if !(-1.0 <= pan <= 1.0) || !(-1.0 <= tilt <= 1.0) {
        return Err(OutOfRange);
      }
      InScale(pan);
      InScale(tilt);
      hide *;
      r := SetArcSeconds(Truncate(pan * PAN_TILT_SCALE), Truncate(tilt * PAN_TILT_SCALE));
    }

    method GetArcSeconds() returns (r: Result<(int, int), Error>)
      modifies node
      ensures var o := Perform(old(node.kernel), Op.GetPanTilt);
        node.kernel == o.kernel
        && r == if o.result.Ok? then Ok((o.result.value.pan, o.result.value.tilt)) else Err(o.result.error)
      ensures r.Ok? ==> r.value == (ViewOf(old(node.kernel)).pan, ViewOf(old(node.kernel)).tilt)
      ensures ViewOf(node.kernel) == ViewOf(old(node.kernel))
    {
      ghost var was := node.kernel;
      OperationMeans(was, Op.GetPanTilt);
      hide ViewOf, I32FromLe;
      var buf := Fetch(PANTILT, 8);
      if buf.Err? {
        return Err(buf.error);
      }
      r := Ok((I32FromLe(buf.value[..4]), I32FromLe(buf.value[4..])));
    }

    /** `pan_tilt`. */
    method GetPanTilt() returns (r: Result<(real, real), Error>)
      modifies node
      ensures r.Ok? ==>
        r.value == (ViewOf(old(node.kernel)).pan as real / 540000.0, ViewOf(old(node.kernel)).tilt as real / 540000.0)
      ensures ViewOf(node.kernel) == ViewOf(old(node.kernel))
    {
      hide ViewOf;
      var arcs := GetArcSeconds();
      if arcs.Err? {
        return Err(arcs.error);
      }
      r := Ok((Normalised(arcs.value.0), Normalised(arcs.value.1)));
    }

    /** `sample_status`. */
    method SampleStatus() returns (snap: Sample)
      modifies node
      ensures (node.kernel, snap) == Sampled(old(node.kernel))
      ensures ViewOf(node.kernel) == ViewOf(old(node.kernel))
    {
      ghost var was := node.kernel;
      snap := ReadSample();
      SampleShowsView(was);
      Unwritten(was, node.kernel);
    }

    method ReadSample() returns (snap: Sample)
      modifies node
      ensures (node.kernel, snap) == Sampled(old(node.kernel))
    {
      hide Perform, ViewOf;
      snap := Sample(0, 0, 0, 0.0, 0.0, 0);
      var brightness := GetNumber(Brightness);
      if brightness.Ok? {
        snap := snap.(brightness := brightness.value);
      }
      var contrast := GetNumber(Contrast);
      if contrast.Ok? {
        snap := snap.(contrast := contrast.value);
      }
      var saturation := GetNumber(Saturation);
      if saturation.Ok? {
        snap := snap.(saturation := saturation.value);
      }
      var pt := GetArcSeconds();
      if pt.Ok? {
        snap := snap.(pan := Normalised(pt.value.0), tilt := Normalised(pt.value.1));
      }
      var zoom := GetNumber(Zoom);
      if zoom.Ok? {
        snap := snap.(zoom := zoom.value);
      }
    }
  }
}
