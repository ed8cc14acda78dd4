/** The transport on a /dev/videoN handle (crates/libobsbot-core/src/transport/usb.rs,
    crates/libobsbot-core/src/transport/uvcvideo.rs). */
module UvcTransport {
  import opened Wrappers
  import opened Bytes
  import opened LittleEndian
  import opened ControlStore
  import opened ControlStoreLaws

  /** The V4L2 side answers for this control. */
  predicate IsStandard(a: Address) {
    IsPantilt(a) || CidFor(a).Some?
  }

  class VideoNode {
    var kernel: Kernel

    constructor (kernel: Kernel)
      ensures this.kernel == kernel
    {
      this.kernel := kernel;
    }

    method V4l2SCtrl(cid: Cid, value: i32) returns (r: Result<(), Error>)
      modifies this
      ensures Outcome(kernel, r) == SCtrl(old(kernel), cid, value)
    {
      var o := SCtrl(kernel, cid, value);
      kernel := o.kernel;
      r := o.result;
    }

    method V4l2Ask(req: Request, cid: Cid) returns (r: Result<i32, Error>)
      modifies this
      ensures Outcome(kernel, r) == Ask(old(kernel), req, cid)
    {
      var o := Ask(kernel, req, cid);
      kernel := o.kernel;
      r := o.result;
    }

    /** The pan goes to its control and then the tilt to its own. An error leaves both as
        they were, except that a refused tilt comes after a pan that was taken. */
    method SetPantilt(payload: seq<byte>) returns (r: Result<(), Error>)
      modifies this
      ensures Outcome(kernel, r) == PantiltSet(old(kernel), payload)
      ensures r.Ok? ==> |payload| == 8 && kernel.ctrls == old(kernel).ctrls[
        CID_PAN_ABSOLUTE := I32FromLe(payload[..4])][CID_TILT_ABSOLUTE := I32FromLe(payload[4..])]
      ensures r.Err? ==>
        || kernel.ctrls == old(kernel).ctrls
        || (|payload| == 8 && kernel.ctrls == old(kernel).ctrls[CID_PAN_ABSOLUTE := I32FromLe(payload[..4])])
    {
      if |payload| != 8 {
        return Err(Usb);
      }
      var pan := I32FromLe(payload[..4]);
      var tilt := I32FromLe(payload[4..]);
      r := V4l2SCtrl(CID_PAN_ABSOLUTE, pan);
      if r.Err? {
        return;
      }
      r := V4l2SCtrl(CID_TILT_ABSOLUTE, tilt);
    }

    /** `v4l2_set`: nothing for a control that has no V4L2 counterpart. */
    method V4l2Set(a: Address, payload: seq<byte>) returns (r: Option<Result<(), Error>>)
      modifies this
      ensures r.Some? <==> IsStandard(a)
      ensures r.Some? ==> Outcome(kernel, r.value) == Set(old(kernel), a, payload)
      ensures r.None? ==> kernel == old(kernel)
    {
      if IsPantilt(a) {
        var done := SetPantilt(payload);
        return Some(done);
      }
      var cid := CidFor(a);
      if cid.None? {
        return None;
      }
      var done := V4l2SCtrl(cid.value, PayloadToI32(cid.value, payload));
      r := Some(done);
    }

    /** An accepted SET of the right size writes its register and no other, and a refused
        one writes none, unless it is a pan/tilt. */
    method UvcSet(a: Address, payload: seq<byte>) returns (r: Result<(), Error>)
      modifies this
      ensures Outcome(kernel, r) == Set(old(kernel), a, payload)
      ensures r.Ok? && RightSize(a, |payload|) ==>
        forall b :: Register(kernel, b) == if b == a then Some(payload) else Register(old(kernel), b)
      ensures r.Err? && !IsPantilt(a) ==> forall b :: Register(kernel, b) == Register(old(kernel), b)
    {
      ghost var was := kernel;
      var standard := V4l2Set(a, payload);
      if standard.Some? {
        r := standard.value;
      } else {
        var o := XuSet(kernel, a, payload);
        kernel := o.kernel;
        r := o.result;
      }
      SetMeans(was, kernel, a, payload, r);
    }

    /** `pantilt_get`. */
    method GetPantilt(req: Request, out: array<byte>) returns (r: Result<nat, Error>)
      modifies this, out
      ensures Filled(old(kernel), kernel, req, PANTILT, old(out[..]), out[..], r)
    {
      if out.Length < 8 {
        return Err(Usb);
      }
      var pan := V4l2Ask(req, CID_PAN_ABSOLUTE);
      if pan.Err? {
        return Err(Usb);
      }
      var tilt := V4l2Ask(req, CID_TILT_ABSOLUTE);
      if tilt.Err? {
        return Err(Usb);
      }
      CopyPair(out, I32ToLe(pan.value), I32ToLe(tilt.value));
      r := Ok(8);
    }

    /** `v4l2_get`: nothing for a control that has no V4L2 counterpart. */
    method V4l2Get(req: Request, a: Address, out: array<byte>) returns (r: Option<Result<nat, Error>>)
      modifies this, out
      ensures r.Some? <==> IsStandard(a)
      ensures r.Some? ==> Filled(old(kernel), kernel, req, a, old(out[..]), out[..], r.value)
      ensures r.None? ==> kernel == old(kernel) && out[..] == old(out[..])
    {
      if IsPantilt(a) {
        var done := GetPantilt(req, out);
        return Some(done);
      }
      var cid := CidFor(a);
      if cid.None? {
        return None;
      }
      var v := V4l2Ask(req, cid.value);
      if v.Err? {
        return Some(Err(Usb));
      }
      var n := if out.Length < 4 then out.Length else 4;
      CopyFront(out, I32ToLe(v.value)[..n]);
      r := Some(Ok(n));
    }

    /** Writes at the front of `out` and leaves the rest of it, and all of it on an error. A
        GET_CUR of the right size reads its register, and no GET changes any. */
    method UvcGet(req: Request, a: Address, out: array<byte>) returns (r: Result<nat, Error>)
      modifies this, out
      ensures Filled(old(kernel), kernel, req, a, old(out[..]), out[..], r)
      ensures req.Cur? && r.Ok? && RightSize(a, out.Length) ==> Register(old(kernel), a) == Some(out[..])
      ensures req.Cur? && RightSize(a, out.Length) ==> forall b :: Register(kernel, b) == Register(old(kernel), b)
    {
      ghost var was, before := kernel, out[..];
      var standard := V4l2Get(req, a, out);
      if standard.Some? {
        r := standard.value;
      } else {
        var o := XuGet(kernel, req, a, out.Length);
        kernel := o.kernel;
        if o.result.Err? {
          r := Err(Usb);
        } else {
          CopyFront(out, o.result.value);
          r := Ok(out.Length);
        }
      }
      if req.Cur? && RightSize(a, out.Length) {
        GetMeans(was, kernel, a, before, out[..], r);
      }
    }
  }

  /** A GET took the kernel from k to k' and the buffer from before to after. */
  ghost predicate Filled(k: Kernel, k': Kernel, req: Request, a: Address,
                         before: seq<byte>, after: seq<byte>, r: Result<nat, Error>)
  {
    var g := Get(k, req, a, |before|);
    && k' == g.kernel
    && (r.Ok? <==> g.result.Ok?)
    && (r.Ok? ==> r.value == |g.result.value| <= |before| && after == Over(before, g.result.value))
    && (r.Err? ==> r.error == Usb && after == before)
  }

  lemma SetMeans(k: Kernel, k': Kernel, a: Address, p: seq<byte>, r: Result<(), Error>)
    requires Outcome(k', r) == Set(k, a, p)
    ensures r.Ok? && RightSize(a, |p|) ==> forall b :: Register(k', b) == if b == a then Some(p) else Register(k, b)
    ensures r.Err? && !IsPantilt(a) ==> forall b :: Register(k', b) == Register(k, b)
  {
    hide Set, Register, RightSize;
    if r.Ok? && RightSize(a, |p|) {
      forall b ensures Register(k', b) == if b == a then Some(p) else Register(k, b) {
        SetWritesOneRegister(k, a, p, b);
      }
    }
    if r.Err? && !IsPantilt(a) {
      forall b ensures Register(k', b) == Register(k, b) {
        RefusedSetWritesNoRegister(k, a, p, b);
      }
    }
  }

  lemma GetMeans(k: Kernel, k': Kernel, a: Address, before: seq<byte>, after: seq<byte>, r: Result<nat, Error>)
    requires Filled(k, k', Cur, a, before, after, r) && RightSize(a, |before|)
    ensures r.Ok? ==> Register(k, a) == Some(after)
    ensures forall b :: Register(k', b) == Register(k, b)
  {
    hide Get, Register, RightSize;
    GetReadsTheRegister(k, a, |before|);
    assert r.Ok? ==> Over(before, Get(k, Cur, a, |before|).result.value) == Get(k, Cur, a, |before|).result.value;
    forall b ensures Register(k', b) == Register(k, b) {
      SameRegister(k, k', b);
    }
  }

  method CopyFront(out: array<byte>, bytes: seq<byte>)
    requires |bytes| <= out.Length
    modifies out
    ensures out[..] == Over(old(out[..]), bytes)
  {
    OverIsPatch(out[..], bytes);
    CopyInto(out, 0, bytes);
  }

  method CopyPair(out: array<byte>, first: seq<byte>, second: seq<byte>)
    requires |first| + |second| <= out.Length
    modifies out
    ensures out[..] == Over(old(out[..]), first + second)
  {
    CopyFront(out, first);
    ghost var half := out[..];
    CopyInto(out, |first|, second);
    assert out[..] == half[..|first|] + second + half[|first| + |second|..];
  }
}
