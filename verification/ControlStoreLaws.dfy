/** The V4L2 route behaves like a plain store of bytes. */
module ControlStoreLaws {
  import opened Wrappers
  import opened Bytes
  import opened LittleEndian
  import opened ControlStore

  // ---- one value ----

  /** The widths whose bytes survive the trip through a 32-bit V4L2 value. */
  predicate Fits(n: nat) {
    n == 1 || n == 2 || n == 4
  }

  lemma LowBytes(v: nat, p: seq<byte>)
    requires |p| <= 4 && ToLe(v, |p|) == p
    ensures ToLe(v, 4)[..|p|] == p
  {
    ToLePrefix(v, |p|, 4);
  }

  /** Whatever sign extension did to it, the low bytes of the value are the payload. */
  lemma {:induction false} PayloadIsKept(cid: Cid, p: seq<byte>)
    requires Fits(|p|)
    ensures I32ToLe(PayloadToI32(cid, p))[..|p|] == p
  {
    hide FromLe, ToLe;
    FromLeBound(p);
    ToOfFrom(p);
    if |p| == 4 {
      I32RoundTrip(p);
    } else if PayloadToI32(cid, p) >= 0 {
      LowBytes(FromLe(p), p);
    } else {
      var w := FromLe(p) - 0x1_0000 + 0x1_0000_0000;
      assert w % 0x1_0000 == FromLe(p);
      ToLe2Wraps(w);
      LowBytes(w, p);
    }
  }

  /** A brightness is stored with its sign, and every other one- or two-byte control as the
      unsigned number that it is. */
  lemma StoredValue(cid: Cid, p: seq<byte>)
    requires Fits(|p|)
    ensures var v := PayloadToI32(cid, p);
      && (|p| == 2 && cid == CID_BRIGHTNESS ==>
            -0x8000 <= v < 0x8000 && ToLe(if v < 0 then v + 0x1_0000 else v, 2) == p)
      && (|p| == 2 && cid != CID_BRIGHTNESS ==> 0 <= v < 0x1_0000 && ToLe(v, 2) == p)
      && (|p| == 1 ==> 0 <= v < 0x100 && ToLe(v, 1) == p)
      && (|p| == 4 ==> I32ToLe(v) == p)
  {
    hide FromLe, ToLe;
    FromLeBound(p);
    ToOfFrom(p);
    if |p| == 4 {
      I32RoundTrip(p);
    }
  }

  lemma ZeroI32()
    ensures I32ToLe(0) == ZeroBytes(4)
  {
    assert ToLe(0, 0) == [] && ToLe(0, 1) == [0] && ToLe(0, 2) == [0, 0] && ToLe(0, 3) == [0, 0, 0];
    assert ToLe(0, 4) == [0, 0, 0, 0];
  }

  /** What a GET into a zeroed buffer of the same size finds after a SET. */
  function ReadBack(cid: Cid, p: seq<byte>): seq<byte> {
    Over(ZeroBytes(|p|), I32ToLe(PayloadToI32(cid, p))[..if |p| < 4 then |p| else 4])
  }

  /** A payload is read back exactly when it has one, two or four bytes, or is all zeros. */
  lemma {:induction false} ReadBackIsExact(cid: Cid, p: seq<byte>)
    ensures ReadBack(cid, p) == p <==> Fits(|p|) || p == ZeroBytes(|p|)
  {
    hide FromLe, ToLe, I32ToLe;
    if Fits(|p|) {
      PayloadIsKept(cid, p);
    } else {
      ZeroI32();
      assert ReadBack(cid, p) == ZeroBytes(|p|);
    }
  }

  /** The same of the two calls, when the kernel accepts them: pan and tilt come back when the
      SET is accepted at all. */
  lemma {:induction false} SetThenGet(k: Kernel, a: Address, p: seq<byte>)
    requires CidFor(a).Some? || IsPantilt(a)
    requires Set(k, a, p).result.Ok? && Get(Set(k, a, p).kernel, Cur, a, |p|).result.Ok?
    ensures Over(ZeroBytes(|p|), Get(Set(k, a, p).kernel, Cur, a, |p|).result.value) == p
      <==> IsPantilt(a) || Fits(|p|) || p == ZeroBytes(|p|)
  {
    hide FromLe, ToLe, I32ToLe, PayloadToI32;
    if IsPantilt(a) {
      I32RoundTrip(p[..4]);
      I32RoundTrip(p[4..]);
      assert p[..4] + p[4..] == p;
    } else {
      var cid := CidFor(a).value;
      ReadBackIsExact(cid, p);
      assert Get(Set(k, a, p).kernel, Cur, a, |p|).result.value
          == I32ToLe(PayloadToI32(cid, p))[..if |p| < 4 then |p| else 4];
    }
  }

  // ---- pan and tilt ----

  /** A refused SET leaves the controls as they were, unless the kernel took the pan and then
      refused the tilt. */
  lemma RefusedSetChangesNothing(k: Kernel, a: Address, p: seq<byte>)
    requires Set(k, a, p).result.Err?
    ensures var after := Set(k, a, p).kernel;
      && after.units == k.units
      && (after.ctrls == k.ctrls <==>
          !(IsPantilt(a) && |p| == 8 && k.accepts(k.calls) && CID_PAN_ABSOLUTE in k.ctrls
            && k.ctrls[CID_PAN_ABSOLUTE] != I32FromLe(p[..4])))
  {
    hide I32FromLe, PayloadToI32;
    if IsPantilt(a) && |p| == 8 && k.accepts(k.calls) && CID_PAN_ABSOLUTE in k.ctrls {
      var after := Set(k, a, p).kernel;
      assert after.ctrls == k.ctrls[CID_PAN_ABSOLUTE := I32FromLe(p[..4])];
    }
  }

  // ---- the registers ----

  /** The size of a standard control's payload. */
  function Width(cid: Cid): nat {
    if cid == CID_AUTO_WHITE_BALANCE then 1 else 2
  }

  /** The bytes that the registers hold, as a plain device would. */
  function Register(k: Kernel, a: Address): Option<seq<byte>> {
    if IsPantilt(a) then
      if CID_PAN_ABSOLUTE in k.ctrls && CID_TILT_ABSOLUTE in k.ctrls then
        Some(I32ToLe(k.ctrls[CID_PAN_ABSOLUTE]) + I32ToLe(k.ctrls[CID_TILT_ABSOLUTE]))
      else None
    else match CidFor(a)
      case Some(cid) => if cid in k.ctrls then Some(I32ToLe(k.ctrls[cid])[..Width(cid)]) else None
      case None => if a in k.units then Some(k.units[a]) else None
  }

  predicate RightSize(a: Address, n: nat) {
    if IsPantilt(a) then n == 8 else CidFor(a).Some? ==> n == Width(CidFor(a).value)
  }

  lemma CidsDiffer(a: Address, b: Address)
    requires a != b && CidFor(a).Some?
    ensures CidFor(b) != CidFor(a)
    ensures CidFor(a).value != CID_PAN_ABSOLUTE && CidFor(a).value != CID_TILT_ABSOLUTE
  {
  }

  /** An accepted SET of the right size writes its register and no other. */
  lemma SetWritesOneRegister(k: Kernel, a: Address, p: seq<byte>, b: Address)
    requires RightSize(a, |p|) && Set(k, a, p).result.Ok?
    ensures Register(Set(k, a, p).kernel, b) == if b == a then Some(p) else Register(k, b)
  {
    hide I32ToLe, I32FromLe, PayloadToI32;
    if IsPantilt(a) {
      I32RoundTrip(p[..4]);
      I32RoundTrip(p[4..]);
      assert p[..4] + p[4..] == p;
      if b != a && CidFor(b).Some? {
        CidsDiffer(b, a);
      }
    } else if CidFor(a).Some? {
      PayloadIsKept(CidFor(a).value, p);
      if b != a {
        CidsDiffer(a, b);
      }
    }
  }

  /** A GET of the right size that succeeds reads its register, and no GET writes any. */
  lemma GetReadsTheRegister(k: Kernel, a: Address, n: nat)
    requires RightSize(a, n)
    ensures Get(k, Cur, a, n).result.Ok? ==>
      Some(Get(k, Cur, a, n).result.value) == Register(k, a) && |Get(k, Cur, a, n).result.value| == n
    ensures Get(k, Cur, a, n).kernel.ctrls == k.ctrls && Get(k, Cur, a, n).kernel.units == k.units
  {
    hide I32ToLe;
  }

  /** A refused SET writes no register, unless the tilt was refused after the pan was taken. */
  lemma RefusedSetWritesNoRegister(k: Kernel, a: Address, p: seq<byte>, b: Address)
    requires Set(k, a, p).result.Err?
    requires !(IsPantilt(a) && |p| == 8 && SCtrl(k, CID_PAN_ABSOLUTE, I32FromLe(p[..4])).result.Ok?)
    ensures Register(Set(k, a, p).kernel, b) == Register(k, b)
  {
    hide I32ToLe, I32FromLe, PayloadToI32, CidFor;
    RefusedSetChangesNothing(k, a, p);
  }

  // ---- the controls by number ----

  /** A call that stores v in one control if the kernel takes it, and nothing otherwise. */
  ghost predicate Stores(k: Kernel, o: Outcome<()>, cid: nat, v: int) {
    if k.accepts(k.calls) && cid in k.ctrls && -0x8000_0000 <= v < 0x8000_0000 then
      o == Outcome(k.(calls := k.calls + 1, ctrls := k.ctrls[cid := v]), Ok(()))
    else
      o == Outcome(k.(calls := k.calls + 1), Err(Usb))
  }

  /** The current value of a control, the least or the greatest. */
  function Answer(k: Kernel, req: Request, cid: nat): Option<i32> {
    if req == Cur then if cid in k.ctrls then Some(k.ctrls[cid]) else None
    else if cid !in k.ranges then None
    else Some(if req == Min then k.ranges[cid].0 else k.ranges[cid].1)
  }

  /** A call that answers with the low bytes of that value, at most n of them. */
  ghost predicate Shows(k: Kernel, o: Outcome<seq<byte>>, req: Request, cid: nat, n: nat) {
    && o.kernel == k.(calls := k.calls + 1)
    && o.result == if k.accepts(k.calls) && Answer(k, req, cid).Some? then
                     Ok(I32ToLe(Answer(k, req, cid).value)[..if n < 4 then n else 4])
                   else Err(Usb)
  }

  lemma Routed(k: Kernel, a: Address, cid: Cid, p: seq<byte>, req: Request, n: nat)
    requires CidFor(a) == Some(cid) && !IsPantilt(a)
    ensures Stores(k, Set(k, a, p), cid, PayloadToI32(cid, p)) && Shows(k, Get(k, req, a, n), req, cid, n)
  {
    hide CidFor, PayloadToI32, I32ToLe;
  }

  lemma TwoByteValue(cid: Cid, p: seq<byte>)
    requires |p| == 2
    ensures var n := Num(p[0]) + 0x100 * Num(p[1]);
      PayloadToI32(cid, p) == if cid == 0x0098_0900 && n >= 0x8000 then n - 0x1_0000 else n
  {
    hide FromLe;
    FromLe2(p);
  }

  lemma TwoBytesRouted(k: Kernel, a: Address, cid: Cid, p: seq<byte>)
    requires CidFor(a) == Some(cid) && !IsPantilt(a) && |p| == 2
    ensures var n := Num(p[0]) + 0x100 * Num(p[1]);
      Stores(k, Set(k, a, p), cid, if cid == 0x0098_0900 && n >= 0x8000 then n - 0x1_0000 else n)
  {
    hide *;
    TwoByteValue(cid, p);
    Routed(k, a, cid, p, Cur, 0);
  }

  lemma Table()
    ensures CidFor(Address(3, 0x02)) == Some(0x0098_0900) && CidFor(Address(3, 0x03)) == Some(0x0098_0901)
    ensures CidFor(Address(3, 0x07)) == Some(0x0098_0902) && CidFor(Address(3, 0x0a)) == Some(0x0098_091a)
    ensures CidFor(Address(3, 0x0b)) == Some(0x0098_090c)
    ensures CidFor(Address(1, 0x06)) == Some(0x009a_090a) && CidFor(Address(1, 0x0b)) == Some(0x009a_090d)
  {
  }

  /** A SET of two bytes at each unit and selector stores, in the control with this number of
      the Linux V4L2 interface, the unsigned number that the bytes make, low byte first; only
      that of brightness has a sign. */
  lemma SetStoresByNumber(k: Kernel, p: seq<byte>)
    requires |p| == 2
    ensures var n := Num(p[0]) + 0x100 * Num(p[1]);
      && Stores(k, Set(k, Address(3, 0x02), p), 0x0098_0900, if n < 0x8000 then n else n - 0x1_0000)
      && Stores(k, Set(k, Address(3, 0x03), p), 0x0098_0901, n)
      && Stores(k, Set(k, Address(3, 0x07), p), 0x0098_0902, n)
      && Stores(k, Set(k, Address(3, 0x0a), p), 0x0098_091a, n)
      && Stores(k, Set(k, Address(1, 0x06), p), 0x009a_090a, n)
      && Stores(k, Set(k, Address(1, 0x0b), p), 0x009a_090d, n)
  {
    Table();
    hide CidFor, Set, Stores;
    TwoBytesRouted(k, Address(3, 0x02), 0x0098_0900, p);
    TwoBytesRouted(k, Address(3, 0x03), 0x0098_0901, p);
    TwoBytesRouted(k, Address(3, 0x07), 0x0098_0902, p);
    TwoBytesRouted(k, Address(3, 0x0a), 0x0098_091a, p);
    TwoBytesRouted(k, Address(1, 0x06), 0x009a_090a, p);
    TwoBytesRouted(k, Address(1, 0x0b), 0x009a_090d, p);
  }

  /** Automatic white balance has one byte. */
  lemma SetStoresAuto(k: Kernel, p: seq<byte>)
    requires |p| == 1
    ensures Stores(k, Set(k, Address(3, 0x0b), p), 0x0098_090c, Num(p[0]))
  {
    hide FromLe;
    FromLeOne(p[0]);
    assert p == [p[0]];
  }

  /** A GET at each unit and selector answers from that same control: its current value, its
      least or its greatest, as asked. */
  lemma GetShowsByNumber(k: Kernel, req: Request, n: nat)
    ensures Shows(k, Get(k, req, Address(3, 0x02), n), req, 0x0098_0900, n)
    ensures Shows(k, Get(k, req, Address(3, 0x03), n), req, 0x0098_0901, n)
    ensures Shows(k, Get(k, req, Address(3, 0x07), n), req, 0x0098_0902, n)
    ensures Shows(k, Get(k, req, Address(3, 0x0a), n), req, 0x0098_091a, n)
    ensures Shows(k, Get(k, req, Address(3, 0x0b), n), req, 0x0098_090c, n)
    ensures Shows(k, Get(k, req, Address(1, 0x06), n), req, 0x009a_090a, n)
    ensures Shows(k, Get(k, req, Address(1, 0x0b), n), req, 0x009a_090d, n)
  {
    Table();
    hide CidFor, Get, Shows, Set, Stores, PayloadToI32;
    Routed(k, Address(3, 0x02), 0x0098_0900, [], req, n);
    Routed(k, Address(3, 0x03), 0x0098_0901, [], req, n);
    Routed(k, Address(3, 0x07), 0x0098_0902, [], req, n);
    Routed(k, Address(3, 0x0a), 0x0098_091a, [], req, n);
    Routed(k, Address(3, 0x0b), 0x0098_090c, [], req, n);
    Routed(k, Address(1, 0x06), 0x009a_090a, [], req, n);
    Routed(k, Address(1, 0x0b), 0x009a_090d, [], req, n);
  }

  /** Pan and tilt are two controls: a SET stores the first four bytes in the one and the
      others in the other, and a GET answers from both. */
  lemma PantiltByNumber(k: Kernel, req: Request, p: seq<byte>, n: nat)
    requires |p| == 8
    ensures var o, a := Set(k, Address(1, 0x0d), p), k.accepts;
      && (o.result.Ok? <==> a(k.calls) && a(k.calls + 1) && 0x009a_0908 in k.ctrls && 0x009a_0909 in k.ctrls)
      && (o.result.Ok? ==>
            o.kernel.ctrls == k.ctrls[0x009a_0908 := I32FromLe(p[..4])][0x009a_0909 := I32FromLe(p[4..])])
    ensures var pan, tilt := Answer(k, req, 0x009a_0908), Answer(k, req, 0x009a_0909);
      Get(k, req, Address(1, 0x0d), n).result
      == if n >= 8 && k.accepts(k.calls) && k.accepts(k.calls + 1) && pan.Some? && tilt.Some? then
           Ok(I32ToLe(pan.value) + I32ToLe(tilt.value))
         else Err(Usb)
  {
    hide I32ToLe, I32FromLe;
  }

  /** Every other unit and selector is a register of its own, of a fixed size. */
  lemma OthersAreRegisters(k: Kernel, req: Request, a: Address, p: seq<byte>)
    requires a !in {Address(3, 0x02), Address(3, 0x03), Address(3, 0x07), Address(3, 0x0a), Address(3, 0x0b),
                    Address(1, 0x06), Address(1, 0x0b), Address(1, 0x0d)}
    ensures var o := Set(k, a, p);
      && (o.result.Ok? <==> k.accepts(k.calls) && a in k.units && |k.units[a]| == |p| < 0x1_0000)
      && (o.result.Ok? ==> o.kernel == k.(calls := k.calls + 1, units := k.units[a := p]))
      && (o.result.Err? ==> o.kernel == if |p| < 0x1_0000 then k.(calls := k.calls + 1) else k)
    ensures var o := Get(k, req, a, |p|);
      && o.kernel == (if |p| < 0x1_0000 then k.(calls := k.calls + 1) else k)
      && (req == Cur && o.result == Ok(p) <==>
            req == Cur && k.accepts(k.calls) && a in k.units && k.units[a] == p && |p| < 0x1_0000)
      && (req == Min && o.result == Ok(p) <==>
            req == Min && k.accepts(k.calls) && a in k.limits && k.limits[a].0 == p && |p| < 0x1_0000)
      && (req == Max && o.result == Ok(p) <==>
            req == Max && k.accepts(k.calls) && a in k.limits && k.limits[a].1 == p && |p| < 0x1_0000)
  {
  }

  // ---- any sequence of transfers ----

  /** What a plain store of bytes holds. */
  type Plain = map<Address, seq<byte>>

  datatype Transfer = Write(a: Address, payload: seq<byte>) | Read(a: Address, size: nat)

  /** The outcome of a transfer: refused, or done with what a read returned. */
  datatype Reply = Refused | Written | Value(bytes: seq<byte>)

  predicate Sized(t: Transfer) {
    RightSize(t.a, if t.Write? then |t.payload| else t.size)
  }

  function OnKernel(k: Kernel, t: Transfer): (Kernel, Reply) {
    match t
    case Write(a, p) =>
      var o := Set(k, a, p);
      (o.kernel, if o.result.Ok? then Written else Refused)
    case Read(a, n) =>
      var o := Get(k, Cur, a, n);
      (o.kernel, if o.result.Ok? then Value(o.result.value) else Refused)
  }

  /** A plain device does what it is told, unless it refuses. */
  function OnPlain(m: Plain, t: Transfer, refuse: bool): (Plain, Reply) {
    if refuse then (m, Refused)
    else match t
      case Write(a, p) => (m[a := p], Written)
      case Read(a, _) => (m, if a in m then Value(m[a]) else Refused)
  }

  function KernelAfter(k: Kernel, ts: seq<Transfer>): Kernel {
    if ts == [] then k else OnKernel(KernelAfter(k, ts[..|ts| - 1]), ts[|ts| - 1]).0
  }

  function KernelReply(k: Kernel, ts: seq<Transfer>, i: nat): Reply
    requires i < |ts|
  {
    OnKernel(KernelAfter(k, ts[..i]), ts[i]).1
  }

  /** The plain device refuses what the kernel refused. */
  function PlainAfter(m: Plain, k: Kernel, ts: seq<Transfer>): Plain {
    if ts == [] then m
    else
      var n := |ts| - 1;
      OnPlain(PlainAfter(m, k, ts[..n]), ts[n], KernelReply(k, ts, n).Refused?).0
  }

  ghost predicate Agrees(k: Kernel, m: Plain) {
    forall a :: Register(k, a) == if a in m then Some(m[a]) else None
  }

  /** The kernel took the pan half of a transfer and refused the tilt. */
  predicate HalfDone(k: Kernel, t: Transfer) {
    && t.Write? && IsPantilt(t.a) && |t.payload| == 8
    && SCtrl(k, CID_PAN_ABSOLUTE, I32FromLe(t.payload[..4])).result.Ok?
    && Set(k, t.a, t.payload).result.Err?
  }

  ghost predicate NeverHalfDone(k: Kernel, ts: seq<Transfer>) {
    forall i :: 0 <= i < |ts| ==> !HalfDone(KernelAfter(k, ts[..i]), ts[i])
  }

  lemma {:induction false} StepAgrees(k: Kernel, m: Plain, t: Transfer)
    requires Agrees(k, m) && Sized(t) && !HalfDone(k, t)
    ensures var (k', reply) := OnKernel(k, t);
      OnPlain(m, t, reply.Refused?).1 == reply && Agrees(k', OnPlain(m, t, reply.Refused?).0)
  {
    hide Set, Get, SCtrl, CidFor, RightSize;
    var (k', reply) := OnKernel(k, t);
    if t.Write? {
      forall b ensures Register(k', b) == if reply.Written? && b == t.a then Some(t.payload) else Register(k, b) {
        if reply.Written? {
          SetWritesOneRegister(k, t.a, t.payload, b);
        } else {
          RefusedSetWritesNoRegister(k, t.a, t.payload, b);
        }
      }
    } else {
      GetReadsTheRegister(k, t.a, t.size);
      assert Register(k, t.a) == if t.a in m then Some(m[t.a]) else None;
      forall b ensures Register(k', b) == Register(k, b) {
        SameRegister(k, k', b);
      }
    }
  }

  lemma SameRegister(k: Kernel, k': Kernel, a: Address)
    requires k'.ctrls == k.ctrls && k'.units == k.units
    ensures Register(k', a) == Register(k, a)
  {
  }

  lemma {:induction false} RunAgrees(k: Kernel, m: Plain, ts: seq<Transfer>)
    requires Agrees(k, m) && (forall t :: t in ts ==> Sized(t)) && NeverHalfDone(k, ts)
    ensures Agrees(KernelAfter(k, ts), PlainAfter(m, k, ts))
  {
    hide Sized, HalfDone, OnKernel, OnPlain, Agrees;
    if ts != [] {
      var n := |ts| - 1;
      forall i | 0 <= i < n ensures ts[..n][..i] == ts[..i] && ts[..n][i] == ts[i] {
      }
      assert NeverHalfDone(k, ts[..n]);
      RunAgrees(k, m, ts[..n]);
      StepAgrees(KernelAfter(k, ts[..n]), PlainAfter(m, k, ts[..n]), ts[n]);
    }
  }

  /** Over any sequence of transfers of the right sizes, whichever the kernel refuses, the
      V4L2 route gives every reply that a plain store of bytes gives, as long as no pan and
      tilt are half done. */
  lemma RouteIsPlainStore(k: Kernel, m: Plain, ts: seq<Transfer>, i: nat)
    requires Agrees(k, m) && (forall t :: t in ts ==> Sized(t)) && NeverHalfDone(k, ts)
    requires i < |ts|
    ensures var reply := KernelReply(k, ts, i);
      OnPlain(PlainAfter(m, k, ts[..i]), ts[i], reply.Refused?).1 == reply
  {
    hide Sized, HalfDone, OnKernel, OnPlain, Agrees;
    forall j | 0 <= j < i ensures ts[..i][..j] == ts[..j] && ts[..i][j] == ts[j] {
    }
    assert NeverHalfDone(k, ts[..i]);
    RunAgrees(k, m, ts[..i]);
    StepAgrees(KernelAfter(k, ts[..i]), PlainAfter(m, k, ts[..i]), ts[i]);
  }
}
