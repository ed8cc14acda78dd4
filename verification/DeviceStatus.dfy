/** A fresh status of an open device (crates/libobsbot-core/src/device.rs): two queries on the
    RPC channel and one sample of the standard controls. */
module DeviceStatus {
  import opened Wrappers
  import opened Bytes
  import opened RpcFrame
  import opened RpcReply
  import opened CStrings
  import opened Handshake
  import opened Session
  import opened Settings
  import opened Controls

  /** The two queries, in order, whatever becomes of the first. */
  ghost predicate Texts(before: Life, between: Life, after: Life, mac: Mac,
                        firmware: Result<string, Handshake.Error>, serial: Result<string, Handshake.Error>)
  {
    && Exchange(before, between, FirmwareRequest(mac).ToFrame(), DecodeFirmwareReply, firmware)
    && Exchange(between, after, SerialRequest(mac).ToFrame(), DecodeSerialReply, serial)
  }

  /** `status`. It has no error to return: a query that fails leaves its text empty, and a
      read that fails its number at the default. */
  method ReadStatus(rpc: Handshake.Device, controls: Controls.Device)
    returns (s: Status, ghost between: Life,
             ghost firmware: Result<string, Handshake.Error>, ghost serial: Result<string, Handshake.Error>)
    modifies rpc.transport, controls.node
    ensures Texts(old(rpc.transport.State()), between, rpc.transport.State(), rpc.mac, firmware, serial)
    ensures firmware.Ok? ==> s.firmware == firmware.value
    ensures serial.Ok? ==> s.serial == serial.value
    ensures firmware.Err? ==> s.firmware == ""
    ensures serial.Err? ==> s.serial == ""
    ensures var (k, snap) := Sampled(old(controls.node.kernel));
      && controls.node.kernel == k
      && (s.brightness, s.contrast, s.saturation) == (snap.brightness, snap.contrast, snap.saturation)
      && (s.zoom, s.pan, s.tilt) == (snap.zoom as real, snap.pan, snap.tilt)
  {
    hide Exchange, DecodeFirmwareReply, DecodeSerialReply, FirmwareRequest, SerialRequest, Sampled;
    var first := rpc.FirmwareFromCamera();
    between := rpc.transport.State();
    var second := rpc.SerialFromCamera();
    firmware, serial := first, second;
    var snap := controls.SampleStatus();
    s := Status(if first.Ok? then first.value else "", if second.Ok? then second.value else "",
                snap.brightness, snap.contrast, snap.saturation, snap.zoom as real, snap.pan, snap.tilt);
  }

  // ---- against a camera with a mailbox ----

  /** The polls from this one on show the mailbox as the camera publishes its replies. */
  ghost predicate Plays(gets: Gets, start: nat, m: Mailbox, s: Step, identity: Kind -> Session.Answer) {
    && s.Orderly(m, identity)
    && forall i :: start <= i < start + RPC_REPLY_POLL_ATTEMPTS ==>
         gets(i) == Ok(Mailbox(m.slot, m.queue + [s.reply]).Shown(s.counts[i - start]))
  }

  /** The mailbox is next after n polls, of which there are none when the SET was refused. */
  ghost predicate LeftAs(m: Mailbox, s: Step, n: int, next: Mailbox) {
    if n <= 0 then next == m
    else
      && n <= |s.counts| && s.counts[n - 1] <= |m.queue| + 1
      && next == Mailbox(m.slot, m.queue + [s.reply]).Published(s.counts[n - 1])
  }

  function From(gets: Gets, start: nat): Gets {
    (i: nat) => gets(start + i)
  }

  lemma {:induction false} SameBuffer(gets: Gets, start: nat, n: nat)
    ensures BufferAfter(From(gets, start), 0, n) == BufferAfter(gets, start, n)
  {
    hide Overlay;
    if n > 0 { SameBuffer(gets, start, n - 1); }
  }

  /** An outcome does not depend on how many GETs there were before. */
  lemma OutcomeFrom<T>(gets: Gets, start: nat, decode: seq<byte> -> Option<T>, n: int, r: Result<T, Handshake.Error>)
    requires Outcome(gets, start, decode, n, r)
    ensures Outcome(From(gets, start), 0, decode, n, r)
  {
    hide BufferAfter;
    SameBuffer(gets, start, n);
    forall i | 0 <= i < n - 1 ensures Missed(From(gets, start), 0, decode, i) {
      assert Missed(gets, start, decode, i);
      SameBuffer(gets, start, i + 1);
    }
  }

  lemma {:induction false} PolledIsRight(gets: Gets, start: nat, m: Mailbox, s: Step, n: int,
                                         r: Result<Session.Answer, Handshake.Error>, next: Mailbox,
                                         identity: Kind -> Session.Answer)
    requires HarmlessMailbox(m, identity) && Plays(gets, start, m, s, identity)
    requires Outcome(gets, start, DecodeAs(s.kind), n, r) && LeftAs(m, s, n, next)
    ensures Right(m, s, r, identity) && HarmlessMailbox(next, identity)
  {
    OutcomeFrom(gets, start, DecodeAs(s.kind), n, r);
    OrderlyCounts(m, s, identity);
    hide DecodeAs, HarmlessMailbox, Right, BufferAfter;
    var g := From(gets, start);
    forall i | 0 <= i < RPC_REPLY_POLL_ATTEMPTS
      ensures g(i) == Ok(Mailbox(m.slot, m.queue + [s.reply]).Shown(s.counts[i]))
    {
      assert gets(start + i) == Ok(Mailbox(m.slot, m.queue + [s.reply]).Shown(s.counts[start + i - start]));
    }
    assert Polls(g, m, s);
    assert Exchanged(m, s, next, r, identity);
    ExchangeIsRight(m, s, next, r, identity);
  }

  lemma FirmwareIsTrue(before: Life, after: Life, request: Frame, r: Result<string, Handshake.Error>,
                       m: Mailbox, s: Step, next: Mailbox, identity: Kind -> Session.Answer)
    requires Exchange(before, after, request, DecodeFirmwareReply, r) && HarmlessMailbox(m, identity)
    requires s.kind == FirmwareQuery && LeftAs(m, s, after.polled - before.polled, next)
    requires before.sets(|before.sent|).Ok? ==> Plays(before.gets, before.polled, m, s, identity)
    ensures r.Ok? ==> FirmwareIs(r.value) == identity(FirmwareQuery)
    ensures before.sets(|before.sent|).Ok? && s.Prompt(m) ==> r.Ok?
    ensures HarmlessMailbox(next, identity)
  {
    hide DecodeAs, DecodeFirmwareReply, HarmlessMailbox, Outcome, Plays;
    if before.sets(|before.sent|).Ok? {
      var n := after.polled - before.polled;
      DriverOutcomes(before.gets, before.polled, n, Err(Usb(0)), r);
      PolledIsRight(before.gets, before.polled, m, s, n, Tagged(r, t => FirmwareIs(t)), next, identity);
    }
  }

  lemma SerialIsTrue(before: Life, after: Life, request: Frame, r: Result<string, Handshake.Error>,
                     m: Mailbox, s: Step, next: Mailbox, identity: Kind -> Session.Answer)
    requires Exchange(before, after, request, DecodeSerialReply, r) && HarmlessMailbox(m, identity)
    requires s.kind == SerialQuery && LeftAs(m, s, after.polled - before.polled, next)
    requires before.sets(|before.sent|).Ok? ==> Plays(before.gets, before.polled, m, s, identity)
    ensures r.Ok? ==> SerialIs(r.value) == identity(SerialQuery)
    ensures before.sets(|before.sent|).Ok? && s.Prompt(m) ==> r.Ok?
    ensures HarmlessMailbox(next, identity)
  {
    hide DecodeAs, DecodeSerialReply, HarmlessMailbox, Outcome, Plays;
    if before.sets(|before.sent|).Ok? {
      var n := after.polled - before.polled;
      DriverOutcomes(before.gets, before.polled, n, Err(Usb(0)), r);
      PolledIsRight(before.gets, before.polled, m, s, n, Tagged(r, t => SerialIs(t)), next, identity);
    }
  }

  /** From a mailbox that holds no untruth, whichever SETs are refused and however late the
      camera is, each text that a status shows is the truth, it is shown when the SET was
      taken and the camera prompt, and no untruth is left behind. */
  lemma {:induction false} TextsAreTrue(before: Life, between: Life, after: Life, mac: Mac,
                                        firmware: Result<string, Handshake.Error>,
                                        serial: Result<string, Handshake.Error>,
                                        m: Mailbox, first: Step, m': Mailbox, second: Step, m'': Mailbox,
                                        identity: Kind -> Session.Answer)
    requires Texts(before, between, after, mac, firmware, serial) && HarmlessMailbox(m, identity)
    requires first.kind == FirmwareQuery && LeftAs(m, first, between.polled - before.polled, m')
    requires second.kind == SerialQuery && LeftAs(m', second, after.polled - between.polled, m'')
    requires before.sets(|before.sent|).Ok? ==> Plays(before.gets, before.polled, m, first, identity)
    requires between.sets(|between.sent|).Ok? ==> Plays(between.gets, between.polled, m', second, identity)
    ensures firmware.Ok? ==> FirmwareIs(firmware.value) == identity(FirmwareQuery)
    ensures serial.Ok? ==> SerialIs(serial.value) == identity(SerialQuery)
    ensures before.sets(|before.sent|).Ok? && first.Prompt(m) ==> firmware.Ok?
    ensures between.sets(|between.sent|).Ok? && second.Prompt(m') ==> serial.Ok?
    ensures HarmlessMailbox(m'', identity)
  {
    hide Exchange, HarmlessMailbox, Plays, LeftAs, FirmwareRequest, SerialRequest;
    FirmwareIsTrue(before, between, FirmwareRequest(mac).ToFrame(), firmware, m, first, m', identity);
    SerialIsTrue(between, after, SerialRequest(mac).ToFrame(), serial, m', second, m'', identity);
  }
}
