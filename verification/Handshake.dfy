/** The request/reply handshake on the RPC channel and the device handle that uses it
    (crates/libobsbot-core/src/device.rs, crates/libobsbot-core/src/discovery.rs). */
module Handshake {
  import opened Wrappers
  import opened Bytes
  import opened Decimal
  import opened Firmware
  import opened Words
  import opened Crc16
  import opened RpcFrame
  import opened FrameLaws
  import opened RpcReply

  const XU_SEL_RPC: byte := 0x02
  const RPC_REPLY_POLL_ATTEMPTS := 10

  /** `Error::Usb` carries the operating system's text as a number here. */
  datatype Error = Usb(reason: int) | BadResponse(selector: byte, bytes: seq<byte>)

  /** What the n-th GET does: the bytes it writes to the front of the buffer, or an error. */
  type Gets = nat -> Result<seq<byte>, Error>

  // ---- the transport, as far as the RPC selector goes ----

  /** A GET writes no more than the buffer holds and leaves the rest of it alone. */
  function Overlay(buf: Frame, bytes: seq<byte>): Frame {
    Over(buf, if |bytes| < RPC_FRAME_LEN then bytes else bytes[..RPC_FRAME_LEN])
  }

  /** Any camera at all: it answers the n-th SET and the n-th GET of its life as it likes. */
  datatype Life = Life(sets: nat -> Result<(), Error>, gets: Gets, sent: seq<Frame>, polled: nat)

  class Transport {
    const sets: nat -> Result<(), Error>
    const gets: Gets
    var sent: seq<Frame>
    var polled: nat

    ghost function State(): Life
      reads this
    {
      Life(sets, gets, sent, polled)
    }

    constructor (sets: nat -> Result<(), Error>, gets: Gets)
      ensures this.sets == sets && this.gets == gets && sent == [] && polled == 0
    {
      this.sets := sets;
      this.gets := gets;
      sent := [];
      polled := 0;
    }

    method UvcSet(frame: Frame) returns (r: Result<(), Error>)
      modifies this
      ensures r == sets(|old(sent)|)
      ensures sent == old(sent) + [frame] && polled == old(polled)
    {
      r := sets(|sent|);
      sent := sent + [frame];
    }

    /** The byte count that a GET returns is ignored by every caller. */
    method UvcGet(out: array<byte>) returns (r: Result<nat, Error>)
      requires out.Length == RPC_FRAME_LEN
      modifies this, out
      ensures polled == old(polled) + 1 && sent == old(sent)
      ensures gets(old(polled)).Ok? ==> r.Ok? && out[..] == Overlay(old(out[..]), gets(old(polled)).value)
      ensures gets(old(polled)).Err? ==> r == Err(gets(old(polled)).error) && out[..] == old(out[..])
    {
      var outcome := gets(polled);
      polled := polled + 1;
      if outcome.Err? {
        return Err(outcome.error);
      }
      var n := if |outcome.value| < RPC_FRAME_LEN then |outcome.value| else RPC_FRAME_LEN;
      forall i | 0 <= i < n {
        out[i] := outcome.value[i];
      }
      r := Ok(n);
    }
  }

  // ---- what a run of polls must return ----

  /** The reply buffer after n polls that began with the GET numbered start. */
  function BufferAfter(gets: Gets, start: nat, n: nat): Frame {
    if n == 0 then ZeroBytes(RPC_FRAME_LEN)
    else
      var before := BufferAfter(gets, start, n - 1);
      match gets(start + n - 1)
      case Ok(bytes) => Overlay(before, bytes)
      case Err(_) => before
  }

  /** Poll number i succeeded and left a buffer that does not decode. */
  ghost predicate Missed<T>(gets: Gets, start: nat, decode: seq<byte> -> Option<T>, i: nat) {
    gets(start + i).Ok? && decode(BufferAfter(gets, start, i + 1)) == None
  }

  /** r is the outcome of polling, and n the number of GETs it took: the value of the
      earliest buffer that decodes, the first transport error if that comes first, and after
      ten fruitless polls an error that carries the last buffer. */
  ghost predicate Outcome<T>(gets: Gets, start: nat, decode: seq<byte> -> Option<T>, n: int, r: Result<T, Error>) {
    && 1 <= n <= RPC_REPLY_POLL_ATTEMPTS
    && (forall i :: 0 <= i < n - 1 ==> Missed(gets, start, decode, i))
    && match gets(start + n - 1)
       case Err(e) => r == Err(e)
       case Ok(_) =>
         match decode(BufferAfter(gets, start, n))
         case Some(value) => r == Ok(value)
         case None =>
           && n == RPC_REPLY_POLL_ATTEMPTS
           && r == Err(BadResponse(XU_SEL_RPC, BufferAfter(gets, start, n)))
  }

  /** A whole exchange, from the life of a transport before it to the one after it: one SET,
      whose error ends it, and otherwise the outcome of polling. */
  ghost predicate Exchange<T>(before: Life, after: Life, request: Frame, decode: seq<byte> -> Option<T>,
                              r: Result<T, Error>)
  {
    && after.sets == before.sets && after.gets == before.gets
    && after.sent == before.sent + [request]
    && match before.sets(|before.sent|)
       case Err(e) => r == Err(e) && after.polled == before.polled
       case Ok(_) => Outcome(before.gets, before.polled, decode, after.polled - before.polled, r)
  }

  /** One SET, then GETs until `decode` returns a value: what `learn_mac` and
      `rpc_request_then_reply` both do. */
  method RequestThenReply<T>(t: Transport, request: Frame, decode: seq<byte> -> Option<T>)
    returns (r: Result<T, Error>)
    modifies t
    ensures Exchange(old(t.State()), t.State(), request, decode, r)
  {
    var stored := t.UvcSet(request);
    if stored.Err? {
      return Err(stored.error);
    }
    r := PollReply(t, decode);
  }

  /** The first n polls all succeeded, and none of their buffers decodes. */
  ghost predicate AllMissed<T>(gets: Gets, start: nat, decode: seq<byte> -> Option<T>, n: nat) {
    forall i :: 0 <= i < n ==> Missed(gets, start, decode, i)
  }

  lemma NextBuffer<T>(gets: Gets, start: nat, decode: seq<byte> -> Option<T>, n: nat, buf: Frame)
    requires AllMissed(gets, start, decode, n) && gets(start + n).Ok?
    requires buf == Overlay(BufferAfter(gets, start, n), gets(start + n).value)
    ensures buf == BufferAfter(gets, start, n + 1)
    ensures decode(buf) == None ==> AllMissed(gets, start, decode, n + 1)
    ensures decode(buf).Some? && n < RPC_REPLY_POLL_ATTEMPTS ==>
      Outcome(gets, start, decode, n + 1, Ok(decode(buf).value))
  {
    hide Overlay, Missed;
    assert decode(buf) == None ==> Missed(gets, start, decode, n) by { MissedAt(gets, start, decode, n); }
  }

  lemma MissedAt<T>(gets: Gets, start: nat, decode: seq<byte> -> Option<T>, n: nat)
    ensures Missed(gets, start, decode, n) <==> gets(start + n).Ok? && decode(BufferAfter(gets, start, n + 1)) == None
  {
    hide BufferAfter;
  }

  lemma EndsInError<T>(gets: Gets, start: nat, decode: seq<byte> -> Option<T>, n: nat)
    requires AllMissed(gets, start, decode, n) && n < RPC_REPLY_POLL_ATTEMPTS && gets(start + n).Err?
    ensures Outcome(gets, start, decode, n + 1, Err(gets(start + n).error))
  {
    hide Missed, BufferAfter;
  }

  lemma EndsLate<T>(gets: Gets, start: nat, decode: seq<byte> -> Option<T>)
    requires AllMissed(gets, start, decode, RPC_REPLY_POLL_ATTEMPTS)
    ensures Outcome(gets, start, decode, RPC_REPLY_POLL_ATTEMPTS,
      Err(BadResponse(XU_SEL_RPC, BufferAfter(gets, start, RPC_REPLY_POLL_ATTEMPTS))))
  {
    hide BufferAfter;
    assert Missed(gets, start, decode, RPC_REPLY_POLL_ATTEMPTS - 1);
  }

  lemma NothingPolled<T>(gets: Gets, start: nat, decode: seq<byte> -> Option<T>)
    ensures BufferAfter(gets, start, 0) == ZeroBytes(RPC_FRAME_LEN) && AllMissed(gets, start, decode, 0)
  {
  }

  method PollReply<T>(t: Transport, decode: seq<byte> -> Option<T>) returns (r: Result<T, Error>)
    modifies t
    ensures t.sent == old(t.sent)
    ensures Outcome(t.gets, old(t.polled), decode, t.polled - old(t.polled), r)
  {
    ghost var start := t.polled;
    var reply := new byte[RPC_FRAME_LEN](_ => 0);
    assert reply[..] == ZeroBytes(RPC_FRAME_LEN);
    hide Overlay, ZeroBytes, Outcome, BufferAfter, AllMissed;
    NothingPolled(t.gets, start, decode);
    for attempt := 0 to RPC_REPLY_POLL_ATTEMPTS
      invariant t.sent == old(t.sent) && t.polled == start + attempt
      invariant reply[..] == BufferAfter(t.gets, start, attempt)
      invariant AllMissed(t.gets, start, decode, attempt)
    {
      var got := t.UvcGet(reply);
      if got.Err? {
        EndsInError(t.gets, start, decode, attempt);
        return Err(got.error);
      }
      NextBuffer(t.gets, start, decode, attempt, reply[..]);
      var decoded := decode(reply[..]);
      if decoded.Some? {
        return Ok(decoded.value);
      }
    }
    EndsLate(t.gets, start, decode);
    r := Err(BadResponse(XU_SEL_RPC, reply[..]));
  }

  lemma StopIsFinal<T>(gets: Gets, start: nat, decode: seq<byte> -> Option<T>, n: int, r: Result<T, Error>)
    requires Outcome(gets, start, decode, n, r) && n < RPC_REPLY_POLL_ATTEMPTS
    ensures !Missed(gets, start, decode, n - 1)
  {
  }

  /** There is an outcome, whatever the camera does ... */
  lemma OutcomeExists<T>(gets: Gets, start: nat, decode: seq<byte> -> Option<T>) returns (n: nat, r: Result<T, Error>)
    ensures Outcome(gets, start, decode, n, r)
  {
    n := 1;
    while n < RPC_REPLY_POLL_ATTEMPTS && Missed(gets, start, decode, n - 1)
      invariant 1 <= n <= RPC_REPLY_POLL_ATTEMPTS
      invariant forall i :: 0 <= i < n - 1 ==> Missed(gets, start, decode, i)
    {
      n := n + 1;
    }
    var buf := BufferAfter(gets, start, n);
    r := match gets(start + n - 1)
      case Err(e) => Err(e)
      case Ok(_) =>
        match decode(buf)
        case Some(value) => Ok(value)
        case None => Err(BadResponse(XU_SEL_RPC, buf));
  }

  /** ... and only one. */
  lemma OutcomeIsUnique<T>(gets: Gets, start: nat, decode: seq<byte> -> Option<T>,
                           n: int, r: Result<T, Error>, n': int, r': Result<T, Error>)
    requires Outcome(gets, start, decode, n, r) && Outcome(gets, start, decode, n', r')
    ensures n == n' && r == r'
  {
    if n < RPC_REPLY_POLL_ATTEMPTS { StopIsFinal(gets, start, decode, n, r); }
    if n' < RPC_REPLY_POLL_ATTEMPTS { StopIsFinal(gets, start, decode, n', r'); }
  }

  /** The driver polls at most ten times, and gives up exactly when ten polls have succeeded
      without a buffer that decodes; its error then names the selector and carries the tenth
      buffer. */
  lemma {:induction false} GivesUpAfterTen<T>(gets: Gets, start: nat, decode: seq<byte> -> Option<T>, n: int,
                                              r: Result<T, Error>)
    requires Outcome(gets, start, decode, n, r)
    ensures 1 <= n <= 10
    ensures AllMissed(gets, start, decode, 10) <==> n == 10 && gets(start + 9).Ok? && r.Err?
    ensures AllMissed(gets, start, decode, 10) ==> r == Err(BadResponse(0x02, BufferAfter(gets, start, 10)))
  {
    hide BufferAfter;
    if AllMissed(gets, start, decode, 10) {
      assert Missed(gets, start, decode, n - 1);
    }
  }

  // ---- requests ----

  function MacQueryRequest(): (r: Request)
    ensures r.Legal()
  {
    Request(0x01, 0x00, 0x0D, 0x08, 0x18, [], 16, [])
  }

  function FirmwareRequest(mac: Mac): (r: Request)
    ensures r.Legal()
  {
    Request(0x01, 0x01, 0x0D, 0x08, 0x04, [], 18, mac)
  }

  function SerialRequest(mac: Mac): (r: Request)
    ensures r.Legal()
  {
    Request(0x01, 0x03, 0x0D, 0xC8, 0x18, [], 24, mac + [0x01, 0x01])
  }

  function FaceFocusRequest(mac: Mac, on: bool): (r: Request)
    ensures r.Legal()
  {
    Request(0x25, 0x04, 0x02, 0x02, 0x36, [if on then 1 else 0, 0, 0, 0], 26, mac + [0x01, 0x01])
  }

  /** A frame from its parts: sequence byte and sub-sequence, command set and command, length
      and checksum of the payload, and all from the payload on. Its outer checksum is one that
      the receiver accepts. */
  ghost predicate IsRequest(f: Frame, seqs: seq<byte>, command: seq<byte>, length: byte, inner: seq<byte>,
                            body: seq<byte>)
  {
    && f[..6] == [0xAA] + seqs + [0x00, 0x0C, 0x00] && OuterCheck(f)
    && f[8..12] == [0x0A] + command
    && f[12..14] == [length, 0] && f[14..16] == inner && f[16..] == body
  }

  lemma LengthField(length: byte)
    ensures ToLe16(Num(length)) == [length, 0]
  {
    hide ToLe16;
    SameLength(length, 0, Num(length));
  }

  lemma RequestIs(r: Request, length: byte)
    requires r.Legal() && |r.payload| == Num(length)
    ensures IsRequest(r.ToFrame(), [r.seqByte, r.subSeq], [r.cmdSet, r.cmdId, r.subCmdId],
                      length, r.InnerCrcField(), r.payload + r.Rest())
  {
    FrameFields(r);
    FramePrefix(r);
    BuiltFramePasses(r);
    LengthField(length);
    HeadIs(r.seqByte, r.subSeq, [r.cmdSet, r.cmdId, r.subCmdId]);
    var f, n := r.ToFrame(), 16 + |r.payload|;
    hide ToLe16, OuterCheck, InnerCheck, StatedLength;
    assert f[8..12] == [0x0A, r.cmdSet, r.cmdId, r.subCmdId] == [0x0A] + [r.cmdSet, r.cmdId, r.subCmdId];
    Tail(f, n, r.payload, r.Rest());
  }

  lemma HeadIs(a: byte, b: byte, command: seq<byte>)
    ensures [0xAA] + [a, b] + [0x00, 0x0C, 0x00] == [0xAA, a, b, 0x00, 0x0C, 0x00]
  {
  }

  lemma Tail(f: Frame, n: nat, payload: seq<byte>, rest: seq<byte>)
    requires 16 <= n <= 60 && f[16..n] == payload && f[n..] == rest
    ensures f[16..] == payload + rest
  {
    assert f[16..] == f[16..n] + f[n..];
  }

  lemma NoInnerCrc(r: Request)
    requires r.Legal() && r.seqByte == 0x01
    ensures r.InnerCrcField() == [0, 0]
  {
    assert (0x01 as byte) & 0x60 == 0;
  }

  lemma RestIs(r: Request)
    requires r.Legal() && r.payload == []
    ensures r.payload + r.Rest()
         == ZeroBytes(r.tailOffset - 16) + r.tail + ZeroBytes(60 - r.tailOffset - |r.tail|)
  {
    assert r.payload + r.Rest() == r.Rest();
  }

  lemma WithoutPayload(r: Request)
    requires r.Legal() && r.payload == [] && r.seqByte == 0x01
    ensures IsRequest(r.ToFrame(), [0x01, r.subSeq], [r.cmdSet, r.cmdId, r.subCmdId], 0, [0, 0],
                      ZeroBytes(r.tailOffset - 16) + r.tail + ZeroBytes(60 - r.tailOffset - |r.tail|))
  {
    assert Num(0) == 0;
    hide *;
    RequestIs(r, 0);
    NoInnerCrc(r);
    RestIs(r);
  }

  lemma NothingAround(n: nat)
    ensures ZeroBytes(0) + [] + ZeroBytes(n) == ZeroBytes(n)
  {
  }

  /** The request for the hash, byte for byte but for the outer checksum. */
  lemma {:induction false} MacQueryBytes()
    ensures IsRequest(MacQueryRequest().ToFrame(), [0x01, 0x00], [0x0D, 0x08, 0x18], 0, [0, 0], ZeroBytes(44))
  {
    var r := MacQueryRequest();
    assert r == Request(0x01, 0x00, 0x0D, 0x08, 0x18, [], 16, []);
    hide *;
    WithoutPayload(r);
    NothingAround(44);
  }

  /** The request for the version, for every MAC. */
  lemma {:induction false} FirmwareRequestBytes(mac: Mac)
    ensures IsRequest(FirmwareRequest(mac).ToFrame(), [0x01, 0x01], [0x0D, 0x08, 0x04], 0, [0, 0],
                      ZeroBytes(2) + mac + ZeroBytes(36))
  {
    var r := FirmwareRequest(mac);
    assert r == Request(0x01, 0x01, 0x0D, 0x08, 0x04, [], 18, mac);
    hide *;
    WithoutPayload(r);
  }

  /** The request for the serial number, for every MAC. */
  lemma {:induction false} SerialRequestBytes(mac: Mac)
    ensures IsRequest(SerialRequest(mac).ToFrame(), [0x01, 0x03], [0x0D, 0xC8, 0x18], 0, [0, 0],
                      ZeroBytes(8) + (mac + [0x01, 0x01]) + ZeroBytes(28))
  {
    var r := SerialRequest(mac);
    assert r == Request(0x01, 0x03, 0x0D, 0xC8, 0x18, [], 24, mac + [0x01, 0x01]);
    hide *;
    WithoutPayload(r);
  }

  /** The face-focus command, for every MAC: the switch is its first payload byte, and it is
      the only one with an inner checksum, over length, zeros and payload. */
  lemma {:induction false} FaceFocusBytes(mac: Mac, on: bool)
    ensures var payload := [if on then 1 else 0, 0, 0, 0];
      IsRequest(FaceFocusRequest(mac, on).ToFrame(), [0x25, 0x04], [0x02, 0x02, 0x36],
                4, Le16(Crc([0x04, 0x00, 0x00, 0x00] + payload)),
                payload + ZeroBytes(6) + mac + [0x01, 0x01] + ZeroBytes(26))
  {
    var r, payload: seq<byte> := FaceFocusRequest(mac, on), [if on then 1 else 0, 0, 0, 0];
    RequestIs(r, 4);
    LengthField(4);
    hide IsRequest, ToLe16, Crc, Le16;
    FourBytes(payload);
    assert (0x25 as byte) & 0x60 != 0;
    assert r.payload + r.Rest() == payload + ZeroBytes(6) + mac + [0x01, 0x01] + ZeroBytes(26);
  }

  lemma FourBytes(payload: seq<byte>)
    ensures [0x04, 0x00] + [0, 0] + payload == [0x04, 0x00, 0x00, 0x00] + payload
  {
  }

  lemma CommandPair(f: Frame, seqs: seq<byte>, command: seq<byte>, length: byte, inner: seq<byte>, body: seq<byte>)
    requires IsRequest(f, seqs, command, length, inner, body) && |command| == 3
    ensures f[10..12] == command[1..]
  {
    hide OuterCheck;
    assert f[10..12] == f[8..12][2..];
  }

  /** Each query's decoder accepts replies to that query's own command and no other. */
  lemma {:induction false} RepliesMatchRequests(buf: seq<byte>, mac: Mac)
    ensures DecodeMacQueryReply(buf).Some? ==> buf[10..12] == MacQueryRequest().ToFrame()[10..12]
    ensures DecodeFirmwareReply(buf).Some? ==> buf[10..12] == FirmwareRequest(mac).ToFrame()[10..12]
    ensures DecodeSerialReply(buf).Some? ==> buf[10..12] == SerialRequest(mac).ToFrame()[10..12]
  {
    MacQueryBytes();
    FirmwareRequestBytes(mac);
    SerialRequestBytes(mac);
    CommandPair(MacQueryRequest().ToFrame(), [0x01, 0x00], [0x0D, 0x08, 0x18], 0, [0, 0], ZeroBytes(44));
    CommandPair(FirmwareRequest(mac).ToFrame(), [0x01, 0x01], [0x0D, 0x08, 0x04], 0, [0, 0],
                ZeroBytes(2) + mac + ZeroBytes(36));
    CommandPair(SerialRequest(mac).ToFrame(), [0x01, 0x03], [0x0D, 0xC8, 0x18], 0, [0, 0],
                ZeroBytes(8) + (mac + [0x01, 0x01]) + ZeroBytes(28));
    ReplyPairs(buf);
    hide *;
    assert [0x0D, 0x08, 0x18][1..] == [0x08, 0x18] && [0x0D, 0x08, 0x04][1..] == [0x08, 0x04];
    assert [0x0D, 0xC8, 0x18][1..] == [0xC8, 0x18];
  }

  lemma ReplyPairs(buf: seq<byte>)
    ensures DecodeMacQueryReply(buf).Some? ==> |buf| >= 12 && buf[10..12] == [0x08, 0x18]
    ensures DecodeFirmwareReply(buf).Some? ==> |buf| >= 12 && buf[10..12] == [0x08, 0x04]
    ensures DecodeSerialReply(buf).Some? ==> |buf| >= 12 && buf[10..12] == [0xC8, 0x18]
  {
    hide FromLe16, Dec, FirstNul, IsGraphic, TextOf;
    assert |buf| >= 12 ==> buf[10..12] == [buf[10], buf[11]];
  }

  method LearnMac(t: Transport) returns (r: Result<Mac, Error>)
    modifies t
    ensures Exchange(old(t.State()), t.State(), MacQueryRequest().ToFrame(), DecodeMacQueryReply, r)
  {
    hide *;
    var request := BuildRpcFrame(MacQueryRequest());
    r := RequestThenReply(t, request, DecodeMacQueryReply);
  }

  // ---- the device handle ----

  class Device {
    const transport: Transport
    const mac: Mac

    constructor (transport: Transport, mac: Mac)
      ensures this.transport == transport && this.mac == mac
    {
      this.transport := transport;
      this.mac := mac;
    }

    method FirmwareFromCamera() returns (r: Result<string, Error>)
      modifies transport
      ensures Exchange(old(transport.State()), transport.State(),
                       FirmwareRequest(mac).ToFrame(), DecodeFirmwareReply, r)
    {
      hide *;
      var request := BuildRpcFrame(FirmwareRequest(mac));
      r := RequestThenReply(transport, request, DecodeFirmwareReply);
    }

    method SerialFromCamera() returns (r: Result<string, Error>)
      modifies transport
      ensures Exchange(old(transport.State()), transport.State(),
                       SerialRequest(mac).ToFrame(), DecodeSerialReply, r)
    {
      hide *;
      var request := BuildRpcFrame(SerialRequest(mac));
      r := RequestThenReply(transport, request, DecodeSerialReply);
    }

    /** `firmware`: its own error branch, for text that is not four dotted decimals, is
        never taken. Every error is one that the handshake returned. */
    method FirmwareParsed() returns (r: Result<FirmwareVersion, Error>)
      modifies transport
      ensures Exchange(old(transport.State()), transport.State(), FirmwareRequest(mac).ToFrame(),
                       DecodeFirmwareReply, if r.Ok? then Ok(Print(r.value)) else Err(r.error))
    {
      hide *;
      var text := FirmwareFromCamera();
      if text.Err? {
        return Err(text.error);
      }
      FetchedIsDecoded(old(transport.State()), transport.State(), FirmwareRequest(mac).ToFrame(), text);
      var version := Parse(text.value);
      if version.None? {
        r := Err(BadResponse(XU_SEL_RPC, []));
      } else {
        r := Ok(version.value);
      }
    }

    method SetFaceFocus(on: bool) returns (r: Result<(), Error>)
      modifies transport
      ensures r == transport.sets(|old(transport.sent)|)
      ensures transport.sent == old(transport.sent) + [FaceFocusRequest(mac, on).ToFrame()]
      ensures transport.sent[|old(transport.sent)|][16..20] == [if on then 1 else 0, 0, 0, 0]
      ensures transport.polled == old(transport.polled)
    {
      hide *;
      var request := BuildRpcFrame(FaceFocusRequest(mac, on));
      FaceFocusSwitch(mac, on);
      r := transport.UvcSet(request);
    }
  }

  lemma FaceFocusSwitch(mac: Mac, on: bool)
    ensures FaceFocusRequest(mac, on).ToFrame()[16..20] == [if on then 1 else 0, 0, 0, 0]
  {
    FaceFocusBytes(mac, on);
    hide FaceFocusRequest, OuterCheck, Le16, Crc, ZeroBytes;
    var f := FaceFocusRequest(mac, on).ToFrame();
    assert f[16..20] == f[16..][..4];
  }

  lemma FetchedIsDecoded(before: Life, after: Life, request: Frame, r: Result<string, Error>)
    requires Exchange(before, after, request, DecodeFirmwareReply, r) && r.Ok?
    ensures Parse(r.value).Some? && r.value == Print(Parse(r.value).value)
  {
    var buf := BufferAfter(before.gets, before.polled, after.polled - before.polled);
    assert DecodeFirmwareReply(buf) == Some(r.value);
    hide *;
    DecodedFirmwareParses(buf);
  }

  /** `Devices::open`, once the transport is open. */
  method Open(t: Transport) returns (r: Result<Device, Error>)
    modifies t
    ensures r.Ok? ==> fresh(r.value) && r.value.transport == t
    ensures Exchange(old(t.State()), t.State(), MacQueryRequest().ToFrame(), DecodeMacQueryReply,
                     if r.Ok? then Ok(r.value.mac) else Err(r.error))
  {
    hide *;
    var mac := LearnMac(t);
    if mac.Err? {
      return Err(mac.error);
    }
    var device := new Device(t, mac.value);
    r := Ok(device);
  }
}
