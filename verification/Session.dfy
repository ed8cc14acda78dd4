/** What the handshake learns from a camera, over single exchanges and whole sessions. */
module Session {
  import opened Wrappers
  import opened Bytes
  import opened RpcFrame
  import opened FrameLaws
  import opened RpcReply
  import opened Handshake

  // ---- the learned MAC goes into every later frame, and into no checksum ----

  datatype Command = GetFirmware | GetSerial | SetFaceFocus(on: bool)

  function CommandRequest(c: Command, mac: Mac): (r: Request)
    ensures r.Legal()
  {
    match c
    case GetFirmware => FirmwareRequest(mac)
    case GetSerial => SerialRequest(mac)
    case SetFaceFocus(on) => FaceFocusRequest(mac, on)
  }

  function MacOffset(c: Command): (k: nat)
    ensures 16 <= k && k + 6 <= RPC_FRAME_LEN
  {
    match c
    case GetFirmware => 18
    case GetSerial => 24
    case SetFaceFocus(_) => 26
  }

  lemma BehindTail(r: Request)
    requires r.Legal()
    ensures r.ToFrame()[r.tailOffset + |r.tail|..] == ZeroBytes(RPC_FRAME_LEN - r.tailOffset - |r.tail|)
  {
    FramePrefix(r);
    var n := 16 + |r.payload|;
    assert r.Rest()[r.tailOffset + |r.tail| - n..] == ZeroBytes(RPC_FRAME_LEN - r.tailOffset - |r.tail|);
    assert r.ToFrame()[n..][r.tailOffset + |r.tail| - n..] == r.ToFrame()[r.tailOffset + |r.tail|..];
  }

  /** Two requests alike but for the MAC that opens their tails. */
  lemma {:induction false} TailCarriesMac(r: Request, s: Request, mac: Mac, other: Mac, rest: seq<byte>)
    requires r.Legal() && s.Legal() && r.tail == mac + rest && s == r.(tail := other + rest)
    ensures var f, g, k := r.ToFrame(), s.ToFrame(), r.tailOffset;
      k + 6 <= RPC_FRAME_LEN && f[k..k + 6] == mac && f[..k] == g[..k] && f[k + 6..] == g[k + 6..]
  {
    ChecksumsIgnoreTail(r, s.tail);
    BehindTail(r);
    BehindTail(s);
    TailOf(r);
    TailOf(s);
    hide *;
    MacInTail(r.ToFrame(), r.tailOffset, r.tail, mac);
    MacInTail(s.ToFrame(), s.tailOffset, s.tail, other);
    assert r.tail[6..] == rest == s.tail[6..];
  }

  /** The frame of every command carries the MAC it was given, at the command's own place,
      and all its other bytes, the checksums among them, are the same for every MAC. */
  lemma {:induction false} CommandCarriesMac(c: Command, mac: Mac, other: Mac)
    ensures var f, g, k := CommandRequest(c, mac).ToFrame(), CommandRequest(c, other).ToFrame(), MacOffset(c);
      f[k..k + 6] == mac && f[..k] == g[..k] && f[k + 6..] == g[k + 6..]
  {
    var r, s := CommandRequest(c, mac), CommandRequest(c, other);
    var rest := r.tail[6..];
    assert r.tail == mac + rest && s.tail == other + rest;
    TailCarriesMac(r, s, mac, other, rest);
  }

  lemma MacInTail(f: Frame, k: nat, tail: seq<byte>, mac: Mac)
    requires k + |tail| <= RPC_FRAME_LEN && f[k..k + |tail|] == tail && |tail| >= 6 && tail[..6] == mac
    ensures f[k..k + 6] == mac && f[k + 6..] == tail[6..] + f[k + |tail|..]
  {
    Slice(f, k, k + |tail|, 0, 6);
    Slice(f, k, k + |tail|, 6, |tail|);
    assert f[k + 6..] == f[k + 6..k + |tail|] + f[k + |tail|..];
  }

  // ---- full-length GETs: the buffer is the last response ----

  lemma FullReadReplaces(gets: Gets, start: nat, n: nat)
    requires n > 0 && gets(start + n - 1).Ok? && |gets(start + n - 1).value| == RPC_FRAME_LEN
    ensures BufferAfter(gets, start, n) == gets(start + n - 1).value
  {
    assert gets(start + n - 1).value[..RPC_FRAME_LEN] == gets(start + n - 1).value;
  }

  /** The camera shows the old content of its mailbox until it publishes its reply, at the
      poll that follows `delay` others. What it shows later is left open. */
  ghost predicate Publishes(gets: Gets, start: nat, stale: Frame, reply: Frame, delay: nat) {
    forall i :: start <= i <= start + delay ==> gets(i) == Ok(if i < start + delay then stale else reply)
  }

  /** Against a camera that publishes its reply within the poll bound, over full-length
      GETs, the handshake returns that reply's value, unless the mailbox still shows an
      older frame that decodes: then it returns the older frame's value. */
  lemma MailboxOutcome<T>(gets: Gets, start: nat, decode: seq<byte> -> Option<T>, n: int, r: Result<T, Error>,
                          stale: Frame, reply: Frame, delay: nat)
    requires Outcome(gets, start, decode, n, r) && Publishes(gets, start, stale, reply, delay)
    requires delay < RPC_REPLY_POLL_ATTEMPTS && decode(reply).Some?
    ensures r == (if delay > 0 && decode(stale).Some? then Ok(decode(stale).value) else Ok(decode(reply).value))
    ensures r == Ok(decode(reply).value)
       <==> delay == 0 || decode(stale) == None || decode(stale) == decode(reply)
  {
    BufferShows(gets, start, stale, reply, delay, 0);
    BufferShows(gets, start, stale, reply, delay, delay);
    if n > 1 {
      assert Missed(gets, start, decode, 0);
    }
    if n - 1 > delay {
      DelayIsEnough(gets, start, decode, n, r, delay);
    }
    BufferShows(gets, start, stale, reply, delay, n - 1);
  }

  lemma BufferShows(gets: Gets, start: nat, stale: Frame, reply: Frame, delay: nat, i: nat)
    requires Publishes(gets, start, stale, reply, delay) && i <= delay
    ensures gets(start + i).Ok? && BufferAfter(gets, start, i + 1) == if i < delay then stale else reply
  {
    assert gets(start + i) == Ok(if start + i < start + delay then stale else reply);
    FullReadReplaces(gets, start, i + 1);
  }

  lemma DelayIsEnough<T>(gets: Gets, start: nat, decode: seq<byte> -> Option<T>, n: int, r: Result<T, Error>, i: nat)
    requires Outcome(gets, start, decode, n, r) && i < n - 1
    ensures decode(BufferAfter(gets, start, i + 1)) == None
  {
    assert Missed(gets, start, decode, i);
  }

  /** After a successful open the device holds bytes 34 to 40 of the camera's reply. */
  lemma LearnedMac(before: Life, after: Life, request: Frame, r: Result<Mac, Error>,
                   stale: Frame, reply: Frame, delay: nat)
    requires Exchange(before, after, request, DecodeMacQueryReply, r) && before.sets(|before.sent|).Ok?
    requires Publishes(before.gets, before.polled, stale, reply, delay) && delay < RPC_REPLY_POLL_ATTEMPTS
    requires DecodeMacQueryReply(reply).Some? && DecodeMacQueryReply(stale) == None
    ensures r == Ok(reply[34..40])
  {
    MailboxOutcome(before.gets, before.polled, DecodeMacQueryReply, after.polled - before.polled, r,
                   stale, reply, delay);
    MacIsInFrame(reply);
  }

  // ---- open, and then any commands ----

  /** An open that succeeded, from the life of a transport before it to after it. */
  ghost predicate Opens(before: Life, after: Life, mac: Mac) {
    Exchange(before, after, MacQueryRequest().ToFrame(), DecodeMacQueryReply, Ok(mac))
  }

  /** One later call of the device, from the life of its transport before it to after it. */
  ghost predicate Commanded(before: Life, after: Life, c: Command, mac: Mac) {
    var frame := CommandRequest(c, mac).ToFrame();
    match c
    case GetFirmware => exists r :: Exchange(before, after, frame, DecodeFirmwareReply, r)
    case GetSerial => exists r :: Exchange(before, after, frame, DecodeSerialReply, r)
    case SetFaceFocus(_) => after == before.(sent := before.sent + [frame])
  }

  /** Any sequence of calls: lives[i] is the transport before call i. */
  ghost predicate Used(lives: seq<Life>, commands: seq<Command>, mac: Mac) {
    && |lives| == |commands| + 1
    && forall i :: 0 <= i < |commands| ==> Commanded(lives[i], lives[i + 1], commands[i], mac)
  }

  /** The frame is the command's, and carries the MAC at the command's place. */
  ghost predicate Carries(f: Frame, c: Command, mac: Mac) {
    f == CommandRequest(c, mac).ToFrame() && f[MacOffset(c)..MacOffset(c) + 6] == mac
  }

  lemma CommandedSends(before: Life, after: Life, c: Command, mac: Mac)
    requires Commanded(before, after, c, mac)
    ensures after.sent == before.sent + [CommandRequest(c, mac).ToFrame()]
    ensures Carries(CommandRequest(c, mac).ToFrame(), c, mac)
  {
    CommandCarriesMac(c, mac, mac);
    hide CommandRequest, Outcome;
  }

  /** Frame by frame, these are the commands' frames with the MAC in them. */
  ghost predicate AllCarry(frames: seq<Frame>, commands: seq<Command>, mac: Mac) {
    && |frames| == |commands|
    && forall i :: 0 <= i < |frames| ==> Carries(frames[i], commands[i], mac)
  }

  lemma OneMoreCarries(frames: seq<Frame>, f: Frame, commands: seq<Command>, mac: Mac)
    requires commands != [] && AllCarry(frames, commands[..|commands| - 1], mac)
    requires Carries(f, commands[|commands| - 1], mac)
    ensures AllCarry(frames + [f], commands, mac)
  {
    hide Carries;
    var all := frames + [f];
    forall i | 0 <= i < |all| ensures Carries(all[i], commands[i], mac) {
      if i < |frames| {
        assert Carries(frames[i], commands[..|commands| - 1][i], mac);
      }
    }
  }

  lemma {:induction false} UsedSends(lives: seq<Life>, commands: seq<Command>, mac: Mac) returns (later: seq<Frame>)
    requires Used(lives, commands, mac)
    ensures lives[|commands|].sent == lives[0].sent + later && AllCarry(later, commands, mac)
    decreases |commands|
  {
    var k := |commands|;
    assert |lives| == k + 1;
    hide *;
    if k == 0 {
      later := [];
      NoneCarry(mac);
    } else {
      UsedPrefix(lives, commands, mac);
      var front := UsedSends(lives[..k], commands[..k - 1], mac);
      later := SendsOneMore(lives[0].sent, front, lives[k - 1], lives[k], commands, mac);
    }
  }

  lemma SendsOneMore(sent: seq<Frame>, front: seq<Frame>, before: Life, after: Life, commands: seq<Command>, mac: Mac)
    returns (later: seq<Frame>)
    requires commands != [] && before.sent == sent + front && AllCarry(front, commands[..|commands| - 1], mac)
    requires Commanded(before, after, commands[|commands| - 1], mac)
    ensures after.sent == sent + later && AllCarry(later, commands, mac)
  {
    hide *;
    var c := commands[|commands| - 1];
    var f := CommandRequest(c, mac).ToFrame();
    CommandedSends(before, after, c, mac);
    OneMoreCarries(front, f, commands, mac);
    later := front + [f];
    assert sent + front + [f] == sent + (front + [f]);
  }

  lemma NoneCarry(mac: Mac)
    ensures AllCarry([], [], mac)
  {
  }

  lemma UsedPrefix(lives: seq<Life>, commands: seq<Command>, mac: Mac)
    requires Used(lives, commands, mac) && commands != []
    ensures Used(lives[..|commands|], commands[..|commands| - 1], mac)
    ensures Commanded(lives[|commands| - 1], lives[|commands|], commands[|commands| - 1], mac)
  {
    hide Commanded;
  }

  /** The learned MAC flows into every later frame: after an open that succeeded against a
      camera that published its reply in time, whatever calls follow on that transport,
      every frame they send is the command's own with bytes 34 to 40 of that reply in it. */
  lemma {:induction false} OpenedDeviceCarriesMac(before: Life, lives: seq<Life>, commands: seq<Command>, mac: Mac,
                               stale: Frame, reply: Frame, delay: nat) returns (later: seq<Frame>)
    requires Used(lives, commands, mac)
    requires Opens(before, lives[0], mac)
    requires Publishes(before.gets, before.polled, stale, reply, delay) && delay < RPC_REPLY_POLL_ATTEMPTS
    requires DecodeMacQueryReply(reply).Some? && DecodeMacQueryReply(stale) == None
    ensures lives[|commands|].sent == before.sent + [MacQueryRequest().ToFrame()] + later
    ensures AllCarry(later, commands, reply[34..40])
  {
    OpenLearns(before, lives[0], mac, stale, reply, delay);
    hide *;
    later := UsedSends(lives, commands, mac);
  }

  lemma OpenLearns(before: Life, after: Life, mac: Mac, stale: Frame, reply: Frame, delay: nat)
    requires Opens(before, after, mac)
    requires Publishes(before.gets, before.polled, stale, reply, delay) && delay < RPC_REPLY_POLL_ATTEMPTS
    requires DecodeMacQueryReply(reply).Some? && DecodeMacQueryReply(stale) == None
    ensures mac == reply[34..40] && after.sent == before.sent + [MacQueryRequest().ToFrame()]
  {
    hide Outcome, Publishes, DecodeMacQueryReply, MacQueryRequest;
    LearnedMac(before, after, MacQueryRequest().ToFrame(), Ok(mac), stale, reply, delay);
  }

  /** A run of polls that a camera ends by publishing its reply. */
  lemma PublishedOutcome<T>(gets: Gets, start: nat, decode: seq<byte> -> Option<T>,
                            stale: Frame, reply: Frame, delay: nat)
    requires Publishes(gets, start, stale, reply, delay) && delay < RPC_REPLY_POLL_ATTEMPTS
    requires decode(stale) == None && decode(reply).Some?
    ensures Outcome(gets, start, decode, delay + 1, Ok(decode(reply).value))
  {
    forall i | 0 <= i < delay ensures Missed(gets, start, decode, i) {
      BufferShows(gets, start, stale, reply, delay, i);
    }
    BufferShows(gets, start, stale, reply, delay, delay);
  }

  /** A version query that succeeded. */
  ghost predicate Fetches(before: Life, after: Life, mac: Mac, text: string) {
    Exchange(before, after, FirmwareRequest(mac).ToFrame(), DecodeFirmwareReply, Ok(text))
  }

  lemma FetchIsCommand(before: Life, after: Life, mac: Mac, text: string)
    requires Fetches(before, after, mac, text)
    ensures Commanded(before, after, GetFirmware, mac)
  {
    hide Exchange, FirmwareRequest;
  }

  /** An exchange with a camera that publishes its reply in time. */
  lemma PublishedExchange<T>(before: Life, after: Life, request: Frame, decode: seq<byte> -> Option<T>,
                             stale: Frame, reply: Frame, delay: nat)
    requires before.sets(|before.sent|).Ok? && decode(stale) == None && decode(reply).Some?
    requires Publishes(before.gets, before.polled, stale, reply, delay) && delay < RPC_REPLY_POLL_ATTEMPTS
    requires after == before.(sent := before.sent + [request], polled := before.polled + delay + 1)
    ensures Exchange(before, after, request, decode, Ok(decode(reply).value))
  {
    hide Publishes, Outcome;
    PublishedOutcome(before.gets, before.polled, decode, stale, reply, delay);
  }

  /** A camera that shows one frame, then the next, then the last. */
  function ThreeFrames(stale: Frame, first: nat, reply: Frame, second: nat, later: Frame): Gets {
    i => Ok(if i < first then stale else if i < second then reply else later)
  }

  lemma ShowsThree(stale: Frame, reply: Frame, delay: nat, later: Frame, delay': nat)
    ensures var gets := ThreeFrames(stale, delay, reply, delay + 1 + delay', later);
      Publishes(gets, 0, stale, reply, delay) && Publishes(gets, delay + 1, reply, later, delay')
  {
  }

  /** Cameras that answer later queries are among these: for any hash reply and any firmware
      reply there is one that publishes each in time, the open stores the one's address, and
      the version query that follows returns the other's text. */
  lemma OpenThenFirmware(stale: Frame, reply: Frame, delay: nat, later: Frame, delay': nat)
    returns (before: Life, between: Life, after: Life, mac: Mac, text: string)
    requires delay < RPC_REPLY_POLL_ATTEMPTS && delay' < RPC_REPLY_POLL_ATTEMPTS
    requires DecodeMacQueryReply(stale) == None && DecodeMacQueryReply(reply).Some?
    requires DecodeFirmwareReply(later).Some?
    ensures Publishes(before.gets, before.polled, stale, reply, delay)
    ensures Opens(before, between, mac) && DecodeMacQueryReply(reply) == Some(mac)
    ensures Publishes(between.gets, between.polled, reply, later, delay')
    ensures Fetches(between, after, mac, text) && DecodeFirmwareReply(later) == Some(text)
    ensures Commanded(between, after, GetFirmware, mac)
  {
    hide DecodeMacQueryReply, DecodeFirmwareReply, Exchange, Publishes, ThreeFrames, MacQueryRequest, FirmwareRequest,
      Commanded, BufferAfter, Overlay, ParseRpcReply;
    mac, text := DecodeMacQueryReply(reply).value, DecodeFirmwareReply(later).value;
    var f, g := MacQueryRequest().ToFrame(), FirmwareRequest(mac).ToFrame();
    before := Life(i => Ok(()), ThreeFrames(stale, delay, reply, delay + 1 + delay', later), [], 0);
    between := before.(sent := before.sent + [f], polled := delay + 1);
    after := between.(sent := between.sent + [g], polled := delay + 1 + delay' + 1);
    DecodersAreDisjoint(reply);
    ShowsThree(stale, reply, delay, later, delay');
    PublishedExchange(before, between, f, DecodeMacQueryReply, stale, reply, delay);
    PublishedExchange(between, after, g, DecodeFirmwareReply, reply, later, delay');
    FetchIsCommand(between, after, mac, text);
  }

  // ---- short GETs ----

  /** The parser's view of one response, when the buffer that it was written over parses:
      the same reply if the response reaches to the end of it, and nothing if not. */
  lemma ParseOfOverlay(buf: Frame, last: seq<byte>)
    ensures var f := Overlay(buf, last);
      ParseRpcReply(f).Some? ==>
        ParseRpcReply(last) == if 16 + StatedLength(f) <= |last| then ParseRpcReply(f) else None
  {
    hide FromLe16;
    var f := Overlay(buf, last);
    if ParseRpcReply(f).Some? && |last| >= 16 {
      var end := 16 + StatedLength(f);
      assert forall i :: 0 <= i < 16 ==> f[i] == last[i];
      if end <= |last| {
        assert f[16..end] == last[16..end];
      }
    }
  }

  /** The decoder sees no more of a buffer than the reply that the parser finds. */
  ghost predicate ReadsReply<T(!new)>(decode: seq<byte> -> Option<T>) {
    && (forall a, b :: ParseRpcReply(a) == ParseRpcReply(b) ==> decode(a) == decode(b))
    && (forall a :: decode(a).Some? ==> ParseRpcReply(a).Some?)
  }

  lemma DecodersReadReplies()
    ensures ReadsReply(DecodeMacQueryReply) && ReadsReply(DecodeFirmwareReply) && ReadsReply(DecodeSerialReply)
  {
    hide ParseRpcReply;
  }

  /** A decoded value is the value of the last response alone exactly when that response
      was long enough for the reply it states: the check of the byte count that the polling
      loops leave out. */
  lemma OneResponseExactly<T(!new)>(gets: Gets, start: nat, decode: seq<byte> -> Option<T>, n: int, value: T)
    requires Outcome(gets, start, decode, n, Ok(value)) && ReadsReply(decode)
    ensures gets(start + n - 1).Ok?
    ensures var last := gets(start + n - 1).value;
      decode(last) == Some(value) <==> 16 + StatedLength(BufferAfter(gets, start, n)) <= |last|
  {
    hide ParseRpcReply, StatedLength, Overlay;
    ParseOfOverlay(BufferAfter(gets, start, n - 1), gets(start + n - 1).value);
  }

  /** The same of the three queries. */
  lemma QueriesReadOneResponseExactly(gets: Gets, start: nat, n: nat, mac: Mac, text: string)
    requires n > 0
    ensures var last, whole := gets(start + n - 1), 16 + StatedLength(BufferAfter(gets, start, n));
      && (Outcome(gets, start, DecodeMacQueryReply, n, Ok(mac)) ==>
            last.Ok? && (DecodeMacQueryReply(last.value) == Some(mac) <==> whole <= |last.value|))
      && (Outcome(gets, start, DecodeFirmwareReply, n, Ok(text)) ==>
            last.Ok? && (DecodeFirmwareReply(last.value) == Some(text) <==> whole <= |last.value|))
      && (Outcome(gets, start, DecodeSerialReply, n, Ok(text)) ==>
            last.Ok? && (DecodeSerialReply(last.value) == Some(text) <==> whole <= |last.value|))
  {
    DecodersReadReplies();
    hide *;
    if Outcome(gets, start, DecodeMacQueryReply, n, Ok(mac)) {
      OneResponseExactly(gets, start, DecodeMacQueryReply, n, mac);
    }
    if Outcome(gets, start, DecodeFirmwareReply, n, Ok(text)) {
      OneResponseExactly(gets, start, DecodeFirmwareReply, n, text);
    }
    if Outcome(gets, start, DecodeSerialReply, n, Ok(text)) {
      OneResponseExactly(gets, start, DecodeSerialReply, n, text);
    }
  }

  /** So it is whenever every GET of the exchange is full-length. */
  lemma FullReadsDecodeOneResponse<T>(gets: Gets, start: nat, decode: seq<byte> -> Option<T>, n: int, value: T)
    requires Outcome(gets, start, decode, n, Ok(value))
    requires forall i :: start <= i < start + n && gets(i).Ok? ==> |gets(i).value| == RPC_FRAME_LEN
    ensures gets(start + n - 1).Ok? && decode(gets(start + n - 1).value) == Some(value)
  {
    FullReadReplaces(gets, start, n);
  }

  /** A GET that returns only the sixteen header bytes of a hash reply is not told apart
      from a whole one: the MAC is then read from the frame that was in the buffer before,
      whatever it was a reply to. */
  lemma ShortReadTearsReply(gets: Gets, start: nat, older: Frame, header: seq<byte>, length: nat,
                            n: int, r: Result<Mac, Error>)
    requires Outcome(gets, start, DecodeMacQueryReply, n, r)
    requires gets(start) == Ok(older) && DecodeMacQueryReply(older) == None
    requires gets(start + 1) == Ok(header) && 24 <= length <= 44
    requires header == [0xAA, 0, 0, 0, 0, 0, 0, 0] + [0x0D, 0x0A, 0x08, 0x18] + ToLe16(length) + [0, 0]
    ensures r == Ok(older[34..40]) && DecodeMacQueryReply(header) == None
  {
    FullReadReplaces(gets, start, 1);
    assert BufferAfter(gets, start, 2) == header + older[16..];
    HeaderDecodes(header, older[16..], length);
    HeaderAlone(header, length);
    OlderBytes(header, older);
    if n > 2 {
      DelayIsEnough(gets, start, DecodeMacQueryReply, n, r, 1);
    }
  }

  lemma OlderBytes(header: seq<byte>, older: Frame)
    requires |header| == 16
    ensures (header + older[16..])[34..40] == older[34..40]
  {
    var f := header + older[16..];
    forall k | 0 <= k < 6 ensures f[34..40][k] == older[34..40][k] {
      assert f[34 + k] == older[16..][18 + k] == older[34 + k];
    }
  }

  lemma HeaderFields(header: seq<byte>, length: nat)
    requires length <= 44
    requires header == [0xAA, 0, 0, 0, 0, 0, 0, 0] + [0x0D, 0x0A, 0x08, 0x18] + ToLe16(length) + [0, 0]
    ensures |header| == 16 && header[0] == 0xAA && header[8] == 0x0D && header[9] == 0x0A
    ensures header[10] == 0x08 && header[11] == 0x18 && FromLe16(header[12], header[13]) == length
  {
    hide FromLe16;
    assert header[12] == ToLe16(length)[0] && header[13] == ToLe16(length)[1];
  }

  lemma HeaderDecodes(header: seq<byte>, rest: seq<byte>, length: nat)
    requires 24 <= length <= 44 && |rest| == 44
    requires header == [0xAA, 0, 0, 0, 0, 0, 0, 0] + [0x0D, 0x0A, 0x08, 0x18] + ToLe16(length) + [0, 0]
    ensures DecodeMacQueryReply(header + rest) == Some((header + rest)[34..40])
  {
    HeaderFields(header, length);
    hide FromLe16;
    var f := header + rest;
    assert ParseRpcReply(f) == Some(Reply(0x08, 0x18, f[16..16 + length]));
    MacIsInFrame(f);
  }

  lemma HeaderAlone(header: seq<byte>, length: nat)
    requires 24 <= length <= 44
    requires header == [0xAA, 0, 0, 0, 0, 0, 0, 0] + [0x0D, 0x0A, 0x08, 0x18] + ToLe16(length) + [0, 0]
    ensures DecodeMacQueryReply(header) == None
  {
    HeaderFields(header, length);
    hide FromLe16;
  }

  // ---- sessions against a camera that answers in order, and late ----

  datatype Kind = MacQuery | FirmwareQuery | SerialQuery

  datatype Answer = MacIs(mac: Mac) | FirmwareIs(firmware: string) | SerialIs(serial: string)

  function DecodeAs(k: Kind): seq<byte> -> Option<Answer> {
    (buf: seq<byte>) =>
      match k
      case MacQuery => (match DecodeMacQueryReply(buf) case Some(m) => Some(MacIs(m)) case None => None)
      case FirmwareQuery => (match DecodeFirmwareReply(buf) case Some(s) => Some(FirmwareIs(s)) case None => None)
      case SerialQuery => (match DecodeSerialReply(buf) case Some(s) => Some(SerialIs(s)) case None => None)
  }

  /** The camera's mailbox: the frame a GET shows, and the replies still to be published. */
  datatype Mailbox = Mailbox(slot: Frame, queue: seq<Frame>) {

    /** What the slot shows once c of the queued replies have been published. */
    function Shown(c: nat): Frame
      requires c <= |queue|
    {
      if c == 0 then slot else queue[c - 1]
    }

    function Published(c: nat): Mailbox
      requires c <= |queue|
    {
      Mailbox(Shown(c), queue[c..])
    }
  }

  /** One exchange: the request's kind, the reply that the camera queues for it, and how
      many queued replies it has published when each poll comes. */
  datatype Step = Step(kind: Kind, reply: Frame, counts: seq<nat>) {

    /** The camera answers truthfully and publishes in order, as late as it likes. */
    ghost predicate Orderly(m: Mailbox, identity: Kind -> Answer) {
      && DecodeAs(kind)(reply) == Some(identity(kind))
      && |counts| == RPC_REPLY_POLL_ATTEMPTS
      && (forall i, j :: 0 <= i <= j < |counts| ==> counts[i] <= counts[j])
      && counts[RPC_REPLY_POLL_ATTEMPTS - 1] <= |m.queue| + 1
    }

    /** The camera has published everything by the last poll. */
    predicate Prompt(m: Mailbox) {
      |counts| == RPC_REPLY_POLL_ATTEMPTS && counts[RPC_REPLY_POLL_ATTEMPTS - 1] == |m.queue| + 1
    }
  }

  /** What the polls of a step see. */
  ghost predicate Polls(gets: Gets, m: Mailbox, s: Step)
    requires |s.counts| == RPC_REPLY_POLL_ATTEMPTS
    requires forall i :: 0 <= i < RPC_REPLY_POLL_ATTEMPTS ==> s.counts[i] <= |m.queue| + 1
  {
    forall i :: 0 <= i < RPC_REPLY_POLL_ATTEMPTS ==>
      gets(i) == Ok(Mailbox(m.slot, m.queue + [s.reply]).Shown(s.counts[i]))
  }

  /** An exchange takes the camera from m to next and returns r to the driver. */
  ghost predicate Exchanged(m: Mailbox, s: Step, next: Mailbox, r: Result<Answer, Error>, identity: Kind -> Answer) {
    && s.Orderly(m, identity)
    && exists gets: Gets, n: int ::
         && Polls(gets, m, s)
         && Outcome(gets, 0, DecodeAs(s.kind), n, r)
         && next == Mailbox(m.slot, m.queue + [s.reply]).Published(s.counts[n - 1])
  }

  /** The frame decodes, as any kind of reply, to nothing or to the truth. */
  ghost predicate Harmless(f: Frame, identity: Kind -> Answer) {
    forall k: Kind :: DecodeAs(k)(f) == None || DecodeAs(k)(f) == Some(identity(k))
  }

  ghost predicate HarmlessMailbox(m: Mailbox, identity: Kind -> Answer) {
    Harmless(m.slot, identity) && forall i :: 0 <= i < |m.queue| ==> Harmless(m.queue[i], identity)
  }

  lemma TruthIsHarmless(f: Frame, k: Kind, identity: Kind -> Answer)
    requires DecodeAs(k)(f) == Some(identity(k))
    ensures Harmless(f, identity)
  {
    DecodersAreDisjoint(f);
  }

  lemma ShownIsHarmless(m: Mailbox, c: nat, identity: Kind -> Answer)
    requires HarmlessMailbox(m, identity) && c <= |m.queue|
    ensures HarmlessMailbox(m.Published(c), identity)
  {
    if c > 0 { assert Harmless(m.queue[c - 1], identity); }
    forall i | 0 <= i < |m.queue| - c ensures Harmless(m.queue[c..][i], identity) {
      assert m.queue[c..][i] == m.queue[i + c];
    }
  }

  /** A poll sees the slot as it is published, whole. */
  lemma PollSees(gets: Gets, m: Mailbox, s: Step, i: nat)
    requires |s.counts| == RPC_REPLY_POLL_ATTEMPTS && i < RPC_REPLY_POLL_ATTEMPTS
    requires forall j :: 0 <= j < RPC_REPLY_POLL_ATTEMPTS ==> s.counts[j] <= |m.queue| + 1
    requires Polls(gets, m, s)
    ensures BufferAfter(gets, 0, i + 1) == Mailbox(m.slot, m.queue + [s.reply]).Shown(s.counts[i])
  {
    FullReadReplaces(gets, 0, i + 1);
  }

  /** What the driver may make of an exchange: the truth, or an error after ten polls; and
      the truth for certain when the camera is prompt. */
  ghost predicate Right(m: Mailbox, s: Step, r: Result<Answer, Error>, identity: Kind -> Answer) {
    && (r == Ok(identity(s.kind)) || (r.Err? && r.error.BadResponse?))
    && (s.Prompt(m) ==> r == Ok(identity(s.kind)))
  }

  /** What a run of polls made of what it was shown. */
  lemma OutcomeOfShown(m: Mailbox, s: Step, gets: Gets, n: int, r: Result<Answer, Error>)
    requires |s.counts| == RPC_REPLY_POLL_ATTEMPTS
    requires forall j :: 0 <= j < RPC_REPLY_POLL_ATTEMPTS ==> s.counts[j] <= |m.queue| + 1
    requires Polls(gets, m, s) && Outcome(gets, 0, DecodeAs(s.kind), n, r)
    ensures 1 <= n <= RPC_REPLY_POLL_ATTEMPTS
    ensures var shown := DecodeAs(s.kind)(Mailbox(m.slot, m.queue + [s.reply]).Shown(s.counts[n - 1]));
      && (r.Ok? ==> shown == Some(r.value))
      && (r.Err? ==> shown == None && n == RPC_REPLY_POLL_ATTEMPTS && r.error.BadResponse?)
  {
    hide DecodeAs, Overlay;
    PollSees(gets, m, s, n - 1);
  }

  lemma OrderlyCounts(m: Mailbox, s: Step, identity: Kind -> Answer)
    requires s.Orderly(m, identity)
    ensures |s.counts| == RPC_REPLY_POLL_ATTEMPTS && DecodeAs(s.kind)(s.reply) == Some(identity(s.kind))
    ensures forall j :: 0 <= j < RPC_REPLY_POLL_ATTEMPTS ==> s.counts[j] <= |m.queue| + 1
  {
    hide DecodeAs;
  }

  lemma LastShown(m: Mailbox, reply: Frame)
    ensures Mailbox(m.slot, m.queue + [reply]).Shown(|m.queue| + 1) == reply
  {
  }

  lemma HarmlessIsShown(m: Mailbox, c: nat, k: Kind, identity: Kind -> Answer)
    requires HarmlessMailbox(m, identity) && c <= |m.queue|
    ensures DecodeAs(k)(m.Shown(c)) == None || DecodeAs(k)(m.Shown(c)) == Some(identity(k))
  {
    hide DecodeAs;
    if c > 0 { assert Harmless(m.queue[c - 1], identity); }
  }

  /** An exchange with a harmless mailbox returns the truth or an error and leaves a
      harmless mailbox, whatever is still queued for earlier requests and however late the
      camera is. */
  lemma {:induction false} ExchangeIsRight(m: Mailbox, s: Step, next: Mailbox, r: Result<Answer, Error>,
                                           identity: Kind -> Answer)
    requires HarmlessMailbox(m, identity) && Exchanged(m, s, next, r, identity)
    ensures Right(m, s, r, identity) && HarmlessMailbox(next, identity)
  {
    var gets: Gets, n: int :|
      && Polls(gets, m, s)
      && Outcome(gets, 0, DecodeAs(s.kind), n, r)
      && next == Mailbox(m.slot, m.queue + [s.reply]).Published(s.counts[n - 1]);
    var full := Mailbox(m.slot, m.queue + [s.reply]);
    OrderlyCounts(m, s, identity);
    assert s.Prompt(m) ==> s.counts[RPC_REPLY_POLL_ATTEMPTS - 1] == |m.queue| + 1;
    hide DecodeAs, HarmlessMailbox, Harmless, Outcome, Polls, Exchanged;
    OutcomeOfShown(m, s, gets, n, r);
    TruthIsHarmless(s.reply, s.kind, identity);
    OneMoreIsHarmless(m, s.reply, identity);
    ShownIsHarmless(full, s.counts[n - 1], identity);
    HarmlessIsShown(full, s.counts[n - 1], s.kind, identity);
    LastShown(m, s.reply);
  }

  lemma OneMoreIsHarmless(m: Mailbox, reply: Frame, identity: Kind -> Answer)
    requires HarmlessMailbox(m, identity) && Harmless(reply, identity)
    ensures HarmlessMailbox(Mailbox(m.slot, m.queue + [reply]), identity)
  {
    var queue := m.queue + [reply];
    forall i | 0 <= i < |queue| ensures Harmless(queue[i], identity) {
      if i < |m.queue| { assert queue[i] == m.queue[i]; }
    }
  }

  /** A session: mailboxes[i] is the camera before step i. */
  ghost predicate Session(mailboxes: seq<Mailbox>, steps: seq<Step>, results: seq<Result<Answer, Error>>,
                          identity: Kind -> Answer)
  {
    && |mailboxes| == |steps| + 1 && |results| == |steps|
    && forall i :: 0 <= i < |steps| ==> Exchanged(mailboxes[i], steps[i], mailboxes[i + 1], results[i], identity)
  }

  /** Over every session of MAC, firmware and serial queries that begins with a harmless
      mailbox, however late the camera answers, no query ever returns an untruth, and those
      that it answers promptly all succeed. */
  lemma {:induction false} SessionIsRight(mailboxes: seq<Mailbox>, steps: seq<Step>,
                                          results: seq<Result<Answer, Error>>, identity: Kind -> Answer)
    requires Session(mailboxes, steps, results, identity) && HarmlessMailbox(mailboxes[0], identity)
    ensures forall i :: 0 <= i < |steps| ==> Right(mailboxes[i], steps[i], results[i], identity)
    decreases |steps|
  {
    hide Exchanged, Right;
    if steps != [] {
      ExchangeIsRight(mailboxes[0], steps[0], mailboxes[1], results[0], identity);
      assert Session(mailboxes[1..], steps[1..], results[1..], identity);
      SessionIsRight(mailboxes[1..], steps[1..], results[1..], identity);
      forall i | 0 <= i < |steps| ensures Right(mailboxes[i], steps[i], results[i], identity) {
        if i > 0 {
          assert results[i] == results[1..][i - 1] && steps[i] == steps[1..][i - 1];
          assert mailboxes[i] == mailboxes[1..][i - 1];
        }
      }
    }
  }

  /** The condition on the mailbox is needed: when its slot or its queue holds a reply that
      is not the truth, say of another camera or an older serial number, the next query of
      that kind may return it, though the camera is prompt. */
  lemma {:induction false} ForeignReplyIsTaken(m: Mailbox, j: nat, k: Kind, reply: Frame, identity: Kind -> Answer)
      returns (s: Step, next: Mailbox, r: Result<Answer, Error>)
    requires j <= |m.queue|
    requires DecodeAs(k)(m.Shown(j)).Some? && DecodeAs(k)(m.Shown(j)) != Some(identity(k))
    requires DecodeAs(k)(reply) == Some(identity(k))
    ensures s.kind == k && s.Prompt(m) && Exchanged(m, s, next, r, identity)
    ensures r.Ok? && r != Ok(identity(k))
  {
    hide DecodeAs;
    s := Step(k, reply, [j, j, j, j, j, j, j, j, j, |m.queue| + 1]);
    var full := Mailbox(m.slot, m.queue + [reply]);
    var shown := m.Shown(j);
    var gets: Gets := i => Ok(if i < 9 then shown else reply);
    assert full.Shown(j) == shown && full.Shown(|m.queue| + 1) == reply;
    assert Polls(gets, m, s);
    PollSees(gets, m, s, 0);
    r := Ok(DecodeAs(k)(shown).value);
    assert Outcome(gets, 0, DecodeAs(k), 1, r);
    next := full.Published(j);
  }

  /** A frame in the mailbox that is not harmless, if the mailbox is not. */
  lemma HarmfulFrame(m: Mailbox, identity: Kind -> Answer) returns (j: nat, k: Kind)
    requires !HarmlessMailbox(m, identity)
    ensures j <= |m.queue| && DecodeAs(k)(m.Shown(j)).Some? && DecodeAs(k)(m.Shown(j)) != Some(identity(k))
  {
    hide DecodeAs;
    if !Harmless(m.slot, identity) {
      j := 0;
    } else {
      var i :| 0 <= i < |m.queue| && !Harmless(m.queue[i], identity);
      j := i + 1;
    }
    k :| DecodeAs(k)(m.Shown(j)) != None && DecodeAs(k)(m.Shown(j)) != Some(identity(k));
  }

  /** A harmless mailbox, slot and queue, is exactly what makes every next prompt exchange
      return the truth, and exactly what keeps every next exchange from an untruth. */
  lemma {:induction false} HarmlessMailboxIsExact(m: Mailbox, replies: Kind -> Frame, identity: Kind -> Answer)
    requires forall k: Kind :: DecodeAs(k)(replies(k)) == Some(identity(k))
    ensures HarmlessMailbox(m, identity)
       <==> forall s, next, r :: Exchanged(m, s, next, r, identity) && s.Prompt(m) ==> r == Ok(identity(s.kind))
    ensures HarmlessMailbox(m, identity)
       <==> forall s, next, r :: Exchanged(m, s, next, r, identity) ==> r == Ok(identity(s.kind)) || r.Err?
  {
    hide DecodeAs, Exchanged;
    if HarmlessMailbox(m, identity) {
      forall s, next, r | Exchanged(m, s, next, r, identity) ensures Right(m, s, r, identity) {
        ExchangeIsRight(m, s, next, r, identity);
      }
    } else {
      var j, k := HarmfulFrame(m, identity);
      var s, next, r := ForeignReplyIsTaken(m, j, k, replies(k), identity);
    }
  }

  // ---- the driver's three calls, as session steps ----

  function Tagged<T>(r: Result<T, Error>, tag: T -> Answer): Result<Answer, Error> {
    match r
    case Ok(value) => Ok(tag(value))
    case Err(e) => Err(e)
  }

  /** A decoder that differs from another only by a tag on its values has the same outcomes
      but for that tag. */
  lemma TaggedOutcome<T(!new)>(gets: Gets, start: nat, decode: seq<byte> -> Option<T>, n: int, r: Result<T, Error>,
                               tag: T -> Answer, tagged: seq<byte> -> Option<Answer>)
    requires Outcome(gets, start, decode, n, r)
    requires forall buf :: tagged(buf) == match decode(buf) case Some(v) => Some(tag(v)) case None => None
    ensures Outcome(gets, start, tagged, n, Tagged(r, tag))
  {
    forall i | 0 <= i < n - 1 ensures Missed(gets, start, tagged, i) {
      assert Missed(gets, start, decode, i);
    }
  }

  /** The outcomes of `learn_mac`, `firmware_from_camera` and `serial_from_camera` are the
      outcomes of the three kinds of query. */
  lemma DriverOutcomes(gets: Gets, start: nat, n: int,
                       mac: Result<Mac, Error>, text: Result<string, Error>)
    ensures Outcome(gets, start, DecodeMacQueryReply, n, mac)
        ==> Outcome(gets, start, DecodeAs(MacQuery), n, Tagged(mac, m => MacIs(m)))
    ensures Outcome(gets, start, DecodeFirmwareReply, n, text)
        ==> Outcome(gets, start, DecodeAs(FirmwareQuery), n, Tagged(text, s => FirmwareIs(s)))
    ensures Outcome(gets, start, DecodeSerialReply, n, text)
        ==> Outcome(gets, start, DecodeAs(SerialQuery), n, Tagged(text, s => SerialIs(s)))
  {
    hide DecodeMacQueryReply, DecodeFirmwareReply, DecodeSerialReply;
    if Outcome(gets, start, DecodeMacQueryReply, n, mac) {
      TaggedOutcome(gets, start, DecodeMacQueryReply, n, mac, m => MacIs(m), DecodeAs(MacQuery));
    }
    if Outcome(gets, start, DecodeFirmwareReply, n, text) {
      TaggedOutcome(gets, start, DecodeFirmwareReply, n, text, s => FirmwareIs(s), DecodeAs(FirmwareQuery));
    }
    if Outcome(gets, start, DecodeSerialReply, n, text) {
      TaggedOutcome(gets, start, DecodeSerialReply, n, text, s => SerialIs(s), DecodeAs(SerialQuery));
    }
  }
}
