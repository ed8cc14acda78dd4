/** Reply frames of the RPC channel and the three decoders that read them
    (crates/libobsbot-core/src/devices/meet2.rs). */
module RpcReply {
  import opened Wrappers
  import opened Bytes
  import opened Decimal
  import opened Firmware
  import opened RpcFrame
  import opened FrameLaws

  datatype Reply = Reply(cmdId: byte, subCmdId: byte, payload: seq<byte>)

  function ParseRpcReply(buf: seq<byte>): Option<Reply> {
    if |buf| < RPC_PAYLOAD_OFFSET || buf[0] != 0xAA then None
    else if buf[8] != 0x0D || buf[9] != 0x0A then None
    else
      var end := RPC_PAYLOAD_OFFSET + FromLe16(buf[12], buf[13]);
      if end > |buf| then None
      else Some(Reply(buf[10], buf[11], buf[RPC_PAYLOAD_OFFSET..end]))
  }

  // ---- text ----

  /** `u8::is_ascii_graphic`. */
  predicate IsGraphic(b: byte) {
    0x21 <= Num(b) <= 0x7E
  }

  function TextOf(bytes: seq<byte>): (s: string)
    ensures |s| == |bytes|
  {
    seq(|bytes|, i requires 0 <= i < |bytes| => Num(bytes[i]) as char)
  }

  predicate IsAscii(s: string) {
    forall i :: 0 <= i < |s| ==> s[i] as int < 128
  }

  /** The UTF-8 bytes of an ASCII string. */
  function BytesOf(s: string): (bytes: seq<byte>)
    requires IsAscii(s)
    ensures |bytes| == |s|
  {
    seq(|s|, i requires 0 <= i < |s| => Byte(s[i] as int))
  }

  lemma TextRoundTrip(bytes: seq<byte>)
    requires forall i :: 0 <= i < |bytes| ==> Num(bytes[i]) < 128
    ensures IsAscii(TextOf(bytes)) && BytesOf(TextOf(bytes)) == bytes
  {
    forall i | 0 <= i < |bytes| ensures BytesOf(TextOf(bytes))[i] == bytes[i] {
      ByteOfNum(bytes[i]);
    }
  }

  lemma BytesRoundTrip(s: string)
    requires IsAscii(s)
    ensures TextOf(BytesOf(s)) == s
  {
  }

  // ---- the decoders ----

  const RPC_GET_FIRMWARE: (byte, byte) := (0x08, 0x04)
  const RPC_GET_SERIAL: (byte, byte) := (0xC8, 0x18)
  const RPC_GET_DEVICE_HASH: (byte, byte) := (0x08, 0x18)

  function DecodeFirmwareReply(buf: seq<byte>): Option<string> {
    var reply :- ParseRpcReply(buf);
    var p := reply.payload;
    if (reply.cmdId, reply.subCmdId) != RPC_GET_FIRMWARE || |p| < 4 then None
    else Some(Dec(Num(p[3])) + "." + Dec(Num(p[2])) + "." + Dec(Num(p[1])) + "." + Dec(Num(p[0])))
  }

  /** The index of the first zero byte, or the length. */
  function FirstNul(s: seq<byte>): (k: nat)
    ensures k <= |s|
  {
    if s == [] || s[0] == 0 then 0 else 1 + FirstNul(s[1..])
  }

  function DecodeSerialReply(buf: seq<byte>): Option<string> {
    var reply :- ParseRpcReply(buf);
    if (reply.cmdId, reply.subCmdId) != RPC_GET_SERIAL then None
    else
      var bytes := reply.payload[..FirstNul(reply.payload)];
      if exists i :: 0 <= i < |bytes| && !IsGraphic(bytes[i]) then None else Some(TextOf(bytes))
  }

  type Mac = m: seq<byte> | |m| == 6 witness ZeroBytes(6)

  function DecodeMacQueryReply(buf: seq<byte>): Option<Mac> {
    var reply :- ParseRpcReply(buf);
    if (reply.cmdId, reply.subCmdId) != RPC_GET_DEVICE_HASH || |reply.payload| < 24 then None
    else Some(reply.payload[18..24])
  }

  // ---- requests and replies are apart ----

  /** No request, whatever its arguments, can be taken for a reply. */
  lemma RequestIsNoReply(r: Request)
    requires r.Legal()
    ensures ParseRpcReply(r.ToFrame()) == None
  {
    FrameFields(r);
    assert r.ToFrame()[8] == r.ToFrame()[8..12][0];
  }

  /** A reply frame: the bytes that the parser does not look at are head, crc and padding. */
  function ReplyFrame(head: seq<byte>, r: Reply, crc: seq<byte>, padding: seq<byte>): seq<byte>
    requires |head| == 7 && |crc| == 2 && |r.payload| < 0x1_0000
  {
    [0xAA] + head + [0x0D, 0x0A, r.cmdId, r.subCmdId] + ToLe16(|r.payload|) + crc + r.payload + padding
  }

  ghost predicate IsReplyFrame(buf: seq<byte>, r: Reply) {
    |r.payload| < 0x1_0000
    && exists head: seq<byte>, crc: seq<byte>, padding: seq<byte> ::
         |head| == 7 && |crc| == 2 && buf == ReplyFrame(head, r, crc, padding)
  }

  lemma ReplyFrameParses(head: seq<byte>, r: Reply, crc: seq<byte>, padding: seq<byte>)
    requires |head| == 7 && |crc| == 2 && |r.payload| < 0x1_0000
    ensures ParseRpcReply(ReplyFrame(head, r, crc, padding)) == Some(r)
  {
    var buf := ReplyFrame(head, r, crc, padding);
    ReplyFields(head, r, crc, padding);
    assert buf[16..16 + |r.payload|] == r.payload;
  }

  lemma ReplyFields(head: seq<byte>, r: Reply, crc: seq<byte>, padding: seq<byte>)
    requires |head| == 7 && |crc| == 2 && |r.payload| < 0x1_0000
    ensures var buf := ReplyFrame(head, r, crc, padding);
      && |buf| == 16 + |r.payload| + |padding|
      && buf[0] == 0xAA && buf[8] == 0x0D && buf[9] == 0x0A && buf[10] == r.cmdId && buf[11] == r.subCmdId
      && buf[12] == ToLe16(|r.payload|)[0] && buf[13] == ToLe16(|r.payload|)[1]
  {
  }

  /** The parser accepts exactly the reply frames, and reads back exactly the command and
      the payload, whatever the other bytes are. */
  lemma ParsesExactlyReplies(buf: seq<byte>, r: Reply)
    ensures ParseRpcReply(buf) == Some(r) <==> IsReplyFrame(buf, r)
  {
    if ParseRpcReply(buf) == Some(r) {
      ParsedIsReplyFrame(buf, r);
    }
    if IsReplyFrame(buf, r) {
      var head: seq<byte>, crc: seq<byte>, padding: seq<byte> :|
        |head| == 7 && |crc| == 2 && buf == ReplyFrame(head, r, crc, padding);
      ReplyFrameParses(head, r, crc, padding);
    }
  }

  lemma ParsedIsReplyFrame(buf: seq<byte>, r: Reply)
    requires ParseRpcReply(buf) == Some(r)
    ensures IsReplyFrame(buf, r)
  {
    ParsedFields(buf, r);
    CutReply(buf, 16 + |r.payload|);
    hide ToLe16;
    var head, crc, padding := buf[1..8], buf[14..16], buf[16 + |r.payload|..];
    assert |head| == 7 && |crc| == 2 && buf == ReplyFrame(head, r, crc, padding);
  }

  lemma {:induction false} ParsedFields(buf: seq<byte>, r: Reply)
    requires ParseRpcReply(buf) == Some(r)
    ensures 16 + |r.payload| <= |buf| && |r.payload| < 0x1_0000
    ensures buf[0] == 0xAA && [buf[8], buf[9], buf[10], buf[11]] == [0x0D, 0x0A, r.cmdId, r.subCmdId]
    ensures [buf[12], buf[13]] == ToLe16(|r.payload|) && buf[16..16 + |r.payload|] == r.payload
  {
    hide ToLe16, FromLe16;
    ParsedLength(buf, r);
    SameLength(buf[12], buf[13], |r.payload|);
  }

  lemma ParsedLength(buf: seq<byte>, r: Reply)
    requires ParseRpcReply(buf) == Some(r)
    ensures |buf| >= 16 && FromLe16(buf[12], buf[13]) == |r.payload|
    ensures 16 + |r.payload| <= |buf| && buf[16..16 + |r.payload|] == r.payload
  {
    hide FromLe16;
  }

  lemma CutReply(buf: seq<byte>, n: nat)
    requires 16 <= n <= |buf|
    ensures buf == [buf[0]] + buf[1..8] + [buf[8], buf[9], buf[10], buf[11]] + [buf[12], buf[13]]
                   + buf[14..16] + buf[16..n] + buf[n..]
  {
    assert buf[..8] == [buf[0]] + buf[1..8];
    assert buf[..12] == buf[..8] + [buf[8], buf[9], buf[10], buf[11]];
    assert buf[..14] == buf[..12] + [buf[12], buf[13]];
    assert buf[..16] == buf[..14] + buf[14..16];
    assert buf[..n] == buf[..16] + buf[16..n];
    assert buf == buf[..n] + buf[n..];
  }

  lemma {:induction false} SameLength(lo: byte, hi: byte, n: nat)
    requires FromLe16(lo, hi) == n
    ensures n < 0x1_0000 && ToLe16(n) == [lo, hi]
  {
    var s := ToLe16(n);
    SamePlaces(Num(s[0]), Num(s[1]), Num(lo), Num(hi));
    NumIsInjective(s[0], lo);
    NumIsInjective(s[1], hi);
    assert s == [s[0], s[1]];
  }

  lemma SamePlaces(a: int, b: int, c: int, d: int)
    requires 0 <= a < 256 && 0 <= c < 256 && a + 256 * b == c + 256 * d
    ensures a == c && b == d
  {
  }

  // ---- the decoders are apart ----

  /** No frame is accepted by two of the three decoders. */
  lemma DecodersAreDisjoint(buf: seq<byte>)
    ensures DecodeMacQueryReply(buf).Some? ==> DecodeFirmwareReply(buf).None? && DecodeSerialReply(buf).None?
    ensures DecodeFirmwareReply(buf).Some? ==> DecodeSerialReply(buf).None?
  {
    hide FromLe16;
  }

  /** The MAC is read from bytes 34 to 40 of the frame. */
  lemma MacIsInFrame(buf: seq<byte>)
    requires DecodeMacQueryReply(buf).Some?
    ensures |buf| >= 40 && DecodeMacQueryReply(buf).value == buf[34..40]
  {
    hide FromLe16;
    var end := 16 + FromLe16(buf[12], buf[13]);
    Slice(buf, 16, end, 18, 24);
  }

  /** A hash reply with at least twenty-four bytes of payload, and m the last six of those. */
  ghost predicate IsHashReply(buf: seq<byte>, p: seq<byte>, m: Mac) {
    IsReplyFrame(buf, Reply(0x08, 0x18, p)) && |p| >= 24 && m == p[18..24]
  }

  /** The MAC decoder accepts exactly the hash replies that are long enough. */
  lemma {:induction false} MacExactly(buf: seq<byte>, m: Mac)
    ensures DecodeMacQueryReply(buf) == Some(m) <==> exists p :: IsHashReply(buf, p, m)
  {
    hide FromLe16, IsReplyFrame;
    if DecodeMacQueryReply(buf) == Some(m) {
      var p := ParseRpcReply(buf).value.payload;
      ParsesExactlyReplies(buf, Reply(0x08, 0x18, p));
      assert IsHashReply(buf, p, m);
    }
    if p :| IsHashReply(buf, p, m) {
      ParsesExactlyReplies(buf, Reply(0x08, 0x18, p));
    }
  }

  // ---- firmware ----

  /** The version whose bytes, from the least significant, open the payload. */
  function VersionOf(payload: seq<byte>): FirmwareVersion
    requires |payload| >= 4
  {
    FirmwareVersion(Num(payload[3]), Num(payload[2]), Num(payload[1]), Num(payload[0]))
  }

  /** Whatever string the firmware decoder accepts parses, to the version in the payload. */
  lemma DecodedFirmwareParses(buf: seq<byte>)
    requires DecodeFirmwareReply(buf).Some?
    ensures |ParseRpcReply(buf).value.payload| >= 4
    ensures DecodeFirmwareReply(buf).value == Print(VersionOf(ParseRpcReply(buf).value.payload))
    ensures Parse(DecodeFirmwareReply(buf).value) == Some(VersionOf(ParseRpcReply(buf).value.payload))
  {
    hide FromLe16;
    ParseOfPrint(VersionOf(ParseRpcReply(buf).value.payload));
  }

  /** A version reply, and s the four numbers that open its payload, last first, as text
      without needless noughts. */
  ghost predicate IsVersionReply(buf: seq<byte>, p: seq<byte>, s: string) {
    && IsReplyFrame(buf, Reply(0x08, 0x04, p)) && |p| >= 4
    && Parse(s) == Some(FirmwareVersion(Num(p[3]), Num(p[2]), Num(p[1]), Num(p[0])))
    && forall i :: 0 <= i < |Split(s)| ==> Canonical(Split(s)[i])
  }

  lemma VersionTexts(p: seq<byte>, s: string)
    requires |p| >= 4
    ensures s == Print(VersionOf(p))
       <==> && Parse(s) == Some(FirmwareVersion(Num(p[3]), Num(p[2]), Num(p[1]), Num(p[0])))
            && forall i :: 0 <= i < |Split(s)| ==> Canonical(Split(s)[i])
  {
    ParseOfPrint(VersionOf(p));
    hide Parse, Print, Split;
    if Parse(s).Some? {
      PrintOfParse(s);
    }
  }

  lemma VersionPayload(buf: seq<byte>)
    ensures DecodeFirmwareReply(buf).Some? <==>
      exists p :: ParseRpcReply(buf) == Some(Reply(0x08, 0x04, p)) && |p| >= 4
    ensures forall p :: ParseRpcReply(buf) == Some(Reply(0x08, 0x04, p)) && |p| >= 4 ==>
      DecodeFirmwareReply(buf) == Some(Print(VersionOf(p)))
  {
    hide FromLe16, Dec;
    if DecodeFirmwareReply(buf).Some? {
      var r := ParseRpcReply(buf).value;
      assert r == Reply(0x08, 0x04, r.payload);
    }
  }

  /** The firmware decoder accepts s from exactly the version replies that spell it: four
      bytes of payload are enough, and any more are ignored. */
  lemma {:induction false} FirmwareExactly(buf: seq<byte>, s: string)
    ensures DecodeFirmwareReply(buf) == Some(s) <==> exists p :: IsVersionReply(buf, p, s)
  {
    VersionPayload(buf);
    hide DecodeFirmwareReply, ParseRpcReply, VersionOf, Print, IsReplyFrame, Parse, Split, Canonical;
    if DecodeFirmwareReply(buf) == Some(s) {
      var p :| ParseRpcReply(buf) == Some(Reply(0x08, 0x04, p)) && |p| >= 4;
      ParsesExactlyReplies(buf, Reply(0x08, 0x04, p));
      VersionTexts(p, s);
      assert IsVersionReply(buf, p, s);
    }
    if p :| IsVersionReply(buf, p, s) {
      ParsesExactlyReplies(buf, Reply(0x08, 0x04, p));
      VersionTexts(p, s);
    }
  }

  /** `u32::from_le_bytes` of the first four bytes. */
  function FirstWord(payload: seq<byte>): nat
    requires |payload| >= 4
  {
    Num(payload[0]) + 0x100 * Num(payload[1]) + 0x1_0000 * Num(payload[2]) + 0x100_0000 * Num(payload[3])
  }

  /** Comparing two cameras' versions compares the numbers on the wire. */
  lemma VersionOrderIsWireOrder(p: seq<byte>, q: seq<byte>)
    requires |p| >= 4 && |q| >= 4
    ensures VersionOf(p).Less(VersionOf(q)) <==> FirstWord(p) < FirstWord(q)
  {
    OrderIsNumeric(VersionOf(p), VersionOf(q));
  }

  // ---- serial numbers ----

  predicate IsGraphicText(s: string) {
    forall i :: 0 <= i < |s| ==> 0x21 <= s[i] as int <= 0x7E
  }

  lemma {:induction false} FirstNulExactly(s: seq<byte>, k: nat)
    ensures FirstNul(s) == k
       <==> k <= |s| && (forall i :: 0 <= i < k ==> s[i] != 0) && (k < |s| ==> s[k] == 0)
  {
    if s != [] && s[0] != 0 && k > 0 {
      FirstNulExactly(s[1..], k - 1);
      if k <= |s| && (forall i :: 0 <= i < k ==> s[i] != 0) && (k < |s| ==> s[k] == 0) {
        assert forall i :: 0 <= i < k - 1 ==> s[1..][i] == s[i + 1];
      }
      if FirstNul(s) == k {
        forall i | 0 <= i < k ensures s[i] != 0 {
          if i > 0 { assert s[1..][i - 1] != 0; }
        }
      }
    }
  }

  /** A payload that spells s: its bytes, then nothing or a zero byte and anything. */
  ghost predicate SpellsSerial(payload: seq<byte>, s: string)
    requires IsAscii(s)
  {
    |s| <= |payload| && payload[..|s|] == BytesOf(s) && (|s| < |payload| ==> payload[|s|] == 0)
  }

  /** A serial reply whose payload spells the graphic text s. */
  ghost predicate IsSerialReply(buf: seq<byte>, p: seq<byte>, s: string) {
    IsReplyFrame(buf, Reply(0xC8, 0x18, p)) && IsGraphicText(s) && IsAscii(s) && SpellsSerial(p, s)
  }

  /** The serial decoder accepts s from exactly the serial replies that spell it. */
  lemma {:induction false} SerialExactly(buf: seq<byte>, s: string)
    ensures DecodeSerialReply(buf) == Some(s) <==> exists p :: IsSerialReply(buf, p, s)
  {
    hide FromLe16, IsReplyFrame;
    if DecodeSerialReply(buf) == Some(s) {
      var p := ParseRpcReply(buf).value.payload;
      var k := FirstNul(p);
      FirstNulExactly(p, k);
      assert forall i :: 0 <= i < k ==> IsGraphic(p[..k][i]);
      TextRoundTrip(p[..k]);
      ParsesExactlyReplies(buf, Reply(0xC8, 0x18, p));
      assert IsSerialReply(buf, p, s);
    }
    if p :| IsSerialReply(buf, p, s) {
      ParsesExactlyReplies(buf, Reply(0xC8, 0x18, p));
      SpelledSerial(p, s);
    }
  }

  lemma SpelledSerial(p: seq<byte>, s: string)
    requires IsGraphicText(s) && IsAscii(s) && SpellsSerial(p, s)
    ensures FirstNul(p) == |s| && TextOf(p[..|s|]) == s
    ensures forall i :: 0 <= i < |s| ==> IsGraphic(p[..|s|][i])
  {
    forall i | 0 <= i < |s| ensures p[i] != 0 && IsGraphic(p[..|s|][i]) {
      assert p[i] == p[..|s|][i] == BytesOf(s)[i];
      NumIsInjective(p[i], 0);
    }
    FirstNulExactly(p, |s|);
    BytesRoundTrip(s);
  }

  /** What the two text decoders accept from a frame of sixty bytes is short and has no NUL
      in it: at most 44 bytes for a serial number, at most 15 for a version. */
  lemma DecodedTextIsShort(buf: seq<byte>)
    requires |buf| <= RPC_FRAME_LEN
    ensures DecodeSerialReply(buf).Some? ==>
      |DecodeSerialReply(buf).value| <= 44 && IsGraphicText(DecodeSerialReply(buf).value)
    ensures DecodeFirmwareReply(buf).Some? ==>
      |DecodeFirmwareReply(buf).value| <= 15 && IsGraphicText(DecodeFirmwareReply(buf).value)
  {
    hide FromLe16;
    if DecodeSerialReply(buf).Some? {
      SerialExactly(buf, DecodeSerialReply(buf).value);
      var p :| IsSerialReply(buf, p, DecodeSerialReply(buf).value);
      ParsesExactlyReplies(buf, Reply(0xC8, 0x18, p));
    }
    if DecodeFirmwareReply(buf).Some? {
      DecodedFirmwareParses(buf);
      PrintedIsShort(VersionOf(ParseRpcReply(buf).value.payload));
    }
  }

  lemma PrintedIsShort(v: FirmwareVersion)
    ensures |Print(v)| <= 15 && IsGraphicText(Print(v))
  {
    DecIsShort(v.major);
    DecIsShort(v.minor);
    DecIsShort(v.patch);
    DecIsShort(v.build);
  }

  lemma DecIsShort(n: u8)
    ensures |Dec(n)| <= 3 && IsGraphicText(Dec(n))
  {
    assert AllDigits(Dec(n));
    assert |Dec(n / 10 / 10)| == 1;
  }
}
