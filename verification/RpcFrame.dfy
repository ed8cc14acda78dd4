/** Request and reply frames of the RPC channel, selector 0x02 of the extension unit
    (crates/libobsbot-core/src/devices/meet2.rs). */
module RpcFrame {
  import opened Bytes
  import opened Words
  import opened Crc16

  const RPC_FRAME_LEN := 60
  const RPC_PAYLOAD_OFFSET := 16

  type Frame = f: seq<byte> | |f| == 60 witness ZeroBytes(60)

  // ---- requests ----

  /** The logical pieces of a request. */
  datatype Request = Request(
    seqByte: byte, subSeq: byte, cmdSet: byte, cmdId: byte, subCmdId: byte,
    payload: seq<byte>, tailOffset: nat, tail: seq<byte>)
  {
    /** What `build_rpc_frame` asserts of its arguments. */
    predicate Legal() {
      && |payload| + 16 <= RPC_FRAME_LEN
      && tailOffset >= 16 + |payload|
      && tailOffset + |tail| <= RPC_FRAME_LEN
    }

    /** The twelve header bytes, around a given checksum field. */
    function Header(crc: seq<byte>): (h: seq<byte>)
      requires |crc| == 2
      ensures |h| == 12
    {
      [0xAA, seqByte, subSeq, 0x00, 12, 0x00] + crc + [0x0A, cmdSet, cmdId, subCmdId]
    }

    /** Length, checksum field and payload. */
    function Inner(crc: seq<byte>): (s: seq<byte>)
      requires Legal() && |crc| == 2
      ensures |s| == 4 + |payload|
    {
      ToLe16(|payload|) + crc + payload
    }

    function OuterCrc(): bv16 {
      Crc(Header([0, 0]))
    }

    predicate HasInnerCrc() {
      seqByte & 0x60 != 0
    }

    function InnerCrcField(): (s: seq<byte>)
      requires Legal()
      ensures |s| == 2
    {
      if HasInnerCrc() then Le16(Crc(Inner([0, 0]))) else [0, 0]
    }

    /** Everything past the payload. */
    function Rest(): (s: seq<byte>)
      requires Legal()
      ensures |s| == RPC_FRAME_LEN - 16 - |payload|
    {
      ZeroBytes(tailOffset - 16 - |payload|) + tail + ZeroBytes(RPC_FRAME_LEN - tailOffset - |tail|)
    }

    function ToFrame(): (f: Frame)
      requires Legal()
    {
      Header(Le16(OuterCrc())) + Inner(InnerCrcField()) + Rest()
    }

    /** The frame before its checksums are filled in. */
    ghost function Blank(): (f: Frame)
      requires Legal()
    {
      Header([0, 0]) + Inner([0, 0]) + Rest()
    }
  }

  /** `build_rpc_frame`: fills one zeroed buffer in place, both checksums being computed
      while their own fields are still zero. */
  method BuildRpcFrame(r: Request) returns (frame: Frame)
    requires r.Legal()
    ensures frame == r.ToFrame()
  {
    var buf := new byte[RPC_FRAME_LEN](_ => 0);
    FillFields(buf, r);
    FillChecksums(buf, r);
    frame := buf[..];
  }

  method FillFields(buf: array<byte>, r: Request)
    requires r.Legal() && buf.Length == RPC_FRAME_LEN && forall i :: 0 <= i < RPC_FRAME_LEN ==> buf[i] == 0
    modifies buf
    ensures buf[..] == r.Blank()
  {
    ghost var fixed := FillFixedFields(buf, r);
    CopyInto(buf, 16, r.payload);
    PayloadIsFilled(fixed, r.payload, buf[..]);
    CopyInto(buf, r.tailOffset, r.tail);
    TailIsFilled(fixed + r.payload, r.tailOffset, r.tail, buf[..]);
    BlankIs(r, fixed);
  }

  lemma BlankIs(r: Request, fixed: seq<byte>)
    requires r.Legal() && fixed + r.payload == r.Header([0, 0]) + r.Inner([0, 0])
    ensures r.Blank() == fixed + r.payload + r.Rest()
  {
  }

  method FillFixedFields(buf: array<byte>, r: Request) returns (ghost fixed: seq<byte>)
    requires r.Legal() && buf.Length == RPC_FRAME_LEN && forall i :: 0 <= i < RPC_FRAME_LEN ==> buf[i] == 0
    modifies buf
    ensures |fixed| == 16 && buf[..] == fixed + ZeroBytes(44)
    ensures fixed + r.payload == r.Header([0, 0]) + r.Inner([0, 0])
  {
    buf[0] := 0xAA;
    buf[1] := r.seqByte;
    buf[2] := r.subSeq;
    buf[4], buf[5] := 12, 0x00;
    buf[8] := 0x0A;
    buf[9] := r.cmdSet;
    buf[10] := r.cmdId;
    buf[11] := r.subCmdId;
    var innerLen := ToLe16(|r.payload|);
    buf[12], buf[13] := innerLen[0], innerLen[1];
    fixed := [0xAA, r.seqByte, r.subSeq, 0, 12, 0, 0, 0] + [0x0A, r.cmdSet, r.cmdId, r.subCmdId]
             + innerLen + [0, 0];
    ghost var blank := old(buf[..]);
    ghost var half := blank[0 := 0xAA][1 := r.seqByte][2 := r.subSeq][4 := 12][5 := 0];
    FirstStores(blank, r.seqByte, r.subSeq);
    LastStores(half, r.cmdSet, r.cmdId, r.subCmdId, innerLen);
    assert buf[..] == half[8 := 0x0A][9 := r.cmdSet][10 := r.cmdId][11 := r.subCmdId]
                          [12 := innerLen[0]][13 := innerLen[1]];
    FixedPart(r, fixed, half, buf[..]);
  }

  lemma FirstStores(s: seq<byte>, seqByte: byte, subSeq: byte)
    requires |s| == 60 && forall i :: 0 <= i < 60 ==> s[i] == 0
    ensures s[0 := 0xAA][1 := seqByte][2 := subSeq][4 := 12][5 := 0]
         == [0xAA, seqByte, subSeq, 0, 12, 0, 0, 0] + ZeroBytes(52)
  {
  }

  lemma LastStores(s: seq<byte>, cmdSet: byte, cmdId: byte, subCmdId: byte, len: seq<byte>)
    requires |s| == 60 && |len| == 2
    ensures s[8 := 0x0A][9 := cmdSet][10 := cmdId][11 := subCmdId][12 := len[0]][13 := len[1]]
         == s[..8] + [0x0A, cmdSet, cmdId, subCmdId] + len + s[14..]
  {
  }

  lemma FixedPart(r: Request, fixed: seq<byte>, half: seq<byte>, s: seq<byte>)
    requires r.Legal() && |s| == RPC_FRAME_LEN
    requires half == [0xAA, r.seqByte, r.subSeq, 0, 12, 0, 0, 0] + ZeroBytes(52)
    requires s == half[..8] + [0x0A, r.cmdSet, r.cmdId, r.subCmdId] + ToLe16(|r.payload|) + half[14..]
    requires fixed == [0xAA, r.seqByte, r.subSeq, 0, 12, 0, 0, 0] + [0x0A, r.cmdSet, r.cmdId, r.subCmdId]
                      + ToLe16(|r.payload|) + [0, 0]
    ensures s == fixed + ZeroBytes(44)
    ensures fixed + r.payload == r.Header([0, 0]) + r.Inner([0, 0])
  {
    assert half[..8] == [0xAA, r.seqByte, r.subSeq, 0, 12, 0, 0, 0];
    assert half[14..] == [0, 0] + ZeroBytes(44);
  }

  lemma PayloadIsFilled(fixed: seq<byte>, payload: seq<byte>, s: seq<byte>)
    requires |fixed| == 16 && |payload| <= 44
    requires s == Patch(fixed + ZeroBytes(44), 16, payload)
    ensures s == fixed + payload + ZeroBytes(44 - |payload|)
  {
  }

  lemma TailIsFilled(before: seq<byte>, at: nat, tail: seq<byte>, s: seq<byte>)
    requires |before| <= at && at + |tail| <= 60
    requires s == Patch(before + ZeroBytes(60 - |before|), at, tail)
    ensures s == before + (ZeroBytes(at - |before|) + tail + ZeroBytes(60 - at - |tail|))
  {
  }

  method FillChecksums(buf: array<byte>, r: Request)
    requires r.Legal() && buf[..] == r.Blank()
    modifies buf
    ensures buf[..] == r.ToFrame()
  {
    var innerEnd := 16 + |r.payload|;
    var outer := Crc16Usb(buf[..12]);
    CopyInto(buf, 6, Le16(outer));
    OuterIsFilled(r, outer, buf[..]);
    if r.seqByte & 0x60 != 0 {
      var inner := Crc16Usb(buf[12..innerEnd]);
      CopyInto(buf, 14, Le16(inner));
      InnerIsFilled(r, Le16(outer), Le16(inner), buf[..]);
    }
  }

  lemma PatchFront(a: seq<byte>, b: seq<byte>, at: nat, src: seq<byte>)
    requires at + |src| <= |a|
    ensures Patch(a + b, at, src) == Patch(a, at, src) + b
  {
  }

  lemma PatchHeader(r: Request, crc: seq<byte>)
    requires |crc| == 2
    ensures Patch(r.Header([0, 0]), 6, crc) == r.Header(crc)
  {
  }

  lemma MiddlePart(a: seq<byte>, b: seq<byte>, c: seq<byte>)
    ensures (a + b + c)[..|a|] == a && (a + b + c)[|a|..|a| + |b|] == b
    ensures a + b + c == a + (b + c)
  {
  }

  lemma OuterIsFilled(r: Request, outer: bv16, s: seq<byte>)
    requires r.Legal() && s == Patch(r.Blank(), 6, Le16(outer))
    ensures s == r.Header(Le16(outer)) + r.Inner([0, 0]) + r.Rest()
    ensures r.Blank()[..12] == r.Header([0, 0])
    ensures s[12..16 + |r.payload|] == r.Inner([0, 0])
  {
    assert r.Blank() == r.Header([0, 0]) + r.Inner([0, 0]) + r.Rest();
    hide *;
    PatchFront(r.Header([0, 0]), r.Inner([0, 0]) + r.Rest(), 6, Le16(outer));
    PatchHeader(r, Le16(outer));
    MiddlePart(r.Header([0, 0]), r.Inner([0, 0]), r.Rest());
    MiddlePart(r.Header(Le16(outer)), r.Inner([0, 0]), r.Rest());
  }

  lemma PatchMiddle(a: seq<byte>, b: seq<byte>, c: seq<byte>, at: nat, src: seq<byte>)
    requires at + |src| <= |b|
    ensures Patch(a + b + c, |a| + at, src) == a + Patch(b, at, src) + c
  {
  }

  lemma PatchInner(r: Request, crc: seq<byte>)
    requires r.Legal() && |crc| == 2
    ensures Patch(r.Inner([0, 0]), 2, crc) == r.Inner(crc)
  {
  }

  lemma InnerIsFilled(r: Request, outer: seq<byte>, inner: seq<byte>, s: seq<byte>)
    requires r.Legal() && |outer| == |inner| == 2
    requires s == Patch(r.Header(outer) + r.Inner([0, 0]) + r.Rest(), 14, inner)
    ensures s == r.Header(outer) + r.Inner(inner) + r.Rest()
  {
    hide *;
    PatchMiddle(r.Header(outer), r.Inner([0, 0]), r.Rest(), 2, inner);
    PatchInner(r, inner);
  }
}
