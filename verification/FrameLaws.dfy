/** What is true of every frame that `build_rpc_frame` can produce. */
module FrameLaws {
  import opened Bytes
  import opened Gf2
  import opened Words
  import opened Crc16
  import opened CrcDetection
  import opened RpcFrame

  // ---- the parts of a frame ----

  lemma FramePrefix(r: Request)
    requires r.Legal()
    ensures r.ToFrame()[..12] == r.Header(Le16(r.OuterCrc()))
    ensures r.ToFrame()[12..16 + |r.payload|] == r.Inner(r.InnerCrcField())
    ensures r.ToFrame()[16 + |r.payload|..] == r.Rest()
  {
    Parts(r.Header(Le16(r.OuterCrc())), r.Inner(r.InnerCrcField()), r.Rest());
  }

  lemma Parts(a: seq<byte>, b: seq<byte>, c: seq<byte>)
    ensures (a + b + c)[..|a|] == a
    ensures (a + b + c)[|a|..|a| + |b|] == b
    ensures (a + b + c)[|a| + |b|..] == c
  {
  }

  lemma HeaderParts(r: Request, crc: seq<byte>)
    requires |crc| == 2
    ensures r.Header(crc)[..6] == [0xAA, r.seqByte, r.subSeq, 0x00, 12, 0x00]
    ensures r.Header(crc)[6..8] == crc
    ensures r.Header(crc)[8..12] == [0x0A, r.cmdSet, r.cmdId, r.subCmdId]
  {
  }

  lemma InnerParts(r: Request, crc: seq<byte>)
    requires r.Legal() && |crc| == 2
    ensures r.Inner(crc)[..2] == ToLe16(|r.payload|)
    ensures r.Inner(crc)[2..4] == crc
    ensures r.Inner(crc)[4..] == r.payload
  {
  }

  lemma Slice(s: seq<byte>, a: nat, b: nat, i: nat, j: nat)
    requires a <= b <= |s| && i <= j <= b - a
    ensures s[a..b][i..j] == s[a + i..a + j]
  {
    forall k | 0 <= k < j - i ensures s[a..b][i..j][k] == s[a + i..a + j][k] {
      assert s[a..b][i + k] == s[a + (i + k)];
    }
  }

  lemma FrameFields(r: Request)
    requires r.Legal()
    ensures var f := r.ToFrame();
      && f[..6] == [0xAA, r.seqByte, r.subSeq, 0x00, 12, 0x00]
      && f[6..8] == Le16(r.OuterCrc())
      && f[8..12] == [0x0A, r.cmdSet, r.cmdId, r.subCmdId]
      && f[12..14] == ToLe16(|r.payload|)
      && f[14..16] == r.InnerCrcField()
      && f[16..16 + |r.payload|] == r.payload
  {
    var f := r.ToFrame();
    FramePrefix(r);
    HeaderParts(r, Le16(r.OuterCrc()));
    InnerParts(r, r.InnerCrcField());
    hide *;
    var n := 16 + |r.payload|;
    Slice(f, 0, 12, 0, 6);
    Slice(f, 0, 12, 6, 8);
    Slice(f, 0, 12, 8, 12);
    Slice(f, 12, n, 0, 2);
    Slice(f, 12, n, 2, 4);
    Slice(f, 12, n, 4, n - 12);
  }

  // ---- the receiver's check ----

  /** The header with its checksum field zeroed. */
  function ZeroedHeader(f: Frame): (h: seq<byte>)
    ensures |h| == 12
  {
    f[..6] + [0, 0] + f[8..12]
  }

  predicate OuterCheck(f: Frame) {
    f[6..8] == Le16(Crc(ZeroedHeader(f)))
  }

  /** The payload length that a frame states. */
  function StatedLength(f: Frame): nat {
    FromLe16(f[12], f[13])
  }

  /** Length, zeroed checksum field and payload. */
  function ZeroedInner(f: Frame): (s: seq<byte>)
    requires 16 + StatedLength(f) <= |f|
    ensures |s| == 4 + StatedLength(f)
  {
    f[12..14] + [0, 0] + f[16..16 + StatedLength(f)]
  }

  predicate InnerCheck(f: Frame) {
    && 16 + StatedLength(f) <= |f|
    && f[14..16] == (if f[1] & 0x60 != 0 then Le16(Crc(ZeroedInner(f))) else [0, 0])
  }

  /** Both checksums of a built frame are the ones that its receiver recomputes with the
      checksum fields zeroed; without bits 5 and 6 of the sequence byte the inner field is
      zero. */
  lemma {:induction false} BuiltFramePasses(r: Request)
    requires r.Legal()
    ensures OuterCheck(r.ToFrame()) && InnerCheck(r.ToFrame())
    ensures StatedLength(r.ToFrame()) == |r.payload|
  {
    var f := r.ToFrame();
    FrameFields(r);
    ZeroedHeaderOf(r);
    assert f[12] == f[12..14][0] && f[13] == f[12..14][1];
    assert f[1] == f[..6][1];
  }

  lemma ZeroedHeaderOf(r: Request)
    requires r.Legal()
    ensures ZeroedHeader(r.ToFrame()) == r.Header([0, 0])
  {
    FrameFields(r);
  }

  // ---- nothing is lost ----

  /** Read the arguments of `build_rpc_frame` back out of a frame, given where the tail is. */
  function Recover(f: Frame, tailOffset: nat, tailLength: nat): (r: Request)
    requires tailOffset + tailLength <= |f| && 16 + StatedLength(f) <= |f|
  {
    Request(f[1], f[2], f[9], f[10], f[11], f[16..16 + StatedLength(f)],
            tailOffset, f[tailOffset..tailOffset + tailLength])
  }

  /** Arguments are legal when the payload has at most 44 bytes and the tail lies behind it
      within the frame, and then they can all be read back. */
  lemma RecoverBuilt(r: Request)
    requires |r.payload| <= 44 && 16 + |r.payload| <= r.tailOffset && r.tailOffset + |r.tail| <= 60
    ensures r.Legal()
    ensures 16 + StatedLength(r.ToFrame()) <= RPC_FRAME_LEN
    ensures Recover(r.ToFrame(), r.tailOffset, |r.tail|) == r
  {
    assert r.Legal();
    hide Request.ToFrame, OuterCheck, InnerCheck, StatedLength;
    ScalarsOf(r);
    BuiltFramePasses(r);
    FrameFields(r);
    TailOf(r);
  }

  lemma ScalarsOf(r: Request)
    requires r.Legal()
    ensures var f := r.ToFrame();
      f[1] == r.seqByte && f[2] == r.subSeq && f[9] == r.cmdSet && f[10] == r.cmdId && f[11] == r.subCmdId
  {
    FrameFields(r);
    hide *;
    var f := r.ToFrame();
    assert f[1] == f[..6][1] && f[2] == f[..6][2];
    assert f[9] == f[8..12][1] && f[10] == f[8..12][2] && f[11] == f[8..12][3];
  }

  lemma TailOf(r: Request)
    requires r.Legal()
    ensures r.ToFrame()[r.tailOffset..r.tailOffset + |r.tail|] == r.tail
  {
    FramePrefix(r);
    var f, n := r.ToFrame(), 16 + |r.payload|;
    var a := r.tailOffset - n;
    assert r.Rest()[a..a + |r.tail|] == r.tail;
    Slice(f, n, RPC_FRAME_LEN, a, a + |r.tail|);
    assert f[n..RPC_FRAME_LEN] == f[n..];
  }

  // ---- what depends on what ----

  /** The header depends on the five scalar arguments only: not on payload or tail. */
  lemma HeaderIgnoresPayload(r: Request, s: Request)
    requires r.Legal() && s.Legal()
    requires r.seqByte == s.seqByte && r.subSeq == s.subSeq && r.cmdSet == s.cmdSet
    requires r.cmdId == s.cmdId && r.subCmdId == s.subCmdId
    ensures r.ToFrame()[..12] == s.ToFrame()[..12]
  {
    FramePrefix(r);
    FramePrefix(s);
  }

  /** A different tail changes nothing in front of it: neither checksum covers it. */
  lemma ChecksumsIgnoreTail(r: Request, tail: seq<byte>)
    requires r.Legal() && r.(tail := tail).Legal()
    ensures r.ToFrame()[..r.tailOffset] == r.(tail := tail).ToFrame()[..r.tailOffset]
    ensures r.(tail := tail).ToFrame()[r.tailOffset..r.tailOffset + |tail|] == tail
  {
    var s := r.(tail := tail);
    FramePrefix(r);
    FramePrefix(s);
    TailOf(s);
    var f, g, n := r.ToFrame(), s.ToFrame(), 16 + |r.payload|;
    assert f[..n] == f[..12] + f[12..n] && g[..n] == g[..12] + g[12..n];
    assert r.Rest()[..r.tailOffset - n] == ZeroBytes(r.tailOffset - n) == s.Rest()[..r.tailOffset - n];
    assert f[..r.tailOffset] == f[..n] + f[n..][..r.tailOffset - n];
    assert g[..r.tailOffset] == g[..n] + g[n..][..r.tailOffset - n];
  }

  // ---- what the outer checksum detects ----

  /** Two different headers that share their outer checksum differ in at least four bits,
      and not within sixteen consecutive bits. */
  lemma EqualOuterCrcs(r: Request, s: Request, start: nat, width: nat)
    requires r.OuterCrc() == s.OuterCrc() && r.Header([0, 0]) != s.Header([0, 0])
    ensures Flips(r.Header([0, 0]), s.Header([0, 0])) >= 4
    ensures width <= 16 ==> !SameOutside(r.Header([0, 0]), s.Header([0, 0]), start, width)
  {
    FourBitDistance(r.Header([0, 0]), s.Header([0, 0]));
    if width <= 16 && SameOutside(r.Header([0, 0]), s.Header([0, 0]), start, width) {
      BurstChangesCrc(r.Header([0, 0]), s.Header([0, 0]), start, width);
    }
  }

  lemma SameOutsideTwoBytes(a: seq<byte>, b: seq<byte>, k: nat)
    requires |a| == |b| && k + 2 <= |a| && a[..k] == b[..k] && a[k + 2..] == b[k + 2..]
    ensures SameOutside(a, b, 8 * k, 16)
  {
    forall i | 0 <= i < 8 * |a| && !(8 * k <= i < 8 * k + 16) ensures MessageBits(a)[i] == MessageBits(b)[i] {
      BitsOfMessage(a, i);
      BitsOfMessage(b, i);
      var j := i / 8;
      if j < k {
        assert a[j] == a[..k][j] && b[j] == b[..k][j];
      } else {
        assert a[j] == a[k + 2..][j - k - 2] && b[j] == b[k + 2..][j - k - 2];
      }
    }
  }

  /** Requests that differ only in their command pair never share an outer checksum. */
  lemma CommandsHaveDistinctCrcs(r: Request, s: Request)
    requires r.seqByte == s.seqByte && r.subSeq == s.subSeq && r.cmdSet == s.cmdSet
    ensures r.OuterCrc() == s.OuterCrc() <==> r.cmdId == s.cmdId && r.subCmdId == s.subCmdId
  {
    var a, b := r.Header([0, 0]), s.Header([0, 0]);
    HeaderParts(r, [0, 0]);
    HeaderParts(s, [0, 0]);
    assert a[..10] == b[..10] && a[12..] == b[12..];
    SameOutsideTwoBytes(a, b, 10);
    BurstChangesCrc(a, b, 80, 16);
    assert a[10] == r.cmdId && a[11] == r.subCmdId && b[10] == s.cmdId && b[11] == s.subCmdId;
  }

  lemma {:induction false} HeaderFlips(f: Frame, g: Frame)
    ensures Flips(f[..12], g[..12]) == Flips(ZeroedHeader(f), ZeroedHeader(g)) + Flips(f[6..8], g[6..8])
  {
    assert f[..12] == f[..6] + (f[6..8] + f[8..12]) && g[..12] == g[..6] + (g[6..8] + g[8..12]);
    assert ZeroedHeader(f) == f[..6] + ([0, 0] + f[8..12]) && ZeroedHeader(g) == g[..6] + ([0, 0] + g[8..12]);
    hide *;
    FlipsOfThree(f[..6], f[6..8], f[8..12], g[..6], g[6..8], g[8..12]);
    FlipsOfThree(f[..6], [0, 0], f[8..12], g[..6], [0, 0], g[8..12]);
    NoFlips([0, 0]);
  }

  lemma {:induction false} FlipsOfThree(a: seq<byte>, b: seq<byte>, c: seq<byte>,
                                        a': seq<byte>, b': seq<byte>, c': seq<byte>)
    requires |a| == |a'| && |b| == |b'| && |c| == |c'|
    ensures Flips(a + (b + c), a' + (b' + c')) == Flips(a, a') + Flips(b, b') + Flips(c, c')
  {
    hide *;
    FlipsOfConcat(a, b + c, a', b' + c');
    FlipsOfConcat(b, c, b', c');
  }

  /** A frame that arrives corrupted in its first twelve bytes passes the outer check exactly
      when the error leaves no remainder: whether it does depends on the error alone. */
  lemma CorruptHeaderExactly(r: Request, f: Frame)
    requires r.Legal()
    ensures var g := r.ToFrame();
      OuterCheck(f) <==> Absorb(0, XorBytes(ZeroedHeader(g) + g[6..8], ZeroedHeader(f) + f[6..8])) == 0
  {
    FrameFields(r);
    ZeroedHeaderOf(r);
    hide Absorb, XorBytes;
    var g := r.ToFrame();
    CorruptionExactly(ZeroedHeader(g), g[6..8], ZeroedHeader(f), f[6..8]);
  }

  /** Up to three bit errors anywhere in the first twelve bytes, the checksum field among
      them, or a burst of at most sixteen bits outside that field, pass the outer check
      exactly when there is no error. */
  lemma CorruptHeaderIsSeen(r: Request, f: Frame, start: nat, width: nat)
    requires r.Legal()
    requires || Flips(f[..12], r.ToFrame()[..12]) <= 3
             || (f[6..8] == r.ToFrame()[6..8] && width <= 16
                 && SameOutside(ZeroedHeader(r.ToFrame()), ZeroedHeader(f), start, width))
    ensures OuterCheck(f) <==> f[..12] == r.ToFrame()[..12]
  {
    FrameFields(r);
    ZeroedHeaderOf(r);
    hide Flips, SameOutside;
    var g := r.ToFrame();
    HeaderFlips(f, g);
    FlipsAreMutual(f[6..8], g[6..8]);
    FlipsAreMutual(ZeroedHeader(f), ZeroedHeader(g));
    CorruptionIsSeen(ZeroedHeader(g), g[6..8], ZeroedHeader(f), f[6..8], start, width);
    SameHeader(f, g);
  }

  lemma FlipsAreMutual(a: seq<byte>, b: seq<byte>)
    requires |a| == |b|
    ensures Flips(a, b) == Flips(b, a)
  {
    assert Add(MessageBits(a), MessageBits(b)) == Add(MessageBits(b), MessageBits(a));
  }

  lemma SameHeader(f: Frame, g: Frame)
    ensures ZeroedHeader(f) == ZeroedHeader(g) && f[6..8] == g[6..8] <==> f[..12] == g[..12]
  {
    assert f[..12] == f[..6] + f[6..8] + f[8..12] && g[..12] == g[..6] + g[6..8] + g[8..12];
    assert ZeroedHeader(f)[..6] == f[..6] && ZeroedHeader(f)[8..] == f[8..12];
    assert ZeroedHeader(g)[..6] == g[..6] && ZeroedHeader(g)[8..] == g[8..12];
    if f[..12] == g[..12] {
      Slice(f, 0, 12, 0, 6);
      Slice(f, 0, 12, 6, 8);
      Slice(f, 0, 12, 8, 12);
      Slice(g, 0, 12, 0, 6);
      Slice(g, 0, 12, 6, 8);
      Slice(g, 0, 12, 8, 12);
    }
  }

  // ---- a burst across the checksum field ----

  /** Fourteen bits, across bytes 5, 6 and 7. */
  const STRADDLE: seq<byte> := [0, 0, 0, 0, 0, 0x18, 0x98, 0x01, 0, 0, 0, 0]

  lemma {:induction false} StraddleLeavesNothing()
    ensures Absorb(0, [0, 0, 0, 0, 0, 0x18, 0, 0, 0, 0, 0, 0] + [0x98, 0x01]) == 0
  {
    var e: seq<byte> := [0, 0, 0, 0, 0];
    assert e == ZeroBytes(5);
    AbsorbNothing(5);
    assert AbsorbByte(0, 0x18) == 0x0A00 && AbsorbByte(0x0A00, 0) == 0x000A;
    assert AbsorbByte(0x000A, 0) == 0x0780 && AbsorbByte(0x0780, 0) == 0xA006;
    assert AbsorbByte(0xA006, 0) == 0x0220 && AbsorbByte(0x0220, 0) == 0xD803;
    assert AbsorbByte(0xD803, 0) == 0x0198;
    assert AbsorbByte(0x0198, 0x98) == 0x0001 && AbsorbByte(0x0001, 0x01) == 0;
    hide *;
    AbsorbSnoc(0, e, 0x18);
    AbsorbSnoc(0, e + [0x18], 0);
    AbsorbSnoc(0, e + [0x18] + [0], 0);
    AbsorbSnoc(0, e + [0x18] + [0] + [0], 0);
    AbsorbSnoc(0, e + [0x18] + [0] + [0] + [0], 0);
    AbsorbSnoc(0, e + [0x18] + [0] + [0] + [0] + [0], 0);
    AbsorbSnoc(0, e + [0x18] + [0] + [0] + [0] + [0] + [0], 0);
    var m := e + [0x18] + [0] + [0] + [0] + [0] + [0] + [0];
    AbsorbSnoc(0, m, 0x98);
    AbsorbSnoc(0, m + [0x98], 0x01);
    assert m + [0x98] + [0x01] == [0, 0, 0, 0, 0, 0x18, 0, 0, 0, 0, 0, 0] + [0x98, 0x01];
  }

  lemma {:induction false} StraddleIsNarrow(a: seq<byte>)
    requires |a| == 12
    ensures SameOutside(a, XorBytes(a, STRADDLE), 43, 14)
  {
    MessageBitsOfXor(a, STRADDLE);
    forall i | 0 <= i < 96 && !(43 <= i < 57) ensures !MessageBits(STRADDLE)[i] {
      BitsOfMessage(STRADDLE, i);
      BitsOfStraddle(i % 8);
    }
  }

  lemma BitsOfStraddle(j: nat)
    requires j < 8
    ensures !BitAt(Word(0x00), j) && (j > 0 ==> !BitAt(Word(0x01), j)) && (j < 3 ==> !BitAt(Word(0x18), j))
  {
    BitsOfBit(false, j);
    BitsOfBit(true, j);
    PlaceValues();
  }

  /** The first twelve bytes as a message and its checksum. */
  function Code(x: seq<byte>): (c: seq<byte>)
    requires |x| == 12
    ensures |c| == 14
  {
    x[..6] + [0, 0] + x[8..12] + x[6..8]
  }

  lemma CodeAt(x: seq<byte>, k: nat)
    requires |x| == 12 && k < 14
    ensures Code(x)[k] == if k < 6 || 8 <= k < 12 then x[k] else if k < 8 then 0 else x[k - 6]
  {
  }

  lemma XorOfCodes(x: seq<byte>, e: seq<byte>)
    requires |x| == |e| == 12
    ensures XorBytes(Code(x), Code(XorBytes(x, e))) == Code(e)
  {
    hide Code;
    var y := XorBytes(x, e);
    forall k | 0 <= k < 14 ensures XorBytes(Code(x), Code(y))[k] == Code(e)[k] {
      CodeAt(x, k);
      CodeAt(y, k);
      CodeAt(e, k);
      var i := if k < 12 then k else k - 6;
      XorByteTwice(x[i], e[i]);
      XorByteTwice(0, 0);
    }
  }

  lemma CodeOf(f: Frame)
    ensures Code(f[..12]) == ZeroedHeader(f) + f[6..8]
  {
    Slice(f, 0, 12, 0, 6);
    Slice(f, 0, 12, 6, 8);
    Slice(f, 0, 12, 8, 12);
  }

  /** A burst that runs across the edge of the checksum field may escape: this one, of
      fourteen bits, passes the outer check of every frame. */
  lemma {:induction false} StraddlingBurstEscapes(r: Request) returns (f: Frame)
    requires r.Legal()
    ensures OuterCheck(f) && f[12..] == r.ToFrame()[12..]
    ensures f[..12] != r.ToFrame()[..12] && SameOutside(r.ToFrame()[..12], f[..12], 43, 14)
  {
    var g := r.ToFrame();
    var x := XorBytes(g[..12], STRADDLE);
    assert x[5] == g[..12][5] ^ 0x18;
    XorChanges(g[..12][5]);
    assert Code(STRADDLE) == [0, 0, 0, 0, 0, 0x18, 0, 0, 0, 0, 0, 0] + [0x98, 0x01];
    hide *;
    f := x + g[12..];
    assert f[..12] == x;
    CorruptHeaderExactly(r, f);
    CodeOf(g);
    CodeOf(f);
    XorOfCodes(g[..12], STRADDLE);
    StraddleLeavesNothing();
    StraddleIsNarrow(g[..12]);
  }

  lemma XorChanges(x: byte)
    ensures x ^ 0x18 != x
  {
  }

  // ---- what the inner checksum detects ----

  lemma {:induction false} InnerFlips(f: Frame, g: Frame)
    requires StatedLength(f) == StatedLength(g) && 16 + StatedLength(f) <= RPC_FRAME_LEN && f[12..14] == g[12..14]
    ensures var end := 16 + StatedLength(f);
      Flips(f[14..end], g[14..end]) == Flips(ZeroedInner(f), ZeroedInner(g)) + Flips(f[14..16], g[14..16])
  {
    var end := 16 + StatedLength(f);
    assert f[14..end] == f[14..16] + f[16..end] && g[14..end] == g[14..16] + g[16..end];
    var len := f[12..14] + [0, 0];
    assert ZeroedInner(f) == len + f[16..end] && ZeroedInner(g) == len + g[16..end];
    hide *;
    FlipsOfConcat(f[14..16], f[16..end], g[14..16], g[16..end]);
    FlipsOfConcat(len, f[16..end], len, g[16..end]);
    NoFlips(len);
  }

  /** The same of the inner check, for errors behind the length field: up to three bit
      errors in checksum field and payload, or a burst of at most sixteen bits in the
      payload. */
  lemma CorruptPayloadIsSeen(r: Request, f: Frame, start: nat, width: nat)
    requires r.Legal() && r.HasInnerCrc() && f[1] == r.seqByte && f[12..14] == r.ToFrame()[12..14]
    requires var g, end := r.ToFrame(), 16 + |r.payload|;
      || Flips(f[14..end], g[14..end]) <= 3
      || (f[14..16] == g[14..16] && StatedLength(f) == |r.payload| == StatedLength(g) && width <= 16
          && SameOutside(ZeroedInner(g), ZeroedInner(f), start, width))
    ensures InnerCheck(f) <==> f[14..16 + |r.payload|] == r.ToFrame()[14..16 + |r.payload|]
  {
    var g, end := r.ToFrame(), 16 + |r.payload|;
    BuiltFramePasses(r);
    FrameFields(r);
    SameStatedLength(f, g);
    assert g[1] == g[..6][1];
    hide Flips, SameOutside, StatedLength, FromLe16;
    InnerFlips(f, g);
    FlipsAreMutual(f[14..16], g[14..16]);
    FlipsAreMutual(ZeroedInner(f), ZeroedInner(g));
    CorruptionIsSeen(ZeroedInner(g), g[14..16], ZeroedInner(f), f[14..16], start, width);
    SameInner(f, g);
  }

  lemma SameStatedLength(f: Frame, g: Frame)
    requires f[12..14] == g[12..14]
    ensures StatedLength(f) == StatedLength(g)
  {
    assert f[12] == f[12..14][0] && f[13] == f[12..14][1] && g[12] == g[12..14][0] && g[13] == g[12..14][1];
  }

  lemma SameInner(f: Frame, g: Frame)
    requires StatedLength(f) == StatedLength(g) && 16 + StatedLength(f) <= RPC_FRAME_LEN && f[12..14] == g[12..14]
    ensures var end := 16 + StatedLength(f);
      ZeroedInner(f) == ZeroedInner(g) && f[14..16] == g[14..16] <==> f[14..end] == g[14..end]
  {
    var end := 16 + StatedLength(f);
    assert f[14..end] == f[14..16] + f[16..end] && g[14..end] == g[14..16] + g[16..end];
    assert ZeroedInner(f)[4..] == f[16..end] && ZeroedInner(g)[4..] == g[16..end];
    assert f[14..end][..2] == f[14..16] && f[14..end][2..] == f[16..end];
    assert g[14..end][..2] == g[14..16] && g[14..end][2..] == g[16..end];
  }

  /** What the inner check reads, with its field at the end. */
  function InnerCode(f: Frame): (c: seq<byte>)
    requires 16 + StatedLength(f) <= |f|
    ensures |c| == 6 + StatedLength(f) <= 50
  {
    ZeroedInner(f) + f[14..16]
  }

  /** What a length alone makes of the register. */
  function LengthTerm(n: nat): bv16 {
    Absorb(0xFFFF, ZeroBytes(6 + n))
  }

  lemma InnerIsResidual(f: Frame)
    requires 16 + StatedLength(f) <= |f| && f[1] & 0x60 != 0
    ensures InnerCheck(f) <==> Crc(InnerCode(f)) == 0x4FFE
  {
    hide Crc, Le16, StatedLength;
    Residual(ZeroedInner(f), f[14..16]);
  }

  lemma BuiltInner(r: Request)
    requires r.Legal() && r.HasInnerCrc()
    ensures var g := r.ToFrame();
      16 + StatedLength(g) <= |g| && g[1] & 0x60 != 0 && Crc(InnerCode(g)) == 0x4FFE
  {
    BuiltFramePasses(r);
    FrameFields(r);
    assert r.ToFrame()[1] == r.ToFrame()[..6][1];
    InnerIsResidual(r.ToFrame());
  }

  lemma {:induction false} PassesExactly(g: Frame, f: Frame)
    requires 16 + StatedLength(g) <= |g| && Crc(InnerCode(g)) == 0x4FFE
    requires 16 + StatedLength(f) <= |f| && f[1] & 0x60 != 0
    ensures InnerCheck(f) <==>
      IsXor(Absorb(0, XorBytes(Padded(InnerCode(g), 50), Padded(InnerCode(f), 50))),
            LengthTerm(StatedLength(g)), LengthTerm(StatedLength(f)))
  {
    hide IsXor, Absorb, Crc, XorBytes, Padded, StatedLength, InnerCheck, InnerCode;
    InnerIsResidual(f);
    SameCrcPadded(InnerCode(g), InnerCode(f), 50);
  }

  /** A frame that arrives corrupted anywhere, length field and all, passes the inner check
      exactly when the length it states fits and the error, in what the two lengths make the
      check read, leaves the remainder that the lengths account for. */
  lemma {:induction false} CorruptInnerExactly(r: Request, f: Frame)
    requires r.Legal() && r.HasInnerCrc() && f[1] & 0x60 != 0
    ensures var g := r.ToFrame();
      && 16 + StatedLength(g) <= |g|
      && (InnerCheck(f) <==>
          && 16 + StatedLength(f) <= |f|
          && IsXor(Absorb(0, XorBytes(Padded(InnerCode(g), 50), Padded(InnerCode(f), 50))),
                   LengthTerm(StatedLength(g)), LengthTerm(StatedLength(f))))
  {
    assert InnerCheck(f) ==> 16 + StatedLength(f) <= |f|;
    hide *;
    BuiltInner(r);
    if 16 + StatedLength(f) <= |f| {
      PassesExactly(r.ToFrame(), f);
    }
  }

  /** With the length field intact, that is when the error leaves no remainder. */
  lemma {:induction false} CorruptPayloadExactly(r: Request, f: Frame)
    requires r.Legal() && r.HasInnerCrc() && f[1] & 0x60 != 0 && f[12..14] == r.ToFrame()[12..14]
    ensures 16 + StatedLength(f) <= |f| && StatedLength(f) == StatedLength(r.ToFrame())
    ensures InnerCheck(f) <==> Absorb(0, XorBytes(InnerCode(r.ToFrame()), InnerCode(f))) == 0
  {
    hide *;
    BuiltInner(r);
    SameStatedLength(f, r.ToFrame());
    InnerIsResidual(f);
    SameCrcExactly(InnerCode(r.ToFrame()), InnerCode(f));
  }

  lemma {:induction false} FourZeros()
    ensures Absorb(0xFFFF, [0x00, 0x00, 0x00, 0x00]) == 0x2400
  {
    assert AbsorbByte(0xFFFF, 0x00) == 0x40BF && AbsorbByte(0x40BF, 0x00) == 0xB001;
    assert AbsorbByte(0xB001, 0x00) == 0xC071 && AbsorbByte(0xC071, 0x00) == 0x2400;
    hide Absorb, AbsorbByte;
    var a: seq<byte> := [0x00, 0x00, 0x00];
    AbsorbThree(0xFFFF, 0x00, 0x00, 0x00);
    AbsorbSnoc(0xFFFF, a, 0x00);
    assert a + [0x00] == [0x00, 0x00, 0x00, 0x00];
  }

  lemma {:induction false} TwoMore()
    ensures Absorb(0xFFFF, [0x02, 0x00, 0x00, 0x00, 0x00, 0x2C]) == 0x2400
  {
    assert AbsorbByte(0xFFFF, 0x02) == 0x813E && AbsorbByte(0x813E, 0x00) == 0xD000;
    assert AbsorbByte(0xD000, 0x00) == 0x00D0 && AbsorbByte(0x00D0, 0x00) == 0x9C01;
    assert AbsorbByte(0x9C01, 0x00) == 0xC05D && AbsorbByte(0xC05D, 0x2C) == 0x2400;
    hide Absorb, AbsorbByte;
    var a: seq<byte> := [0x02, 0x00, 0x00];
    AbsorbThree(0xFFFF, 0x02, 0x00, 0x00);
    AbsorbSnoc(0xFFFF, a, 0x00);
    AbsorbSnoc(0xFFFF, a + [0x00], 0x00);
    AbsorbSnoc(0xFFFF, a + [0x00] + [0x00], 0x2C);
    assert a + [0x00] + [0x00] + [0x2C] == [0x02, 0x00, 0x00, 0x00, 0x00, 0x2C];
  }

  lemma {:induction false} LengthCollision()
    ensures Crc([0x00, 0x00, 0x00, 0x00]) == Crc([0x02, 0x00, 0x00, 0x00, 0x00, 0x2C])
  {
    hide Absorb;
    FourZeros();
    TwoMore();
  }

  lemma EmptyLength(r: Request, g: Frame)
    requires r.Legal() && g == r.ToFrame() && r.payload == []
    ensures g[12..14] == [0x00, 0x00] && g[12] == 0x00 && g[13] == 0x00
    ensures StatedLength(g) == 0 && StatedLength(g[12 := 0x02]) == 2
  {
    FrameFields(r);
    assert ToLe16(0) == [0x00, 0x00];
    assert g[12] == g[12..14][0] && g[13] == g[12..14][1];
  }

  lemma LongerPasses(g: Frame, f: Frame)
    requires f == g[12 := 0x02] && g[12..14] == [0x00, 0x00] && g[16..18] == [0x00, 0x2C]
    requires StatedLength(g) == 0 && StatedLength(f) == 2 && g[1] & 0x60 != 0 && OuterCheck(g) && InnerCheck(g)
    ensures OuterCheck(f) && InnerCheck(f)
  {
    LengthCollision();
    hide Crc, Le16, StatedLength;
    assert f[..6] == g[..6] && f[6..8] == g[6..8] && f[8..12] == g[8..12] && f[14..16] == g[14..16];
    assert f[12] == 0x02 && f[13] == g[12..14][1] && f[12..14] == [0x02, 0x00];
    assert f[16..18] == g[16..18];
    assert ZeroedInner(g) == [0x00, 0x00, 0x00, 0x00];
    assert ZeroedInner(f) == [0x02, 0x00, 0x00, 0x00, 0x00, 0x2C];
  }

  /** Errors in the length field are another matter: neither checksum is sure to see even
      one. In this frame a single flipped bit turns an empty payload into one of two bytes,
      and both checks pass. */
  lemma LengthErrorMayEscape() returns (r: Request, f: Frame)
    ensures r.Legal() && r.HasInnerCrc() && StatedLength(r.ToFrame()) == 0
    ensures f == r.ToFrame()[12 := 0x02] && r.ToFrame()[12] == 0x00
    ensures OuterCheck(f) && InnerCheck(f) && StatedLength(f) == 2
  {
    r := Request(0x25, 0x04, 0x02, 0x02, 0x36, [], 16, [0x00, 0x2C]);
    var g := r.ToFrame();
    f := g[12 := 0x02];
    BuiltFramePasses(r);
    FrameFields(r);
    TailOf(r);
    EmptyLength(r, g);
    assert g[1] == g[..6][1];
    hide OuterCheck, InnerCheck, StatedLength;
    LongerPasses(g, f);
  }
}
