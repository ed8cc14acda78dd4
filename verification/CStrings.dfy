/** Strings handed to C callers (crates/libobsbot-ffi/src/lib.rs). */
module CStrings {
  import opened Wrappers
  import opened Bytes
  import opened RpcFrame
  import opened RpcReply

  const OBSBOT_STR_MAX := 64

  // ---- what a C reader sees ----

  /** The bytes in front of the first NUL. */
  function CString(buf: seq<byte>): seq<byte> {
    buf[..FirstNul(buf)]
  }

  predicate NulFree(s: seq<byte>) {
    forall i :: 0 <= i < |s| ==> s[i] != 0
  }

  // ---- the truncating copy ----

  /** How many bytes of s fit in front of the terminator. */
  function Kept(cap: nat, s: seq<byte>): (n: nat)
    requires cap > 0
    ensures n <= |s| && n < cap
  {
    if |s| < cap - 1 then |s| else cap - 1
  }

  /** The buffer after `copy_into_buf`. */
  function Stored(buf: seq<byte>, cap: nat, s: seq<byte>): (r: seq<byte>)
    requires cap <= |buf|
    ensures |r| == |buf|
  {
    if cap == 0 then buf else s[..Kept(cap, s)] + [0] + buf[Kept(cap, s) + 1..]
  }

  method CopyIntoBuf(buf: array<byte>, cap: nat, s: seq<byte>)
    requires cap <= buf.Length
    modifies buf
    ensures buf[..] == Stored(old(buf[..]), cap, s)
  {
    if cap == 0 {
      return;
    }
    var n := if |s| < cap - 1 then |s| else cap - 1;
    forall i | 0 <= i < n {
      buf[i] := s[i];
    }
    buf[n] := 0;
  }

  /** A string that fits is stored whole, one that does not as its first cap - 1 bytes. */
  lemma StoredBytes(buf: seq<byte>, cap: nat, s: seq<byte>)
    requires cap <= |buf|
    ensures cap == 0 ==> Stored(buf, cap, s) == buf
    ensures |s| < cap ==> Stored(buf, cap, s) == s + [0] + buf[|s| + 1..]
    ensures 0 < cap <= |s| ==> Stored(buf, cap, s) == s[..cap - 1] + [0] + buf[cap..]
  {
    if |s| < cap {
      assert s[..|s|] == s;
    }
  }

  lemma {:induction false} FirstNulOfConcat(s: seq<byte>, rest: seq<byte>)
    ensures FirstNul(s + [0] + rest) == FirstNul(s)
  {
    FirstNulExactly(s, FirstNul(s));
    FirstNulExactly(s + [0] + rest, FirstNul(s));
  }

  /** A C reader of a stored string sees its first cap - 1 bytes, up to a NUL among them. */
  lemma ReadOfStored(buf: seq<byte>, cap: nat, s: seq<byte>)
    requires 0 < cap <= |buf|
    ensures CString(Stored(buf, cap, s)) == CString(if |s| < cap then s else s[..cap - 1])
  {
    var kept := s[..Kept(cap, s)];
    var rest := buf[Kept(cap, s) + 1..];
    assert kept == if |s| < cap then s else s[..cap - 1];
    FirstNulOfConcat(kept, rest);
    assert (kept + [0] + rest)[..FirstNul(kept)] == kept[..FirstNul(kept)];
  }

  /** The reader sees exactly s just when s is short enough and has no NUL in it. */
  lemma ReadIsExact(buf: seq<byte>, cap: nat, s: seq<byte>)
    requires 0 < cap <= |buf|
    ensures CString(Stored(buf, cap, s)) == s <==> |s| < cap && NulFree(s)
  {
    ReadOfStored(buf, cap, s);
    var kept := s[..Kept(cap, s)];
    FirstNulExactly(kept, FirstNul(kept));
    if |s| < cap {
      assert kept == s;
      if NulFree(s) {
        FirstNulExactly(s, |s|);
      }
    } else {
      assert |CString(kept)| <= |kept| < |s|;
    }
  }

  // ---- the checked copy ----

  datatype Code<+E> = Okay | NotFound | OutOfRange | Failed(error: E)

  /** `copy_string_out` with a live handle and buffer; `fetched` is what the camera call
      returns. */
  method CopyStringOut<E>(out: array<byte>, bufLen: nat, fetched: Result<seq<byte>, E>) returns (code: Code<E>)
    requires bufLen <= out.Length
    modifies out
    ensures code == Okay <==> bufLen > 0 && fetched.Ok? && |fetched.value| + 1 <= bufLen
    ensures code == Okay ==> out[..] == fetched.value + [0] + old(out[..])[|fetched.value| + 1..]
    ensures code != Okay ==> out[..] == old(out[..])
    ensures code == NotFound <==> bufLen == 0
    ensures code.Failed? <==> bufLen > 0 && fetched.Err?
    ensures code.Failed? ==> code.error == fetched.error
  {
    if bufLen == 0 {
      return NotFound;
    }
    if fetched.Err? {
      return Failed(fetched.error);
    }
    var bytes := fetched.value;
    if |bytes| + 1 > bufLen {
      return OutOfRange;
    }
    forall i | 0 <= i < |bytes| {
      out[i] := bytes[i];
    }
    out[|bytes|] := 0;
    code := Okay;
  }

  // ---- the status snapshot ----

  datatype Status = Status(
    firmware: string, serial: string, brightness: int, contrast: int, saturation: int,
    zoom: real, pan: real, tilt: real)

  class ObsbotStatus {
    const firmware: array<byte>
    const serial: array<byte>
    var brightness: int
    var contrast: int
    var saturation: int
    var zoom: real
    var pan: real
    var tilt: real

    ghost predicate Valid()
      reads this
    {
      firmware.Length == 64 == serial.Length && firmware != serial
    }

    constructor ()
      ensures Valid() && fresh(firmware) && fresh(serial)
    {
      firmware := new byte[OBSBOT_STR_MAX](_ => 0);
      serial := new byte[OBSBOT_STR_MAX](_ => 0);
    }

    /** The copies of `obsbot_device_status`: the whole struct is zeroed first. */
    method Fill(snap: Status)
      requires Valid() && IsAscii(snap.firmware) && IsAscii(snap.serial)
      modifies this, firmware, serial
      ensures firmware[..] == Stored(ZeroBytes(64), 64, BytesOf(snap.firmware))
      ensures serial[..] == Stored(ZeroBytes(64), 64, BytesOf(snap.serial))
      ensures (brightness, contrast, saturation) == (snap.brightness, snap.contrast, snap.saturation)
      ensures (zoom, pan, tilt) == (snap.zoom, snap.pan, snap.tilt)
    {
      forall i | 0 <= i < OBSBOT_STR_MAX { firmware[i] := 0; }
      forall i | 0 <= i < OBSBOT_STR_MAX { serial[i] := 0; }
      brightness, contrast, saturation, zoom, pan, tilt := 0, 0, 0, 0.0, 0.0, 0.0;
      assert firmware[..] == ZeroBytes(OBSBOT_STR_MAX) && serial[..] == ZeroBytes(OBSBOT_STR_MAX);
      CopyIntoBuf(firmware, OBSBOT_STR_MAX, BytesOf(snap.firmware));
      CopyIntoBuf(serial, OBSBOT_STR_MAX, BytesOf(snap.serial));
      brightness := snap.brightness;
      contrast := snap.contrast;
      saturation := snap.saturation;
      zoom := snap.zoom;
      pan := snap.pan;
      tilt := snap.tilt;
    }
  }

  // ---- from the wire to the C caller ----

  lemma GraphicIsStorable(s: string)
    requires IsGraphicText(s)
    ensures IsAscii(s) && NulFree(BytesOf(s))
  {
    forall i | 0 <= i < |s| ensures BytesOf(s)[i] != 0 {
      assert Num(BytesOf(s)[i]) == s[i] as int;
      NumIsInjective(BytesOf(s)[i], 0);
    }
  }

  /** Every serial number and every version decoded from a frame reaches a C reader of the
      status struct whole, and fits in any buffer of 45 bytes. */
  lemma DecodedTextReachesC(buf: Frame, text: string)
    requires DecodeSerialReply(buf) == Some(text) || DecodeFirmwareReply(buf) == Some(text)
    ensures IsAscii(text) && |BytesOf(text)| + 1 <= 45
    ensures CString(Stored(ZeroBytes(64), 64, BytesOf(text))) == BytesOf(text)
    ensures TextOf(CString(Stored(ZeroBytes(64), 64, BytesOf(text)))) == text
  {
    DecodedTextIsShort(buf);
    GraphicIsStorable(text);
    ReadIsExact(ZeroBytes(OBSBOT_STR_MAX), OBSBOT_STR_MAX, BytesOf(text));
    BytesRoundTrip(text);
  }
}
