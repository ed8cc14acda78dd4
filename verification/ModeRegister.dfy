/** Payloads of the mode register, selector 0x06 of the extension unit
    (crates/libobsbot-core/src/devices/meet2.rs). */
module ModeRegister {
  import opened Bytes

  const MODE_REGISTER_PAYLOAD_LEN := 60

  /** `mode_register_payload`. The source panics on a value that does not fit. */
  method ModeRegisterPayload(controlId: byte, value: seq<byte>) returns (payload: seq<byte>)
    requires |value| <= 58
    ensures |payload| == 60
    ensures Carries(payload, controlId, value)
  {
    var buf := new byte[MODE_REGISTER_PAYLOAD_LEN](_ => 0);
    buf[0] := controlId;
    buf[1] := Byte(|value|);
    ghost var before := buf[..];
    CopyInto(buf, 2, value);
    payload := buf[..];
    assert payload[2..2 + |value|] == value;
    assert forall i :: 2 + |value| <= i < MODE_REGISTER_PAYLOAD_LEN ==> payload[i] == before[i];
  }

  /** Control, length, value, and nothing else. */
  ghost predicate Carries(payload: seq<byte>, controlId: byte, value: seq<byte>) {
    && 2 + |value| <= |payload|
    && payload[0] == controlId && Num(payload[1]) == |value|
    && payload[2..2 + |value|] == value
    && forall i :: 2 + |value| <= i < |payload| ==> payload[i] == 0
  }

  /** A payload tells its control and its value, and they tell the payload. */
  lemma PayloadIsLossless(p: seq<byte>, q: seq<byte>, c: byte, d: byte, v: seq<byte>, w: seq<byte>)
    requires |p| == |q| && Carries(p, c, v) && Carries(q, d, w)
    ensures p == q <==> c == d && v == w
  {
    if c == d && v == w {
      NumIsInjective(p[1], q[1]);
      forall i | 0 <= i < |p| ensures p[i] == q[i] {
        if 2 <= i < 2 + |v| {
          assert p[i] == p[2..2 + |v|][i - 2] && q[i] == q[2..2 + |v|][i - 2];
        }
      }
    }
  }
}
