/** Bytes, and the little-endian fields built from them. */
module Bytes {

  type byte = bv8

  /** The number a byte stands for. */
  function Num(b: byte): (n: int)
    ensures 0 <= n < 256
  {
    b as int
  }

  /** The byte that stands for n, counted up from zero. */
  function Byte(n: int): (b: byte)
    requires 0 <= n < 256
    ensures Num(b) == n
  {
    if n == 0 then 0 else Byte(n - 1) + 1
  }

  lemma NumIsInjective(a: byte, b: byte)
    ensures Num(a) == Num(b) <==> a == b
  {
  }

  lemma ByteOfNum(b: byte)
    ensures Byte(Num(b)) == b
  {
    NumIsInjective(Byte(Num(b)), b);
  }

  /** `u16::from_le_bytes`, as a number. */
  function FromLe16(lo: byte, hi: byte): (n: nat)
    ensures n < 0x1_0000
  {
    Num(lo) + 256 * Num(hi)
  }

  /** `u16::to_le_bytes`, of a number. */
  function ToLe16(n: int): (s: seq<byte>)
    requires 0 <= n < 0x1_0000
    ensures |s| == 2 && FromLe16(s[0], s[1]) == n
  {
    [Byte(n % 256), Byte(n / 256)]
  }

  /** n zero bytes. */
  function ZeroBytes(n: nat): (s: seq<byte>)
    ensures |s| == n && forall i :: 0 <= i < n ==> s[i] == 0
  {
    seq(n, _ => 0)
  }

  // ---- buffers ----

  /** A buffer with src copied into it. */
  function Patch(s: seq<byte>, at: nat, src: seq<byte>): (t: seq<byte>)
    requires at + |src| <= |s|
    ensures |t| == |s|
  {
    s[..at] + src + s[at + |src|..]
  }

  /** `copy_from_slice` into part of a buffer. */
  method CopyInto(buf: array<byte>, at: nat, src: seq<byte>)
    requires at + |src| <= buf.Length
    modifies buf
    ensures buf[..] == Patch(old(buf[..]), at, src)
  {
    forall i | 0 <= i < |src| {
      buf[at + i] := src[i];
    }
  }

  /** A buffer with bytes copied over its front. */
  function Over(out: seq<byte>, bytes: seq<byte>): (r: seq<byte>)
    requires |bytes| <= |out|
    ensures |r| == |out|
  {
    bytes + out[|bytes|..]
  }

  lemma OverIsPatch(out: seq<byte>, bytes: seq<byte>)
    requires |bytes| <= |out|
    ensures Over(out, bytes) == Patch(out, 0, bytes)
  {
  }
}
