/** Little-endian numbers of any width, and 32-bit two's complement. */
module LittleEndian {
  import opened Bytes

  function FromLe(s: seq<byte>): nat {
    if s == [] then 0 else Num(s[0]) + 256 * FromLe(s[1..])
  }

  /** The n low bytes of a number. */
  function ToLe(v: nat, n: nat): (s: seq<byte>)
    ensures |s| == n
  {
    if n == 0 then [] else [Byte(v % 256)] + ToLe(v / 256, n - 1)
  }

  lemma {:induction false} ToOfFrom(s: seq<byte>)
    ensures ToLe(FromLe(s), |s|) == s
  {
    if s != [] {
      ToOfFrom(s[1..]);
      ByteOfNum(s[0]);
      assert FromLe(s) % 256 == Num(s[0]) && FromLe(s) / 256 == FromLe(s[1..]);
    }
  }

  /** The first bytes of an encoding are the shorter encoding. */
  lemma {:induction false} ToLePrefix(v: nat, n: nat, m: nat)
    requires n <= m
    ensures ToLe(v, m)[..n] == ToLe(v, n)
  {
    if n > 0 {
      ToLePrefix(v / 256, n - 1, m - 1);
    }
  }

  lemma FromLeOne(a: byte)
    ensures FromLe([a]) == Num(a)
  {
    assert [a][1..] == [];
  }

  lemma FromLeCons(a: byte, s: seq<byte>)
    ensures FromLe([a] + s) == Num(a) + 256 * FromLe(s)
  {
    assert ([a] + s)[1..] == s;
  }

  lemma {:induction false} FromLeConcat2(s: seq<byte>, t: seq<byte>)
    requires |s| == 2
    ensures FromLe(s + t) == FromLe(s) + 0x1_0000 * FromLe(t)
  {
    var u := [s[1]] + t;
    assert s + t == [s[0]] + u && s == [s[0]] + [s[1]] && u == [s[1]] + t;
    FromLeCons(s[0], u);
    FromLeCons(s[1], t);
    FromLeCons(s[0], [s[1]]);
    FromLeOne(s[1]);
  }

  lemma {:induction false} FromLeBound(s: seq<byte>)
    ensures |s| == 1 ==> FromLe(s) < 0x100
    ensures |s| == 2 ==> FromLe(s) < 0x1_0000
    ensures |s| == 4 ==> FromLe(s) < 0x1_0000_0000
    decreases |s|
  {
    if |s| == 1 {
      assert s == [s[0]];
      FromLeOne(s[0]);
    } else if |s| == 2 {
      assert s == [s[0]] + [s[1]];
      FromLeCons(s[0], [s[1]]);
      FromLeOne(s[1]);
    } else if |s| == 4 {
      assert s == s[..2] + s[2..];
      FromLeConcat2(s[..2], s[2..]);
      FromLeBound(s[..2]);
      FromLeBound(s[2..]);
    }
  }

  // ---- 32-bit integers ----

  type i32 = v: int | -0x8000_0000 <= v < 0x8000_0000

  /** `i32::to_le_bytes`. */
  function I32ToLe(v: i32): (s: seq<byte>)
    ensures |s| == 4
  {
    ToLe(if v < 0 then v + 0x1_0000_0000 else v, 4)
  }

  /** `i32::from_le_bytes`. */
  function I32FromLe(s: seq<byte>): i32
    requires |s| == 4
  {
    FromLeBound(s);
    if FromLe(s) < 0x8000_0000 then FromLe(s) else FromLe(s) - 0x1_0000_0000
  }

  lemma I32RoundTrip(s: seq<byte>)
    requires |s| == 4
    ensures I32ToLe(I32FromLe(s)) == s
  {
    hide FromLe;
    FromLeBound(s);
    ToOfFrom(s);
  }

  lemma ToLe1(v: nat)
    ensures ToLe(v, 1) == [Byte(v % 256)]
  {
    assert ToLe(v / 256, 0) == [];
  }

  lemma ToLe2(v: nat)
    ensures ToLe(v, 2) == [Byte(v % 256)] + [Byte(v / 256 % 256)]
  {
    hide Byte;
    ToLe1(v / 256);
  }

  lemma Digits(v: nat)
    requires v < 0x1_0000
    ensures 0 <= v % 256 < 256 && 0 <= v / 256 < 256 && v / 256 % 256 == v / 256
    ensures v == v % 256 + 256 * (v / 256)
  {
  }

  lemma FromOfPair(r: nat, q: nat)
    requires r < 256 && q < 256
    ensures FromLe([Byte(r)] + [Byte(q)]) == r + 256 * q
  {
    hide FromLe, Byte;
    FromLeCons(Byte(r), [Byte(q)]);
    FromLeOne(Byte(q));
  }

  lemma FromOfTo2(v: nat)
    requires v < 0x1_0000
    ensures FromLe(ToLe(v, 2)) == v
  {
    hide FromLe, ToLe, Byte;
    Digits(v);
    ToLe2(v);
    FromOfPair(v % 256, v / 256);
  }

  lemma ToLeHalves(v: nat)
    ensures ToLe(v, 4) == ToLe(v, 2) + ToLe(v / 0x1_0000, 2)
  {
    hide Byte;
    assert v / 256 / 256 == v / 0x1_0000;
    var a, b, hi := Byte(v % 256), Byte(v / 256 % 256), ToLe(v / 0x1_0000, 2);
    assert ToLe(v / 256, 3) == [b] + hi;
    assert ToLe(v, 4) == [a] + ([b] + hi);
    ToLe2(v);
  }

  lemma Carry(r: nat, q: nat)
    ensures (r + 256 * q) % 256 == r % 256 && (r + 256 * q) / 256 == r / 256 + q
  {
  }

  lemma {:induction false} ToLe2Wraps(v: nat)
    ensures ToLe(v % 0x1_0000, 2) == ToLe(v, 2)
  {
    hide ToLe, Byte;
    var r, q := v % 0x1_0000, v / 0x1_0000;
    assert v == r + 256 * (256 * q);
    Carry(r, 256 * q);
    Carry(r / 256, q);
    ToLe2(v);
    ToLe2(r);
  }

  lemma FromOfTo4(v: nat)
    requires v < 0x1_0000_0000
    ensures FromLe(ToLe(v, 4)) == v
  {
    hide FromLe, ToLe;
    ToLeHalves(v);
    ToLe2Wraps(v);
    FromOfTo2(v % 0x1_0000);
    FromOfTo2(v / 0x1_0000);
    FromLeConcat2(ToLe(v, 2), ToLe(v / 0x1_0000, 2));
  }

  lemma I32OfLe(v: i32)
    ensures I32FromLe(I32ToLe(v)) == v
  {
    hide FromLe, ToLe;
    FromOfTo4(if v < 0 then v + 0x1_0000_0000 else v);
  }

  // ---- byte by byte ----

  lemma FromLe2(p: seq<byte>)
    requires |p| == 2
    ensures FromLe(p) == Num(p[0]) + 0x100 * Num(p[1])
  {
    assert p == [p[0]] + [p[1]];
    FromLeCons(p[0], [p[1]]);
    FromLeOne(p[1]);
  }

  lemma FromLe4(p: seq<byte>)
    requires |p| == 4
    ensures FromLe(p) == Num(p[0]) + 0x100 * Num(p[1]) + 0x1_0000 * Num(p[2]) + 0x100_0000 * Num(p[3])
  {
    assert p == p[..2] + p[2..];
    FromLeConcat2(p[..2], p[2..]);
    FromLe2(p[..2]);
    FromLe2(p[2..]);
  }

  lemma Unsigned(v: i32)
    ensures var w := if v < 0 then v + 0x1_0000_0000 else v; 0 <= w < 0x1_0000_0000 && w == v % 0x1_0000_0000
  {
  }

  /** The first byte is the lowest, and the bytes are those of the number modulo 2^32. */
  lemma I32Bytes(v: i32)
    ensures var p := I32ToLe(v);
      Num(p[0]) + 0x100 * Num(p[1]) + 0x1_0000 * Num(p[2]) + 0x100_0000 * Num(p[3]) == v % 0x1_0000_0000
  {
    var w := if v < 0 then v + 0x1_0000_0000 else v;
    Unsigned(v);
    assert I32ToLe(v) == ToLe(w, 4) by { hide ToLe; }
    hide *;
    FromLe4(ToLe(w, 4));
    FromOfTo4(w);
  }

  lemma Remainder(w: int, q: int, r: int)
    ensures w == 0x1_0000 * q + r && 0 <= r < 0x1_0000 ==> w % 0x1_0000 == r
    ensures w == 0x100 * q + r && 0 <= r < 0x100 ==> w % 0x100 == r
  {
  }

  lemma Modulo(v: i32)
    ensures var w := if v < 0 then v + 0x1_0000_0000 else v;
      w % 0x1_0000 == v % 0x1_0000 && w % 0x100 == v % 0x100
  {
    Remainder(v + 0x1_0000_0000, v / 0x1_0000 + 0x1_0000, v % 0x1_0000);
    Remainder(v + 0x1_0000_0000, v / 0x100 + 0x100_0000, v % 0x100);
  }

  /** What the low bytes of a number say. */
  lemma I32Low(v: i32)
    ensures FromLe(I32ToLe(v)[..2]) == v % 0x1_0000
    ensures I32ToLe(v)[..1] == [0] <==> v % 0x100 == 0
  {
    hide FromLe, ToLe, Byte;
    var w := if v < 0 then v + 0x1_0000_0000 else v;
    Modulo(v);
    ToLePrefix(w, 2, 4);
    ToLe2Wraps(w);
    FromOfTo2(w % 0x1_0000);
    ToLePrefix(w, 1, 4);
    ToLe1(w);
    assert [Byte(w % 256)][0] == Byte(w % 256) && [0 as byte][0] == 0;
    NumIsInjective(Byte(w % 256), 0);
  }
}
