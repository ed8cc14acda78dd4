/** The checksum of the RPC channel, `crc16_usb` (crates/libobsbot-core/src/devices/meet2.rs),
    and its meaning as a polynomial remainder. */
module Crc16 {
  import opened Bytes
  import opened Gf2
  import opened Words

  // ---- the register, as the source shifts it ----

  /** One round of the inner loop. */
  function Shift(c: bv16): bv16 {
    if c & 1 != 0 then (c >> 1) ^ 0xA001 else c >> 1
  }

  function Shifts(c: bv16, n: nat): bv16 {
    if n == 0 then c else Shift(Shifts(c, n - 1))
  }

  /** One round of the outer loop. */
  function AbsorbByte(c: bv16, b: byte): bv16 {
    Shifts(c ^ Word(b), 8)
  }

  function Absorb(c: bv16, data: seq<byte>): bv16 {
    if data == [] then c else AbsorbByte(Absorb(c, data[..|data| - 1]), data[|data| - 1])
  }

  function Crc(data: seq<byte>): bv16 {
    !Absorb(0xFFFF, data)
  }

  method Crc16Usb(data: seq<byte>) returns (crc: bv16)
    ensures crc == Crc(data)
    ensures IsRemainder(Dividend(MessageBits(data)), GENERATOR, RegisterBits(!crc))
  {
    crc := 0xFFFF;
    for k := 0 to |data|
      invariant crc == Absorb(0xFFFF, data[..k])
    {
      ghost var before := crc ^ Word(data[k]);
      crc := crc ^ Word(data[k]);
      for j := 0 to 8
        invariant crc == Shifts(before, j)
      {
        if crc & 1 != 0 {
          crc := (crc >> 1) ^ 0xA001;
        } else {
          crc := crc >> 1;
        }
      }
      AbsorbNext(0xFFFF, data, k);
    }
    assert data[..|data|] == data;
    CrcIsRemainder(data);
    Complement(crc, data);
    crc := !crc;
  }

  lemma Complement(c: bv16, data: seq<byte>)
    requires c == Absorb(0xFFFF, data)
    ensures !c == Crc(data) && !!c == !Crc(data)
  {
  }

  lemma AbsorbNext(c: bv16, data: seq<byte>, k: nat)
    requires k < |data|
    ensures Absorb(c, data[..k + 1]) == Shifts(Absorb(c, data[..k]) ^ Word(data[k]), 8)
  {
    assert data[..k + 1][..k] == data[..k];
  }

  // ---- bits ----

  /** The register as a polynomial: bit 0 is the coefficient of x^15 (the register is
      reflected), bit 15 the constant term. */
  function RegisterBits(c: bv16): (p: Poly)
    ensures |p| == 16 && forall i :: 0 <= i < 16 ==> p[i] == BitAt(c, i)
  {
    seq(16, i requires 0 <= i < 16 => BitAt(c, i))
  }

  /** A byte as it travels: least significant bit first. */
  function ByteBits(b: byte): (p: Poly)
    ensures |p| == 8 && forall i :: 0 <= i < 8 ==> p[i] == BitAt(Word(b), i)
  {
    seq(8, i requires 0 <= i < 8 => BitAt(Word(b), i))
  }

  function MessageBits(data: seq<byte>): (p: Poly)
    ensures |p| == 8 * |data|
  {
    if data == [] then [] else MessageBits(data[..|data| - 1]) + ByteBits(data[|data| - 1])
  }

  /** x^16 + x^15 + x^2 + 1, section 8.3.5.2 of the USB 2.0 specification. */
  const GENERATOR: Poly :=
    [true, true, false, false, false, false, false, false, false,
     false, false, false, false, false, true, false, true]

  /** 0xFFFF * x^n + M(x) * x^16 for a message M of n bits. */
  function Dividend(m: Poly): (d: Poly)
    ensures |d| == |m| + 16
  {
    Add(Ones(16) + Zeros(|m|), m + Zeros(16))
  }

  // ---- the shift loop is long division ----

  lemma LowBit(c: bv16)
    ensures BitAt(c, 0) == (c & 1 != 0)
  {
    PlaceValues();
  }

  /** The bits of a shifted register move down by one place, and the constant 0xA001 is
      added when the bit that falls out is set. */
  lemma BitsOfShift(c: bv16, i: nat)
    requires i < 16
    ensures BitAt(Shift(c), i)
         == ((i < 15 && BitAt(c, i + 1)) != (BitAt(c, 0) && (i == 0 || i == 13 || i == 15)))
  {
    LowBit(c);
    BitsOfRightShift(c, i);
    BitsOfXor(c >> 1, 0xA001, i);
    BitsOfConstants(i);
  }

  lemma GeneratorTail(i: nat)
    requires i < 16
    ensures GENERATOR[1..][i] == (i == 0 || i == 13 || i == 15)
  {
  }

  lemma ShiftDivides(c: bv16)
    ensures RegisterBits(Shift(c)) == NextRemainder(RegisterBits(c), false, GENERATOR)
  {
    var next := NextRemainder(RegisterBits(c), false, GENERATOR);
    forall i | 0 <= i < 16 ensures RegisterBits(Shift(c))[i] == next[i] {
      BitsOfShift(c, i);
      GeneratorTail(i);
    }
  }

  lemma {:induction false} ShiftsDivide(c: bv16, n: nat)
    ensures RegisterBits(Shifts(c, n)) == Divide(RegisterBits(c), Zeros(n), GENERATOR)
  {
    if n > 0 {
      ShiftsDivide(c, n - 1);
      ShiftDivides(Shifts(c, n - 1));
      assert Zeros(n)[..n - 1] == Zeros(n - 1);
    }
  }

  lemma XorAdds(c: bv16, d: bv16)
    ensures RegisterBits(c ^ d) == Add(RegisterBits(c), RegisterBits(d))
  {
    forall i | 0 <= i < 16 ensures RegisterBits(c ^ d)[i] == Add(RegisterBits(c), RegisterBits(d))[i] {
      BitsOfXor(c, d, i);
    }
  }

  lemma BitsOfWord(b: byte)
    ensures RegisterBits(Word(b)) == ByteBits(b) + Zeros(8)
  {
    forall i | 8 <= i < 16 ensures !BitAt(Word(b), i) { BitsOfByte(b, i); }
  }

  lemma AbsorbByteDivides(c: bv16, b: byte)
    ensures RegisterBits(AbsorbByte(c, b)) == Divide(RegisterBits(c), ByteBits(b), GENERATOR)
  {
    XorAdds(c, Word(b));
    BitsOfWord(b);
    ShiftsDivide(c ^ Word(b), 8);
    DivideAtOnce(RegisterBits(c), ByteBits(b), GENERATOR);
  }

  lemma {:induction false} AbsorbDivides(c: bv16, data: seq<byte>)
    ensures RegisterBits(Absorb(c, data)) == Divide(RegisterBits(c), MessageBits(data), GENERATOR)
  {
    if data != [] {
      var n := |data| - 1;
      AbsorbDivides(c, data[..n]);
      AbsorbByteDivides(Absorb(c, data[..n]), data[n]);
      DivideConcat(RegisterBits(c), MessageBits(data[..n]), ByteBits(data[n]), GENERATOR);
    }
  }

  lemma BitsOfStart()
    ensures RegisterBits(0xFFFF) == Ones(16)
  {
    forall i | 0 <= i < 16 ensures BitAt(0xFFFF, i) { BitsOfConstants(i); }
  }

  // ---- ... and long division finds the remainder ----

  lemma {:induction false} DivideFindsRemainder(m: Poly) returns (q: Poly)
    ensures |q| == |m| && Combine(q, GENERATOR, Divide(Ones(16), m, GENERATOR)) == Dividend(m)
  {
    if m == [] {
      q := [];
      DivideNothing();
    } else {
      var n := |m| - 1;
      var r := Divide(Ones(16), m[..n], GENERATOR);
      hide *;
      var p := DivideFindsRemainder(m[..n]);
      q := p + [r[0] != m[n]];
      LongDivisionStep(p, GENERATOR, r, m[n]);
      DivideLast(Ones(16), m, GENERATOR);
      NextOfDividend(m);
    }
  }

  lemma DivideNothing()
    ensures Combine([], GENERATOR, Divide(Ones(16), [], GENERATOR)) == Dividend([])
  {
  }

  lemma DivideLast(r: Poly, m: Poly, g: Poly)
    requires |r| >= 1 && |g| == |r| + 1 && m != []
    ensures Divide(r, m, g) == NextRemainder(Divide(r, m[..|m| - 1], g), m[|m| - 1], g)
  {
  }

  lemma NextOfDividend(m: Poly)
    requires m != []
    ensures NextDividend(Dividend(m[..|m| - 1]), m[|m| - 1], 16) == Dividend(m)
  {
  }

  lemma NotNot(c: bv16)
    ensures !!c == c
  {
  }

  lemma BitsOfCrc(data: seq<byte>)
    ensures RegisterBits(!Crc(data)) == Divide(Ones(16), MessageBits(data), GENERATOR)
  {
    AbsorbDivides(0xFFFF, data);
    BitsOfStart();
    NotNot(Absorb(0xFFFF, data));
  }

  /** `crc16_usb` is true polynomial division: the complement of its result, read bit 0
      first, is what remains of 0xFFFF * x^(8n) + M(x) * x^16 after division by the
      generator, each byte of M being fed least significant bit first. */
  lemma {:induction false} CrcIsRemainder(data: seq<byte>)
    ensures IsRemainder(Dividend(MessageBits(data)), GENERATOR, RegisterBits(!Crc(data)))
  {
    BitsOfCrc(data);
    var q := DivideFindsRemainder(MessageBits(data));
  }

  lemma SameRegisterBits(c: bv16, d: bv16)
    ensures RegisterBits(c) == RegisterBits(d) <==> c == d
  {
    if RegisterBits(c) == RegisterBits(d) {
      assert forall i :: 0 <= i < 16 ==> RegisterBits(c)[i] == RegisterBits(d)[i];
      SameBits(c, d);
    }
  }

  lemma SameComplement(c: bv16, d: bv16)
    requires !c == !d
    ensures c == d
  {
    forall i | 0 <= i < 16 ensures BitAt(c, i) == BitAt(d, i) {
      BitsOfNot(c, i);
      BitsOfNot(d, i);
    }
    SameBits(c, d);
  }

  /** ... and no other value has that property. */
  lemma {:induction false} CrcIsTheOnlyRemainder(data: seq<byte>, c: bv16)
    ensures c == Crc(data) <==> IsRemainder(Dividend(MessageBits(data)), GENERATOR, RegisterBits(!c))
  {
    var crc := Crc(data);
    CrcIsRemainder(data);
    if IsRemainder(Dividend(MessageBits(data)), GENERATOR, RegisterBits(!c)) {
      RemainderIsUnique(Dividend(MessageBits(data)), GENERATOR, RegisterBits(!c), RegisterBits(!crc));
      SameRegisterBits(!c, !crc);
      SameComplement(c, crc);
    }
  }
}
