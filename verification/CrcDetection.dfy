/** What the checksum of the RPC channel detects, and two other ways to compute it. */
module CrcDetection {
  import opened Bytes
  import opened Gf2
  import opened Words
  import opened Crc16
  import opened CrcOrder

  // ---- bursts ----

  /** The two messages have the same bits outside a window of `width` bits at `start`. */
  ghost predicate SameOutside(a: seq<byte>, b: seq<byte>, start: nat, width: nat) {
    && |a| == |b| && start + width <= 8 * |a|
    && forall i :: 0 <= i < 8 * |a| && !(start <= i < start + width) ==> MessageBits(a)[i] == MessageBits(b)[i]
  }

  lemma BitsOfMessage(data: seq<byte>, i: nat)
    requires i < 8 * |data|
    ensures MessageBits(data)[i] == BitAt(Word(data[i / 8]), i % 8)
  {
    var n := |data| - 1;
    if i < 8 * n {
      BitsOfMessage(data[..n], i);
    } else {
      assert i / 8 == n;
    }
  }

  lemma SameByteBits(a: byte, b: byte)
    requires ByteBits(a) == ByteBits(b)
    ensures a == b
  {
    BitsOfWord(a);
    BitsOfWord(b);
    SameRegisterBits(Word(a), Word(b));
  }

  lemma {:induction false} SameMessageBits(a: seq<byte>, b: seq<byte>)
    requires |a| == |b| && MessageBits(a) == MessageBits(b)
    ensures a == b
  {
    if a != [] {
      var n := |a| - 1;
      assert MessageBits(a)[..8 * n] == MessageBits(b)[..8 * n];
      assert MessageBits(a)[8 * n..] == MessageBits(b)[8 * n..];
      SameMessageBits(a[..n], b[..n]);
      SameByteBits(a[n], b[n]);
    }
  }

  lemma {:induction false} SameCrc(a: seq<byte>, b: seq<byte>)
    ensures Crc(a) == Crc(b)
       <==> Divide(Ones(16), MessageBits(a), GENERATOR) == Divide(Ones(16), MessageBits(b), GENERATOR)
  {
    hide *;
    BitsOfCrc(a);
    BitsOfCrc(b);
    SameRegister(Crc(a), Crc(b));
  }

  lemma SameRegister(c: bv16, d: bv16)
    ensures c == d <==> RegisterBits(!c) == RegisterBits(!d)
  {
    if RegisterBits(!c) == RegisterBits(!d) {
      SameRegisterBits(!c, !d);
      SameComplement(c, d);
    }
  }

  /** A burst of at most sixteen bits always changes the checksum. */
  lemma BurstChangesCrc(a: seq<byte>, b: seq<byte>, start: nat, width: nat)
    requires width <= 16 && SameOutside(a, b, start, width)
    ensures Crc(a) == Crc(b) <==> a == b
  {
    if Crc(a) == Crc(b) {
      SameCrc(a, b);
      BurstIsSeen(Ones(16), MessageBits(a), MessageBits(b), start, width, GENERATOR);
      SameMessageBits(a, b);
    }
  }

  // ---- differences ----

  /** The bits in which two messages of one length differ. */
  function XorBytes(a: seq<byte>, b: seq<byte>): (d: seq<byte>)
    requires |a| == |b|
    ensures |d| == |a|
  {
    seq(|a|, i requires 0 <= i < |a| => a[i] ^ b[i])
  }

  lemma XorTwice(a: seq<byte>, b: seq<byte>)
    requires |a| == |b|
    ensures XorBytes(a, XorBytes(a, b)) == b
  {
    forall i | 0 <= i < |a| ensures a[i] ^ (a[i] ^ b[i]) == b[i] {
      XorByteTwice(a[i], b[i]);
    }
  }

  lemma XorByteTwice(x: byte, y: byte)
    ensures x ^ (x ^ y) == y
  {
  }

  lemma XorOfWords(x: byte, y: byte)
    ensures Word(x ^ y) == Word(x) ^ Word(y)
  {
  }

  lemma ByteBitsOfXor(x: byte, y: byte)
    ensures ByteBits(x ^ y) == Add(ByteBits(x), ByteBits(y))
  {
    XorOfWords(x, y);
    forall i | 0 <= i < 8 ensures ByteBits(x ^ y)[i] == (ByteBits(x)[i] != ByteBits(y)[i]) {
      BitsOfXor(Word(x), Word(y), i);
    }
  }

  lemma {:induction false} MessageBitsOfXor(a: seq<byte>, b: seq<byte>)
    requires |a| == |b|
    ensures MessageBits(XorBytes(a, b)) == Add(MessageBits(a), MessageBits(b))
  {
    if a != [] {
      var n := |a| - 1;
      MessageBitsOfXor(a[..n], b[..n]);
      ByteBitsOfXor(a[n], b[n]);
      assert XorBytes(a, b)[..n] == XorBytes(a[..n], b[..n]);
      AddOfHalves(MessageBits(a[..n]), ByteBits(a[n]), MessageBits(b[..n]), ByteBits(b[n]));
    }
  }

  /** In how many bits two messages of one length differ. */
  function Flips(a: seq<byte>, b: seq<byte>): nat
    requires |a| == |b|
  {
    Weight(Add(MessageBits(a), MessageBits(b)))
  }

  lemma AddOfHalves(p: Poly, q: Poly, r: Poly, s: Poly)
    requires |p| == |r| && |q| == |s|
    ensures Add(p + q, r + s) == Add(p, r) + Add(q, s)
  {
  }

  lemma {:induction false} DividesOfXor(c: bv16, d: bv16, a: seq<byte>, b: seq<byte>)
    requires |a| == |b|
    ensures Divide(RegisterBits(c ^ d), MessageBits(XorBytes(a, b)), GENERATOR)
         == Add(Divide(RegisterBits(c), MessageBits(a), GENERATOR), Divide(RegisterBits(d), MessageBits(b), GENERATOR))
  {
    hide *;
    GeneratorIsEven();
    MessageBitsOfXor(a, b);
    XorAdds(c, d);
    DivideIsLinear(RegisterBits(c), RegisterBits(d), MessageBits(a), MessageBits(b), GENERATOR);
  }

  /** The register is linear in what it starts from and what it absorbs, together. */
  lemma {:induction false} AbsorbOfXor(c: bv16, d: bv16, a: seq<byte>, b: seq<byte>)
    requires |a| == |b|
    ensures Absorb(c ^ d, XorBytes(a, b)) == Absorb(c, a) ^ Absorb(d, b)
  {
    hide *;
    var x, y, z := Absorb(c ^ d, XorBytes(a, b)), Absorb(c, a), Absorb(d, b);
    assert RegisterBits(x) == Add(RegisterBits(y), RegisterBits(z)) by {
      AbsorbDivides(c ^ d, XorBytes(a, b));
      AbsorbDivides(c, a);
      AbsorbDivides(d, b);
      DividesOfXor(c, d, a, b);
    }
    XorAdds(y, z);
    SameRegisterBits(x, y ^ z);
  }

  /** What an error does to the checksum does not depend on the message it hits. */
  lemma CrcOfXor(a: seq<byte>, e: seq<byte>)
    requires |a| == |e|
    ensures Crc(XorBytes(a, e)) == Crc(a) ^ Absorb(0, e)
  {
    hide Absorb, XorBytes;
    AbsorbOfXor(0xFFFF, 0, a, e);
    WithZero();
    NotOfXor(Absorb(0xFFFF, a), Absorb(0, e));
  }

  lemma WithZero()
    ensures (0xFFFF as bv16) ^ 0 == 0xFFFF
  {
  }

  lemma NotOfXor(c: bv16, d: bv16)
    ensures !(c ^ d) == !c ^ d
  {
  }

  lemma XorIsZero(c: bv16, d: bv16)
    ensures c ^ d == c <==> d == 0
  {
  }

  /** Two messages of one length share their checksum exactly when their difference leaves
      no remainder: when the register, from zero, absorbs it back to zero. */
  lemma {:induction false} SameCrcExactly(a: seq<byte>, b: seq<byte>)
    requires |a| == |b|
    ensures Crc(a) == Crc(b) <==> Absorb(0, XorBytes(a, b)) == 0
    ensures Crc(a) == Crc(b)
       <==> Divide(Zeros(16), Add(MessageBits(a), MessageBits(b)), GENERATOR) == Zeros(16)
  {
    hide *;
    var e := XorBytes(a, b);
    CrcOfXor(a, e);
    XorTwice(a, b);
    XorIsZero(Crc(a), Absorb(0, e));
    MessageBitsOfXor(a, b);
    AbsorbDivides(0, e);
    BitsOfNothing();
    SameRegisterBits(Absorb(0, e), 0);
  }

  lemma BitsOfNothing()
    ensures RegisterBits(0) == Zeros(16)
  {
    forall i | 0 <= i < 16 ensures !BitAt(0, i) {
      BitsOfBit(false, i);
    }
  }

  // ---- differences in length ----

  /** A message behind zero bytes that make it n bytes long. */
  function Padded(a: seq<byte>, n: nat): (p: seq<byte>)
    requires |a| <= n
    ensures |p| == n
  {
    ZeroBytes(n - |a|) + a
  }

  lemma {:induction false} AbsorbConcat(c: bv16, a: seq<byte>, b: seq<byte>)
    ensures Absorb(c, a + b) == Absorb(Absorb(c, a), b)
    decreases |b|
  {
    hide AbsorbByte;
    if b == [] {
      assert a + b == a;
    } else {
      assert (a + b)[..|a + b| - 1] == a + b[..|b| - 1];
      AbsorbConcat(c, a, b[..|b| - 1]);
    }
  }

  lemma XorWithZeros(a: seq<byte>)
    ensures XorBytes(ZeroBytes(|a|), a) == a
  {
    forall i | 0 <= i < |a| ensures 0 ^ a[i] == a[i] {
      XorByteZero(a[i]);
    }
  }

  lemma XorByteZero(x: byte)
    ensures 0 ^ x == x
  {
  }

  /** What the register starts from and what it absorbs come apart. */
  lemma {:induction false} AbsorbFromOnes(a: seq<byte>)
    ensures Absorb(0xFFFF, a) == Absorb(0xFFFF, ZeroBytes(|a|)) ^ Absorb(0, a)
  {
    hide *;
    AbsorbOfXor(0xFFFF, 0, ZeroBytes(|a|), a);
    XorWithZeros(a);
    WithZero();
  }

  lemma {:induction false} AbsorbPadded(a: seq<byte>, n: nat)
    requires |a| <= n
    ensures Absorb(0, Padded(a, n)) == Absorb(0, a)
  {
    hide Absorb;
    AbsorbNothing(n - |a|);
    AbsorbConcat(0, ZeroBytes(n - |a|), a);
  }

  lemma XorBalance(x: bv16, a: bv16, y: bv16, b: bv16)
    ensures x ^ a == y ^ b <==> a ^ b == x ^ y
  {
  }

  /** z is the sum, bit by bit, of x and y. */
  predicate IsXor(z: bv16, x: bv16, y: bv16) {
    z == x ^ y
  }

  lemma XorIs(z: bv16, x: bv16, y: bv16)
    ensures IsXor(z, x, y) <==> z == x ^ y
  {
  }

  lemma Balanced(x: bv16, a: bv16, y: bv16, b: bv16, left: bv16, right: bv16, sum: bv16)
    requires IsXor(left, x, a) && IsXor(right, y, b) && IsXor(sum, a, b)
    ensures left == right <==> IsXor(sum, x, y)
  {
    XorBalance(x, a, y, b);
  }

  lemma FromOnes(a: seq<byte>)
    ensures IsXor(Absorb(0xFFFF, a), Absorb(0xFFFF, ZeroBytes(|a|)), Absorb(0, a))
  {
    hide *;
    AbsorbFromOnes(a);
    XorIs(Absorb(0xFFFF, a), Absorb(0xFFFF, ZeroBytes(|a|)), Absorb(0, a));
  }

  lemma FromZero(a: seq<byte>, b: seq<byte>)
    requires |a| == |b|
    ensures IsXor(Absorb(0, XorBytes(a, b)), Absorb(0, a), Absorb(0, b))
  {
    hide *;
    ZeroOfZeros();
    AbsorbOfXor(0, 0, a, b);
    XorIs(Absorb(0, XorBytes(a, b)), Absorb(0, a), Absorb(0, b));
  }

  lemma {:induction false} CrcsAgree(a: seq<byte>, b: seq<byte>)
    ensures Crc(a) == Crc(b) <==> Absorb(0xFFFF, a) == Absorb(0xFFFF, b)
  {
    hide *;
    SameCrc(a, b);
    BitsOfStart();
    AbsorbDivides(0xFFFF, a);
    AbsorbDivides(0xFFFF, b);
    SameRegisterBits(Absorb(0xFFFF, a), Absorb(0xFFFF, b));
  }

  lemma PaddedParts(a: seq<byte>, b: seq<byte>, n: nat)
    requires |a| <= n && |b| <= n
    ensures IsXor(Absorb(0, XorBytes(Padded(a, n), Padded(b, n))), Absorb(0, a), Absorb(0, b))
  {
    hide *;
    AbsorbPadded(a, n);
    AbsorbPadded(b, n);
    FromZero(Padded(a, n), Padded(b, n));
  }

  lemma PaddedDifference(a: seq<byte>, b: seq<byte>, n: nat)
    requires |a| <= n && |b| <= n
    ensures Absorb(0xFFFF, a) == Absorb(0xFFFF, b)
       <==> IsXor(Absorb(0, XorBytes(Padded(a, n), Padded(b, n))),
                  Absorb(0xFFFF, ZeroBytes(|a|)), Absorb(0xFFFF, ZeroBytes(|b|)))
  {
    hide *;
    FromOnes(a);
    FromOnes(b);
    PaddedParts(a, b, n);
    Balanced(Absorb(0xFFFF, ZeroBytes(|a|)), Absorb(0, a), Absorb(0xFFFF, ZeroBytes(|b|)), Absorb(0, b),
             Absorb(0xFFFF, a), Absorb(0xFFFF, b), Absorb(0, XorBytes(Padded(a, n), Padded(b, n))));
  }

  /** Two messages of any lengths share their checksum exactly when their difference, aligned
      at the end, leaves the remainder that the lengths alone account for. */
  lemma {:induction false} SameCrcPadded(a: seq<byte>, b: seq<byte>, n: nat)
    requires |a| <= n && |b| <= n
    ensures Crc(a) == Crc(b)
       <==> IsXor(Absorb(0, XorBytes(Padded(a, n), Padded(b, n))),
                  Absorb(0xFFFF, ZeroBytes(|a|)), Absorb(0xFFFF, ZeroBytes(|b|)))
  {
    hide *;
    CrcsAgree(a, b);
    PaddedDifference(a, b, n);
  }

  lemma ZeroOfZeros()
    ensures (0 as bv16) ^ 0 == 0
  {
  }

  /** Sixteen is the limit: these two messages differ in a window of seventeen bits and
      have the same checksum. */
  lemma SeventeenBitsMayEscape()
    ensures SameOutside([0x00, 0x00, 0x00], [0x03, 0x40, 0x01], 0, 17)
    ensures Crc([0x00, 0x00, 0x00]) == Crc([0x03, 0x40, 0x01])
  {
    SeventeenBitsDiffer();
    AbsorbThree(0xFFFF, 0x00, 0x00, 0x00);
    assert AbsorbByte(0xFFFF, 0x00) == 0x40BF;
    assert AbsorbByte(0x40BF, 0x00) == 0xB001;
    assert AbsorbByte(0xB001, 0x00) == 0xC071;
    AbsorbThree(0xFFFF, 0x03, 0x40, 0x01);
    assert AbsorbByte(0xFFFF, 0x03) == 0x41FF;
    assert AbsorbByte(0x41FF, 0x40) == 0xB000;
    assert AbsorbByte(0xB000, 0x01) == 0xC071;
  }

  lemma SeventeenBitsDiffer()
    ensures SameOutside([0x00, 0x00, 0x00], [0x03, 0x40, 0x01], 0, 17)
  {
    var a: seq<byte>, b: seq<byte> := [0x00, 0x00, 0x00], [0x03, 0x40, 0x01];
    forall i | 17 <= i < 24 ensures MessageBits(a)[i] == MessageBits(b)[i] {
      BitsOfMessage(a, i);
      BitsOfMessage(b, i);
      BitsOfSmallWords(i - 16);
    }
  }

  lemma BitsOfSmallWords(j: nat)
    requires 1 <= j < 8
    ensures !BitAt(Word(0x00), j) && !BitAt(Word(0x01), j)
  {
    BitsOfBit(true, j);
    BitsOfBit(false, j);
  }

  lemma AbsorbSnoc(c: bv16, data: seq<byte>, b: byte)
    ensures Absorb(c, data + [b]) == AbsorbByte(Absorb(c, data), b)
  {
    assert (data + [b])[..|data|] == data;
  }

  lemma {:induction false} AbsorbNothing(n: nat)
    ensures Absorb(0, ZeroBytes(n)) == 0
  {
    if n > 0 {
      AbsorbNothing(n - 1);
      AbsorbSnoc(0, ZeroBytes(n - 1), 0);
      assert ZeroBytes(n - 1) + [0] == ZeroBytes(n);
      assert AbsorbByte(0, 0) == 0;
    }
  }

  lemma AbsorbThree(c: bv16, x: byte, y: byte, z: byte)
    ensures Absorb(c, [x, y, z]) == AbsorbByte(AbsorbByte(AbsorbByte(c, x), y), z)
  {
    AbsorbSnoc(c, [], x);
    AbsorbSnoc(c, [x], y);
    AbsorbSnoc(c, [x, y], z);
    assert [] + [x] == [x] && [x] + [y] == [x, y] && [x, y] + [z] == [x, y, z];
  }

  // ---- parity ----

  lemma GeneratorIsEven()
    ensures |GENERATOR| == 17 && Odd(GENERATOR[1..])
  {
    OddOfOne(true);
    OddOfOne(false);
    OddOfZeros(12);
    OddOfConcat([true], Zeros(12));
    OddOfConcat([true] + Zeros(12), [true]);
    OddOfConcat([true] + Zeros(12) + [true], [false]);
    OddOfConcat([true] + Zeros(12) + [true] + [false], [true]);
    assert GENERATOR[1..] == [true] + Zeros(12) + [true] + [false] + [true];
  }

  lemma OnesAreEven()
    ensures !Odd(Ones(16))
  {
    OddOfConcat(Ones(8), Ones(8));
    assert Ones(16) == Ones(8) + Ones(8);
  }

  lemma ComplementKeepsParity(c: bv16)
    ensures Odd(RegisterBits(!c)) <==> Odd(RegisterBits(c))
  {
    assert RegisterBits(!c) == Add(RegisterBits(c), Ones(16)) by {
      forall i | 0 <= i < 16 ensures BitAt(!c, i) == !BitAt(c, i) { BitsOfNot(c, i); }
    }
    OddOfSum(RegisterBits(c), Ones(16));
    OnesAreEven();
  }

  /** The checksum has an odd number of set bits exactly when the message has. */
  lemma CrcKeepsParity(data: seq<byte>)
    ensures Weight(RegisterBits(Crc(data))) % 2 == Weight(MessageBits(data)) % 2
  {
    hide *;
    BitsOfCrc(data);
    GeneratorIsEven();
    OnesAreEven();
    DivideKeepsParity(Ones(16), MessageBits(data), GENERATOR);
    ComplementKeepsParity(Crc(data));
    OddIsParity(RegisterBits(Crc(data)));
    OddIsParity(MessageBits(data));
  }

  /** An odd number of flipped bits, wherever they are, changes the checksum. */
  lemma {:induction false} OddErrorChangesCrc(a: seq<byte>, b: seq<byte>)
    requires |a| == |b| && Flips(a, b) % 2 == 1
    ensures Crc(a) != Crc(b)
  {
    CrcKeepsParity(a);
    CrcKeepsParity(b);
    OddIsParity(Add(MessageBits(a), MessageBits(b)));
    OddOfSum(MessageBits(a), MessageBits(b));
    OddIsParity(MessageBits(a));
    OddIsParity(MessageBits(b));
  }

  // ---- the residual ----

  lemma BitsOfLe16(c: bv16)
    ensures MessageBits(Le16(c)) == RegisterBits(c)
  {
    var s := Le16(c);
    assert s[..1] == [LowByte(c)] && [LowByte(c)][..0] == [];
    assert MessageBits(s) == ByteBits(LowByte(c)) + ByteBits(HighByte(c));
    forall i | 0 <= i < 8
      ensures ByteBits(LowByte(c))[i] == BitAt(c, i) && ByteBits(HighByte(c))[i] == BitAt(c, i + 8)
    {
      BitsOfBytes(c, i);
    }
    forall i | 0 <= i < 16 ensures MessageBits(s)[i] == RegisterBits(c)[i] {
      if i >= 8 { assert ByteBits(HighByte(c))[i - 8] == BitAt(c, (i - 8) + 8); }
    }
  }

  lemma {:induction false} MessageBitsConcat(a: seq<byte>, b: seq<byte>)
    ensures MessageBits(a + b) == MessageBits(a) + MessageBits(b)
  {
    if b == [] {
      assert a + b == a;
    } else {
      assert (a + b)[..|a + b| - 1] == a + b[..|b| - 1];
      MessageBitsConcat(a, b[..|b| - 1]);
    }
  }

  lemma ResidualShifts()
    ensures Shifts(0xFFFF, 16) == 0xB001
  {
    assert Shifts(0xFFFF, 8) == 0x40BF;
  }

  lemma ComplementFillsRegister(c: bv16)
    ensures Add(RegisterBits(c), RegisterBits(!c) + Zeros(0)) == Ones(16)
  {
    forall i | 0 <= i < 16 ensures BitAt(!c, i) == !BitAt(c, i) { BitsOfNot(c, i); }
  }


  function Not(c: bv16): bv16 {
    !c
  }

  lemma {:induction false} AbsorbOwnComplement(data: seq<byte>, c: bv16, crc: bv16)
    requires c == Absorb(0xFFFF, data) && crc == Not(c)
    ensures Absorb(0xFFFF, data + Le16(crc)) == 0xB001
  {
    assert crc == !c;
    hide *;
    AbsorbDivides(0xFFFF, data + Le16(crc));
    AbsorbDivides(0xFFFF, data);
    MessageBitsConcat(data, Le16(crc));
    BitsOfLe16(crc);
    AbsorbOwnCrcBits(c, RegisterBits(0xFFFF), MessageBits(data));
    SameRegisterBits(Absorb(0xFFFF, data + Le16(crc)), 0xB001);
  }

  lemma CrcIs(data: seq<byte>)
    ensures Crc(data) == Not(Absorb(0xFFFF, data))
  {
    hide Absorb;
  }

  lemma {:induction false} AbsorbOwnCrc(data: seq<byte>)
    ensures Absorb(0xFFFF, data + Le16(Crc(data))) == 0xB001
  {
    hide *;
    CrcIs(data);
    AbsorbOwnComplement(data, Absorb(0xFFFF, data), Crc(data));
  }

  lemma AbsorbOwnCrcBits(c: bv16, start: Poly, m: Poly)
    requires |start| == 16 && RegisterBits(c) == Divide(start, m, GENERATOR)
    ensures Divide(start, m + RegisterBits(!c), GENERATOR) == RegisterBits(0xB001)
  {
    DivideConcat(start, m, RegisterBits(!c), GENERATOR);
    DivideAtOnce(RegisterBits(c), RegisterBits(!c), GENERATOR);
    ComplementFillsRegister(c);
    BitsOfStart();
    ShiftsDivide(0xFFFF, 16);
    ResidualShifts();
  }

  /** A message followed by two bytes has the checksum 0x4FFE, the residual of section
      8.3.5.2 of the USB 2.0 specification reflected and complemented, exactly when the two
      bytes are the little-endian checksum of the message. */
  lemma Residual(data: seq<byte>, field: seq<byte>)
    requires |field| == 2
    ensures Crc(data + field) == 0x4FFE <==> field == Le16(Crc(data))
  {
    var own := Le16(Crc(data));
    AbsorbOwnCrc(data);
    if Crc(data + field) == 0x4FFE {
      MessageBitsConcat(data, field);
      MessageBitsConcat(data, own);
      BurstChangesCrc(data + field, data + own, 8 * |data|, 16);
      assert (data + field)[|data|..] == field && (data + own)[|data|..] == own;
    }
  }

  // ---- two flipped bits ----

  lemma BitsOfUnits()
    ensures RegisterBits(0xA001) == GENERATOR[1..] && RegisterBits(1) == [true] + Zeros(15)
  {
    forall i | 0 <= i < 16
      ensures BitAt(0xA001, i) == GENERATOR[1..][i] && BitAt(1, i) == (i == 0)
    {
      BitsOfConstants(i);
      GeneratorTail(i);
      BitsOfBit(true, i);
    }
  }

  /** The first of two errors is shifted onto the second exactly when the distance between
      them is a period of x. */
  lemma {:induction false} ShiftedOnto(between: nat)
    ensures Divide(GENERATOR[1..], Zeros(between), GENERATOR) == [true] + Zeros(15) <==> (between + 1) % 32767 == 0
  {
    OrderOfX(between + 1);
    hide Divide, Shift, RegisterBits;
    BitsOfUnits();
    ShiftsDivide(0xA001, between);
    SameRegisterBits(Shifts(0xA001, between), 1);
    KnownShifts();
    ShiftsAdd(UNIT, 16, between);
    ShiftsAdd(UNIT, between + 1, 15);
    ShiftsAreInjective(Shifts(UNIT, between + 1), UNIT, 15);
    assert 16 + between == between + 1 + 15;
  }

  lemma KnownShifts()
    ensures Shifts(UNIT, 15) == 1 && Shifts(UNIT, 16) == 0xA001
  {
    assert Shifts(0x8000, 8) == 0x0080 && Shifts(0x0080, 7) == 1;
    ShiftsAdd(UNIT, 8, 7);
    assert Shift(1) == 0xA001;
  }

  /** Bits i and j, and no others, differ. */
  ghost predicate DifferAt(a: seq<byte>, b: seq<byte>, i: nat, j: nat) {
    && |a| == |b| && i < j < 8 * |a|
    && forall k :: 0 <= k < 8 * |a| ==> (MessageBits(a)[k] != MessageBits(b)[k] <==> k == i || k == j)
  }

  lemma DifferenceOfTwo(a: seq<byte>, b: seq<byte>, i: nat, j: nat)
    requires DifferAt(a, b, i, j)
    ensures Add(MessageBits(a), MessageBits(b))
         == Zeros(i) + [true] + Zeros(j - i - 1) + [true] + Zeros(8 * |a| - j - 1)
  {
  }

  /** Two flipped bits in a message of any length escape exactly when they are a multiple of
      32767 bits apart. */
  lemma {:induction false} DoubleErrorExactly(a: seq<byte>, b: seq<byte>, i: nat, j: nat)
    requires DifferAt(a, b, i, j)
    ensures Crc(a) == Crc(b) <==> (j - i) % 32767 == 0
  {
    GeneratorTail(15);
    GeneratorIsEven();
    DifferenceOfTwo(a, b, i, j);
    hide Divide, DifferAt, MessageBits, Crc, Absorb, XorBytes, Add;
    SameCrcExactly(a, b);
    TwoErrors(16, i, j - i - 1, 8 * |a| - j - 1, GENERATOR);
    ShiftedOnto(j - i - 1);
  }

  /** In a message of at most 4095 bytes no two bits are as far apart as that, and any two
      flipped bits change the checksum. */
  lemma {:induction false} DoubleErrorChangesCrc(a: seq<byte>, b: seq<byte>)
    requires |a| == |b| <= 4095 && Flips(a, b) == 2
    ensures Crc(a) != Crc(b)
  {
    GeneratorTail(15);
    GeneratorIsEven();
    var before, between, after := TwoPlaces(Add(MessageBits(a), MessageBits(b)));
    hide Divide, MessageBits, Crc, Absorb, XorBytes, Add;
    SameCrcExactly(a, b);
    TwoErrors(16, before, between, after, GENERATOR);
    ShiftedOnto(between);
    assert 0 < between + 1 < 32767;
  }

  /** Two different messages of at most 4095 bytes that share a checksum differ in four bits
      or more. */
  lemma {:induction false} FourBitDistance(a: seq<byte>, b: seq<byte>)
    requires |a| == |b| <= 4095 && a != b && Crc(a) == Crc(b)
    ensures Flips(a, b) >= 4
  {
    var d := Add(MessageBits(a), MessageBits(b));
    if Weight(d) % 2 == 1 {
      OddErrorChangesCrc(a, b);
    } else if Weight(d) == 2 {
      DoubleErrorChangesCrc(a, b);
    } else if Weight(d) == 0 {
      NoPlace(d);
      assert forall i :: 0 <= i < |d| ==> d[i] == (MessageBits(a)[i] != MessageBits(b)[i]);
      SameMessageBits(a, b);
    }
  }

  // ---- messages that travel with their checksum ----

  lemma {:induction false} FlipsOfConcat(a: seq<byte>, b: seq<byte>, c: seq<byte>, d: seq<byte>)
    requires |a| == |c| && |b| == |d|
    ensures Flips(a + b, c + d) == Flips(a, c) + Flips(b, d)
  {
    hide Weight, Add, MessageBits;
    MessageBitsConcat(a, b);
    MessageBitsConcat(c, d);
    AddOfHalves(MessageBits(a), MessageBits(b), MessageBits(c), MessageBits(d));
    WeightOfConcat(Add(MessageBits(a), MessageBits(c)), Add(MessageBits(b), MessageBits(d)));
  }

  lemma {:induction false} NoFlips(a: seq<byte>)
    ensures Flips(a, a) == 0
  {
    assert Add(MessageBits(a), MessageBits(a)) == Zeros(|MessageBits(a)|);
    WeightOfZeros(|MessageBits(a)|);
  }

  lemma SameLe16(c: bv16, d: bv16)
    ensures Le16(c) == Le16(d) <==> c == d
  {
    if Le16(c) == Le16(d) {
      BitsOfLe16(c);
      BitsOfLe16(d);
      SameRegisterBits(c, d);
    }
  }

  /** A message that was sent with its checksum and corrupted passes the receiver's check
      exactly when the error, over both, leaves no remainder. */
  lemma {:induction false} CorruptionExactly(m: seq<byte>, field: seq<byte>, m': seq<byte>, field': seq<byte>)
    requires |m| == |m'| && |field'| == 2 && field == Le16(Crc(m))
    ensures field' == Le16(Crc(m')) <==> Absorb(0, XorBytes(m + field, m' + field')) == 0
  {
    hide *;
    Residual(m, field);
    Residual(m', field');
    SameCrcExactly(m + field, m' + field');
  }

  /** Up to three flipped bits anywhere, or a burst of at most sixteen bits in the message
      alone, never pass. */
  lemma {:induction false} CorruptionIsSeen(m: seq<byte>, field: seq<byte>, m': seq<byte>, field': seq<byte>,
                                            start: nat, width: nat)
    requires |m| == |m'| <= 4093 && |field'| == 2 && field == Le16(Crc(m))
    requires || Flips(m, m') + Flips(field, field') <= 3
             || (field' == field && width <= 16 && SameOutside(m, m', start, width))
    ensures field' == Le16(Crc(m')) <==> m' == m && field' == field
  {
    hide *;
    if field' == field && width <= 16 && SameOutside(m, m', start, width) {
      BurstChangesCrc(m, m', start, width);
      SameLe16(Crc(m), Crc(m'));
    } else if field' == Le16(Crc(m')) {
      Residual(m, field);
      Residual(m', field');
      FlipsOfConcat(m, field, m', field');
      if m + field != m' + field' {
        FourBitDistance(m + field, m' + field');
      }
      assert (m + field)[..|m|] == m && (m' + field')[..|m|] == m';
      assert (m + field)[|m|..] == field && (m' + field')[|m|..] == field';
    }
  }

  // ---- the two-table iteration ----

  /** What eight shifts make of a byte. */
  function TableEntry(i: byte): bv16 {
    Shifts(Word(i), 8)
  }

  /** One iteration of `calc_crc16` over its two tables of low and high entry bytes. */
  function TableStep(lo: byte, hi: byte, b: byte): (byte, byte) {
    var entry := TableEntry(lo ^ b);
    (hi ^ LowByte(entry), HighByte(entry))
  }

  function TableLoop(lo: byte, hi: byte, data: seq<byte>): (byte, byte) {
    if data == [] then (lo, hi)
    else
      var (l, h) := TableLoop(lo, hi, data[..|data| - 1]);
      TableStep(l, h, data[|data| - 1])
  }

  lemma RegisterOfBytes(c: bv16)
    ensures RegisterBits(c) == ByteBits(LowByte(c)) + ByteBits(HighByte(c))
  {
    BitsOfLe16(c);
    assert Le16(c)[..1] == [LowByte(c)] && [LowByte(c)][..0] == [];
  }

  /** Eight shifts of a register: the table entry of its low byte, with the high byte
      moved down. */
  lemma ShiftsByTable(low: byte, high: byte)
    ensures Divide(ByteBits(low) + ByteBits(high), Zeros(8), GENERATOR)
         == Add(RegisterBits(TableEntry(low)), ByteBits(high) + Zeros(8))
  {
    BitsOfWord(low);
    ShiftsDivide(Word(low), 8);
    ShiftsMoveDown(8, ByteBits(high), GENERATOR);
    ShiftsAreLinear(ByteBits(low) + Zeros(8), Zeros(8) + ByteBits(high), 8, GENERATOR);
    assert Add(ByteBits(low) + Zeros(8), Zeros(8) + ByteBits(high)) == ByteBits(low) + ByteBits(high);
  }

  lemma TableStepAbsorbs(c: bv16, b: byte)
    ensures TableStep(LowByte(c), HighByte(c), b) == (LowByte(AbsorbByte(c, b)), HighByte(AbsorbByte(c, b)))
  {
    hide AbsorbByte, TableEntry, LowByte, HighByte;
    TableStepBits(c, b);
    TableEntryBytes(AbsorbByte(c, b), HighByte(c), TableEntry(LowByte(c) ^ b));
  }

  lemma TableEntryBytes(next: bv16, hi: byte, entry: bv16)
    requires RegisterBits(next) == Add(RegisterBits(entry), ByteBits(hi) + Zeros(8))
    ensures LowByte(next) == hi ^ LowByte(entry) && HighByte(next) == HighByte(entry)
  {
    hide LowByte, HighByte, RegisterBits, ByteBits;
    RegisterOfBytes(next);
    RegisterOfBytes(entry);
    ByteBitsOfXor(hi, LowByte(entry));
    SplitSum(ByteBits(LowByte(entry)), ByteBits(HighByte(entry)), ByteBits(hi),
             ByteBits(LowByte(next)), ByteBits(HighByte(next)));
    SameByteBits(LowByte(next), hi ^ LowByte(entry));
    SameByteBits(HighByte(next), HighByte(entry));
  }

  lemma SplitSum(low: Poly, high: Poly, p: Poly, low': Poly, high': Poly)
    requires |low| == |p| == |low'| == 8 && |high| == |high'| == 8
    requires low' + high' == Add(low + high, p + Zeros(8))
    ensures low' == Add(p, low) && high' == high
  {
    var sum := Add(low + high, p + Zeros(8));
    forall i | 0 <= i < 8 ensures low'[i] == Add(p, low)[i] && high'[i] == high[i] {
      assert (low' + high')[i] == sum[i];
      assert (low' + high')[i + 8] == sum[i + 8];
    }
  }

  lemma LowByteTakes(c: bv16, b: byte)
    ensures Add(RegisterBits(c), ByteBits(b) + Zeros(8)) == ByteBits(LowByte(c) ^ b) + ByteBits(HighByte(c))
  {
    hide LowByte, HighByte, RegisterBits, ByteBits;
    RegisterOfBytes(c);
    ByteBitsOfXor(LowByte(c), b);
    AddOfHalves(ByteBits(LowByte(c)), ByteBits(HighByte(c)), ByteBits(b), Zeros(8));
    assert Add(ByteBits(HighByte(c)), Zeros(8)) == ByteBits(HighByte(c));
  }

  lemma TableStepBits(c: bv16, b: byte)
    ensures RegisterBits(AbsorbByte(c, b))
         == Add(RegisterBits(TableEntry(LowByte(c) ^ b)), ByteBits(HighByte(c)) + Zeros(8))
  {
    hide *;
    GeneratorIsEven();
    AbsorbByteDivides(c, b);
    DivideAtOnce(RegisterBits(c), ByteBits(b), GENERATOR);
    LowByteTakes(c, b);
    ShiftsByTable(LowByte(c) ^ b, HighByte(c));
  }

  /** The bit loop and the two-table loop compute the same register, on every input. */
  lemma {:induction false} TablesAgree(data: seq<byte>)
    ensures TableLoop(0xFF, 0xFF, data) == (LowByte(Absorb(0xFFFF, data)), HighByte(Absorb(0xFFFF, data)))
  {
    if data != [] {
      var n := |data| - 1;
      TablesAgree(data[..n]);
      TableStepAbsorbs(Absorb(0xFFFF, data[..n]), data[n]);
    }
  }

  lemma TableEntryOne()
    ensures TableEntry(1) == 0xC0C1
  {
    assert Word(1) == 1;
  }
}
