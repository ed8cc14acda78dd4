/** The order of x modulo the generator: after how many shifts the register of the checksum
    comes back to where it was. */
module CrcOrder {
  import opened Gf2
  import opened Words
  import opened Crc16

  /** The register that stands for the polynomial 1. */
  const UNIT: bv16 := 0x8000

  // ---- shifting ----

  function Plus(c: bv16, d: bv16): bv16 {
    c ^ d
  }

  lemma ShiftOfPlus(c: bv16, d: bv16)
    ensures Shift(Plus(c, d)) == Plus(Shift(c), Shift(d))
  {
    hide Shift, RegisterBits;
    ShiftDivides(Plus(c, d));
    ShiftDivides(c);
    ShiftDivides(d);
    XorAdds(c, d);
    NextIsLinear(RegisterBits(c), RegisterBits(d), GENERATOR);
    XorAdds(Shift(c), Shift(d));
    SameRegisterBits(Shift(Plus(c, d)), Plus(Shift(c), Shift(d)));
  }

  lemma PlusZero(c: bv16)
    ensures Plus(c, 0) == c == Plus(0, c) && Plus(c, c) == 0
  {
  }

  lemma PlusAssociates(a: bv16, b: bv16, c: bv16)
    ensures Plus(Plus(a, b), c) == Plus(a, Plus(b, c))
  {
  }

  lemma PlusCommutes(a: bv16, b: bv16)
    ensures Plus(a, b) == Plus(b, a)
  {
  }

  /** Four summands, in another order. */
  lemma PlusRegroups(a: bv16, b: bv16, c: bv16, d: bv16)
    ensures Plus(Plus(a, b), Plus(c, d)) == Plus(Plus(a, c), Plus(b, d))
  {
    hide Plus;
    PlusAssociates(a, b, Plus(c, d));
    PlusAssociates(b, c, d);
    PlusCommutes(b, c);
    PlusAssociates(c, b, d);
    PlusAssociates(a, c, Plus(b, d));
  }

  lemma ShiftIsInjective(c: bv16, d: bv16)
    ensures Shift(c) == Shift(d) <==> c == d
  {
    if Shift(c) == Shift(d) {
      GeneratorTail(15);
      hide Shift, RegisterBits;
      ShiftDivides(c);
      ShiftDivides(d);
      NextRemainderIsInjective(RegisterBits(c), RegisterBits(d), false, GENERATOR);
      SameRegisterBits(c, d);
    }
  }

  lemma {:induction false} ShiftsAdd(c: bv16, m: nat, n: nat)
    ensures Shifts(c, m + n) == Shifts(Shifts(c, m), n)
  {
    hide Shift;
    if n > 0 { ShiftsAdd(c, m, n - 1); }
  }

  lemma {:induction false} ShiftsAreInjective(c: bv16, d: bv16, n: nat)
    ensures Shifts(c, n) == Shifts(d, n) <==> c == d
  {
    hide Shift;
    if n > 0 {
      ShiftsAreInjective(c, d, n - 1);
      ShiftIsInjective(Shifts(c, n - 1), Shifts(d, n - 1));
    }
  }

  // ---- squaring ----

  function Pick(b: bool, q: bv16): bv16 {
    if b then q else 0
  }

  lemma ShiftOfZero()
    ensures Shift(0) == 0
  {
  }

  lemma ShiftOfPick(b: bool, q: bv16)
    ensures Shift(Pick(b, q)) == Pick(b, Shift(q))
  {
    hide Shift;
    ShiftOfZero();
  }

  lemma PickOfSum(b: bool, c: bool, q: bv16)
    ensures Pick(b != c, q) == Plus(Pick(b, q), Pick(c, q))
  {
    hide Plus;
    PlusZero(q);
    PlusZero(0);
  }

  lemma PickOfPlus(b: bool, p: bv16, q: bv16)
    ensures Pick(b, Plus(p, q)) == Plus(Pick(b, p), Pick(b, q))
  {
    hide Plus;
    PlusZero(0);
  }

  lemma PickTwice(b: bool, c: bool, q: bv16)
    ensures Pick(b, Pick(c, q)) == Pick(b && c, q)
  {
  }

  function Twice(c: bv16): bv16 {
    Shift(Shift(c))
  }

  lemma TwiceOfPlus(c: bv16, d: bv16)
    ensures Twice(Plus(c, d)) == Plus(Twice(c), Twice(d))
  {
    hide Shift, Plus;
    ShiftOfPlus(c, d);
    ShiftOfPlus(Shift(c), Shift(d));
  }

  lemma TwiceOfPick(b: bool, q: bv16)
    ensures Twice(Pick(b, q)) == Pick(b, Twice(q))
  {
    hide Shift, Pick;
    ShiftOfPick(b, q);
    ShiftOfPick(b, Shift(q));
  }

  /** x^n modulo the generator. */
  function Power(n: nat): bv16 {
    Shifts(UNIT, n)
  }

  lemma PowerNext(n: nat)
    ensures Power(n + 1) == Shift(Power(n)) && Power(n + 2) == Twice(Power(n))
  {
    hide Shift;
  }

  /** The square of the k lowest terms of a polynomial: the sum of their squares. */
  function SumOfSquares(c: bv16, k: nat): bv16
    requires k <= 16
  {
    if k == 0 then 0 else Plus(SumOfSquares(c, k - 1), Pick(BitAt(c, 16 - k), Power(2 * (k - 1))))
  }

  lemma SumNext(c: bv16, k: nat)
    requires k < 16
    ensures SumOfSquares(c, k + 1) == Plus(SumOfSquares(c, k), Pick(BitAt(c, 15 - k), Power(2 * k)))
  {
    hide Plus, Pick, BitAt, Power;
  }

  /** The same of the generator's tail, x^15 + x^2 + 1. */
  function TailSquares(k: nat): bv16 {
    if k == 0 then 0 else Plus(TailSquares(k - 1), Pick(k == 1 || k == 3 || k == 16, Power(2 * (k - 1))))
  }

  lemma TailNext(k: nat)
    ensures TailSquares(k + 1) == Plus(TailSquares(k), Pick(k == 0 || k == 2 || k == 15, Power(2 * k)))
  {
    hide Plus, Pick, Power;
  }

  /** The top term of c drops out of its place and comes back as the generator's tail. */
  ghost predicate Folds(c: bv16, k: nat)
    requires k <= 15
  {
    SumOfSquares(Shift(c), k + 1) == Plus(Twice(SumOfSquares(c, k)), Pick(BitAt(c, 0), TailSquares(k + 1)))
  }

  lemma FoldStep(s: bv16, w: bv16, top: bool, next: bool, g: bool, p: bv16, q: bv16)
    requires q == Twice(p)
    ensures Plus(Plus(Twice(s), Pick(top, w)), Pick(next != (top && g), q))
         == Plus(Twice(Plus(s, Pick(next, p))), Pick(top, Plus(w, Pick(g, q))))
  {
    hide Twice, Plus, Pick;
    TwiceOfPlus(s, Pick(next, p));
    TwiceOfPick(next, p);
    PickOfSum(next, top && g, q);
    PickOfPlus(top, w, Pick(g, q));
    PickTwice(top, g, q);
    PlusRegroups(Twice(s), Pick(top, w), Pick(next, q), Pick(top && g, q));
  }

  lemma BitOfShift(c: bv16, i: nat)
    requires i < 15
    ensures BitAt(Shift(c), i) == (BitAt(c, i + 1) != (BitAt(c, 0) && (i == 0 || i == 13)))
    ensures BitAt(Shift(c), 15) == BitAt(c, 0)
  {
    BitsOfShift(c, i);
    BitsOfShift(c, 15);
  }

  lemma FoldNext(c: bv16, k: nat)
    requires k < 15 && Folds(c, k)
    ensures Folds(c, k + 1)
  {
    hide SumOfSquares, TailSquares, Twice, Shift, Plus, Pick, BitAt, Power;
    BitOfShift(c, 14 - k);
    SumNext(Shift(c), k + 1);
    SumNext(c, k);
    TailNext(k + 1);
    PowerNext(2 * k);
    FoldStep(SumOfSquares(c, k), TailSquares(k + 1), BitAt(c, 0), BitAt(c, 15 - k), k == 1 || k == 14,
             Power(2 * k), Power(2 * k + 2));
  }

  lemma FoldStart(c: bv16)
    ensures Folds(c, 0)
  {
    BitOfShift(c, 0);
    SumNext(Shift(c), 0);
    TailNext(0);
    hide Shift, Plus, Pick, BitAt, Power;
    ShiftOfZero();
    PlusZero(Power(0));
    PlusZero(Pick(BitAt(c, 0), Power(0)));
    assert Pick(true, Power(0)) == Power(0) by { PickTrue(Power(0)); }
  }

  lemma PickTrue(q: bv16)
    ensures Pick(true, q) == q && Pick(false, q) == 0
  {
  }

  lemma {:induction false} FoldsSoFar(c: bv16, k: nat)
    requires k <= 15
    ensures Folds(c, k)
  {
    hide Folds;
    if k == 0 {
      FoldStart(c);
    } else {
      FoldsSoFar(c, k - 1);
      FoldNext(c, k - 1);
    }
  }

  lemma PowerZero()
    ensures Power(0) == UNIT
  {
  }

  lemma TwoMore(n: nat, c: bv16, d: bv16)
    requires Power(n) == c && Twice(c) == d
    ensures Power(n + 2) == d
  {
    hide Twice, Power;
    PowerNext(n);
  }

  lemma EvenPowers()
    ensures Power(0) == 0x8000 && Power(2) == 0x2000 && Power(4) == 0x0800 && Power(6) == 0x0200
    ensures Power(8) == 0x0080 && Power(10) == 0x0020 && Power(12) == 0x0008 && Power(14) == 0x0002
    ensures Power(16) == 0xA001 && Power(18) == 0xD801 && Power(20) == 0xC601 && Power(22) == 0xC181
    ensures Power(24) == 0xC061 && Power(26) == 0xC019 && Power(28) == 0xC007 && Power(30) == 0x6001
    ensures Power(32) == 0xE801
  {
    hide Power;
    PowerZero();
    TwoMore(0, 0x8000, 0x2000);
    TwoMore(2, 0x2000, 0x0800);
    TwoMore(4, 0x0800, 0x0200);
    TwoMore(6, 0x0200, 0x0080);
    TwoMore(8, 0x0080, 0x0020);
    TwoMore(10, 0x0020, 0x0008);
    TwoMore(12, 0x0008, 0x0002);
    TwoMore(14, 0x0002, 0xA001);
    TwoMore(16, 0xA001, 0xD801);
    TwoMore(18, 0xD801, 0xC601);
    TwoMore(20, 0xC601, 0xC181);
    TwoMore(22, 0xC181, 0xC061);
    TwoMore(24, 0xC061, 0xC019);
    TwoMore(26, 0xC019, 0xC007);
    TwoMore(28, 0xC007, 0x6001);
    TwoMore(30, 0x6001, 0xE801);
  }

  lemma {:induction false} TailSquaresAre(k: nat)
    requires 3 <= k <= 15
    ensures TailSquares(k) == Plus(Power(0), Power(4))
  {
    hide Plus, Power, TailSquares;
    PlusZero(Power(0));
    PlusZero(TailSquares(k - 1));
    PickTrue(Power(2 * (k - 1)));
    TailNext(k - 1);
    if k > 3 {
      TailSquaresAre(k - 1);
    } else {
      TailNext(0);
      TailNext(1);
      PickTrue(Power(0));
      PickTrue(Power(2));
      NoTail();
    }
  }

  lemma NoTail()
    ensures TailSquares(0) == 0
  {
  }

  /** x^32 is the square of the generator's tail. */
  lemma TailIsThirtySecond()
    ensures TailSquares(16) == Power(32)
  {
    TailSquaresAre(15);
    TailNext(15);
    PickTrue(Power(30));
    EvenPowers();
    hide Power, TailSquares, Pick;
  }

  lemma SquareOfShift(c: bv16)
    ensures SumOfSquares(Shift(c), 16) == Twice(SumOfSquares(c, 16))
  {
    hide SumOfSquares, TailSquares, Twice, Shift, Plus, Pick, BitAt, Power;
    FoldsSoFar(c, 15);
    SumNext(c, 15);
    TwiceOfPlus(SumOfSquares(c, 15), Pick(BitAt(c, 0), Power(30)));
    TwiceOfPick(BitAt(c, 0), Power(30));
    PowerNext(30);
    TailIsThirtySecond();
  }

  lemma {:induction false} SquareOfUnitSoFar(k: nat)
    requires 1 <= k <= 16
    ensures SumOfSquares(UNIT, k) == UNIT
  {
    UnitBits(16 - k);
    SumNext(UNIT, k - 1);
    PowerZero();
    hide Plus, BitAt, Power, SumOfSquares, UNIT;
    PickTrue(Power(2 * (k - 1)));
    PlusZero(UNIT);
    if k > 1 {
      SquareOfUnitSoFar(k - 1);
    } else {
      NoSquares(UNIT);
    }
  }

  lemma NoSquares(c: bv16)
    ensures SumOfSquares(c, 0) == 0
  {
  }

  lemma UnitBits(i: nat)
    requires i < 16
    ensures BitAt(UNIT, i) == (i == 15)
  {
    PlaceValues();
  }

  /** The square of a power of x is the sum of the squares of its terms. */
  lemma {:induction false} SquareOfPower(n: nat)
    ensures SumOfSquares(Power(n), 16) == Power(2 * n)
  {
    hide SumOfSquares, Shift, Twice, UNIT;
    if n == 0 {
      SquareOfUnitSoFar(16);
      PowerZero();
    } else {
      SquareOfPower(n - 1);
      SquareOfShift(Power(n - 1));
      PowerNext(n - 1);
      PowerNext(2 * (n - 1));
    }
  }

  // ---- powers of x, by squaring ----

  function Term(c: bv16, m: bv16, v: bv16): bv16 {
    if c & m != 0 then v else 0
  }

  /** Four terms more: the squares v of the places m. */
  function Four(sum: bv16, c: bv16, m0: bv16, v0: bv16, m1: bv16, v1: bv16,
                m2: bv16, v2: bv16, m3: bv16, v3: bv16): bv16
  {
    Plus(Plus(Plus(Plus(sum, Term(c, m0, v0)), Term(c, m1, v1)), Term(c, m2, v2)), Term(c, m3, v3))
  }

  /** The square of a polynomial, written out. */
  function Squared(c: bv16): bv16 {
    var s4 := Four(0, c, 0x8000, 0x8000, 0x4000, 0x2000, 0x2000, 0x0800, 0x1000, 0x0200);
    var s8 := Four(s4, c, 0x0800, 0x0080, 0x0400, 0x0020, 0x0200, 0x0008, 0x0100, 0x0002);
    var s12 := Four(s8, c, 0x0080, 0xA001, 0x0040, 0xD801, 0x0020, 0xC601, 0x0010, 0xC181);
    Four(s12, c, 0x0008, 0xC061, 0x0004, 0xC019, 0x0002, 0xC007, 0x0001, 0x6001)
  }

  lemma TermIs(c: bv16, k: nat, m: bv16, v: bv16)
    requires k < 16 && m == Place(15 - k) && v == Power(2 * k)
    ensures SumOfSquares(c, k + 1) == Plus(SumOfSquares(c, k), Term(c, m, v))
  {
    hide Power;
    SumNext(c, k);
  }

  lemma SquaredIsSum(c: bv16)
    ensures Squared(c) == SumOfSquares(c, 16)
  {
    hide Plus, Power, SumOfSquares, Term, Place;
    EvenPowers();
    PlaceValues();
    NoSquares(c);
    TermIs(c, 0, 0x8000, 0x8000);
    TermIs(c, 1, 0x4000, 0x2000);
    TermIs(c, 2, 0x2000, 0x0800);
    TermIs(c, 3, 0x1000, 0x0200);
    TermIs(c, 4, 0x0800, 0x0080);
    TermIs(c, 5, 0x0400, 0x0020);
    TermIs(c, 6, 0x0200, 0x0008);
    TermIs(c, 7, 0x0100, 0x0002);
    TermIs(c, 8, 0x0080, 0xA001);
    TermIs(c, 9, 0x0040, 0xD801);
    TermIs(c, 10, 0x0020, 0xC601);
    TermIs(c, 11, 0x0010, 0xC181);
    TermIs(c, 12, 0x0008, 0xC061);
    TermIs(c, 13, 0x0004, 0xC019);
    TermIs(c, 14, 0x0002, 0xC007);
    TermIs(c, 15, 0x0001, 0x6001);
  }

  lemma Double(n: nat, c: bv16, d: bv16)
    requires Power(n) == c && Squared(c) == d
    ensures Power(2 * n) == d
  {
    hide *;
    SquaredIsSum(c);
    SquareOfPower(n);
  }

  lemma OneMore(n: nat, c: bv16, d: bv16)
    requires Power(n) == c && Shift(c) == d
    ensures Power(n + 1) == d
  {
    hide *;
    PowerNext(n);
  }

  lemma Power32767()
    ensures Power(32767) == 0x8000
  {
    hide Power;
    EvenPowers();
    OneMore(30, 0x6001, 0x9001);
    Double(31, 0x9001, 0xE201);
    OneMore(62, 0xE201, 0xD101);
    Double(63, 0xD101, 0xC203);
    OneMore(126, 0xC203, 0xC100);
    Double(127, 0xC100, 0xA002);
    OneMore(254, 0xA002, 0x5001);
    Double(255, 0x5001, 0x4201);
    OneMore(510, 0x4201, 0x8101);
    Double(511, 0x8101, 0xE003);
    OneMore(1022, 0xE003, 0xD000);
    Double(1023, 0xD000, 0xA200);
    OneMore(2046, 0xA200, 0x5100);
    Double(2047, 0x5100, 0x2202);
    OneMore(4094, 0x2202, 0x1101);
    Double(4095, 0x1101, 0x6203);
    OneMore(8190, 0x6203, 0x9100);
    Double(8191, 0x9100, 0x8202);
    OneMore(16382, 0x8202, 0x4101);
    Double(16383, 0x4101, 0x4003);
    OneMore(32766, 0x4003, 0x8000);
  }

  lemma Power4681()
    ensures Power(4681) == 0x8C69
  {
    hide Power;
    EvenPowers();
    Double(18, 0xD801, 0xC281);
    Double(36, 0xC281, 0x6008);
    OneMore(72, 0x6008, 0x3004);
    Double(73, 0x3004, 0xCA19);
    Double(146, 0xCA19, 0xC169);
    Double(292, 0xC169, 0x1E62);
    OneMore(584, 0x1E62, 0x0F31);
    Double(585, 0x0F31, 0x672B);
    Double(1170, 0x672B, 0x8E4C);
    Double(2340, 0x8E4C, 0x58D1);
    OneMore(4680, 0x58D1, 0x8C69);
  }

  lemma Power1057()
    ensures Power(1057) == 0xCE41
  {
    hide Power;
    EvenPowers();
    Double(16, 0xA001, 0xE801);
    OneMore(32, 0xE801, 0xD401);
    Double(33, 0xD401, 0xC221);
    Double(66, 0xC221, 0x0608);
    Double(132, 0x0608, 0xC049);
    Double(264, 0xC049, 0xD861);
    Double(528, 0xD861, 0xDC81);
    OneMore(1056, 0xDC81, 0xCE41);
  }

  lemma Power217()
    ensures Power(217) == 0x3E55
  {
    hide Power;
    EvenPowers();
    OneMore(26, 0xC019, 0xC00D);
    Double(27, 0xC00D, 0xC079);
    Double(54, 0xC079, 0xDFE1);
    Double(108, 0xDFE1, 0x7CAA);
    OneMore(216, 0x7CAA, 0x3E55);
  }

  // ---- the order ----

  predicate Periodic(n: nat) {
    Power(n) == UNIT
  }

  lemma PeriodShifts(m: nat, n: nat)
    requires Periodic(m)
    ensures Periodic(m + n) <==> Periodic(n)
  {
    hide Shifts, UNIT;
    ShiftsAdd(UNIT, m, n);
  }

  lemma {:induction false} PeriodMultiple(m: nat, k: nat)
    requires Periodic(m)
    ensures Periodic(m * k)
  {
    hide Power, UNIT;
    if k == 0 {
      PowerZero();
    } else {
      PeriodMultiple(m, k - 1);
      PeriodShifts(m, m * (k - 1));
      assert m + m * (k - 1) == m * k;
    }
  }

  lemma PeriodRemainder(k: nat, a: nat, b: nat)
    requires b > 0 && Periodic(k * a) && Periodic(k * b)
    ensures Periodic(k * (a % b))
  {
    hide Periodic;
    PeriodMultiple(k * b, a / b);
    SplitProduct(k, a, b);
    PeriodShifts(k * b * (a / b), k * (a % b));
  }

  lemma SplitProduct(k: nat, a: nat, b: nat)
    requires b > 0
    ensures k * b * (a / b) + k * (a % b) == k * a
  {
    assert a == b * (a / b) + a % b;
    assert k * a == k * (b * (a / b)) + k * (a % b);
    assert k * (b * (a / b)) == k * b * (a / b);
  }

  /** g divides n. */
  ghost predicate Divides(g: nat, n: nat) {
    exists m: nat :: n == g * m
  }

  lemma DividesSum(g: nat, a: nat, b: nat)
    requires b > 0 && Divides(g, b) && Divides(g, a % b)
    ensures Divides(g, a)
  {
    var m: nat :| b == g * m;
    var n: nat :| a % b == g * n;
    var q := a / b;
    assert a == b * q + a % b;
    Regroup(g, m, q, n);
  }

  lemma Regroup(g: nat, m: nat, q: nat, n: nat)
    ensures g * m * q + g * n == g * (m * q + n)
  {
  }

  /** Euclid's algorithm on two periods. */
  lemma {:induction false} CommonPeriod(k: nat, a: nat, b: nat) returns (g: nat)
    requires a > 0 && Periodic(k * a) && Periodic(k * b)
    ensures g > 0 && Periodic(k * g) && Divides(g, a) && Divides(g, b)
    decreases b
  {
    hide Periodic;
    if b == 0 {
      g := a;
      assert a == g * 1 && b == g * 0;
    } else {
      PeriodRemainder(k, a, b);
      g := CommonPeriod(k, b, a % b);
      DividesSum(g, a, b);
    }
  }

  ghost predicate IsPrime(p: nat) {
    p > 1 && forall g :: Divides(g, p) ==> g == 1 || g == p
  }

  lemma PrimePeriod(k: nat, p: nat, d: nat)
    requires IsPrime(p) && Periodic(k * p) && !Periodic(k) && Periodic(k * d)
    ensures Divides(p, d)
  {
    hide Periodic;
    var g := CommonPeriod(k, p, d);
    assert g != 1 by {
      assert k * 1 == k;
    }
  }

  lemma Primes()
    ensures IsPrime(7) && IsPrime(31) && IsPrime(151)
  {
    forall p: nat, g: nat | p in {7, 31, 151} && Divides(g, p) ensures g == 1 || g == p {
      var m: nat :| p == g * m;
      NoFactor(g, m, p);
    }
  }

  lemma NoFactor(g: nat, m: nat, p: nat)
    requires p in {7, 31, 151}
    ensures g * m == p ==> g == 1 || g == p
  {
    if g <= 12 {
      NoSmallFactor(g, m, p);
    } else if m <= 12 {
      NoSmallFactor(m, g, p);
      assert g * m == m * g;
    } else {
      assert g * m >= 13 * m >= 13 * 13;
    }
  }

  lemma NoSmallFactor(g: nat, m: nat, p: nat)
    requires g <= 12 && p in {7, 31, 151}
    ensures g * m == p ==> g == 1 || g == p
    ensures g * m == p && g == p ==> m == 1
  {
    match g
    case 0 => assert 0 * m == 0;
    case 2 => assert 2 * m != p;
    case 3 => assert 3 * m != p;
    case 4 => assert 4 * m != p;
    case 5 => assert 5 * m != p;
    case 6 => assert 6 * m != p;
    case 7 => assert p != 7 ==> 7 * m != p;
    case 8 => assert 8 * m != p;
    case 9 => assert 9 * m != p;
    case 10 => assert 10 * m != p;
    case 11 => assert 11 * m != p;
    case 12 => assert 12 * m != p;
    case _ =>
  }

  lemma SevenAndThirtyOne(a: int, b: int) returns (e: int)
    requires 7 * a == 31 * b
    ensures a == 31 * e
  {
    e := 9 * b - 2 * a;
  }

  lemma AndOneHundredFiftyOne(c: int, e: int) returns (f: int)
    requires 151 * c == 217 * e
    ensures e == 151 * f
  {
    f := 135 * c - 194 * e;
  }

  lemma Factors(d: nat)
    requires Divides(7, d) && Divides(31, d) && Divides(151, d)
    ensures d % 32767 == 0
  {
    var a: nat :| d == 7 * a;
    var b: nat :| d == 31 * b;
    var c: nat :| d == 151 * c;
    var e := SevenAndThirtyOne(a, b);
    var f := AndOneHundredFiftyOne(c, e);
    MultipleLeavesNothing(d, f);
  }

  lemma MultipleLeavesNothing(d: int, f: int)
    requires d == 32767 * f
    ensures d % 32767 == 0
  {
  }

  lemma KnownPeriods()
    ensures Periodic(32767) && !Periodic(4681) && !Periodic(1057) && !Periodic(217)
  {
    hide Power;
    Power32767();
    Power4681();
    Power1057();
    Power217();
  }

  /** x comes back to itself after 32767 shifts, and after no number of shifts that is not a
      multiple of that. */
  lemma OrderOfX(d: nat)
    ensures Periodic(d) <==> d % 32767 == 0
  {
    KnownPeriods();
    hide Periodic;
    if Periodic(d) {
      Primes();
      PeriodMultiple(d, 4681);
      PeriodMultiple(d, 1057);
      PeriodMultiple(d, 217);
      PrimePeriod(4681, 7, d);
      PrimePeriod(1057, 31, d);
      PrimePeriod(217, 151, d);
      Factors(d);
    }
    if d % 32767 == 0 {
      PeriodMultiple(32767, d / 32767);
    }
  }
}
