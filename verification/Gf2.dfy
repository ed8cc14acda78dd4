/** Polynomials over GF(2), the arithmetic that section 8.3.5 of the USB 2.0 specification
    defines its checksums in. A polynomial is the sequence of its coefficients, highest
    degree first; lengths are explicit, so `[false] + p` and `p` are the same polynomial
    written with a different number of places. */
module Gf2 {

  type Poly = seq<bool>

  function Zeros(n: nat): (p: Poly)
    ensures |p| == n
  {
    seq(n, _ => false)
  }

  function Ones(n: nat): (p: Poly)
    ensures |p| == n
  {
    seq(n, _ => true)
  }

  /** Addition: coefficients add modulo 2. */
  function Add(p: Poly, q: Poly): (r: Poly)
    requires |p| == |q|
    ensures |r| == |p|
  {
    seq(|p|, i requires 0 <= i < |p| => p[i] != q[i])
  }

  /** A coefficient times a polynomial. */
  function Scale(b: bool, p: Poly): (r: Poly)
    ensures |r| == |p|
  {
    if b then p else Zeros(|p|)
  }

  /** The product q * g, by Horner's rule on the coefficients of q. */
  function Mul(q: Poly, g: Poly): (r: Poly)
    requires |g| >= 1
    ensures |r| == |q| + |g| - 1
  {
    if q == [] then Zeros(|g| - 1)
    else
      var n := |q| - 1;
      Add(Mul(q[..n], g) + [false], Zeros(n) + Scale(q[n], g))
  }

  /** The value q * g + r, with r of degree below that of g. */
  function Combine(q: Poly, g: Poly, r: Poly): (d: Poly)
    requires |g| >= 1 && |r| == |g| - 1
    ensures |d| == |q| + |r|
  {
    Add(Mul(q, g), Zeros(|q|) + r)
  }

  /** r is what remains of d after division by g. */
  ghost predicate IsRemainder(d: Poly, g: Poly, r: Poly) {
    && |g| >= 1 && |r| == |g| - 1 && |d| >= |r|
    && exists q: Poly :: |q| == |d| - |r| && Combine(q, g, r) == d
  }

  // ---- multiplication is linear, and a monic divisor leaves a unique remainder ----

  lemma MulStep(p: Poly, g: Poly)
    requires |g| >= 1 && p != []
    ensures var n := |p| - 1; Mul(p, g) == Add(Mul(p[..n], g) + [false], Zeros(n) + Scale(p[n], g))
  {
  }

  lemma StepIsLinear(a: Poly, b: Poly, c: bool, d: bool, n: nat, g: Poly)
    requires |a| == |b| == n + |g| - 1 && |g| >= 1
    ensures Add(Add(a, b) + [false], Zeros(n) + Scale(c != d, g))
         == Add(Add(a + [false], Zeros(n) + Scale(c, g)), Add(b + [false], Zeros(n) + Scale(d, g)))
  {
  }

  lemma {:induction false} MulIsLinear(p: Poly, q: Poly, g: Poly)
    requires |g| >= 1 && |p| == |q|
    ensures Mul(Add(p, q), g) == Add(Mul(p, g), Mul(q, g))
  {
    if p != [] {
      var n := |p| - 1;
      assert Add(p, q)[..n] == Add(p[..n], q[..n]) && Add(p, q)[n] == (p[n] != q[n]);
      MulIsLinear(p[..n], q[..n], g);
      MulStep(p, g);
      MulStep(q, g);
      MulStep(Add(p, q), g);
      hide *;
      StepIsLinear(Mul(p[..n], g), Mul(q[..n], g), p[n], q[n], n, g);
    }
  }

  lemma {:induction false} MulOfZeros(n: nat, g: Poly)
    requires |g| >= 1
    ensures Mul(Zeros(n), g) == Zeros(n + |g| - 1)
  {
    if n > 0 {
      MulOfZeros(n - 1, g);
      assert Zeros(n)[..n - 1] == Zeros(n - 1);
    }
  }

  /** The leading coefficient of q survives in q * g when g is monic. */
  lemma {:induction false} MulLeading(q: Poly, g: Poly, j: nat)
    requires |g| >= 1 && g[0] && j < |q| && q[j] && forall i :: 0 <= i < j ==> !q[i]
    ensures Mul(q, g)[j]
  {
    var n := |q| - 1;
    if j < n {
      MulLeading(q[..n], g, j);
    } else {
      assert q[..n] == Zeros(n);
      MulOfZeros(n, g);
    }
  }

  /** Division by a monic polynomial determines quotient and remainder. */
  lemma DivisionIsUnique(d: Poly, g: Poly, q1: Poly, r1: Poly, q2: Poly, r2: Poly)
    requires |g| >= 1 && g[0] && |r1| == |g| - 1 == |r2| && |q1| == |q2|
    requires Combine(q1, g, r1) == d == Combine(q2, g, r2)
    ensures q1 == q2 && r1 == r2
  {
    var q := Add(q1, q2);
    MulIsLinear(q1, q2, g);
    forall i | 0 <= i < |d| ensures Mul(q, g)[i] == (i >= |q| && r1[i - |q|] != r2[i - |q|]) {
      assert Combine(q1, g, r1)[i] == Combine(q2, g, r2)[i];
    }
    if j :| 0 <= j < |q| && q[j] {
      var k := FirstTrue(q, j);
      MulLeading(q, g, k);
      assert false;
    }
    assert q == Zeros(|q|);
    assert forall i :: 0 <= i < |q| ==> q[i] == (q1[i] != q2[i]);
    assert q1 == q2;
    MulOfZeros(|q|, g);
    forall i | 0 <= i < |r1| ensures r1[i] == r2[i] {
      assert !Mul(q, g)[|q| + i];
    }
  }

  lemma RemainderIsUnique(d: Poly, g: Poly, r1: Poly, r2: Poly)
    requires |g| >= 1 && g[0] && IsRemainder(d, g, r1) && IsRemainder(d, g, r2)
    ensures r1 == r2
  {
    var q1: Poly :| |q1| == |d| - |r1| && Combine(q1, g, r1) == d;
    var q2: Poly :| |q2| == |d| - |r2| && Combine(q2, g, r2) == d;
    DivisionIsUnique(d, g, q1, r1, q2, r2);
  }

  /** The index of the first set coefficient, given that index j is set. */
  lemma {:induction false} FirstTrue(q: Poly, j: nat) returns (k: nat)
    requires j < |q| && q[j]
    ensures k <= j && q[k] && forall i :: 0 <= i < k ==> !q[i]
  {
    if i :| 0 <= i < j && q[i] {
      k := FirstTrue(q, i);
    } else {
      k := j;
    }
  }

  // ---- one step of long division ----

  /** The remainder after one more dividend coefficient b has been brought down at the
      place of g's leading coefficient. */
  function NextRemainder(r: Poly, b: bool, g: Poly): (r': Poly)
    requires |r| >= 1 && |g| == |r| + 1
    ensures |r'| == |r|
  {
    Add(r[1..] + [false], Scale(r[0] != b, g[1..]))
  }

  /** The dividend x * d + b * x^(|g|-1). */
  function NextDividend(d: Poly, b: bool, k: nat): (d': Poly)
    requires k <= |d|
    ensures |d'| == |d| + 1
  {
    Add(d + [false], Zeros(|d| - k) + [b] + Zeros(k))
  }

  /** The step for any product a. */
  lemma {:induction false} StepOver(a: Poly, n: nat, g: Poly, r: Poly, b: bool)
    requires |r| >= 1 && |g| == |r| + 1 && g[0] && |a| == n + |r|
    ensures NextDividend(Add(a, Zeros(n) + r), b, |r|)
         == Add(Add(a + [false], Zeros(n) + Scale(r[0] != b, g)), Zeros(n + 1) + NextRemainder(r, b, g))
  {
    var left := NextDividend(Add(a, Zeros(n) + r), b, |r|);
    var right := Add(Add(a + [false], Zeros(n) + Scale(r[0] != b, g)), Zeros(n + 1) + NextRemainder(r, b, g));
    forall i | 0 <= i < |left| ensures left[i] == right[i] {
      assert left[i] == ((Add(a, Zeros(n) + r) + [false])[i] != (Zeros(n) + [b] + Zeros(|r|))[i]);
      assert right[i] == (Add(a + [false], Zeros(n) + Scale(r[0] != b, g))[i]
                          != (Zeros(n + 1) + NextRemainder(r, b, g))[i]);
    }
  }

  lemma {:induction false} LongDivisionStep(q: Poly, g: Poly, r: Poly, b: bool)
    requires |r| >= 1 && |g| == |r| + 1 && g[0]
    ensures NextDividend(Combine(q, g, r), b, |r|) == Combine(q + [r[0] != b], g, NextRemainder(r, b, g))
  {
    var q' := q + [r[0] != b];
    assert q'[..|q|] == q;
    assert Mul(q', g) == Add(Mul(q, g) + [false], Zeros(|q|) + Scale(r[0] != b, g));
    hide Mul, Add, Scale, NextDividend, NextRemainder;
    StepOver(Mul(q, g), |q|, g, r, b);
  }

  // ---- long division, one dividend bit after another ----

  /** The remainder r after the further dividend bits have been brought down in turn. */
  function Divide(r: Poly, bits: Poly, g: Poly): (r': Poly)
    requires |r| >= 1 && |g| == |r| + 1
    ensures |r'| == |r|
  {
    if bits == [] then r
    else NextRemainder(Divide(r, bits[..|bits| - 1], g), bits[|bits| - 1], g)
  }

  lemma {:induction false} DivideConcat(r: Poly, p: Poly, q: Poly, g: Poly)
    requires |r| >= 1 && |g| == |r| + 1
    ensures Divide(r, p + q, g) == Divide(Divide(r, p, g), q, g)
  {
    if q == [] {
      assert p + q == p;
    } else {
      assert (p + q)[..|p + q| - 1] == p + q[..|q| - 1];
      DivideConcat(r, p, q[..|q| - 1], g);
    }
  }

  lemma DivideOne(r: Poly, b: bool, g: Poly)
    requires |r| >= 1 && |g| == |r| + 1
    ensures Divide(r, [b], g) == NextRemainder(r, b, g)
  {
    assert [b][..0] == [];
  }

  lemma {:induction false} DivideFirst(r: Poly, first: bool, rest: Poly, g: Poly)
    requires |r| >= 1 && |g| == |r| + 1
    ensures Divide(r, [first] + rest, g) == Divide(NextRemainder(r, first, g), rest, g)
  {
    hide *;
    DivideConcat(r, [first], rest, g);
    DivideOne(r, first, g);
  }

  /** As many bits as the remainder has places may be added to it at once, and the shifts
      made afterwards. */
  lemma {:induction false} DivideAtOnce(r: Poly, bits: Poly, g: Poly)
    requires |r| >= 1 && |g| == |r| + 1 && |bits| <= |r|
    ensures Divide(r, bits, g) == Divide(Add(r, bits + Zeros(|r| - |bits|)), Zeros(|bits|), g)
    decreases |bits|
  {
    hide *;
    if bits == [] {
      DivideNone(r, g);
    } else {
      var first, rest := bits[0], bits[1..];
      assert bits == [first] + rest;
      MoreZeros(|rest|);
      DivideAtOnceStep(r, first, rest, g);
      DivideAtOnce(NextRemainder(r, first, g), rest, g);
    }
  }

  lemma DivideNone(r: Poly, g: Poly)
    requires |r| >= 1 && |g| == |r| + 1
    ensures Divide(r, [], g) == Divide(Add(r, [] + Zeros(|r|)), Zeros(0), g)
  {
    assert Add(r, [] + Zeros(|r|)) == r;
  }

  lemma MoreZeros(n: nat)
    ensures Zeros(n + 1) == [false] + Zeros(n)
  {
  }

  lemma {:induction false} DivideAtOnceStep(r: Poly, first: bool, rest: Poly, g: Poly)
    requires |g| == |r| + 1 && |rest| < |r|
    ensures Divide(r, [first] + rest, g) == Divide(NextRemainder(r, first, g), rest, g)
    ensures Divide(Add(r, [first] + rest + Zeros(|r| - |rest| - 1)), [false] + Zeros(|rest|), g)
         == Divide(Add(NextRemainder(r, first, g), rest + Zeros(|r| - |rest|)), Zeros(|rest|), g)
  {
    hide *;
    DivideFirst(r, first, rest, g);
    DivideFirst(Add(r, [first] + rest + Zeros(|r| - |rest| - 1)), false, Zeros(|rest|), g);
    NextOfSum(r, first, rest, g);
  }

  lemma NextOfSum(r: Poly, first: bool, rest: Poly, g: Poly)
    requires |g| == |r| + 1 && |rest| < |r|
    ensures NextRemainder(Add(r, [first] + rest + Zeros(|r| - |rest| - 1)), false, g)
         == Add(NextRemainder(r, first, g), rest + Zeros(|r| - |rest|))
  {
    var sum := Add(r, [first] + rest + Zeros(|r| - |rest| - 1));
    assert sum[0] == (r[0] != first);
  }

  /** A divisor with a constant term loses nothing: the remainder before a step can be
      told from the remainder after it. */
  lemma NextRemainderIsInjective(r: Poly, s: Poly, b: bool, g: Poly)
    requires |r| >= 1 && |s| == |r| && |g| == |r| + 1 && g[|r|]
    requires NextRemainder(r, b, g) == NextRemainder(s, b, g)
    ensures r == s
  {
    var n := |r| - 1;
    assert NextRemainder(r, b, g)[n] == (r[0] != b);
    assert NextRemainder(s, b, g)[n] == (s[0] != b);
    forall i | 1 <= i < |r| ensures r[i] == s[i] {
      assert NextRemainder(r, b, g)[i - 1] == NextRemainder(s, b, g)[i - 1];
    }
  }

  lemma {:induction false} DivideIsInjective(r: Poly, s: Poly, bits: Poly, g: Poly)
    requires |r| >= 1 && |s| == |r| && |g| == |r| + 1 && g[|r|]
    ensures Divide(r, bits, g) == Divide(s, bits, g) <==> r == s
  {
    if bits != [] && Divide(r, bits, g) == Divide(s, bits, g) {
      var n := |bits| - 1;
      NextRemainderIsInjective(Divide(r, bits[..n], g), Divide(s, bits[..n], g), bits[n], g);
      DivideIsInjective(r, s, bits[..n], g);
    }
  }

  /** Dividends that agree outside a window no wider than the remainder, and leave the
      same remainder, are equal. */
  lemma {:induction false} BurstIsSeen(r: Poly, p: Poly, q: Poly, start: nat, width: nat, g: Poly)
    requires |r| >= 1 && |g| == |r| + 1 && g[|r|]
    requires |p| == |q| && start + width <= |p| && width <= |r|
    requires forall i :: 0 <= i < |p| && !(start <= i < start + width) ==> p[i] == q[i]
    requires Divide(r, p, g) == Divide(r, q, g)
    ensures p == q
  {
    hide *;
    var end := start + width;
    CutInThree(p, start, end);
    CutInThree(q, start, end);
    assert p[..start] == q[..start] && p[end..] == q[end..];
    DivideInThree(r, p[..start], p[start..end], p[end..], g);
    DivideInThree(r, p[..start], q[start..end], p[end..], g);
    var s := Divide(r, p[..start], g);
    DivideIsInjective(Divide(s, p[start..end], g), Divide(s, q[start..end], g), p[end..], g);
    ShortBurstIsSeen(s, p[start..end], q[start..end], g);
  }

  lemma CutInThree(p: Poly, start: nat, end: nat)
    requires start <= end <= |p|
    ensures p == p[..start] + p[start..end] + p[end..]
  {
  }

  lemma {:induction false} DivideInThree(r: Poly, a: Poly, b: Poly, c: Poly, g: Poly)
    requires |r| >= 1 && |g| == |r| + 1
    ensures Divide(r, a + b + c, g) == Divide(Divide(Divide(r, a, g), b, g), c, g)
  {
    hide *;
    DivideConcat(r, a + b, c, g);
    DivideConcat(r, a, b, g);
  }

  lemma {:induction false} ShortBurstIsSeen(s: Poly, p: Poly, q: Poly, g: Poly)
    requires |s| >= 1 && |g| == |s| + 1 && g[|s|] && |p| == |q| <= |s|
    requires Divide(s, p, g) == Divide(s, q, g)
    ensures p == q
  {
    hide *;
    DivideAtOnce(s, p, g);
    DivideAtOnce(s, q, g);
    DivideIsInjective(Add(s, p + Zeros(|s| - |p|)), Add(s, q + Zeros(|s| - |q|)), Zeros(|p|), g);
    AddIsInjective(s, p, q);
  }

  lemma AddIsInjective(s: Poly, p: Poly, q: Poly)
    requires |p| == |q| <= |s|
    requires Add(s, p + Zeros(|s| - |p|)) == Add(s, q + Zeros(|s| - |q|))
    ensures p == q
  {
    forall i | 0 <= i < |p| ensures p[i] == q[i] {
      assert Add(s, p + Zeros(|s| - |p|))[i] == Add(s, q + Zeros(|s| - |q|))[i];
    }
  }

  // ---- shifts are linear ----

  lemma {:induction false} ShiftsAreLinear(r: Poly, s: Poly, n: nat, g: Poly)
    requires |r| >= 1 && |s| == |r| && |g| == |r| + 1
    ensures Divide(Add(r, s), Zeros(n), g) == Add(Divide(r, Zeros(n), g), Divide(s, Zeros(n), g))
  {
    if n > 0 {
      assert Zeros(n)[..n - 1] == Zeros(n - 1);
      ShiftsAreLinear(r, s, n - 1, g);
      NextIsLinear(Divide(r, Zeros(n - 1), g), Divide(s, Zeros(n - 1), g), g);
    }
  }

  lemma NextIsLinear(r: Poly, s: Poly, g: Poly)
    requires |r| >= 1 && |s| == |r| && |g| == |r| + 1
    ensures NextRemainder(Add(r, s), false, g) == Add(NextRemainder(r, false, g), NextRemainder(s, false, g))
  {
  }

  /** Nothing falls out while the leading coefficients are zero. */
  lemma {:induction false} ShiftsMoveDown(n: nat, s: Poly, g: Poly)
    requires n + |s| >= 1 && |g| == n + |s| + 1
    ensures Divide(Zeros(n) + s, Zeros(n), g) == s + Zeros(n)
  {
    if n > 0 {
      var r := Zeros(n) + s;
      assert Zeros(n) == [false] + Zeros(n - 1);
      DivideFirst(r, false, Zeros(n - 1), g);
      assert NextRemainder(r, false, g) == Zeros(n - 1) + (s + [false]);
      ShiftsMoveDown(n - 1, s + [false], g);
      assert s + [false] + Zeros(n - 1) == s + Zeros(n);
    } else {
      assert Zeros(0) + s == s + Zeros(0);
    }
  }

  // ---- weight ----

  /** The number of non-zero coefficients. */
  function Weight(p: Poly): nat {
    if p == [] then 0 else Weight(p[..|p| - 1]) + (if p[|p| - 1] then 1 else 0)
  }

  /** Whether the weight is odd: the value of p at x = 1. */
  predicate Odd(p: Poly) {
    p != [] && (Odd(p[..|p| - 1]) != p[|p| - 1])
  }

  lemma {:induction false} OddIsParity(p: Poly)
    ensures Odd(p) <==> Weight(p) % 2 == 1
  {
    if p != [] { OddIsParity(p[..|p| - 1]); }
  }

  lemma {:induction false} OddOfSum(p: Poly, q: Poly)
    requires |p| == |q|
    ensures Odd(Add(p, q)) <==> Odd(p) != Odd(q)
  {
    if p != [] {
      var n := |p| - 1;
      assert Add(p, q)[..n] == Add(p[..n], q[..n]);
      OddOfSum(p[..n], q[..n]);
    }
  }

  lemma {:induction false} OddOfConcat(p: Poly, q: Poly)
    ensures Odd(p + q) <==> Odd(p) != Odd(q)
  {
    if q == [] {
      assert p + q == p;
    } else {
      assert (p + q)[..|p + q| - 1] == p + q[..|q| - 1];
      OddOfConcat(p, q[..|q| - 1]);
    }
  }

  lemma {:induction false} OddOfZeros(n: nat)
    ensures !Odd(Zeros(n))
  {
    if n > 0 {
      assert Zeros(n)[..n - 1] == Zeros(n - 1);
      OddOfZeros(n - 1);
    }
  }

  lemma OddOfOne(b: bool)
    ensures Odd([b]) == b
  {
    assert [b][..0] == [];
  }

  /** A divisor of even weight keeps the parity of what it divides. */
  lemma {:induction false} NextKeepsParity(r: Poly, b: bool, g: Poly)
    requires |r| >= 1 && |g| == |r| + 1 && Odd(g[1..])
    ensures Odd(NextRemainder(r, b, g)) <==> Odd(r) != b
  {
    assert r == [r[0]] + r[1..];
    OddOfConcat([r[0]], r[1..]);
    OddOfOne(r[0]);
    OddOfConcat(r[1..], [false]);
    OddOfOne(false);
    OddOfZeros(|r|);
    OddOfSum(r[1..] + [false], Scale(r[0] != b, g[1..]));
  }

  lemma {:induction false} DivideKeepsParity(r: Poly, bits: Poly, g: Poly)
    requires |r| >= 1 && |g| == |r| + 1 && Odd(g[1..])
    ensures Odd(Divide(r, bits, g)) <==> Odd(r) != Odd(bits)
  {
    if bits != [] {
      var n := |bits| - 1;
      DivideKeepsParity(r, bits[..n], g);
      NextKeepsParity(Divide(r, bits[..n], g), bits[n], g);
    }
  }

  // ---- two errors ----

  lemma {:induction false} OnePlace(p: Poly) returns (i: nat)
    requires Weight(p) == 1
    ensures i < |p| && p == Zeros(i) + [true] + Zeros(|p| - i - 1)
  {
    var n := |p| - 1;
    if p[n] {
      NoPlace(p[..n]);
      i := n;
      assert p == p[..n] + [true] + Zeros(0);
    } else {
      i := OnePlace(p[..n]);
      assert p == p[..n] + [false];
      assert Zeros(n - i) == Zeros(n - i - 1) + [false];
    }
  }

  lemma {:induction false} WeightOfConcat(p: Poly, q: Poly)
    ensures Weight(p + q) == Weight(p) + Weight(q)
    decreases |q|
  {
    if q == [] {
      assert p + q == p;
    } else {
      assert (p + q)[..|p + q| - 1] == p + q[..|q| - 1];
      WeightOfConcat(p, q[..|q| - 1]);
    }
  }

  lemma {:induction false} WeightOfZeros(n: nat)
    ensures Weight(Zeros(n)) == 0
  {
    if n > 0 {
      assert Zeros(n)[..n - 1] == Zeros(n - 1);
      WeightOfZeros(n - 1);
    }
  }

  lemma {:induction false} NoPlace(p: Poly)
    requires Weight(p) == 0
    ensures p == Zeros(|p|)
  {
    if p != [] { NoPlace(p[..|p| - 1]); }
  }

  /** A polynomial of weight two, cut at its two non-zero coefficients. */
  lemma {:induction false} TwoPlaces(p: Poly) returns (before: nat, between: nat, after: nat)
    requires Weight(p) == 2
    ensures before + between + after + 2 == |p|
    ensures p == Zeros(before) + [true] + Zeros(between) + [true] + Zeros(after)
  {
    var n := |p| - 1;
    if p[n] {
      before := OnePlace(p[..n]);
      between, after := n - before - 1, 0;
      assert p == p[..n] + [true] + Zeros(0);
    } else {
      before, between, after := TwoPlaces(p[..n]);
      assert p == p[..n] + [false];
      assert Zeros(after + 1) == Zeros(after) + [false];
      after := after + 1;
    }
  }

  lemma {:induction false} DivideIsLinear(r: Poly, s: Poly, p: Poly, q: Poly, g: Poly)
    requires |r| >= 1 && |s| == |r| && |g| == |r| + 1 && |p| == |q|
    ensures Divide(Add(r, s), Add(p, q), g) == Add(Divide(r, p, g), Divide(s, q, g))
  {
    if p != [] {
      var n := |p| - 1;
      assert Add(p, q)[..n] == Add(p[..n], q[..n]);
      DivideIsLinear(r, s, p[..n], q[..n], g);
      NextOfBoth(Divide(r, p[..n], g), Divide(s, q[..n], g), p[n], q[n], g);
    }
  }

  lemma NextOfBoth(r: Poly, s: Poly, a: bool, b: bool, g: Poly)
    requires |r| >= 1 && |s| == |r| && |g| == |r| + 1
    ensures NextRemainder(Add(r, s), a != b, g) == Add(NextRemainder(r, a, g), NextRemainder(s, b, g))
  {
  }

  lemma {:induction false} ZerosStayZero(k: nat, n: nat, g: Poly)
    requires k >= 1 && |g| == k + 1
    ensures Divide(Zeros(k), Zeros(n), g) == Zeros(k)
  {
    if n > 0 {
      ZerosStayZero(k, n - 1, g);
      assert Zeros(n)[..n - 1] == Zeros(n - 1);
    }
  }

  /** An error of two bits is missed exactly when the shifts between them bring the
      remainder of the first back to the place of the second. */
  lemma TwoErrors(k: nat, before: nat, between: nat, after: nat, g: Poly)
    requires k >= 1 && |g| == k + 1 && g[k]
    ensures Divide(Zeros(k), Zeros(before) + [true] + Zeros(between) + [true] + Zeros(after), g) == Zeros(k)
       <==> Divide(g[1..], Zeros(between), g) == [true] + Zeros(k - 1)
  {
    hide Divide;
    var one := Zeros(before) + [true] + Zeros(between);
    OneError(k, before, between, g);
    DivideConcat(Zeros(k), one + [true], Zeros(after), g);
    DivideConcat(Zeros(k), one, [true], g);
    DivideOne(Divide(Zeros(k), one, g), true, g);
    ZerosStayZero(k, after, g);
    NextOfUnit(k, g);
    if Divide(Divide(Zeros(k), one + [true], g), Zeros(after), g) == Zeros(k) {
      DivideIsInjective(Divide(Zeros(k), one + [true], g), Zeros(k), Zeros(after), g);
      NextRemainderIsInjective(Divide(Zeros(k), one, g), [true] + Zeros(k - 1), true, g);
    }
  }

  lemma NextOfUnit(k: nat, g: Poly)
    requires k >= 1 && |g| == k + 1
    ensures NextRemainder([true] + Zeros(k - 1), true, g) == Zeros(k)
    ensures NextRemainder(Zeros(k), true, g) == g[1..]
  {
  }

  lemma OneError(k: nat, before: nat, after: nat, g: Poly)
    requires k >= 1 && |g| == k + 1
    ensures Divide(Zeros(k), Zeros(before) + [true] + Zeros(after), g) == Divide(g[1..], Zeros(after), g)
  {
    hide Divide;
    DivideInThree(Zeros(k), Zeros(before), [true], Zeros(after), g);
    ZerosStayZero(k, before, g);
    DivideOne(Zeros(k), true, g);
    NextOfUnit(k, g);
  }
}
