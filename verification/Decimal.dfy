/** Decimal numbers as text: `Display` of an unsigned number, and `u8::from_str`. */
module Decimal {
  import opened Wrappers

  type u8 = n: nat | n < 256

  function DigitChar(d: nat): (c: char)
    requires d < 10
  {
    ('0' as int + d) as char
  }

  predicate IsDigit(c: char) {
    '0' <= c <= '9'
  }

  function DigitValue(c: char): (d: nat)
    requires IsDigit(c)
    ensures d < 10
  {
    c as int - '0' as int
  }

  predicate AllDigits(s: string) {
    forall i :: 0 <= i < |s| ==> IsDigit(s[i])
  }

  /** How an unsigned number prints. */
  function Dec(n: nat): (s: string)
    ensures s != "" && AllDigits(s)
  {
    if n < 10 then [DigitChar(n)] else Dec(n / 10) + [DigitChar(n % 10)]
  }

  /** The number a digit string stands for. */
  function Value(s: string): nat
    requires AllDigits(s)
  {
    if s == "" then 0 else 10 * Value(s[..|s| - 1]) + DigitValue(s[|s| - 1])
  }

  /** The digit loop of `u8::from_str`, with its overflow checks. */
  function Accumulate(acc: u8, s: string): Option<u8>
    decreases |s|
  {
    if s == "" then Some(acc)
    else if !IsDigit(s[0]) then None
    else
      var next := 10 * acc + DigitValue(s[0]);
      if next < 256 then Accumulate(next, s[1..]) else None
  }

  /** `str::parse::<u8>`: an optional plus sign, then at least one digit. */
  function ParseU8(s: string): Option<u8>
  {
    var digits := if s != "" && s[0] == '+' then s[1..] else s;
    if digits == "" then None else Accumulate(0, digits)
  }

  // ---- value of a digit string ----

  function Pow10(n: nat): (p: nat)
    ensures p >= 1
  {
    if n == 0 then 1 else 10 * Pow10(n - 1)
  }

  lemma {:induction false} ValueConcat(a: string, b: string)
    requires AllDigits(a) && AllDigits(b)
    ensures AllDigits(a + b) && Value(a + b) == Value(a) * Pow10(|b|) + Value(b)
  {
    if b == "" {
      assert a + b == a;
    } else {
      var n := |b| - 1;
      assert (a + b)[..|a + b| - 1] == a + b[..n];
      ValueConcat(a, b[..n]);
      Distribute(Value(a), Pow10(n));
    }
  }

  lemma Distribute(x: nat, p: nat)
    ensures 10 * (x * p) == x * (10 * p)
  {
  }

  lemma {:induction false} ValueOfDec(n: nat)
    ensures Value(Dec(n)) == n
  {
    if n >= 10 {
      ValueOfDec(n / 10);
      assert Dec(n)[..|Dec(n)| - 1] == Dec(n / 10);
    } else {
      assert Dec(n)[..0] == "";
    }
  }

  lemma DecIsInjective(m: nat, n: nat)
    ensures Dec(m) == Dec(n) <==> m == n
  {
    ValueOfDec(m);
    ValueOfDec(n);
  }

  function NoughtPrefix(k: nat): (s: string)
    ensures |s| == k && AllDigits(s)
  {
    seq(k, _ => '0')
  }

  lemma DigitRoundTrip(c: char)
    requires IsDigit(c)
    ensures DigitChar(DigitValue(c)) == c
  {
  }

  lemma DecSnoc(k: nat, m: nat, last: char)
    requires m > 0 && IsDigit(last)
    ensures NoughtPrefix(k) + Dec(m) + [last] == NoughtPrefix(k) + Dec(10 * m + DigitValue(last))
  {
    DigitRoundTrip(last);
    assert Dec(10 * m + DigitValue(last)) == Dec(m) + [last];
  }

  lemma NoughtSnoc(k: nat, last: char)
    requires IsDigit(last)
    ensures NoughtPrefix(k) + Dec(0) + [last] == NoughtPrefix(k + 1) + Dec(DigitValue(last))
  {
    DigitRoundTrip(last);
    assert NoughtPrefix(k + 1) == NoughtPrefix(k) + Dec(0);
  }

  lemma OneDigit(last: char)
    requires IsDigit(last)
    ensures NoughtPrefix(0) + Dec(Value([last])) == [last]
  {
    DigitRoundTrip(last);
    assert [last][..0] == "";
  }

  lemma ValueSnoc(init: string, last: char)
    requires AllDigits(init) && IsDigit(last)
    ensures AllDigits(init + [last]) && Value(init + [last]) == 10 * Value(init) + DigitValue(last)
  {
    assert (init + [last])[..|init|] == init;
  }

  /** s is k noughts and then the canonical digits of its value. */
  ghost predicate SplitsAt(s: string, k: nat)
    requires s != "" && AllDigits(s)
  {
    s == NoughtPrefix(k) + Dec(Value(s)) && (k > 0 <==> s[0] == '0' && |s| > 1)
  }

  lemma SplitOne(last: char)
    requires IsDigit(last)
    ensures SplitsAt([last], 0)
  {
    OneDigit(last);
  }

  lemma SplitZero(init: string, last: char, k: nat)
    requires init != "" && AllDigits(init) && IsDigit(last) && SplitsAt(init, k) && Value(init) == 0
    ensures AllDigits(init + [last]) && SplitsAt(init + [last], k + 1)
  {
    ValueSnoc(init, last);
    NoughtSnoc(k, last);
    ZeroStartsWithNought(init, k);
    assert (init + [last])[0] == init[0];
    hide Dec, NoughtPrefix, Value, DigitValue;
  }

  lemma SplitMore(init: string, last: char, k: nat)
    requires init != "" && AllDigits(init) && IsDigit(last) && SplitsAt(init, k) && Value(init) > 0
    ensures AllDigits(init + [last]) && SplitsAt(init + [last], k)
  {
    ValueSnoc(init, last);
    DecSnoc(k, Value(init), last);
    assert (init + [last])[0] == init[0];
    if |init| == 1 {
      assert init == [init[0]] && [init[0]][..0] == "";
    }
    hide Dec, NoughtPrefix;
  }

  /** Every digit string is some noughts and then the canonical digits of its value. */
  lemma {:induction false} SplitNoughts(s: string) returns (k: nat)
    requires s != "" && AllDigits(s)
    ensures s == NoughtPrefix(k) + Dec(Value(s))
    ensures k > 0 <==> s[0] == '0' && |s| > 1
  {
    k := SplitDigits(s);
  }

  lemma {:induction false} SplitDigits(s: string) returns (k: nat)
    requires s != "" && AllDigits(s)
    ensures SplitsAt(s, k)
  {
    hide Dec, NoughtPrefix, Value, SplitsAt;
    var n := |s| - 1;
    var init, last := s[..n], s[n];
    assert s == init + [last];
    if n == 0 {
      k := 0;
      assert s == [last];
      SplitOne(last);
    } else {
      k := SplitDigits(init);
      if Value(init) == 0 {
        SplitZero(init, last, k);
        k := k + 1;
      } else {
        SplitMore(init, last, k);
      }
    }
  }

  lemma ZeroStartsWithNought(s: string, k: nat)
    requires s == NoughtPrefix(k) + Dec(0)
    ensures s[0] == '0'
  {
  }

  lemma {:induction false} ValueOfNoughts(k: nat)
    ensures Value(NoughtPrefix(k)) == 0
  {
    if k > 0 {
      assert NoughtPrefix(k)[..k - 1] == NoughtPrefix(k - 1);
      ValueOfNoughts(k - 1);
    }
  }

  lemma ValueOfPadded(k: nat, n: nat)
    ensures AllDigits(NoughtPrefix(k) + Dec(n)) && Value(NoughtPrefix(k) + Dec(n)) == n
  {
    ValueOfNoughts(k);
    ValueOfDec(n);
    ValueConcat(NoughtPrefix(k), Dec(n));
  }

  // ---- the parser accepts exactly the padded spellings ----

  lemma {:induction false} AccumulateIsValue(acc: u8, s: string)
    ensures Accumulate(acc, s).Some? <==> AllDigits(s) && acc * Pow10(|s|) + Value(s) < 256
    ensures Accumulate(acc, s).Some? ==> Accumulate(acc, s).value == acc * Pow10(|s|) + Value(s)
    decreases |s|
  {
    if s != "" && IsDigit(s[0]) {
      var d, rest := DigitValue(s[0]), s[1..];
      var next := 10 * acc + d;
      assert s == [s[0]] + rest;
      if AllDigits(s) {
        assert [s[0]][..0] == "";
        ValueConcat([s[0]], rest);
        Gather(acc, d, Pow10(|rest|));
      } else {
        assert !AllDigits(rest);
      }
      if next < 256 {
        AccumulateIsValue(next, rest);
      } else if AllDigits(s) {
        AtLeast(next, Pow10(|rest|));
      }
    }
  }

  lemma Gather(acc: nat, d: nat, p: nat)
    ensures acc * (10 * p) + d * p == (10 * acc + d) * p
  {
  }

  lemma AtLeast(x: nat, p: nat)
    requires p >= 1
    ensures x * p >= x
  {
  }

  /** The accepted spellings of n: an optional plus sign, any number of noughts, and the
      canonical digits. */
  function Spelling(plus: bool, noughts: nat, n: nat): string {
    (if plus then "+" else "") + NoughtPrefix(noughts) + Dec(n)
  }

  lemma SpellingParses(plus: bool, noughts: nat, n: u8)
    ensures ParseU8(Spelling(plus, noughts, n)) == Some(n)
  {
    var digits := NoughtPrefix(noughts) + Dec(n);
    ValueOfPadded(noughts, n);
    AccumulateIsValue(0, digits);
    assert IsDigit(digits[0]);
    SpellingDigits(plus, noughts, n);
  }

  lemma SpellingDigits(plus: bool, noughts: nat, n: nat)
    ensures var s, digits := Spelling(plus, noughts, n), NoughtPrefix(noughts) + Dec(n);
      if plus then s != "" && s[0] == '+' && s[1..] == digits else s == digits
  {
    var s, digits := Spelling(plus, noughts, n), NoughtPrefix(noughts) + Dec(n);
    assert s == (if plus then "+" else "") + digits;
  }

  lemma ParsedIsSpelling(s: string) returns (plus: bool, noughts: nat)
    requires ParseU8(s).Some?
    ensures s == Spelling(plus, noughts, ParseU8(s).value)
    ensures s == Dec(ParseU8(s).value) <==> !plus && noughts == 0
    ensures plus <==> s[0] == '+'
    ensures !plus ==> (noughts > 0 <==> s[0] == '0' && |s| > 1)
  {
    plus := s[0] == '+';
    var digits := if plus then s[1..] else s;
    AccumulateIsValue(0, digits);
    noughts := SplitNoughts(digits);
    var n := ParseU8(s).value;
    hide Accumulate, Value, Pow10, NoughtPrefix;
    assert s == Spelling(plus, noughts, n);
    if s == Dec(n) {
      assert IsDigit(Dec(n)[0]);
      assert |s| == noughts + |Dec(n)|;
    }
  }

  /** `u8::from_str` accepts s with value n exactly when s is a spelling of n. */
  lemma ParsesExactlySpellings(s: string, n: u8)
    ensures ParseU8(s) == Some(n) <==> exists plus, noughts :: s == Spelling(plus, noughts, n)
  {
    if ParseU8(s) == Some(n) {
      var plus, noughts := ParsedIsSpelling(s);
    }
    if plus, noughts :| s == Spelling(plus, noughts, n) {
      SpellingParses(plus, noughts, n);
    }
  }

  lemma ParseOfDec(n: u8)
    ensures ParseU8(Dec(n)) == Some(n)
  {
    assert Spelling(false, 0, n) == Dec(n);
    SpellingParses(false, 0, n);
  }
}
