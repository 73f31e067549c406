/** Modification times as the listings carry them, strings, and when their order is the
    order of the times. */
module Times {

  /** The order of strings. */
  predicate LexLe(a: string, b: string) {
    a == [] || (b != [] && (a[0] < b[0] || (a[0] == b[0] && LexLe(a[1..], b[1..]))))
  }

  predicate Digits(s: string) {
    forall i :: 0 <= i < |s| ==> '0' <= s[i] <= '9'
  }

  /** A number of seconds as it is printed: digits, without leading zeros. */
  predicate Decimal(s: string) {
    s != [] && Digits(s) && (|s| > 1 ==> s[0] != '0')
  }

  function Pow10(n: nat): (p: nat)
    ensures p > 0
  {
    if n == 0 then 1 else 10 * Pow10(n - 1)
  }

  function DigitValue(c: char): (v: nat)
    requires '0' <= c <= '9'
    ensures v < 10
  {
    c as int - '0' as int
  }

  function Seconds(s: string): nat
    requires Digits(s)
  {
    if s == [] then 0 else DigitValue(s[0]) * Pow10(|s| - 1) + Seconds(s[1..])
  }

  lemma {:induction false} SecondsBelow(s: string)
    requires Digits(s)
    ensures Seconds(s) < Pow10(|s|)
  {
    if s != [] {
      SecondsBelow(s[1..]);
      var p := Pow10(|s| - 1);
      Times9(DigitValue(s[0]), p);
    }
  }

  lemma Times9(d: nat, p: nat)
    requires d < 10
    ensures d * p + p <= 10 * p
  {
  }

  lemma {:induction false} SecondsAtLeast(s: string)
    requires Decimal(s) && |s| > 1
    ensures Seconds(s) >= Pow10(|s| - 1)
  {
    var d, p := DigitValue(s[0]), Pow10(|s| - 1);
    assert d >= 1;
    assert d * p >= p;
  }

  lemma {:induction false} SameDigits(a: string, b: string)
    requires Digits(a) && Digits(b) && |a| == |b|
    ensures LexLe(a, b) <==> Seconds(a) <= Seconds(b)
  {
    if a != [] {
      SameDigits(a[1..], b[1..]);
      SecondsBelow(a[1..]);
      SecondsBelow(b[1..]);
      var p, x, y := Pow10(|a| - 1), DigitValue(a[0]), DigitValue(b[0]);
      if x < y {
        MoreCounts(x, y, p);
      } else if y < x {
        MoreCounts(y, x, p);
      }
    }
  }

  lemma {:induction false} MoreCounts(x: nat, y: nat, p: nat)
    requires x < y
    ensures x * p + p <= y * p
    decreases y
  {
    assert y * p == (y - 1) * p + p;
    if x < y - 1 {
      MoreCounts(x, y - 1, p);
    }
  }

  lemma {:induction false} Pow10Monotone(m: nat, n: nat)
    requires m <= n
    ensures Pow10(m) <= Pow10(n)
    decreases n
  {
    if m < n {
      Pow10Monotone(m, n - 1);
    }
  }

  lemma {:induction false} FewerDigits(a: string, b: string)
    requires Decimal(a) && Decimal(b) && |a| < |b|
    ensures Seconds(a) < Seconds(b)
  {
    SecondsBelow(a);
    SecondsAtLeast(b);
    Pow10Monotone(|a|, |b| - 1);
  }

  lemma {:induction false} LexFront(a: string, b: string)
    requires |a| < |b|
    ensures LexLe(a, b) <==> LexLe(a, b[..|a|])
    ensures LexLe(b, a) <==> !LexLe(a, b[..|a|])
  {
    if a != [] {
      LexFront(a[1..], b[1..]);
      assert b[..|a|][1..] == b[1..][..|a| - 1];
    }
  }

  /** The strings have as many digits, or the shorter comes no later than the front of the
      longer. */
  predicate InStep(a: string, b: string) {
    || |a| == |b|
    || (|a| < |b| && LexLe(a, b[..|a|]))
    || (|b| < |a| && LexLe(b, a[..|b|]))
  }

  /** Comparing the strings compares the times exactly for strings in step. */
  lemma {:induction false} OrderIsTime(a: string, b: string)
    requires Decimal(a) && Decimal(b)
    ensures (LexLe(a, b) <==> Seconds(a) <= Seconds(b)) <==> InStep(a, b)
  {
    hide LexLe, Seconds;
    if |a| == |b| {
      SameDigits(a, b);
    } else if |a| < |b| {
      FewerDigits(a, b);
      LexFront(a, b);
    } else {
      FewerDigits(b, a);
      LexFront(b, a);
    }
  }

  lemma Pow10Values()
    ensures Pow10(9) == 1_000_000_000 && Pow10(10) == 10_000_000_000
  {
  }

  /** The strings of any two times from September 2001 to November 2286, ten digits each,
      are in step. */
  lemma {:induction false} TenDigits(a: string, b: string)
    requires Decimal(a) && Decimal(b)
    requires 1_000_000_000 <= Seconds(a) < 10_000_000_000 && 1_000_000_000 <= Seconds(b) < 10_000_000_000
    ensures |a| == |b| == 10 && InStep(a, b)
  {
    HasTenDigits(a);
    HasTenDigits(b);
  }

  lemma {:induction false} HasTenDigits(s: string)
    requires Decimal(s) && 1_000_000_000 <= Seconds(s) < 10_000_000_000
    ensures |s| == 10
  {
    Pow10Values();
    SecondsBelow(s);
    if |s| < 10 {
      Pow10Monotone(|s|, 9);
    } else if |s| > 10 {
      SecondsAtLeast(s);
      Pow10Monotone(10, |s| - 1);
    }
  }

  /** The last second of nine digits comes before the next one, and its string after. */
  lemma NineDigitsThenTen()
    ensures Decimal("999999999") && Decimal("1000000000")
    ensures Seconds("999999999") <= Seconds("1000000000") && !LexLe("999999999", "1000000000")
  {
    hide Seconds;
    FewerDigits("999999999", "1000000000");
  }
}
