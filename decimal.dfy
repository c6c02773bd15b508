/**
 * Decimal rendering of integers, as PHP's `(string)` cast of an int, and the
 * six-digit verification codes built from it.
 */
module Decimal {
  import opened Text

  function DigitChar(d: nat): (c: char)
    requires d < 10
    ensures IsDigit(c)
  {
    ('0' as int + d) as char
  }

  function DigitValue(c: char): (d: nat)
    requires IsDigit(c)
    ensures d < 10 && DigitChar(d) == c
  {
    c as int - '0' as int
  }

  function Pow10(k: nat): (p: nat)
    ensures p >= 1
  {
    if k == 0 then 1 else 10 * Pow10(k - 1)
  }

  /** `(string) $n` for a non-negative integer: no sign, no leading zero. */
  function Render(n: nat): (s: string)
    ensures |s| >= 1 && AllDigits(s)
    ensures s[0] == '0' <==> n == 0
    decreases n
  {
    if n < 10 then [DigitChar(n)] else Render(n / 10) + [DigitChar(n % 10)]
  }

  /** The number a digit string denotes (the reading a string comparison does not do). */
  function Value(s: string): nat
    requires AllDigits(s)
  {
    if s == [] then 0 else Value(s[..|s| - 1]) * 10 + DigitValue(s[|s| - 1])
  }

  /** Reading back a rendered number gives the number. */
  lemma {:induction false} ValueOfRender(n: nat)
    ensures Value(Render(n)) == n
    decreases n
  {
    if n >= 10 {
      var s := Render(n);
      assert s[..|s| - 1] == Render(n / 10);
      ValueOfRender(n / 10);
    }
  }

  lemma {:induction false} ValueLowerBound(s: string)
    requires |s| >= 1 && AllDigits(s) && s[0] != '0'
    ensures Value(s) >= Pow10(|s| - 1)
  {
    if |s| > 1 {
      ValueLowerBound(s[..|s| - 1]);
    }
  }

  lemma {:induction false} ValueUpperBound(s: string)
    requires AllDigits(s)
    ensures Value(s) < Pow10(|s|)
  {
    if s != [] {
      ValueUpperBound(s[..|s| - 1]);
    }
  }

  /** A digit string without a superfluous leading zero is the rendering of its value. */
  lemma {:induction false} RenderOfValue(s: string)
    requires |s| >= 1 && AllDigits(s) && (s[0] != '0' || |s| == 1)
    ensures Render(Value(s)) == s
  {
    if |s| > 1 {
      var p := s[..|s| - 1];
      ValueLowerBound(p);
      assert Value(s) / 10 == Value(p) && Value(s) % 10 == DigitValue(s[|s| - 1]);
      RenderOfValue(p);
      assert s == p + [s[|s| - 1]];
    }
  }

  /** A number between 10^(k-1) and 10^k renders to exactly k digits. */
  lemma RenderLength(n: nat, k: nat)
    requires k >= 1 && Pow10(k - 1) <= n < Pow10(k)
    ensures |Render(n)| == k
  {
    var s := Render(n);
    ValueOfRender(n);
    if |s| < k {
      ValueUpperBound(s);
      PowMonotone(|s|, k - 1);
    } else if |s| > k {
      ValueLowerBound(s);
      PowMonotone(k, |s| - 1);
    }
  }

  lemma {:induction false} PowMonotone(i: nat, j: nat)
    requires i <= j
    ensures Pow10(i) <= Pow10(j)
    decreases j
  {
    if i < j {
      PowMonotone(i, j - 1);
    }
  }

  /** Smallest and largest value `random_int` may return for a verification code. */
  const OtpMin := 100000
  const OtpMax := 999999

  /** Shape of every stored verification code: six digits, the first non-zero. */
  predicate IsOtpCode(s: string) {
    |s| == 6 && AllDigits(s) && s[0] != '0'
  }

  /** The code written to the record: `(string) random_int(100000, 999999)`. */
  function OtpCode(n: nat): (s: string)
    requires OtpMin <= n <= OtpMax
    ensures IsOtpCode(s) && Value(s) == n
  {
    assert Pow10(5) == OtpMin && Pow10(6) == OtpMax + 1;
    RenderLength(n, 6);
    ValueOfRender(n);
    Render(n)
  }

  /**
   * A submitted six-digit code equals the issued code exactly when it denotes
   * the generated number and does not begin with `0`: a code such as "012345"
   * never matches, because every issued code is at least 100000.
   */
  lemma SubmittedCodeMatches(n: nat, submitted: string)
    requires OtpMin <= n <= OtpMax
    requires |submitted| == 6 && AllDigits(submitted)
    ensures OtpCode(n) == submitted <==> (submitted[0] != '0' && Value(submitted) == n)
  {
    if submitted[0] != '0' && Value(submitted) == n {
      RenderOfValue(submitted);
    }
  }
}
