/**
  Decimal rendering of natural numbers as Python's `str(n)` and
  `"{0:0<w>d}".format(n)` produce them, together with the inverse
  (reading a digit string back as a number) and the fact that, among
  digit strings of one width, string order is numeric order.
*/
module Decimal {
  import opened LexOrder

  function Pow10(k: nat): (p: nat)
    ensures p >= 1
  {
    if k == 0 then 1 else 10 * Pow10(k - 1)
  }

  predicate IsDigit(c: char) {
    '0' <= c <= '9'
  }

  predicate AllDigits(s: string) {
    forall k :: 0 <= k < |s| ==> IsDigit(s[k])
  }

  function DigitValue(c: char): (d: nat)
    requires IsDigit(c)
    ensures d < 10
  {
    c as int - '0' as int
  }

  function DigitChar(d: nat): (c: char)
    requires d < 10
    ensures IsDigit(c) && DigitValue(c) == d
  {
    ('0' as int + d) as char
  }

  /** The number of characters of `str(n)`: the least width w >= 1 with n < 10^w. */
  function Digits(n: nat): (d: nat)
    ensures d >= 1
    ensures n < Pow10(d)
    ensures d == 1 || Pow10(d - 1) <= n
  {
    if n < 10 then 1 else 1 + Digits(n / 10)
  }

  /** Python's `str(n)` for a non-negative integer. */
  function DecimalString(n: nat): (s: string)
    ensures |s| == Digits(n)
    ensures AllDigits(s)
    ensures |s| > 1 ==> s[0] != '0'
  {
    if n < 10 then [DigitChar(n)] else DecimalString(n / 10) + [DigitChar(n % 10)]
  }

  /** The number a digit string denotes, most significant digit first. */
  function Value(s: string): nat
    requires AllDigits(s)
  {
    if s == [] then 0 else DigitValue(s[0]) * Pow10(|s| - 1) + Value(s[1..])
  }

  function Zeros(k: nat): (z: string)
    ensures |z| == k
    ensures forall j :: 0 <= j < k ==> z[j] == '0'
  {
    if k == 0 then [] else ['0'] + Zeros(k - 1)
  }

  /**
    `"{0:0<w>d}".format(n)`: the decimal digits of n, left-padded with
    zeros up to width w; never truncated when n needs more than w digits.
  */
  function PadDecimal(n: nat, w: nat): (r: string)
    ensures |r| == if Digits(n) < w then w else Digits(n)
    ensures r[|r| - Digits(n)..] == DecimalString(n)
    ensures forall j :: 0 <= j < |r| - Digits(n) ==> r[j] == '0'
  {
    var s := DecimalString(n);
    if |s| >= w then s else Zeros(w - |s|) + s
  }

  lemma {:induction false} ValueBound(s: string)
    requires AllDigits(s)
    ensures Value(s) < Pow10(|s|)
  {
    if s != [] {
      var d, p := DigitValue(s[0]), Pow10(|s| - 1);
      ValueBound(s[1..]);
      assert Value(s) < d * p + p == (d + 1) * p;
      assert (d + 1) * p <= 10 * p by { MulMonotone(d + 1, 10, p); }
    }
  }

  lemma MulMonotone(a: nat, b: nat, p: nat)
    requires a <= b
    ensures a * p <= b * p
  {
  }

  lemma {:induction false} ValueSnoc(s: string, c: char)
    requires AllDigits(s) && IsDigit(c)
    ensures AllDigits(s + [c])
    ensures Value(s + [c]) == 10 * Value(s) + DigitValue(c)
  {
    if s != [] {
      var t := s + [c];
      assert t[0] == s[0] && t[1..] == s[1..] + [c];
      ValueSnoc(s[1..], c);
      var d, p := DigitValue(s[0]), Pow10(|s| - 1);
      assert Pow10(|s|) == 10 * p;
      assert Value(t) == d * (10 * p) + Value(s[1..] + [c]);
      assert Value(s) == d * p + Value(s[1..]);
      ShiftDigit(d, p, Value(s[1..]), DigitValue(c));
    }
  }

  lemma ShiftDigit(d: nat, p: nat, v: nat, e: nat)
    ensures d * (10 * p) + (10 * v + e) == 10 * (d * p + v) + e
  {
  }

  lemma {:induction false} ValueZeros(k: nat, s: string)
    requires AllDigits(s)
    ensures AllDigits(Zeros(k) + s)
    ensures Value(Zeros(k) + s) == Value(s)
  {
    if k > 0 {
      var t := Zeros(k) + s;
      assert t[0] == '0' && t[1..] == Zeros(k - 1) + s;
      assert DigitValue(t[0]) == 0;
      ValueZeros(k - 1, s);
    } else {
      assert Zeros(k) + s == s;
    }
  }

  /** Reading `str(n)` back gives n. */
  lemma {:induction false} DecimalRoundTrip(n: nat)
    ensures Value(DecimalString(n)) == n
  {
    if n >= 10 {
      DecimalRoundTrip(n / 10);
      ValueSnoc(DecimalString(n / 10), DigitChar(n % 10));
    }
  }

  /** Reading a zero-padded rendering back gives the number again. */
  lemma PadDecimalRoundTrip(n: nat, w: nat)
    ensures AllDigits(PadDecimal(n, w))
    ensures Value(PadDecimal(n, w)) == n
  {
    var s := DecimalString(n);
    DecimalRoundTrip(n);
    if |s| < w {
      ValueZeros(w - |s|, s);
    }
  }

  /** Zero padding to a common width is injective. */
  lemma PadDecimalInjective(i: nat, j: nat, w: nat)
    requires i != j
    ensures PadDecimal(i, w) != PadDecimal(j, w)
  {
    PadDecimalRoundTrip(i, w);
    PadDecimalRoundTrip(j, w);
  }

  /** A number below 10^w has at most w digits, so padding to w gives exactly w characters. */
  lemma {:induction false} DigitsAtMost(n: nat, w: nat)
    requires w >= 1 && n < Pow10(w)
    ensures Digits(n) <= w
  {
    if n >= 10 {
      assert w >= 2;
      assert n / 10 < Pow10(w - 1);
      DigitsAtMost(n / 10, w - 1);
    }
  }

  /** Digit count never decreases as the number grows. */
  lemma DigitsMonotone(i: nat, n: nat)
    requires i <= n
    ensures Digits(i) <= Digits(n)
  {
    DigitsAtMost(i, Digits(n));
  }

  /** A smaller leading digit makes a smaller number, whatever follows. */
  lemma LeadingDigitDecides(s: string, t: string)
    requires AllDigits(s) && AllDigits(t) && |s| == |t| && s != []
    requires DigitValue(s[0]) < DigitValue(t[0])
    ensures Value(s) < Value(t)
  {
    var p := Pow10(|s| - 1);
    assert Value(s) == DigitValue(s[0]) * p + Value(s[1..]);
    assert Value(t) == DigitValue(t[0]) * p + Value(t[1..]);
    ValueBound(s[1..]);
    PositionalLess(DigitValue(s[0]), DigitValue(t[0]), p, Value(s[1..]), Value(t[1..]));
  }

  lemma PositionalLess(a: nat, b: nat, p: nat, x: nat, y: nat)
    requires a < b && x < p
    ensures a * p + x < b * p + y
  {
    MulMonotone(a + 1, b, p);
    assert (a + 1) * p == a * p + p;
  }

  /** Among digit strings of one width, string order coincides with numeric order. */
  lemma {:induction false} LexLessDigits(s: string, t: string)
    requires AllDigits(s) && AllDigits(t) && |s| == |t|
    ensures LexLess(s, t) <==> Value(s) < Value(t)
  {
    if s != [] {
      if s[0] < t[0] {
        LeadingDigitDecides(s, t);
      } else if t[0] < s[0] {
        LeadingDigitDecides(t, s);
      } else {
        LexLessDigits(s[1..], t[1..]);
        assert Value(s) == DigitValue(s[0]) * Pow10(|s| - 1) + Value(s[1..]);
        assert Value(t) == DigitValue(s[0]) * Pow10(|s| - 1) + Value(t[1..]);
      }
    }
  }
}
