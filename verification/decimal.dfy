/**
  Decimal text of small non-negative integers: the behaviour of `strconv.Itoa`
  and of `strconv.ParseUint(x, 10, 8)` as the converter relies on them, and
  the sequence of decimal strings of an integer interval, which is what a
  mask is meant to denote.
 */
module Decimal {
  import opened Wrappers

  /** The character of the decimal digit `d`. */
  function DigitChar(d: nat): (c: char)
    requires d < 10
    ensures '0' <= c <= '9'
  {
    (48 + d) as char
  }

  predicate IsDigit(c: char) {
    '0' <= c <= '9'
  }

  function DigitValue(c: char): (d: nat)
    requires IsDigit(c)
    ensures d < 10 && DigitChar(d) == c
  {
    c as int - 48
  }

  predicate AllDigits(s: string) {
    forall k | 0 <= k < |s| :: IsDigit(s[k])
  }

  /** The rule the parser applies to each number: no leading zero unless the number is "0". */
  predicate NoLeadingZero(s: string) {
    |s| > 1 ==> s[0] != '0'
  }

  /** Canonical decimal text: what `Itoa` produces. */
  predicate Canonical(s: string) {
    |s| >= 1 && AllDigits(s) && NoLeadingZero(s)
  }

  /** The value of a digit string, most significant digit first (leading zeros allowed). */
  function Value(s: string): (r: nat)
    requires AllDigits(s)
  {
    if |s| == 0 then 0 else 10 * Value(s[..|s| - 1]) + DigitValue(s[|s| - 1])
  }

  /** `strconv.Itoa` on a non-negative value. */
  function Itoa(n: nat): (r: string)
    ensures |r| >= 1 && AllDigits(r)
    ensures |r| == 1 <==> n < 10
  {
    if n < 10 then [DigitChar(n)]
    else
      var q := Itoa(n / 10);
      q + [DigitChar(n % 10)]
  }

  /** `Itoa` prints canonical text that reads back as the number printed. */
  lemma {:induction false} ItoaCanonical(n: nat)
    ensures Canonical(Itoa(n))
    ensures Value(Itoa(n)) == n
  {
    if n >= 10 {
      var q := Itoa(n / 10);
      ItoaCanonical(n / 10);
      assert (q + [DigitChar(n % 10)])[..|q|] == q;
    }
  }

  /**
    The leading digits of a number whose last digit has been removed, as the
    source writes it: empty for 0, otherwise `Itoa`.
   */
  function Prefix(q: nat): (r: string)
    ensures AllDigits(r)
    ensures r == [] <==> q == 0
  {
    if q == 0 then "" else Itoa(q)
  }

  /**
    `strconv.ParseUint(s, 10, 8)`: succeeds exactly on a non-empty string of
    decimal digits whose value fits in 8 bits (leading zeros are accepted).
   */
  function ParseUint8(s: string): (r: Option<nat>)
    ensures r.Some? ==> r.value <= 255
  {
    if |s| >= 1 && AllDigits(s) && Value(s) <= 255 then Some(Value(s)) else None
  }

  /** The digits `u`..`v` in ascending order, as a charset string. */
  function Digits(u: nat, v: nat): (r: string)
    requires u <= v + 1 && v <= 9
    ensures |r| == v + 1 - u
    ensures forall k | 0 <= k < |r| :: r[k] == DigitChar(u + k)
  {
    seq(v + 1 - u, k requires 0 <= k < v + 1 - u => DigitChar(u + k))
  }

  /** Appending the next digit extends a digit charset by one. */
  lemma DigitsSnoc(u: nat, v: nat)
    requires u <= v + 1 && v + 1 <= 9
    ensures Digits(u, v) + [DigitChar(v + 1)] == Digits(u, v + 1)
  {
    assert Digits(u, v) + [DigitChar(v + 1)] == Digits(u, v + 1);
  }

  /** The decimal strings of the integers `lo`..`hi`, in ascending order. */
  function Decimals(lo: nat, hi: int): (r: seq<string>)
    requires lo <= hi + 1
    ensures |r| == hi + 1 - lo
    ensures forall k | 0 <= k < |r| :: r[k] == Itoa(lo + k)
  {
    seq(hi + 1 - lo, k requires 0 <= k < hi + 1 - lo => Itoa(lo + k))
  }

  /** Appending a digit to the decimal text of `q` gives the decimal text of `10q + d`. */
  lemma ItoaStep(q: nat, d: nat)
    requires d < 10
    ensures Itoa(10 * q + d) == Prefix(q) + [DigitChar(d)]
  {
    if q > 0 {
      assert (10 * q + d) / 10 == q && (10 * q + d) % 10 == d;
    }
  }

  /** A digit string with a non-zero leading digit has a non-zero value. */
  lemma {:induction false} ValuePositive(s: string)
    requires AllDigits(s) && |s| >= 1 && s[0] != '0'
    ensures Value(s) >= 1
  {
    if |s| > 1 {
      ValuePositive(s[..|s| - 1]);
    }
  }

  /** Canonical text is exactly the `Itoa` of its value: the parse/print round trip. */
  lemma {:induction false} ItoaValue(s: string)
    requires Canonical(s)
    ensures Itoa(Value(s)) == s
  {
    var init := s[..|s| - 1];
    var d := DigitValue(s[|s| - 1]);
    var v := Value(init);
    assert Value(s) == 10 * v + d;
    if |s| > 1 {
      assert init[0] == s[0];
      ValuePositive(init);
      ItoaValue(init);
    } else {
      assert init == [];
    }
    assert Prefix(v) == init;
    assert s == init + [DigitChar(d)];
    ItoaStep(v, d);
  }

  /** Distinct numbers have distinct decimal texts. */
  lemma ItoaInjective(m: nat, n: nat)
    requires Itoa(m) == Itoa(n)
    ensures m == n
  {
    ItoaCanonical(m);
    ItoaCanonical(n);
  }

  /** Splitting an interval at `mid` splits its decimal strings. */
  lemma DecimalsSplit(lo: nat, mid: int, hi: int)
    requires lo <= mid + 1 <= hi + 1
    ensures Decimals(lo, hi) == Decimals(lo, mid) + Decimals(mid + 1, hi)
  {
    var a, b := Decimals(lo, mid), Decimals(mid + 1, hi);
    assert forall k | 0 <= k < |a + b| :: (a + b)[k] == Itoa(lo + k) by {
      forall k | 0 <= k < |a + b|
        ensures (a + b)[k] == Itoa(lo + k)
      {
        if k >= |a| {
          assert (a + b)[k] == b[k - |a|];
        }
      }
    }
  }
}
