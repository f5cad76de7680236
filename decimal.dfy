/**
 * Decimal rendering of natural numbers, as Python's `f"{n:d}"` and
 * `f"{n:0Wd}"` produce it, with the digit-string value as its inverse.
 */
module Decimal {
  import opened StringOrder

  function Pow10(k: nat): (r: nat)
    ensures r >= 1
  {
    if k == 0 then 1 else 10 * Pow10(k - 1)
  }

  predicate IsDigit(c: char) {
    '0' <= c <= '9'
  }

  predicate AllDigits(s: string) {
    forall i :: 0 <= i < |s| ==> IsDigit(s[i])
  }

  function DigitChar(d: nat): (c: char)
    requires d < 10
    ensures IsDigit(c)
  {
    ('0' as int + d) as char
  }

  function DigitValue(c: char): (d: nat)
    requires IsDigit(c)
    ensures d < 10
  {
    c as int - '0' as int
  }

  /** `f"{n:d}"`: the shortest decimal numeral of `n`. */
  function NatToString(n: nat): (s: string)
    ensures s != [] && AllDigits(s)
  {
    if n < 10 then [DigitChar(n)] else NatToString(n / 10) + [DigitChar(n % 10)]
  }

  /** The number a digit string denotes, most significant digit first. */
  function Value(s: string): nat
    requires AllDigits(s)
  {
    if s == [] then 0 else Value(s[..|s| - 1]) * 10 + DigitValue(s[|s| - 1])
  }

  function Zeros(k: nat): (s: string)
    ensures |s| == k && AllDigits(s)
  {
    seq(k, _ => '0')
  }

  /** `f"{n:0{width}d}"`: at least `width` digits, left-padded with zeros. */
  function ZeroPad(n: nat, width: nat): (s: string)
    ensures AllDigits(s)
  {
    var d := NatToString(n);
    if |d| >= width then d else Zeros(width - |d|) + d
  }

  lemma {:induction false} NatToStringRoundTrip(n: nat)
    ensures Value(NatToString(n)) == n
  {
    if n >= 10 {
      var s := NatToString(n);
      assert s[..|s| - 1] == NatToString(n / 10);
      NatToStringRoundTrip(n / 10);
    }
  }

  lemma {:induction false} NatToStringLength(n: nat)
    ensures n < Pow10(|NatToString(n)|)
    ensures |NatToString(n)| > 1 ==> Pow10(|NatToString(n)| - 1) <= n
  {
    if n >= 10 { NatToStringLength(n / 10); }
  }

  lemma {:induction false} ValueOfZeros(k: nat)
    ensures Value(Zeros(k)) == 0
  {
    if k > 0 {
      assert Zeros(k)[..k - 1] == Zeros(k - 1);
      ValueOfZeros(k - 1);
    }
  }

  lemma {:induction false} ValueLeadingZeros(k: nat, s: string)
    requires AllDigits(s)
    ensures Value(Zeros(k) + s) == Value(s)
    decreases |s|
  {
    if s == [] {
      assert Zeros(k) + s == Zeros(k);
      ValueOfZeros(k);
    } else {
      var t := Zeros(k) + s;
      assert t[..|t| - 1] == Zeros(k) + s[..|s| - 1];
      ValueLeadingZeros(k, s[..|s| - 1]);
    }
  }

  /** Zero padding is undone by reading the digits back. */
  lemma ZeroPadRoundTrip(n: nat, width: nat)
    ensures Value(ZeroPad(n, width)) == n
  {
    var d := NatToString(n);
    NatToStringRoundTrip(n);
    if |d| < width { ValueLeadingZeros(width - |d|, d); }
  }

  /** A number below 10^width is padded to exactly `width` digits. */
  lemma ZeroPadLength(n: nat, width: nat)
    requires 1 <= width && n < Pow10(width)
    ensures |ZeroPad(n, width)| == width
  {
    NatToStringLength(n);
    var d := NatToString(n);
    if |d| > width {
      Pow10Monotone(width, |d| - 1);
    }
  }

  lemma {:induction false} Pow10Monotone(i: nat, j: nat)
    requires i <= j
    ensures Pow10(i) <= Pow10(j)
  {
    if i < j { Pow10Monotone(i, j - 1); }
  }

  lemma {:induction false} ValueBound(s: string)
    requires AllDigits(s)
    ensures Value(s) < Pow10(|s|)
  {
    if s != [] { ValueBound(s[..|s| - 1]); }
  }

  /** The value read from the most significant digit onward. */
  lemma {:induction false} ValueFront(s: string)
    requires AllDigits(s) && s != []
    ensures Value(s) == DigitValue(s[0]) * Pow10(|s| - 1) + Value(s[1..])
  {
    if |s| > 1 {
      var init := s[..|s| - 1];
      var tail := s[1..];
      ValueFront(init);
      assert init[1..] == tail[..|tail| - 1];
      var d0, p, v, dl := DigitValue(s[0]), Pow10(|s| - 2), Value(init[1..]), DigitValue(s[|s| - 1]);
      assert Value(init) == d0 * p + v;
      assert Value(tail) == v * 10 + dl;
      assert Value(s) == Value(init) * 10 + dl;
      assert Pow10(|s| - 1) == p * 10;
      ShiftDigit(d0, p, v, dl);
    }
  }

  lemma ShiftDigit(d: int, p: int, v: int, e: int)
    ensures (d * p + v) * 10 + e == d * (p * 10) + (v * 10 + e)
  {
  }

  /** Equally long digit strings compare as strings the way their values compare. */
  lemma {:induction false} DigitsOrder(x: string, y: string)
    requires AllDigits(x) && AllDigits(y) && |x| == |y|
    requires Value(x) < Value(y)
    ensures LexLess(x, y)
  {
    ValueFront(x);
    ValueFront(y);
    ValueBound(x[1..]);
    ValueBound(y[1..]);
    var a, b, p := DigitValue(x[0]), DigitValue(y[0]), Pow10(|x| - 1);
    if x[0] == y[0] {
      DigitsOrder(x[1..], y[1..]);
    } else if a > b {
      LeadingDigitDominates(a, b, p, Value(x[1..]), Value(y[1..]));
      assert false;
    }
  }

  lemma LeadingDigitDominates(a: nat, b: nat, p: nat, rx: nat, ry: nat)
    requires a > b && ry < p
    ensures a * p + rx > b * p + ry
  {
    assert a * p >= (b + 1) * p;
  }
}
