/**
 Decimal spellings of non-negative integers: Python's `str(n)`, the
 zero-padded `f"{n:06d}"` that names every page, and `int()` on a decimal
 literal. The central facts are the round trips (the digits of a page name
 read back as the page number) and that equal-width spellings compare
 lexicographically exactly as their numbers compare.
 */
module Numerals {
  import opened Common
  import opened Strings

  predicate IsDigit(c: char) {
    '0' <= c <= '9'
  }

  predicate AllDigits(s: string) {
    forall i :: 0 <= i < |s| ==> IsDigit(s[i])
  }

  function DigitChar(d: nat): (c: char)
    requires d < 10
    ensures IsDigit(c)
  {
    (48 + d) as char
  }

  function DigitValue(c: char): (d: nat)
    requires IsDigit(c)
    ensures d < 10
    ensures DigitChar(d) == c
  {
    c as int - 48
  }

  function Pow10(k: nat): (r: nat)
    ensures r >= 1
  {
    if k == 0 then 1 else 10 * Pow10(k - 1)
  }

  function Max(a: nat, b: nat): nat {
    if a < b then b else a
  }

  /** The last `w` decimal digits of `n`, most significant first, zero-filled. */
  function Digits(n: nat, w: nat): (s: string)
    ensures |s| == w
    ensures AllDigits(s)
  {
    if w == 0 then "" else Digits(n / 10, w - 1) + [DigitChar(n % 10)]
  }

  /** The number a string of ASCII digits denotes. */
  function Value(s: string): nat
    requires AllDigits(s)
  {
    if s == "" then 0 else 10 * Value(s[..|s| - 1]) + DigitValue(s[|s| - 1])
  }

  /** How many digits the shortest decimal spelling of `n` has. */
  function Width(n: nat): (w: nat)
    ensures w >= 1
  {
    if n < 10 then 1 else 1 + Width(n / 10)
  }

  /** Python's `str(n)` for `n >= 0`. */
  function ToDecimal(n: nat): string {
    Digits(n, Width(n))
  }

  /** Python's `f"{n:06d}"` for `n >= 0`: at least six digits, zero-filled on the left. */
  function Pad6(n: nat): string {
    Digits(n, Max(6, Width(n)))
  }

  /** Python's `str(i)` for any integer. */
  function IntToString(i: int): string {
    if i < 0 then "-" + ToDecimal(-i) else ToDecimal(i)
  }

  /**
   Python's `int(s)` on a decimal literal: an optional sign followed by at
   least one ASCII digit. None stands for the ValueError `int()` raises.
   */
  function ParseInt(s: string): (r: Option<int>)
    ensures r.Some? <==>
      || (|s| > 0 && AllDigits(s))
      || (|s| > 1 && (s[0] == '-' || s[0] == '+') && AllDigits(s[1..]))
    ensures |s| > 0 && AllDigits(s) ==> r == Some(Value(s) as int)
    ensures |s| > 1 && s[0] == '-' && AllDigits(s[1..]) ==> r == Some(-(Value(s[1..]) as int))
    ensures |s| > 1 && s[0] == '+' && AllDigits(s[1..]) ==> r == Some(Value(s[1..]) as int)
  {
    if |s| > 0 && (s[0] == '-' || s[0] == '+') then
      var body := s[1..];
      if |body| > 0 && AllDigits(body) then
        var v: int := Value(body);
        Some(if s[0] == '-' then -v else v)
      else
        None
    else if |s| > 0 && AllDigits(s) then
      Some(Value(s))
    else
      None
  }

  lemma {:induction false} ValueOfDigits(n: nat, w: nat)
    requires n < Pow10(w)
    ensures Value(Digits(n, w)) == n
  {
    if w > 0 {
      var a := Digits(n / 10, w - 1);
      var c := DigitChar(n % 10);
      assert Digits(n, w) == a + [c];
      assert (a + [c])[..|a|] == a;
      ValueOfDigits(n / 10, w - 1);
    }
  }

  /** Equal digit strings of the same width come from equal numbers below 10^w. */
  lemma DigitsInjective(a: nat, b: nat, w: nat)
    requires a < Pow10(w) && b < Pow10(w)
    requires Digits(a, w) == Digits(b, w)
    ensures a == b
  {
    ValueOfDigits(a, w);
    ValueOfDigits(b, w);
  }

  /** A number fits in `k` digits exactly when it is below 10^k. */
  lemma {:induction false} WidthBound(n: nat, k: nat)
    requires k >= 1
    ensures Width(n) <= k <==> n < Pow10(k)
  {
    if k > 1 && n >= 10 {
      WidthBound(n / 10, k - 1);
    }
  }

  lemma DecimalRoundTrip(n: nat)
    ensures AllDigits(ToDecimal(n)) && Value(ToDecimal(n)) == n
  {
    WidthBound(n, Width(n));
    ValueOfDigits(n, Width(n));
  }

  lemma ParseDigits(d: string)
    requires |d| > 0 && AllDigits(d)
    ensures ParseInt(d) == Some(Value(d) as int)
    ensures ParseInt("-" + d) == Some(-(Value(d) as int))
  {
    var s := "-" + d;
    assert s[0] == '-' && s[1..] == d;
  }

  /** `int(str(i)) == i` for every integer. */
  lemma IntRoundTrip(i: int)
    ensures ParseInt(IntToString(i)) == Some(i)
  {
    var n: nat := if i < 0 then -i else i;
    DecimalRoundTrip(n);
    ParseDigits(ToDecimal(n));
  }

  /**
   The page-number spelling `f"{p:06d}"`: always digits, always at least six
   of them, exactly six when p < 10^6, and it reads back as `p`.
   */
  lemma Pad6RoundTrip(p: nat)
    ensures AllDigits(Pad6(p)) && |Pad6(p)| >= 6
    ensures Value(Pad6(p)) == p
    ensures ParseInt(Pad6(p)) == Some(p)
    ensures |Pad6(p)| == 6 <==> p < 1000000
  {
    var w := Max(6, Width(p));
    WidthBound(p, w);
    ValueOfDigits(p, w);
    assert Pow10(6) == 1000000;
    WidthBound(p, 6);
  }

  /** Below 10^6 the padded spelling is the six-digit one. */
  lemma Pad6IsSixDigits(p: nat)
    requires p < 1000000
    ensures Pad6(p) == Digits(p, 6)
  {
    assert Pow10(6) == 1000000;
    WidthBound(p, 6);
  }

  lemma Pad6Injective(p: nat, q: nat)
    requires Pad6(p) == Pad6(q)
    ensures p == q
  {
    Pad6RoundTrip(p);
    Pad6RoundTrip(q);
  }

  /**
   Two spellings of the same width compare lexicographically exactly as
   the numbers they spell.
   */
  lemma {:induction false} DigitsOrder(a: nat, b: nat, w: nat)
    requires a < Pow10(w) && b < Pow10(w)
    ensures LexLess(Digits(a, w), Digits(b, w)) <==> a < b
  {
    if w == 0 {
      assert a == 0 && b == 0;
    } else {
      var da, db := Digits(a / 10, w - 1), Digits(b / 10, w - 1);
      var ca, cb := DigitChar(a % 10), DigitChar(b % 10);
      assert Digits(a, w) == da + [ca];
      assert Digits(b, w) == db + [cb];
      DigitsOrder(a / 10, b / 10, w - 1);
      if da == db {
        DigitsInjective(a / 10, b / 10, w - 1);
        LexLessLastChar(da, ca, cb);
      } else {
        LexLessCommonWidth(da, db, [ca], [cb]);
      }
    }
  }

  /** Six-digit page spellings followed by one suffix sort in page order. */
  lemma Pad6Order(p: nat, q: nat, suffix: string)
    requires p < 1000000 && q < 1000000
    ensures LexLess(Pad6(p) + suffix, Pad6(q) + suffix) <==> p < q
  {
    Pad6IsSixDigits(p);
    Pad6IsSixDigits(q);
    assert Pow10(6) == 1000000;
    DigitsOrder(p, q, 6);
    if p == q {
      LexLessIrreflexive(Pad6(p) + suffix);
    } else {
      if Pad6(p) == Pad6(q) {
        DigitsInjective(p, q, 6);
      }
      LexLessCommonWidth(Pad6(p), Pad6(q), suffix, suffix);
    }
  }

  /** The six-digit bound is tight: page 1000000 sorts before page 999999. */
  lemma Pad6OrderBreaksAtOneMillion()
    ensures LexLess(Pad6(1000000) + ".jpg", Pad6(999999) + ".jpg")
  {
    assert Pow10(6) == 1000000;
    WidthBound(1000000, 7);
    WidthBound(1000000, 6);
    assert Width(1000000) == 7;
    var s := Pad6(1000000) + ".jpg";
    var t := Pad6(999999) + ".jpg";
    Pad6RoundTrip(999999);
    Pad6IsSixDigits(999999);
    assert s[0] == '1';
    assert t[0] == '9';
  }
}
