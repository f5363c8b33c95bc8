/** The form of formatted numbers, stated from the value alone: when an exponent is used, when there is a
    point, and that the text is the only one of its form with its value.
 */
module NumberForm {
  import opened NumberFormat

  // ---- magnitude

  lemma {:induction false} Pow10Ordered(a: int, b: int)
    requires a <= b
    ensures Pow10(a) <= Pow10(b)
    decreases b - a
  {
    hide Pow10;
    if a < b {
      Pow10Ordered(a, b - 1);
      Pow10Next(b - 1);
    }
  }

  lemma {:induction false} DigitsBelow(d: string)
    ensures DigitsValue(d) as real <= Pow10(|d|) - 1.0
    decreases |d|
  {
    hide Pow10, DigitsValue;
    if d == [] {
      ZerosValue(d);
      Pow10Zero();
    } else {
      var init, c := d[..|d| - 1], d[|d| - 1];
      assert d == init + [c];
      DigitsBelow(init);
      DigitsSnoc(init, c);
      Pow10Next(|init|);
    }
  }

  lemma {:induction false} DigitsAtLeast(d: string)
    requires d != [] && IsDigit(d[0]) && d[0] != '0'
    ensures DigitsValue(d) as real >= Pow10(|d| - 1)
    decreases |d|
  {
    hide Pow10, DigitsValue;
    var init, c := d[..|d| - 1], d[|d| - 1];
    assert d == init + [c];
    DigitsSnoc(init, c);
    if |d| == 1 {
      Pow10Zero();
      DigitsPositive(d, 0);
    } else {
      DigitsAtLeast(init);
      Pow10Next(|init| - 1);
    }
  }

  lemma Times(x: real, y: real, p: real)
    requires p > 0.0
    ensures x <= y ==> x * p <= y * p
    ensures x < y ==> x * p < y * p
  {}

  /** Significant digits scaled by n lie between two powers of ten. */
  lemma ScaledRange(d: string, n: int)
    requires Significant(d)
    ensures Pow10(n - 1) <= Scaled(d, n) < Pow10(n)
  {
    hide Pow10, DigitsValue;
    var p := Pow10(n - |d|);
    DigitsBelow(d);
    DigitsAtLeast(d);
    Pow10Product(|d| - 1, n - |d|);
    Pow10Product(|d|, n - |d|);
    Times(Pow10(|d| - 1), DigitsValue(d) as real, p);
    Times(DigitsValue(d) as real, Pow10(|d|), p);
  }

  // ---- when an exponent is used

  /** Too small or too large to be written without an exponent. */
  ghost predicate OutOfRange(v: real) {
    v < Pow10(-6) || v >= Pow10(21)
  }

  lemma RangeOfScale(d: string, n: int)
    requires Significant(d)
    ensures OutOfRange(Scaled(d, n)) <==> n <= -6 || n > 21
  {
    hide Pow10, Scaled;
    ScaledRange(d, n);
    if n <= -6 {
      Pow10Ordered(n, -6);
    } else if n > 21 {
      Pow10Ordered(21, n - 1);
    } else {
      Pow10Ordered(-6, n - 1);
      Pow10Ordered(n, 21);
    }
  }

  lemma LayoutUsesExponent(d: string, n: int)
    requires Significant(d)
    ensures 'e' in Layout(d, n) <==> OutOfRange(Scaled(d, n))
  {
    hide OutOfRange, Scaled;
    RangeOfScale(d, n);
    assert forall c :: c in d ==> IsDigit(c);
    if n <= -6 || n > 21 {
      ExponentialHasE(d, n - 1);
    } else {
      assert 'e' !in Layout(d, n);
    }
  }

  lemma ExponentialHasE(d: string, e: int)
    requires d != []
    ensures 'e' in Exponential(d, e)
  {
    var m := if |d| == 1 then d else d[..1] + "." + d[1..];
    assert Exponential(d, e)[|m|] == 'e';
  }

  // ---- when there is a point

  ghost predicate Whole(v: real) {
    v == v.Floor as real
  }

  lemma WholeScale(d: string, n: int)
    requires Significant(d)
    ensures Whole(Scaled(d, n)) <==> |d| <= n
  {
    hide Pow10, DigitsValue;
    var x := DigitsValue(d);
    if |d| == n {
      Pow10Zero();
      assert Scaled(d, n) == x as real;
    } else if |d| < n {
      var t := TenTimes(x, n - |d|);
      assert Scaled(d, n) == (10 * t) as real;
    } else if Whole(Scaled(d, n)) {
      var z := Scaled(d, n).Floor;
      ScaledRange(d, n);
      assert z > 0;
      Pow10Zero();
      CoarserScale(x, z, n - |d|, 0);
      LastDigit(d);
    }
  }

  lemma LayoutHasPoint(d: string, n: int)
    requires Significant(d) && -6 < n <= 21
    ensures '.' in Layout(d, n) <==> !Whole(Scaled(d, n))
  {
    hide Scaled, Whole;
    WholeScale(d, n);
    assert forall c :: c in d ==> IsDigit(c);
    if |d| <= n {
      assert '.' !in Layout(d, n);
    } else if n > 0 {
      assert Layout(d, n)[n] == '.';
    } else {
      assert Layout(d, n)[1] == '.';
    }
  }

  // ---- the form

  /** No redundant zeros: none in front of the integer part, none behind the fraction; with an exponent,
      one digit before the point and a signed exponent that does not start with a zero. */
  predicate Standard(s: string) {
    && IsNumeral(s)
    && var m := Before(s, EXPONENT);
    && var whole, fraction := Before(m, POINT), Behind(m, POINT);
    && (fraction != [] ==> fraction[|fraction| - 1] != '0')
    && if Find(s, EXPONENT) == |s| then |whole| > 1 ==> whole[0] != '0'
       else
         && |whole| == 1 && whole[0] != '0' && s[Find(s, EXPONENT)] == 'e'
         && Signed(Behind(s, EXPONENT)) && Behind(s, EXPONENT)[1] != '0'
  }

  lemma {:induction false} NatTextIsMinimal(n: nat)
    requires n > 0
    ensures NatText(n)[0] != '0'
  {
    if n >= 10 { NatTextIsMinimal(n / 10); }
  }

  lemma DigitsHaveNoMarks(d: string)
    requires IsDigits(d)
    ensures forall k :: 0 <= k < |d| ==> d[k] !in POINT && d[k] !in EXPONENT
  {}

  lemma WholeIsStandard(a: string)
    requires a != [] && IsDigits(a) && (|a| > 1 ==> a[0] != '0')
    ensures Standard(a)
  {
    hide Find;
    DigitsHaveNoMarks(a);
    NothingToFind(a, POINT);
    NothingToFind(a, EXPONENT);
  }

  lemma PointedIsStandard(a: string, b: string)
    requires a != [] && b != [] && IsDigits(a) && IsDigits(b) && (|a| > 1 ==> a[0] != '0') && b[|b| - 1] != '0'
    ensures Standard(a + "." + b)
  {
    hide Find, IsDigits;
    var m := a + "." + b;
    DigitsHaveNoMarks(a);
    DigitsHaveNoMarks(b);
    PointedShape(a, b);
    assert forall k :: 0 <= k < |m| ==> m[k] !in EXPONENT;
    NothingToFind(m, EXPONENT);
  }

  /** Whatever the layout, the text is in standard form. */
  lemma LayoutIsStandard(d: string, n: int)
    requires Significant(d)
    ensures Standard(Layout(d, n))
  {
    hide Standard, Exponential;
    if |d| <= n <= 21 {
      WholeIsStandard(d + Zeros(n - |d|));
    } else if 0 < n <= 21 {
      PointedIsStandard(d[..n], d[n..]);
    } else if -6 < n <= 0 {
      var z := Zeros(-n);
      PointedIsStandard("0", z + d);
      assert "0" + "." + (z + d) == "0." + z + d;
    } else {
      ExponentialIsStandard(d, n - 1);
    }
  }

  lemma ExponentialIsStandard(d: string, e: int)
    requires Significant(d) && e != 0
    ensures Standard(Exponential(d, e))
  {
    hide Find, IsMantissa, NatText, MantissaValue, NumeralValue, DigitsValue;
    var m := if |d| == 1 then d else d[..1] + "." + d[1..];
    var scale := if e < 0 then "-" + NatText(-e) else "+" + NatText(e);
    DigitsHaveNoMarks(d);
    if |d| == 1 {
      WholeValue(d);
      NothingToFind(d, POINT);
    } else {
      PointedShape(d[..1], d[1..]);
    }
    assert forall k :: 0 <= k < |m| ==> m[k] !in EXPONENT;
    ExponentialValue(m, e);
    FindInConcat(m, 'e', scale, EXPONENT);
    FoundAt(m, 'e', scale, EXPONENT);
    NatTextIsMinimal(if e < 0 then -e else e);
  }

  lemma FoundAt(a: string, c: char, b: string, cs: set<char>)
    requires c in cs && forall k :: 0 <= k < |a| ==> a[k] !in cs
    ensures Find(a + [c] + b, cs) == |a| && (a + [c] + b)[|a|] == c
  {
    var s := a + [c] + b;
    assert s[|a|] == c && forall k :: 0 <= k < |a| ==> s[k] == a[k];
  }

  // ---- the only text of its form

  lemma FirstIs(u: string, i: nat)
    requires i < |u| && u[i] != '0' && forall k :: 0 <= k < i ==> u[k] == '0'
    ensures FirstNonZero(u) == i
  {
    var first := FirstNonZero(u);
    assert first <= i;
  }

  lemma NothingToTrim(u: string)
    requires u != [] && u[|u| - 1] != '0'
    ensures TrimZeros(u) == u
  {}

  /** A text without an exponent, taken apart. */
  lemma PlainParts(s: string)
    requires Standard(s) && Find(s, EXPONENT) == |s|
    ensures Before(s, EXPONENT) == s && ExponentValue(Behind(s, EXPONENT)) == 0
    ensures var whole, fraction := Before(s, POINT), Behind(s, POINT);
      && WithoutPoint(s) == whole + fraction && Find(s, POINT) == |whole|
      && s == (if fraction == [] then whole else whole + "." + fraction)
  {
    hide Find, Before, Behind, WithoutPoint, IsDigits, ExponentValue;
    Resplit(s, EXPONENT);
    Resplit(s, POINT);
    PointSplits(s);
    NoExponent();
    assert Before(s, POINT) + [] == Before(s, POINT);
    assert ['.'] == ".";
  }

  lemma NoExponent()
    ensures ExponentValue([]) == 0
  {}

  /** A text is its two parts around the character found. */
  lemma Resplit(s: string, cs: set<char>)
    ensures |Before(s, cs)| == Find(s, cs)
    ensures Find(s, cs) == |s| ==> Before(s, cs) == s && Behind(s, cs) == []
    ensures Find(s, cs) < |s| ==> s == Before(s, cs) + [s[Find(s, cs)]] + Behind(s, cs) && s[Find(s, cs)] in cs
  {
    hide Find;
  }

  lemma WholeIsLayout(s: string)
    requires Standard(s) && NonZero(s) && Find(s, EXPONENT) == |s| && Behind(s, POINT) == [] && Exponent(s) < 21
    ensures s == Layout(Digits(s), Exponent(s) + 1)
  {
    PlainParts(s);
    hide WithoutPoint, Find, IsNumeral, Exponential, TrimZeros, FirstNonZero;
    var whole := Before(s, POINT);
    assert whole + [] == whole;
    assert WithoutPoint(s) == s;
    assert s[0] != '0';
    FirstIs(s, 0);
    var d := Digits(s);
    assert s[0..] == s;
    assert s == d + s[|d|..] && s[|d|..] == Zeros(|s| - |d|);
  }

  /** The digits and exponent of a text without an exponent part, from its two parts. */
  lemma PlainDigits(s: string)
    requires Standard(s) && Find(s, EXPONENT) == |s|
    ensures var whole, fraction := Before(s, POINT), Behind(s, POINT);
      var u := whole + fraction;
      && Digits(s) == TrimZeros(u[FirstNonZero(u)..])
      && Exponent(s) == |whole| - FirstNonZero(u) - 1
      && whole != [] && (|whole| > 1 ==> whole[0] != '0') && (fraction != [] ==> fraction[|fraction| - 1] != '0')
      && (fraction != [] ==> s == whole + "." + fraction)
  {
    hide WithoutPoint, Find, Before, Behind, TrimZeros, FirstNonZero, IsDigits, ExponentValue;
    PlainParts(s);
  }

  lemma PointedIsLayout(s: string)
    requires Standard(s) && Find(s, EXPONENT) == |s| && Behind(s, POINT) != []
    requires -6 <= Exponent(s) < 21
    ensures Digits(s) != [] && s == Layout(Digits(s), Exponent(s) + 1)
  {
    hide *;
    PlainDigits(s);
    var whole, fraction := Before(s, POINT), Behind(s, POINT);
    if whole[0] != '0' {
      MixedLayout(whole, fraction);
    } else {
      assert whole == "0";
      FractionOnlyLayout(fraction);
    }
  }

  lemma MixedLayout(whole: string, fraction: string)
    requires whole != [] && fraction != [] && whole[0] != '0' && fraction[|fraction| - 1] != '0'
    ensures var u := whole + fraction;
      && FirstNonZero(u) == 0 && TrimZeros(u[0..]) == u
      && (|whole| <= 21 ==> Layout(u, |whole|) == whole + "." + fraction)
  {
    hide FirstNonZero, TrimZeros, Zeros, Exponential;
    var u := whole + fraction;
    FirstIs(u, 0);
    assert u[0..] == u;
    NothingToTrim(u);
    assert u[..|whole|] == whole && u[|whole|..] == fraction;
  }

  lemma FractionOnlyLayout(fraction: string)
    requires fraction != [] && fraction[|fraction| - 1] != '0'
    ensures var u := "0" + fraction;
      var first := FirstNonZero(u);
      && 0 < first < |u| && TrimZeros(u[first..]) != []
      && (first <= 6 ==> Layout(TrimZeros(u[first..]), 1 - first) == "0." + fraction)
  {
    hide FirstNonZero, TrimZeros, Exponential, IsDigits;
    var u := "0" + fraction;
    var first := FirstNonZero(u);
    assert u[|u| - 1] == fraction[|fraction| - 1];
    assert first > 0 && first < |u|;
    var d := u[first..];
    NothingToTrim(d);
    assert d == fraction[first - 1..];
    assert fraction[..first - 1] == Zeros(first - 1) by {
      assert forall k :: 0 <= k < first - 1 ==> fraction[k] == u[k + 1];
    }
    assert fraction == Zeros(first - 1) + d;
    assert "0." + Zeros(first - 1) + d == "0." + (Zeros(first - 1) + d);
  }

  /** The parts of a text with an exponent. */
  lemma ScaleText(x: string)
    requires IsExponent(x) && Signed(x) && x[1] != '0'
    ensures var e := ExponentValue(x);
      e != 0 && x == (if e < 0 then "-" + NatText(-e) else "+" + NatText(e))
  {
    hide NatText;
    var digits := x[1..];
    DigitsPositive(digits, 0);
    var v := DigitsValue(digits);
    NatTextIsMinimal(v);
    DigitsInjective(digits, NatText(v));
    assert x == [x[0]] + digits;
  }

  /** A text with an exponent, taken apart. */
  lemma ExponentialParts(s: string)
    requires Standard(s) && Find(s, EXPONENT) < |s|
    ensures var m, x := Before(s, EXPONENT), Behind(s, EXPONENT);
      var whole, fraction := Before(m, POINT), Behind(m, POINT);
      && IsMantissa(m) && IsExponent(x) && Signed(x) && x[1] != '0' && s == m + "e" + x
      && |whole| == 1 && whole[0] != '0' && (fraction != [] ==> fraction[|fraction| - 1] != '0')
  {
    hide Find, Before, Behind, IsMantissa, IsDigits;
    Resplit(s, EXPONENT);
  }

  lemma MantissaText(m: string)
    requires IsMantissa(m)
    ensures var whole, fraction := Before(m, POINT), Behind(m, POINT);
      m == (if fraction == [] then whole else whole + "." + fraction) && |whole| == Find(m, POINT)
  {
    hide Find, Before, Behind, IsDigits;
    Resplit(m, POINT);
  }

  lemma ExponentialDigits(s: string)
    requires Standard(s) && Find(s, EXPONENT) < |s|
    ensures var m := Before(s, EXPONENT);
      && Digits(s) == Before(m, POINT) + Behind(m, POINT)
      && Exponent(s) == ExponentValue(Behind(s, EXPONENT))
  {
    ExponentialParts(s);
    hide *;
    var m := Before(s, EXPONENT);
    PointSplits(m);
    MantissaText(m);
    OneDigitMantissa(Before(m, POINT), Behind(m, POINT));
    DigitsFrom(s, Before(m, POINT) + Behind(m, POINT));
  }

  lemma DigitsFrom(s: string, u: string)
    requires WithoutPoint(Before(s, EXPONENT)) == u && FirstNonZero(u) == 0 && TrimZeros(u[0..]) == u
    ensures Digits(s) == u
    ensures Exponent(s) == ExponentValue(Behind(s, EXPONENT)) + Find(Before(s, EXPONENT), POINT) - 1
  {
    hide WithoutPoint, FirstNonZero, TrimZeros, Find, ExponentValue;
  }

  lemma ExponentialIsLayout(s: string)
    requires Standard(s) && Find(s, EXPONENT) < |s|
    ensures Digits(s) != [] && s == Exponential(Digits(s), Exponent(s))
  {
    hide *;
    ExponentialMantissa(s);
    ExponentialScale(s);
    ExponentialJoined(Digits(s), Exponent(s), Before(s, EXPONENT), Behind(s, EXPONENT));
  }

  lemma ExponentialMantissa(s: string)
    requires Standard(s) && Find(s, EXPONENT) < |s|
    ensures var u := Digits(s);
      u != [] && Before(s, EXPONENT) == if |u| == 1 then u else u[..1] + "." + u[1..]
  {
    hide *;
    var m := Before(s, EXPONENT);
    ExponentialParts(s);
    ExponentialDigits(s);
    MantissaText(m);
    MantissaOf(Digits(s), m, Before(m, POINT), Behind(m, POINT));
  }

  lemma MantissaOf(u: string, m: string, whole: string, fraction: string)
    requires u == whole + fraction && |whole| == 1
    requires m == if fraction == [] then whole else whole + "." + fraction
    ensures m == if |u| == 1 then u else u[..1] + "." + u[1..]
  {
    if |u| > 1 {
      assert u[..1] == whole;
      assert u[1..] == fraction;
    } else {
      assert u == whole;
    }
  }

  lemma ExponentialScale(s: string)
    requires Standard(s) && Find(s, EXPONENT) < |s|
    ensures var e := Exponent(s);
      && s == Before(s, EXPONENT) + "e" + Behind(s, EXPONENT)
      && Behind(s, EXPONENT) == if e < 0 then "-" + NatText(-e) else "+" + NatText(e)
  {
    hide *;
    ExponentialParts(s);
    ExponentialDigits(s);
    ScaleText(Behind(s, EXPONENT));
  }

  lemma ExponentialJoined(u: string, e: int, m: string, x: string)
    requires u != [] && m == (if |u| == 1 then u else u[..1] + "." + u[1..])
    requires x == if e < 0 then "-" + NatText(-e) else "+" + NatText(e)
    ensures m + "e" + x == Exponential(u, e)
  {
    hide NatText;
  }

  lemma OneDigitMantissa(whole: string, fraction: string)
    requires |whole| == 1 && whole[0] != '0' && (fraction != [] ==> fraction[|fraction| - 1] != '0')
    ensures var u := whole + fraction; FirstNonZero(u) == 0 && TrimZeros(u[0..]) == u
  {
    hide FirstNonZero, TrimZeros;
    var u := whole + fraction;
    FirstIs(u, 0);
    assert u[0..] == u;
    NothingToTrim(u);
  }

  /** A text in standard form that uses an exponent exactly when its value is out of range is the layout
      of its own digits. */
  lemma StandardIsLayout(s: string)
    requires Standard(s) && NonZero(s) && (Find(s, EXPONENT) < |s| <==> OutOfRange(NumeralValue(s)))
    ensures Significant(Digits(s)) && s == Layout(Digits(s), Exponent(s) + 1)
  {
    NormalizationPreservesValue(s);
    hide Standard, NonZero, OutOfRange, NumeralValue, Scaled, Digits, Exponent, Exponential;
    RangeOfScale(Digits(s), Exponent(s) + 1);
    if Find(s, EXPONENT) < |s| {
      ExponentialIsLayout(s);
    } else if Behind(s, POINT) == [] {
      WholeIsLayout(s);
    } else {
      PointedIsLayout(s);
    }
  }

  // ---- formatted numbers

  /** The text without its sign. */
  function Unsigned(x: Number): string
    requires Proper(x) && x.Finite?
  {
    NormalizationPreservesValue(x.raw);
    Layout(Digits(x.raw), Exponent(x.raw) + 1)
  }

  /** What Number::toString promises of a finite number, from its value alone: a sign exactly for negative
      numbers; standard form; an exponent exactly out of range; otherwise a point exactly for fractions. */
  lemma FormattedForm(x: Number)
    requires Proper(x) && x.Finite?
    ensures NumberToString(x) == (if Value(x) < 0.0 then "-" else "") + Unsigned(x)
    ensures Standard(Unsigned(x))
    ensures 'e' in Unsigned(x) <==> OutOfRange(NumeralValue(x.raw))
    ensures 'e' !in Unsigned(x) ==> ('.' in Unsigned(x) <==> !Whole(Value(x)))
  {
    NormalizationPreservesValue(x.raw);
    NumeralPositive(x.raw);
    var d, n := Digits(x.raw), Exponent(x.raw) + 1;
    LayoutIsStandard(d, n);
    LayoutUsesExponent(d, n);
    hide Standard, Layout, OutOfRange, Digits, Exponent, IsNumeral, NonZero, NumeralValue, Scaled;
    if 'e' !in Unsigned(x) {
      RangeOfScale(d, n);
      LayoutHasPoint(d, n);
      WholeNegates(NumeralValue(x.raw));
    }
  }

  lemma WholeNegates(v: real)
    ensures Whole(-v) <==> Whole(v)
  {
    if Whole(v) { assert (-v) == (0 - v.Floor) as real; }
    if Whole(-v) { assert v == (0 - (-v).Floor) as real; }
  }

  lemma UnsignedMeans(x: Number)
    requires Proper(x) && x.Finite?
    ensures IsNumeral(x.raw) && NonZero(x.raw) && Digits(x.raw) != []
    ensures Unsigned(x) == Layout(Digits(x.raw), Exponent(x.raw) + 1)
  {
    hide Digits, Exponent, Layout, IsNumeral, NonZero, Scaled, NumeralValue;
    NormalizationPreservesValue(x.raw);
  }

  lemma PositiveIsNonZero(s: string)
    requires IsNumeral(s) && NumeralValue(s) > 0.0
    ensures NonZero(s)
  {
    hide DigitsValue, Pow10, ExponentValue, FirstNonZero, WithoutPoint, MantissaValue, Find;
    var m := Before(s, EXPONENT);
    MantissaIsScaledDigits(m);
    if !NonZero(s) { ZerosValue(WithoutPoint(m)); }
  }

  lemma StandardIsNumeral(s: string)
    requires Standard(s)
    ensures IsNumeral(s)
  {}

  /** That determines the text: no other text in standard form, with an exponent exactly out of range, has
      the value. */
  lemma FormattedTextIsUnique(x: Number, s: string)
    requires Proper(x) && x.Finite?
    requires Standard(s) && NumeralValue(s) == NumeralValue(x.raw)
    requires Find(s, EXPONENT) < |s| <==> OutOfRange(NumeralValue(s))
    ensures s == Unsigned(x)
  {
    hide *;
    UnsignedMeans(x);
    NumeralPositive(x.raw);
    StandardIsNumeral(s);
    PositiveIsNonZero(s);
    StandardIsLayout(s);
    NormalizationPreservesValue(s);
    NormalizationPreservesValue(x.raw);
    ScaledUnique(Digits(s), Digits(x.raw), Exponent(s) + 1, Exponent(x.raw) + 1);
  }
}
