/** Number::toString: decimal text put in canonical layout without changing the value it denotes. */
module NumberFormat {

  // ---- what decimal text denotes

  predicate IsDigit(c: char) {
    '0' <= c <= '9'
  }

  predicate IsDigits(s: string) {
    forall k :: 0 <= k < |s| ==> IsDigit(s[k])
  }

  function DigitValue(c: char): (v: nat)
    ensures v < 10
  {
    if IsDigit(c) then (c - '0') as nat else 0
  }

  function DigitsValue(s: string): nat {
    if s == [] then 0 else 10 * DigitsValue(s[..|s| - 1]) + DigitValue(s[|s| - 1])
  }

  function Pow10(e: int): (p: real)
    ensures p > 0.0
    decreases if e < 0 then -e else e
  {
    if e == 0 then 1.0 else if e > 0 then 10.0 * Pow10(e - 1) else Pow10(e + 1) / 10.0
  }

  /** Index of the first character of `s` that is in `cs`, or the length of `s`. */
  function Find(s: string, cs: set<char>): (i: nat)
    ensures i <= |s|
    ensures forall k :: 0 <= k < i ==> s[k] !in cs
    ensures i < |s| ==> s[i] in cs
  {
    if s == [] || s[0] in cs then 0 else 1 + Find(s[1..], cs)
  }

  const POINT: set<char> := {'.'}
  const EXPONENT: set<char> := {'e', 'E'}

  function Before(s: string, cs: set<char>): string {
    s[..Find(s, cs)]
  }

  function Behind(s: string, cs: set<char>): string {
    if Find(s, cs) == |s| then [] else s[Find(s, cs) + 1..]
  }

  predicate Signed(s: string) {
    s != [] && (s[0] == '-' || s[0] == '+')
  }

  function ExponentValue(s: string): int {
    if s != [] && s[0] == '-' then 0 - DigitsValue(s[1..])
    else if s != [] && s[0] == '+' then DigitsValue(s[1..])
    else DigitsValue(s)
  }

  function MantissaValue(s: string): real {
    DigitsValue(Before(s, POINT)) as real + DigitsValue(Behind(s, POINT)) as real * Pow10(0 - |Behind(s, POINT)|)
  }

  /** The value of an unsigned numeral: integer part plus fraction, scaled by the exponent part. */
  function NumeralValue(s: string): real {
    MantissaValue(Before(s, EXPONENT)) * Pow10(ExponentValue(Behind(s, EXPONENT)))
  }

  function SignedValue(s: string): real {
    if s != [] && s[0] == '-' then -NumeralValue(s[1..]) else NumeralValue(s)
  }

  /** digits [. digits] [(e | E) [+ | -] digits] */
  predicate IsNumeral(s: string) {
    IsMantissa(Before(s, EXPONENT)) && (Find(s, EXPONENT) < |s| ==> IsExponent(Behind(s, EXPONENT)))
  }

  predicate IsMantissa(s: string) {
    && Before(s, POINT) != [] && IsDigits(Before(s, POINT))
    && IsDigits(Behind(s, POINT)) && (Find(s, POINT) < |s| ==> Behind(s, POINT) != [])
  }

  predicate IsExponent(s: string) {
    if Signed(s) then |s| > 1 && IsDigits(s[1..]) else s != [] && IsDigits(s)
  }

  // ---- arithmetic of decimal text

  lemma Pow10Next(e: int)
    ensures Pow10(e + 1) == 10.0 * Pow10(e)
  {
  }

  lemma Pow10Zero()
    ensures Pow10(0) == 1.0
  {
  }

  lemma {:induction false} Pow10Sum(a: int, b: nat)
    ensures Pow10(a + b) == Pow10(a) * Pow10(b)
  {
    hide Pow10;
    Pow10Zero();
    if b > 0 {
      Pow10Sum(a, b - 1);
      Pow10Next(a + b - 1);
      Pow10Next(b - 1);
      Reassociate(Pow10(a), Pow10(b - 1), 10.0);
    }
  }

  lemma Reassociate(x: real, y: real, z: real)
    ensures x * y * z == x * (y * z) && z * (x * y) == x * (z * y)
  {
  }

  lemma Cancel(x: real, y: real, p: real)
    requires p > 0.0 && x * p == y * p
    ensures x == y
  {
    assert (x - y) * p == 0.0;
  }


  lemma Pow10Cancels(k: nat)
    ensures Pow10(0 - k) * Pow10(k) == 1.0
  {
    hide Pow10;
    Pow10Zero();
    Pow10Sum(0 - k, k);
  }

  lemma Pow10Product(a: int, b: int)
    ensures Pow10(a + b) == Pow10(a) * Pow10(b)
  {
    hide Pow10;
    if b >= 0 {
      Pow10Sum(a, b);
    } else {
      var k := 0 - b;
      Pow10Sum(a + b, k);
      Pow10Cancels(k);
      Reassociate(Pow10(a + b), Pow10(k), Pow10(b));
    }
  }

  lemma DigitsSnoc(s: string, c: char)
    ensures DigitsValue(s + [c]) as real == 10.0 * DigitsValue(s) as real + DigitValue(c) as real
  {
    assert (s + [c])[..|s + [c]| - 1] == s;
  }

  lemma {:induction false} DigitsConcat(a: string, b: string)
    ensures DigitsValue(a + b) as real == DigitsValue(a) as real * Pow10(|b|) + DigitsValue(b) as real
    decreases |b|
  {
    hide Pow10, DigitsValue;
    if b == [] {
      assert a + b == a;
      Pow10Zero();
      ZerosValue(b);
    } else {
      var init, c := b[..|b| - 1], b[|b| - 1];
      DigitsConcat(a, init);
      assert b == init + [c] && a + b == (a + init) + [c];
      DigitsSnoc(a + init, c);
      DigitsSnoc(init, c);
      Pow10Next(|init|);
      Shift(DigitsValue(a) as real, Pow10(|init|), DigitsValue(init) as real);
    }
  }

  lemma Shift(x: real, p: real, y: real)
    ensures 10.0 * (x * p + y) == x * (10.0 * p) + 10.0 * y
  {
  }

  function Zeros(k: nat): (z: string)
    ensures |z| == k && IsDigits(z) && forall i :: 0 <= i < k ==> z[i] == '0'
  {
    seq(k, _ => '0')
  }

  lemma {:induction false} ZerosValue(z: string)
    requires forall i :: 0 <= i < |z| ==> z[i] == '0'
    ensures DigitsValue(z) == 0
  {
    if z != [] { ZerosValue(z[..|z| - 1]); }
  }

  lemma {:induction false} DigitsPositive(s: string, k: nat)
    requires k < |s| && IsDigit(s[k]) && s[k] != '0'
    ensures DigitsValue(s) > 0
    decreases |s|
  {
    if k < |s| - 1 { DigitsPositive(s[..|s| - 1], k); }
  }

  // ---- significant digits

  /** A digit string that neither starts nor ends with a zero. */
  predicate Significant(d: string) {
    d != [] && IsDigits(d) && d[0] != '0' && d[|d| - 1] != '0'
  }

  /** The digits with the point placed after the first n of them: 0.d times ten to the n. */
  function Scaled(d: string, n: int): real {
    DigitsValue(d) as real * Pow10(n - |d|)
  }

  /** Without leading zeros, digits are determined by their value. */
  lemma {:induction false} DigitsInjective(a: string, b: string)
    requires IsDigits(a) && IsDigits(b)
    requires (a != [] ==> a[0] != '0') && (b != [] ==> b[0] != '0')
    requires DigitsValue(a) == DigitsValue(b)
    ensures a == b
    decreases |a|
  {
    if a == [] {
      if b != [] { DigitsPositive(b, 0); }
    } else if b == [] {
      DigitsPositive(a, 0);
    } else {
      DigitsInjective(a[..|a| - 1], b[..|b| - 1]);
      assert a == a[..|a| - 1] + [a[|a| - 1]] && b == b[..|b| - 1] + [b[|b| - 1]];
    }
  }

  lemma ScaledOrder(a: string, b: string, m: int, n: int)
    requires Significant(a) && Significant(b) && Scaled(a, m) == Scaled(b, n)
    ensures m - |a| >= n - |b|
  {
    hide Pow10, IsDigits, DigitsValue;
    if m - |a| < n - |b| {
      CoarserScale(DigitsValue(a), DigitsValue(b), m - |a|, n - |b|);
      LastDigit(a);
    }
  }

  /** In units of a finer power of ten, a multiple of a coarser one ends in a zero. */
  lemma CoarserScale(x: nat, y: nat, i: int, j: int)
    requires i < j && x as real * Pow10(i) == y as real * Pow10(j)
    ensures x % 10 == 0
  {
    hide Pow10;
    var gap := j - i;
    Pow10Sum(i, gap);
    CommonFactor(x as real, y as real, Pow10(i), Pow10(gap));
    var t := TenTimes(y, gap);
    assert x == 10 * t;
  }

  lemma CommonFactor(x: real, y: real, p: real, q: real)
    requires p > 0.0 && x * p == y * (p * q)
    ensures x == y * q
  {
    assert y * (p * q) == y * q * p;
    Cancel(x, y * q, p);
  }

  lemma LastDigit(a: string)
    requires Significant(a)
    ensures DigitsValue(a) % 10 != 0
  {
    var last := DigitValue(a[|a| - 1]);
    assert DigitsValue(a) == 10 * DigitsValue(a[..|a| - 1]) + last;
    assert last != 0;
  }

  lemma {:induction false} TenTimes(y: nat, gap: nat) returns (t: nat)
    requires gap > 0
    ensures y as real * Pow10(gap) == (10 * t) as real
  {
    hide Pow10;
    Pow10Next(gap - 1);
    if gap == 1 {
      Pow10Zero();
      t := y;
    } else {
      var u := TenTimes(y, gap - 1);
      Reassociate(y as real, Pow10(gap - 1), 10.0);
      t := 10 * u;
    }
  }

  /** A value has one significant digit string and one scale. */
  lemma ScaledUnique(a: string, b: string, m: int, n: int)
    requires Significant(a) && Significant(b) && Scaled(a, m) == Scaled(b, n)
    ensures a == b && m == n
  {
    hide Pow10, IsDigits, DigitsValue;
    ScaledOrder(a, b, m, n);
    ScaledOrder(b, a, n, m);
    Cancel(DigitsValue(a) as real, DigitsValue(b) as real, Pow10(m - |a|));
    DigitsInjective(a, b);
  }

  // ---- normalisation

  function WithoutPoint(s: string): (r: string)
    ensures s == [] ==> r == []
  {
    if s == [] then [] else (if s[0] == '.' then [] else [s[0]]) + WithoutPoint(s[1..])
  }

  function FirstNonZero(s: string): (i: nat)
    ensures i <= |s|
    ensures forall k :: 0 <= k < i ==> s[k] == '0'
    ensures i < |s| ==> s[i] != '0'
  {
    if s == [] || s[0] != '0' then 0 else 1 + FirstNonZero(s[1..])
  }

  function TrimZeros(s: string): (r: string)
    ensures |r| <= |s| && r == s[..|r|]
    ensures forall k :: |r| <= k < |s| ==> s[k] == '0'
    ensures r != [] ==> r[|r| - 1] != '0'
  {
    if s == [] || s[|s| - 1] != '0' then s else TrimZeros(s[..|s| - 1])
  }

  predicate NonZero(raw: string) {
    var digits := WithoutPoint(Before(raw, EXPONENT));
    FirstNonZero(digits) < |digits|
  }

  /** The significant digits of a numeral, and the exponent of the first of them. */
  function Digits(raw: string): string {
    var untrimmed := WithoutPoint(Before(raw, EXPONENT));
    TrimZeros(untrimmed[FirstNonZero(untrimmed)..])
  }

  function Exponent(raw: string): int {
    var mantissa := Before(raw, EXPONENT);
    ExponentValue(Behind(raw, EXPONENT)) + Find(mantissa, POINT) - FirstNonZero(WithoutPoint(mantissa)) - 1
  }

  lemma {:induction false} WithoutPointConcat(a: string, b: string)
    ensures WithoutPoint(a + b) == WithoutPoint(a) + WithoutPoint(b)
  {
    if a == [] {
      assert a + b == b;
    } else {
      WithoutPointConcat(a[1..], b);
      var head := if a[0] == '.' then [] else [a[0]];
      assert (a + b)[1..] == a[1..] + b;
      assert WithoutPoint(a + b) == head + (WithoutPoint(a[1..]) + WithoutPoint(b));
    }
  }

  lemma {:induction false} DigitsHaveNoPoint(a: string)
    requires IsDigits(a)
    ensures WithoutPoint(a) == a
  {
    if a != [] {
      DigitsHaveNoPoint(a[1..]);
      assert a == [a[0]] + a[1..];
    }
  }

  lemma PointSplits(m: string)
    requires IsMantissa(m)
    ensures WithoutPoint(m) == Before(m, POINT) + Behind(m, POINT)
  {
    hide WithoutPoint, Find, IsDigits;
    var whole, fraction := Before(m, POINT), Behind(m, POINT);
    DigitsHaveNoPoint(whole);
    DigitsHaveNoPoint(fraction);
    if Find(m, POINT) == |m| {
      assert m == whole && whole + fraction == whole;
    } else {
      assert m == whole + (['.'] + fraction);
      WithoutPointConcat(whole, ['.'] + fraction);
      WithoutPointConcat(['.'], fraction);
      PointVanishes();
    }
  }

  lemma PointVanishes()
    ensures WithoutPoint(['.']) == []
  {
  }

  lemma MantissaIsScaledDigits(m: string)
    requires IsMantissa(m)
    ensures MantissaValue(m) == DigitsValue(WithoutPoint(m)) as real * Pow10(0 - |Behind(m, POINT)|)
  {
    hide Pow10, IsDigits, DigitsValue, WithoutPoint, Find;
    var whole, fraction := Before(m, POINT), Behind(m, POINT);
    PointSplits(m);
    DigitsConcat(whole, fraction);
    Pow10Cancels(|fraction|);
    Distribute(DigitsValue(whole) as real, Pow10(|fraction|), DigitsValue(fraction) as real, Pow10(0 - |fraction|));
  }

  lemma Distribute(w: real, p: real, f: real, q: real)
    requires q * p == 1.0
    ensures w + f * q == (w * p + f) * q
  {
    assert (w * p + f) * q == w * (q * p) + f * q;
  }

  /** Leading zeros add nothing and each trailing zero one power of ten. */
  lemma TrimmedValue(s: string)
    requires FirstNonZero(s) < |s|
    ensures var d := TrimZeros(s[FirstNonZero(s)..]);
      d != [] && d[0] == s[FirstNonZero(s)]
      && DigitsValue(s) as real == DigitsValue(d) as real * Pow10(|s| - FirstNonZero(s) - |d|)
  {
    hide Pow10, DigitsValue, FirstNonZero, TrimZeros;
    var first := FirstNonZero(s);
    var tail := s[first..];
    var d := TrimZeros(tail);
    assert tail[0] != '0';
    var zeros := tail[|d|..];
    assert s == s[..first] + tail && tail == d + zeros;
    ZerosValue(s[..first]);
    DigitsConcat(s[..first], tail);
    ZerosValue(zeros);
    DigitsConcat(d, zeros);
  }

  /** The normalised digits are significant and denote the numeral's value. */
  lemma NormalizationPreservesValue(raw: string)
    requires IsNumeral(raw) && NonZero(raw)
    ensures Significant(Digits(raw)) && Scaled(Digits(raw), Exponent(raw) + 1) == NumeralValue(raw)
  {
    hide DigitsValue, Pow10, ExponentValue, FirstNonZero, TrimZeros, WithoutPoint, MantissaValue, Find;
    var m := Before(raw, EXPONENT);
    var s, e := WithoutPoint(m), ExponentValue(Behind(raw, EXPONENT));
    var d := Digits(raw);
    var trailing := |s| - FirstNonZero(s) - |d|;
    var fraction := |Behind(m, POINT)|;
    PointSplits(m);
    assert IsDigits(s);
    TrimmedValue(s);
    MantissaIsScaledDigits(m);
    Combine(DigitsValue(d) as real, trailing, 0 - fraction, e);
    assert Exponent(raw) + 1 - |d| == trailing - fraction + e;
  }

  lemma Combine(x: real, a: nat, b: int, c: int)
    ensures x * Pow10(a) * Pow10(b) * Pow10(c) == x * Pow10(a + b + c)
  {
    hide Pow10;
    Pow10Product(a, b);
    Pow10Product(a + b, c);
    Reassociate(x, Pow10(a), Pow10(b));
    Reassociate(x, Pow10(a + b), Pow10(c));
  }

  // ---- the layouts of Number::toString

  function NatText(n: nat): (s: string)
    ensures s != [] && IsDigits(s) && DigitsValue(s) == n
  {
    var c := '0' + (n % 10) as char;
    if n < 10 then [c]
    else
      var s := NatText(n / 10) + [c];
      assert s[..|s| - 1] == NatText(n / 10);
      s
  }

  function IntegerText(n: int): string {
    if n < 0 then "-" + NatText(-n) else NatText(n)
  }

  /** One digit before the point, the rest after it, then the signed exponent. */
  function Exponential(d: string, e: int): string
    requires d != []
  {
    (if |d| == 1 then d else d[..1] + "." + d[1..]) + "e" + (if e < 0 then "-" + NatText(-e) else "+" + NatText(e))
  }

  /**
   * Steps 6 to 11 of Number::toString, section 6.1.6.1.20 of ECMA-262 (2022 edition), for k digits
   * d and the integer n that make the value d times ten to the n - k.
   */
  function Layout(d: string, n: int): string
    requires d != []
  {
    if |d| <= n <= 21 then d + Zeros(n - |d|)
    else if 0 < n <= 21 then d[..n] + "." + d[n..]
    else if -6 < n <= 0 then "0." + Zeros(-n) + d
    else Exponential(d, n - 1)
  }

  lemma FindInConcat(a: string, c: char, b: string, cs: set<char>)
    requires c in cs && forall k :: 0 <= k < |a| ==> a[k] !in cs
    ensures Before(a + [c] + b, cs) == a && Behind(a + [c] + b, cs) == b
  {
    var s := a + [c] + b;
    assert s[|a|] == c;
    assert forall k :: 0 <= k < |a| ==> s[k] == a[k];
    assert Find(s, cs) == |a|;
  }

  lemma NothingToFind(a: string, cs: set<char>)
    requires forall k :: 0 <= k < |a| ==> a[k] !in cs
    ensures Find(a, cs) == |a| && Before(a, cs) == a && Behind(a, cs) == []
  {
  }

  lemma PointedShape(a: string, b: string)
    requires a != [] && b != [] && IsDigits(a) && IsDigits(b)
    ensures IsMantissa(a + "." + b)
    ensures Before(a + "." + b, POINT) == a && Behind(a + "." + b, POINT) == b
  {
    hide Find, Before, Behind;
    FindInConcat(a, '.', b, POINT);
  }

  /** A mantissa of digits with a point after the first `|a|` of them. */
  lemma PointedValue(a: string, b: string)
    requires a != [] && b != [] && IsDigits(a) && IsDigits(b)
    ensures IsMantissa(a + "." + b)
    ensures MantissaValue(a + "." + b) == DigitsValue(a + b) as real * Pow10(0 - |b|)
  {
    hide *;
    PointedShape(a, b);
    PointSplits(a + "." + b);
    MantissaIsScaledDigits(a + "." + b);
  }

  lemma WholeValue(a: string)
    requires a != [] && IsDigits(a)
    ensures IsMantissa(a) && MantissaValue(a) == DigitsValue(a) as real
  {
    NothingToFind(a, POINT);
  }

  lemma PlainValue(m: string)
    requires IsMantissa(m) && forall k :: 0 <= k < |m| ==> m[k] !in EXPONENT
    ensures IsNumeral(m) && NumeralValue(m) == MantissaValue(m)
  {
    NothingToFind(m, EXPONENT);
  }

  lemma ExponentialValue(m: string, n: int)
    requires IsMantissa(m) && forall k :: 0 <= k < |m| ==> m[k] !in EXPONENT
    ensures var s := m + "e" + (if n < 0 then "-" + NatText(-n) else "+" + NatText(n));
      IsNumeral(s) && NumeralValue(s) == MantissaValue(m) * Pow10(n)
  {
    hide IsMantissa, MantissaValue, Pow10, NatText, DigitsValue;
    var scale := if n < 0 then "-" + NatText(-n) else "+" + NatText(n);
    FindInConcat(m, 'e', scale, EXPONENT);
    assert scale[1..] == NatText(if n < 0 then -n else n);
  }

  /** Every layout denotes the digits at their scale. */
  lemma LayoutPreservesValue(d: string, n: int)
    requires Significant(d)
    ensures IsNumeral(Layout(d, n)) && NumeralValue(Layout(d, n)) == Scaled(d, n)
  {
    hide DigitsValue, Pow10, Find, IsMantissa, MantissaValue, IsNumeral, NumeralValue, NatText, Before, Behind;
    if |d| <= n <= 21 {
      IntegerLayout(d, n);
    } else if 0 < n <= 21 {
      PointedValue(d[..n], d[n..]);
      assert d[..n] + d[n..] == d;
      PlainValue(d[..n] + "." + d[n..]);
    } else if -6 < n <= 0 {
      FractionLayout(d, n);
    } else {
      ExponentialLayout(d, n - 1);
    }
  }

  lemma ExponentialLayout(d: string, e: int)
    requires Significant(d)
    ensures IsNumeral(Exponential(d, e)) && NumeralValue(Exponential(d, e)) == Scaled(d, e + 1)
  {
    hide DigitsValue, Pow10, Find, IsMantissa, MantissaValue, IsNumeral, NumeralValue, NatText, Before, Behind;
    if |d| == 1 {
      WholeValue(d);
      ExponentialValue(d, e);
    } else {
      PointedValue(d[..1], d[1..]);
      assert d[..1] + d[1..] == d;
      ExponentialValue(d[..1] + "." + d[1..], e);
      Pow10Product(1 - |d|, e);
      Reassociate(DigitsValue(d) as real, Pow10(1 - |d|), Pow10(e));
    }
  }

  lemma IntegerLayout(d: string, n: int)
    requires Significant(d) && |d| <= n
    ensures IsNumeral(d + Zeros(n - |d|)) && NumeralValue(d + Zeros(n - |d|)) == Scaled(d, n)
  {
    hide Pow10, Find, IsMantissa, MantissaValue, IsNumeral, NumeralValue, DigitsValue;
    var z := Zeros(n - |d|);
    WholeValue(d + z);
    PlainValue(d + z);
    ZerosValue(z);
    DigitsConcat(d, z);
  }

  lemma FractionLayout(d: string, n: int)
    requires Significant(d) && n <= 0
    ensures IsNumeral("0." + Zeros(-n) + d) && NumeralValue("0." + Zeros(-n) + d) == Scaled(d, n)
  {
    hide Pow10, Find, IsMantissa, MantissaValue, IsNumeral, NumeralValue, DigitsValue;
    var z := Zeros(-n);
    PointedValue("0", z + d);
    assert "0" + "." + (z + d) == "0." + z + d;
    PlainValue("0." + z + d);
    assert "0" + (z + d) == ("0" + z) + d;
    ZerosValue("0" + z);
    DigitsConcat("0" + z, d);
  }

  // ---- formatting

  /** A number: the special values, or a sign with the decimal text of the absolute value. */
  datatype Number = NaN | Infinity(negative: bool) | Zero | Finite(negative: bool, raw: string)

  predicate Proper(x: Number) {
    x.Finite? ==> IsNumeral(x.raw) && NonZero(x.raw)
  }

  function Value(x: Number): real
    requires x.Finite?
  {
    if x.negative then -NumeralValue(x.raw) else NumeralValue(x.raw)
  }

  /** Number::toString over the significant digits. */
  function NumberToString(x: Number): string
    requires Proper(x)
  {
    match x
    case NaN => "NaN"
    case Infinity(negative) => if negative then "-Infinity" else "Infinity"
    case Zero => "0"
    case Finite(negative, raw) =>
      NormalizationPreservesValue(raw);
      (if negative then "-" else "") + Layout(Digits(raw), Exponent(raw) + 1)
  }

  lemma ExponentialPieces(d: string, e: int, sign: string)
    requires d != []
    ensures sign + Exponential(d, e)
            == (if |d| > 1 then sign + [d[0]] + "." + d[1..] else sign + [d[0]]) + "e"
               + (if e < 0 then "-" + NatText(-e) else "+" + NatText(e))
  {
    hide NatText, IsDigits;
    assert d[..1] == [d[0]];
    if |d| == 1 { assert d == [d[0]]; } else { assert sign + [d[0]] + "." + d[1..] == sign + ([d[0]] + "." + d[1..]); }
  }

  /** The code's choice by the exponent of the first digit is the standard's choice by digit count. */
  method AppendDigits(digits: string, exponent: int, sign: string) returns (result: string)
    requires digits != []
    ensures result == sign + Layout(digits, exponent + 1)
  {
    hide IsDigits, NatText, Exponential;
    result := sign;
    if !(-6 <= exponent < 21) {
      result := AppendExponential(digits, exponent, result);
    } else if exponent >= 0 {
      var integerDigits := exponent + 1;
      if |digits| <= integerDigits {
        result := result + digits;
        result := result + Zeros(integerDigits - |digits|);
        assert result == sign + (digits + Zeros(integerDigits - |digits|));
      } else {
        result := result + digits[..integerDigits];
        result := result + ".";
        result := result + digits[integerDigits..];
        assert result == sign + (digits[..integerDigits] + "." + digits[integerDigits..]);
      }
    } else {
      result := result + "0.";
      result := result + Zeros(-exponent - 1);
      result := result + digits;
      assert result == sign + ("0." + Zeros(-exponent - 1) + digits);
    }
  }

  method AppendExponential(digits: string, exponent: int, sign: string) returns (result: string)
    requires digits != []
    ensures result == sign + Exponential(digits, exponent)
  {
    hide IsDigits, NatText, Exponential;
    result := sign + [digits[0]];
    if |digits| > 1 {
      result := result + ".";
      result := result + digits[1..];
    }
    result := result + "e";
    ghost var mantissa := result;
    if exponent >= 0 { result := result + "+"; }
    result := result + IntegerText(exponent);
    assert exponent >= 0 ==> result == mantissa + ("+" + NatText(exponent));
    ExponentialPieces(digits, exponent, sign);
  }

  method FormatNumber(x: Number) returns (result: string)
    requires Proper(x)
    ensures result == NumberToString(x)
  {
    hide IsNumeral, NonZero, Digits, Exponent, Scaled, NumeralValue, Layout;
    if x.NaN? { return "NaN"; }
    if x.Infinity? && !x.negative { return "Infinity"; }
    if x.Infinity? { return "-Infinity"; }
    if x.Zero? { return "0"; }
    NormalizationPreservesValue(x.raw);
    result := "";
    if x.negative { result := result + "-"; }
    result := AppendDigits(Digits(x.raw), Exponent(x.raw), result);
  }

  lemma NumeralStartsWithDigit(s: string)
    requires IsNumeral(s)
    ensures s != [] && IsDigit(s[0])
  {
    var m := Before(s, EXPONENT);
    assert Before(m, POINT)[0] == m[0] == s[0];
  }

  /** The formatted text of a finite number denotes exactly its value. */
  lemma FormattingPreservesValue(x: Number)
    requires Proper(x) && x.Finite?
    ensures SignedValue(NumberToString(x)) == Value(x)
  {
    hide IsNumeral, NumeralValue, NonZero, Digits, Exponent, Layout;
    NormalizationPreservesValue(x.raw);
    var text := Layout(Digits(x.raw), Exponent(x.raw) + 1);
    LayoutPreservesValue(Digits(x.raw), Exponent(x.raw) + 1);
    NumeralStartsWithDigit(text);
    if x.negative { assert ("-" + text)[1..] == text; } else { assert "" + text == text; }
  }

  lemma NumeralPositive(raw: string)
    requires IsNumeral(raw) && NonZero(raw)
    ensures NumeralValue(raw) > 0.0
  {
    hide IsNumeral, NumeralValue, NonZero, Digits, Exponent;
    NormalizationPreservesValue(raw);
    DigitsPositive(Digits(raw), 0);
  }

  /** Two finite numbers are written alike exactly when they are equal. */
  lemma FormattingIsCanonical(x: Number, y: Number)
    requires Proper(x) && x.Finite? && Proper(y) && y.Finite?
    ensures NumberToString(x) == NumberToString(y) <==> Value(x) == Value(y)
  {
    hide IsNumeral, NumeralValue, NonZero, Digits, Exponent, Layout, Scaled;
    FormattingPreservesValue(x);
    FormattingPreservesValue(y);
    if Value(x) == Value(y) {
      NumeralPositive(x.raw);
      NumeralPositive(y.raw);
      NormalizationPreservesValue(x.raw);
      NormalizationPreservesValue(y.raw);
      ScaledUnique(Digits(x.raw), Digits(y.raw), Exponent(x.raw) + 1, Exponent(y.raw) + 1);
    }
  }
}
