/** Canonical bigint text: exactly one text for every integer. */
module BigInts {
  import opened Base
  import opened Bytecode

  function Magnitude(digits: seq<byte>): nat
    requires IsDecimal(digits)
  {
    if digits == [] then 0 else 10 * Magnitude(digits[..|digits| - 1]) + (digits[|digits| - 1] - 48)
  }

  const MINUS: byte := 45

  /** An optional minus sign and at least one digit. */
  predicate IsSignedDecimal(text: seq<byte>) {
    text != [] && if text[0] == MINUS then |text| > 1 && IsDecimal(text[1..]) else IsDecimal(text)
  }

  /** The integer a signed decimal text denotes. */
  function Denoted(text: seq<byte>): int
    requires IsSignedDecimal(text)
  {
    if text[0] == MINUS then 0 - Magnitude(text[1..]) else Magnitude(text)
  }

  /** The decimal digits of a number, without leading zeros. */
  function DecimalText(n: nat): (d: seq<byte>)
    ensures d != [] && IsDecimal(d) && Magnitude(d) == n
    ensures d[0] == 48 ==> n == 0 && d == [48]
  {
    if n < 10 then [48 + n]
    else
      var d := DecimalText(n / 10) + [48 + n % 10];
      assert d[..|d| - 1] == DecimalText(n / 10);
      d
  }

  function TextOf(n: int): (text: seq<byte>)
    ensures IsSignedDecimal(text) && Denoted(text) == n
  {
    if n < 0 then
      var text := [MINUS] + DecimalText(0 - n);
      assert text[1..] == DecimalText(0 - n);
      text
    else DecimalText(n)
  }

  lemma {:induction false} LeadingDigitCounts(d: seq<byte>)
    requires IsDecimal(d) && d != [] && d[0] != 48
    ensures Magnitude(d) > 0
    decreases |d|
  {
    if |d| > 1 { LeadingDigitCounts(d[..|d| - 1]); }
  }

  /** Without leading zeros, digits are determined by their magnitude. */
  lemma {:induction false} DigitsAreDetermined(a: seq<byte>, b: seq<byte>)
    requires IsDecimal(a) && IsDecimal(b) && Magnitude(a) == Magnitude(b)
    requires (a != [] ==> a[0] != 48) && (b != [] ==> b[0] != 48)
    ensures a == b
    decreases |a|
  {
    if a == [] {
      if b != [] { LeadingDigitCounts(b); }
    } else if b == [] {
      LeadingDigitCounts(a);
    } else {
      DigitsAreDetermined(a[..|a| - 1], b[..|b| - 1]);
      assert a == a[..|a| - 1] + [a[|a| - 1]] && b == b[..|b| - 1] + [b[|b| - 1]];
    }
  }

  /** Digits without a redundant leading zero are the text of their magnitude. */
  lemma MinimalDigits(d: seq<byte>)
    requires IsDecimal(d) && d != [] && (|d| > 1 ==> d[0] != 48)
    ensures d == DecimalText(Magnitude(d))
  {
    hide DecimalText;
    var t := DecimalText(Magnitude(d));
    if d[0] == 48 {
      assert d == [48] && d[..0] == [];
      assert Magnitude(d) == 0;
      ZeroText();
    } else {
      LeadingDigitCounts(d);
      DigitsAreDetermined(d, t);
    }
  }

  lemma ZeroText()
    ensures DecimalText(0) == [48]
  {}

  /** The canonical texts are exactly the texts of the integers. */
  lemma CanonicalExactly(text: seq<byte>)
    ensures IsCanonicalBigInt(text) <==> IsSignedDecimal(text) && text == TextOf(Denoted(text))
  {
    hide DecimalText, Magnitude;
    if IsCanonicalBigInt(text) {
      CanonicalIsText(text);
    }
    if IsSignedDecimal(text) && text == TextOf(Denoted(text)) {
      TextIsCanonical(Denoted(text));
    }
  }

  lemma CanonicalIsText(text: seq<byte>)
    requires IsCanonicalBigInt(text)
    ensures IsSignedDecimal(text) && text == TextOf(Denoted(text))
  {
    hide DecimalText, Magnitude;
    var d := if text[0] == MINUS then text[1..] else text;
    assert d != [] && IsDecimal(d) && (|d| > 1 ==> d[0] != 48);
    MinimalDigits(d);
    if text[0] == MINUS {
      assert text == [MINUS] + d;
      if Magnitude(d) == 0 { ZeroText(); }
    }
  }

  lemma TextIsCanonical(n: int)
    ensures IsCanonicalBigInt(TextOf(n))
  {
    hide DecimalText, Magnitude;
    var text := TextOf(n);
    if n < 0 {
      var d := DecimalText(0 - n);
      assert text[1..] == d;
    } else {
      assert IsDigit(text[0]);
    }
  }

  /** Two canonical texts of one integer are the same text. */
  lemma CanonicalIsUnique(a: seq<byte>, b: seq<byte>)
    requires IsCanonicalBigInt(a) && IsCanonicalBigInt(b)
    ensures IsSignedDecimal(a) && IsSignedDecimal(b)
    ensures Denoted(a) == Denoted(b) ==> a == b
  {
    hide IsCanonicalBigInt, IsSignedDecimal, Denoted;
    CanonicalExactly(a);
    CanonicalExactly(b);
  }
}
