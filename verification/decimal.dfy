/** Base-10 text of integers: `strconv.FormatInt(i, 10)` for the storage key
    and `(*big.Int).String()` for the loan amount, with the parse that reads
    such text back. */
module Decimal {
  import opened Results
  import opened Numeric

  predicate IsDigit(c: char) {
    '0' <= c <= '9'
  }

  predicate AllDigits(s: string) {
    forall i :: 0 <= i < |s| ==> IsDigit(s[i])
  }

  function DigitChar(d: nat): (c: char)
    requires d < 10
    ensures IsDigit(c)
  {
    "0123456789"[d]
  }

  function DigitValue(c: char): (d: nat)
    requires IsDigit(c)
    ensures d < 10
  {
    c as int - '0' as int
  }

  function Pow10(n: nat): (r: nat)
    ensures r >= 1
  {
    if n == 0 then 1 else 10 * Pow10(n - 1)
  }

  /** The canonical decimal digits of a natural number: no sign and no
      leading zero, "0" for zero. `(*big.Int).String()` of a non-negative
      value; it never narrows, so any size of `n` is written out exactly. */
  function NatToDecimal(n: nat): (s: string)
    ensures 1 <= |s|
    ensures AllDigits(s)
    ensures s[0] == '0' ==> n == 0
    ensures n < Pow10(|s|)
  {
    if n < 10 then [DigitChar(n)]
    else
      var s := NatToDecimal(n / 10) + [DigitChar(n % 10)];
      assert s[0] == NatToDecimal(n / 10)[0];
      s
  }

  /** The number a string of decimal digits denotes, most significant first. */
  function DecimalValue(s: string): nat
    requires AllDigits(s)
  {
    if |s| == 0 then 0
    else 10 * DecimalValue(s[..|s| - 1]) + DigitValue(s[|s| - 1])
  }

  /** Reading the digits of a number back yields the number. */
  lemma {:induction false} DecimalRoundTrip(n: nat)
    ensures DecimalValue(NatToDecimal(n)) == n
  {
    if n >= 10 {
      var s := NatToDecimal(n);
      assert s[..|s| - 1] == NatToDecimal(n / 10);
      DecimalRoundTrip(n / 10);
    }
  }

  /** A digit string whose first digit is not zero denotes a positive number. */
  lemma {:induction false} LeadingDigitPositive(s: string)
    requires 1 <= |s| && AllDigits(s) && s[0] != '0'
    ensures DecimalValue(s) >= 1
  {
    if |s| > 1 {
      LeadingDigitPositive(s[..|s| - 1]);
    }
  }

  /** Writing out the value of a canonical digit string (no leading zero
      unless it is "0") gives the string back. */
  lemma {:induction false} DecimalOfValue(s: string)
    requires 1 <= |s| && AllDigits(s)
    requires s[0] == '0' ==> |s| == 1
    ensures NatToDecimal(DecimalValue(s)) == s
  {
    var init, last := s[..|s| - 1], s[|s| - 1];
    assert DigitChar(DigitValue(last)) == last;
    if |s| > 1 {
      assert init[0] == s[0];
      LeadingDigitPositive(init);
      DecimalOfValue(init);
      var v := DecimalValue(s);
      assert v / 10 == DecimalValue(init);
      assert v % 10 == DigitValue(last);
      assert s == init + [last];
    }
  }

  /** `strconv.FormatInt(i, 10)`: a minus sign for negative values, then the
      decimal digits of the magnitude. */
  function FormatInt(i: int): (s: string)
    ensures 1 <= |s|
    ensures s[0] == '-' <==> i < 0
    ensures i < 0 ==> 2 <= |s| && AllDigits(s[1..]) && -i < Pow10(|s| - 1)
    ensures i >= 0 ==> AllDigits(s) && i < Pow10(|s|)
  {
    if i < 0 then
      var s := "-" + NatToDecimal(-i);
      assert s[1..] == NatToDecimal(-i);
      s
    else NatToDecimal(i)
  }

  /** The inverse of FormatInt: an optional minus sign followed by at least one
      digit; anything else is rejected. */
  function ParseInt(s: string): (r: Option<int>)
    ensures r.Some? ==> 1 <= |s|
  {
    if |s| >= 2 && s[0] == '-' && AllDigits(s[1..]) then
      var magnitude: int := DecimalValue(s[1..]);
      Some(-magnitude)
    else if |s| >= 1 && AllDigits(s) then Some(DecimalValue(s))
    else None
  }

  /** The decimal text of `n`, with or without a minus sign, parses back to
      `n` or `-n`. */
  lemma ParseDecimal(n: nat)
    ensures ParseInt(NatToDecimal(n)) == Some(n)
    ensures ParseInt("-" + NatToDecimal(n)) == Some(-(n as int))
  {
    var digits := NatToDecimal(n);
    DecimalRoundTrip(n);
    assert ("-" + digits)[1..] == digits;
  }

  /** Parsing the text of an integer gives the integer back. */
  lemma FormatIntRoundTrip(i: int)
    ensures ParseInt(FormatInt(i)) == Some(i)
  {
    var magnitude: nat := if i < 0 then -i else i;
    var digits := NatToDecimal(magnitude);
    ParseDecimal(magnitude);
    assert FormatInt(i) == if i < 0 then "-" + digits else digits;
  }

  /** Distinct integers have distinct texts, so a decimal key names one index. */
  lemma FormatIntInjective(i: int, j: int)
    requires FormatInt(i) == FormatInt(j)
    ensures i == j
  {
    FormatIntRoundTrip(i);
    FormatIntRoundTrip(j);
  }

  /** A string of 7-bit characters. */
  predicate IsAscii(s: string) {
    forall i :: 0 <= i < |s| ==> s[i] as int < 128
  }

  /** `[]byte(s)` for an ASCII string: one byte per character, equal to its code. */
  function AsciiBytes(s: string): (b: seq<byte>)
    requires IsAscii(s)
    ensures |b| == |s|
    ensures forall i :: 0 <= i < |b| ==> b[i] < 128
  {
    seq(|s|, i requires 0 <= i < |s| => s[i] as int)
  }

  /** The text `[]byte` holds when every byte is below 128: one character per byte. */
  function AsciiText(b: seq<byte>): (s: string)
    ensures |s| == |b|
  {
    seq(|b|, i requires 0 <= i < |b| => b[i] as char)
  }

  /** Reading ASCII bytes back as text gives the original string. */
  lemma AsciiTextOfBytes(s: string)
    requires IsAscii(s)
    ensures AsciiText(AsciiBytes(s)) == s
  {
  }

  /** The text of every integer is ASCII, so its bytes are well defined. */
  lemma FormatIntIsAscii(i: int)
    ensures IsAscii(FormatInt(i))
  {
  }
}
