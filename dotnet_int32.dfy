/**
  Explicit models of int.TryParse(string, out int) with the default number
  style, and of int.ToString(), for a culture whose signs are '+' and '-'.

  int.TryParse accepts: optional leading white space, an optional sign,
  one or more ASCII digits, optional trailing white space, and a value that
  fits in 32 bits. The white space allowed here is only U+0009..U+000D and
  the space, which is narrower than char.IsWhiteSpace.
*/
module DotNetInt32 {
  import opened Wrappers
  import opened DotNetText

  const Int32Min: int := -0x8000_0000
  const Int32Max: int := 0x7FFF_FFFF

  /** A C# int. */
  type Int32 = x: int | Int32Min <= x <= Int32Max

  /** The white space the integer number style allows around the number. */
  predicate IsParseWhite(c: char) {
    ('\t' <= c <= '\r') || c == ' '
  }

  predicate AllDigits(s: string) {
    forall i :: 0 <= i < |s| ==> IsDigit(s[i])
  }

  function DigitValue(c: char): nat
    requires IsDigit(c)
  {
    c as int - '0' as int
  }

  /** The value of a string of decimal digits, most significant first. */
  function DigitsValue(ds: string): nat
    requires AllDigits(ds)
  {
    if ds == [] then 0 else DigitsValue(ds[..|ds| - 1]) * 10 + DigitValue(ds[|ds| - 1])
  }

  /** The number style after the white space is removed: an optional sign
      followed by one or more digits, and a value in the 32-bit range. */
  function ParseSignedDigits(t: string): Option<Int32> {
    var negative := t != [] && t[0] == '-';
    var digits := if t != [] && (t[0] == '-' || t[0] == '+') then t[1..] else t;
    if digits == [] || !AllDigits(digits) then None
    else
      var v: int := if negative then 0 - DigitsValue(digits) else DigitsValue(digits);
      if Int32Min <= v <= Int32Max then Some(v) else None
  }

  /** int.TryParse: None where the C# call returns false. */
  function TryParseInt32(s: string): Option<Int32> {
    ParseSignedDigits(TrimBy(s, IsParseWhite))
  }

  function DigitChar(d: nat): (c: char)
    requires d < 10
    ensures IsDigit(c) && DigitValue(c) == d
  {
    ('0' as int + d) as char
  }

  /** The decimal digits of n, with no leading zero. */
  function NatToDecimal(n: nat): (s: string)
    ensures |s| > 0 && AllDigits(s)
    ensures s[0] == '0' ==> n == 0
  {
    if n < 10 then [DigitChar(n)] else NatToDecimal(n / 10) + [DigitChar(n % 10)]
  }

  /** int.ToString(): a '-' for a negative value, then the decimal digits. */
  function FormatInt(n: int): string {
    if n < 0 then "-" + NatToDecimal(-n) else NatToDecimal(n)
  }

  /** Reading back the digits that NatToDecimal writes gives the number. */
  lemma {:induction false} DigitsValueOfDecimal(n: nat)
    ensures DigitsValue(NatToDecimal(n)) == n
  {
    if n >= 10 {
      var s := NatToDecimal(n);
      assert s[..|s| - 1] == NatToDecimal(n / 10);
      DigitsValueOfDecimal(n / 10);
    }
  }

  /** int.ToString() never produces the same text for two different numbers. */
  lemma FormatIntInjective(m: int, n: int)
    requires FormatInt(m) == FormatInt(n)
    ensures m == n
  {
    if m < 0 && n < 0 {
      assert NatToDecimal(-m) == FormatInt(m)[1..] == FormatInt(n)[1..] == NatToDecimal(-n);
      DigitsValueOfDecimal(-m);
      DigitsValueOfDecimal(-n);
    } else if m >= 0 && n >= 0 {
      DigitsValueOfDecimal(m);
      DigitsValueOfDecimal(n);
    }
  }

  /** The sign and digits that int.ToString() writes are read back as the
      number when it fits in 32 bits, and refused when it does not. */
  lemma ParseSignedDigitsFormatted(n: int)
    ensures ParseSignedDigits(FormatInt(n)) == if Int32Min <= n <= Int32Max then Some(n) else None
  {
    DigitsValueOfDecimal(if n < 0 then -n else n);
    if n < 0 {
      assert FormatInt(n)[1..] == NatToDecimal(-n);
    }
  }

  /** int.TryParse reads back what int.ToString() writes, with any allowed
      white space around it; a number outside the 32-bit range is refused. */
  lemma ParseFormatted(w1: string, n: int, w2: string)
    requires AllDropped(w1, IsParseWhite) && AllDropped(w2, IsParseWhite)
    ensures TryParseInt32(w1 + FormatInt(n) + w2) == if Int32Min <= n <= Int32Max then Some(n) else None
  {
    var f := FormatInt(n);
    assert !IsParseWhite(f[0]) && !IsParseWhite(f[|f| - 1]);
    TrimByPadded(w1, f, w2, IsParseWhite);
    ParseSignedDigitsFormatted(n);
  }

  /** After the white space is removed, a character that is not a digit and
      not a leading sign makes the text no number. */
  lemma ForeignCharInNumber(t: string, j: nat)
    requires j < |t| && !IsDigit(t[j]) && (j > 0 || (t[j] != '-' && t[j] != '+'))
    ensures ParseSignedDigits(t) == None
  {
    if t[0] == '-' || t[0] == '+' {
      assert t[1..][j - 1] == t[j];
    }
  }

  /** A string holding a character that is neither allowed white space, a
      sign nor a digit is never a number. */
  lemma ForeignCharNotParsed(s: string, i: nat)
    requires i < |s| && !IsParseWhite(s[i]) && !IsDigit(s[i]) && s[i] != '-' && s[i] != '+'
    ensures TryParseInt32(s) == None
  {
    TrimByKeeps(s, IsParseWhite, i);
    ForeignCharInNumber(TrimBy(s, IsParseWhite), i - LeadingCount(s, IsParseWhite));
  }
}
