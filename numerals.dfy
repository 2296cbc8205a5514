/** The Option datatype: None stands for JavaScript's NaN wherever parseInt can return it. */
module Wrappers {
  datatype Option<+T> = None | Some(value: T)
}

/**
 * Number parsing and formatting as the quiz uses it: powers of two, digit
 * accumulation as parseInt performs it, parseInt(text) on the typed answer,
 * and the decimal text that a template literal prints for an integer.
 */
module Numerals {
  import opened Wrappers

  function Pow2(n: nat): (r: nat)
    ensures r >= 1
  {
    if n == 0 then 1 else 2 * Pow2(n - 1)
  }

  predicate IsDigit(c: char) {
    '0' <= c <= '9'
  }

  /** The offset of c from '0': the value of a decimal digit. */
  function DigitValue(c: char): int {
    c as int - '0' as int
  }

  function DigitChar(d: nat): (c: char)
    requires d <= 9
    ensures IsDigit(c) && DigitValue(c) == d
  {
    ('0' as int + d) as char
  }

  predicate AllDigits(s: string) {
    forall i :: 0 <= i < |s| ==> IsDigit(s[i])
  }

  /**
   * The value parseInt accumulates in base 10 over the digits it accepts, most
   * significant first; it is only ever applied to a run of digits.
   */
  function DecimalValue(s: string): int {
    if s == [] then 0 else 10 * DecimalValue(s[..|s| - 1]) + DigitValue(s[|s| - 1])
  }

  /** The decimal digits of n, without leading zeros, as String(n) writes them. */
  function DecimalDigits(n: nat): (s: string)
    ensures |s| >= 1 && AllDigits(s)
    ensures DecimalValue(s) == n
    ensures s[0] == '0' ==> n == 0
  {
    if n < 10 then [DigitChar(n)]
    else
      var front := DecimalDigits(n / 10);
      var s := front + [DigitChar(n % 10)];
      assert s[..|s| - 1] == front;
      s
  }

  /**
   * The text `${v}` produces for an integer v of magnitude below 10^21 (beyond
   * that JavaScript switches to exponent notation; the quiz's answers lie
   * within 1023 of zero): a minus sign exactly for a negative v, then the
   * digits of its magnitude.
   */
  function FormatDecimal(v: int): (s: string)
    ensures |s| >= 1 && (s[0] == '-' <==> v < 0)
    ensures AllDigits(if v < 0 then s[1..] else s)
  {
    if v < 0 then "-" + DecimalDigits(-v) else DecimalDigits(v)
  }

  /** The characters parseInt skips before the number: WhiteSpace and LineTerminator of ECMAScript. */
  predicate IsJsWhitespace(c: char) {
    var k := c as int;
    k == 0x09 || k == 0x0A || k == 0x0B || k == 0x0C || k == 0x0D || k == 0x20
    || k == 0xA0 || k == 0x1680 || (0x2000 <= k <= 0x200A) || k == 0x2028 || k == 0x2029
    || k == 0x202F || k == 0x205F || k == 0x3000 || k == 0xFEFF
  }

  /** Drops the leading whitespace. */
  function TrimStart(s: string): string {
    if s != [] && IsJsWhitespace(s[0]) then TrimStart(s[1..]) else s
  }

  /** TrimStart removes a prefix of whitespace, and nothing else: what remains does not start with whitespace. */
  lemma {:induction false} TrimStartRemovesWhitespace(s: string)
    ensures |TrimStart(s)| <= |s| && TrimStart(s) == s[|s| - |TrimStart(s)|..]
    ensures forall i :: 0 <= i < |s| - |TrimStart(s)| ==> IsJsWhitespace(s[i])
    ensures TrimStart(s) != [] ==> !IsJsWhitespace(TrimStart(s)[0])
  {
    if s != [] && IsJsWhitespace(s[0]) {
      var t := TrimStart(s[1..]);
      TrimStartRemovesWhitespace(s[1..]);
      assert s[1..][|s| - 1 - |t|..] == s[|s| - |t|..];
      forall i | 0 < i < |s| - |t|
        ensures IsJsWhitespace(s[i])
      {
        assert s[i] == s[1..][i - 1];
      }
    }
  }

  /** The length of the longest prefix of s made of decimal digits. */
  function DigitPrefixLength(s: string): (k: nat)
    ensures k <= |s|
  {
    if s != [] && IsDigit(s[0]) then 1 + DigitPrefixLength(s[1..]) else 0
  }

  /** The prefix DigitPrefixLength measures is made of digits. */
  lemma {:induction false} DigitPrefixIsDigits(s: string)
    ensures AllDigits(s[..DigitPrefixLength(s)])
  {
    if s != [] && IsDigit(s[0]) {
      var k := DigitPrefixLength(s);
      DigitPrefixIsDigits(s[1..]);
      assert forall i :: 1 <= i < k ==> s[..k][i] == s[1..][..k - 1][i - 1];
    }
  }

  /**
   * parseInt(text) with no radix: skip leading whitespace, take an optional
   * sign, then the longest run of decimal digits; trailing text is ignored and
   * no digit at all gives NaN (None). The one exception: parseInt reads a "0x"
   * or "0X" after the sign as a hexadecimal prefix, which this function does
   * not; here "0x7" is 0 (parseInt: 7) and "0x" is 0 (parseInt: NaN).
   */
  function ParseDecimal(text: string): Option<int> {
    ParseSignedDigits(TrimStart(text))
  }

  /** parseInt's work after the whitespace: an optional sign, then the leading digits. */
  function ParseSignedDigits(t: string): Option<int> {
    var negative := t != [] && t[0] == '-';
    var body := if t != [] && (t[0] == '-' || t[0] == '+') then t[1..] else t;
    var k := DigitPrefixLength(body);
    if k == 0 then None
    else
      var magnitude := DecimalValue(body[..k]);
      Some(if negative then -magnitude else magnitude)
  }

  /** The digit prefix is maximal: the character after it, if any, is not a digit. */
  lemma {:induction false} DigitPrefixIsLongest(s: string)
    ensures DigitPrefixLength(s) < |s| ==> !IsDigit(s[DigitPrefixLength(s)])
  {
    if s != [] && IsDigit(s[0]) {
      DigitPrefixIsLongest(s[1..]);
    }
  }

  lemma {:induction false} DigitPrefixOfDigits(s: string)
    requires AllDigits(s)
    ensures DigitPrefixLength(s) == |s|
  {
    if s != [] {
      DigitPrefixOfDigits(s[1..]);
    }
  }

  /** Text made only of digits parses to their value. */
  lemma DigitsParse(digits: string)
    requires |digits| >= 1 && AllDigits(digits)
    ensures ParseSignedDigits(digits) == Some(DecimalValue(digits))
  {
    DigitPrefixOfDigits(digits);
    assert digits[..|digits|] == digits;
  }

  /** A minus sign followed by digits only parses to the negated value of the digits. */
  lemma NegatedDigitsParse(digits: string)
    requires |digits| >= 1 && AllDigits(digits)
    ensures ParseSignedDigits("-" + digits) == Some(-DecimalValue(digits))
  {
    DigitPrefixOfDigits(digits);
    assert digits[..|digits|] == digits;
    assert ("-" + digits)[1..] == digits;
  }

  /** The text printed for an integer parses back to that integer. */
  lemma FormatThenParse(v: int)
    ensures ParseDecimal(FormatDecimal(v)) == Some(v)
  {
    var t := FormatDecimal(v);
    assert t[0] == '-' || IsDigit(t[0]);
    assert TrimStart(t) == t;
    if v < 0 {
      NegatedDigitsParse(DecimalDigits(-v));
    } else {
      DigitsParse(DecimalDigits(v));
    }
  }

  /** Text without any digit, such as the empty answer, "abc" or a lone "-", is NaN. */
  lemma NoDigitsIsNaN(text: string)
    requires forall i :: 0 <= i < |text| ==> !IsDigit(text[i])
    ensures ParseDecimal(text) == None
  {
    TrimStartRemovesWhitespace(text);
    var t := TrimStart(text);
    if t != [] && (t[0] == '-' || t[0] == '+') {
      assert t[1..] == [] || t[1..][0] == text[|text| - |t| + 1];
    } else {
      assert t == [] || t[0] == text[|text| - |t|];
    }
  }
}
