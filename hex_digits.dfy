/**
 * Single hexadecimal digits: recognising them in either case, reading their
 * value and writing a value as a lower-case digit. Formatting writes lower
 * case; accepting lower-case digits when parsing is this model's choice.
 */
module HexDigits {

  predicate IsLowerHexDigit(ch: char) {
    ('0' <= ch <= '9') || ('a' <= ch <= 'f')
  }

  predicate IsHexDigit(ch: char) {
    IsLowerHexDigit(ch) || ('A' <= ch <= 'F')
  }

  /** ASCII lower-casing of one character; other characters are unchanged. */
  function ToLower(ch: char): (r: char)
    ensures IsHexDigit(ch) ==> IsLowerHexDigit(r)
    ensures !('A' <= ch <= 'Z') ==> r == ch
  {
    if 'A' <= ch <= 'Z' then (ch as int - 'A' as int + 'a' as int) as char else ch
  }

  /** The value of a hexadecimal digit, upper- or lower-case. */
  function DigitValue(ch: char): (d: nat)
    requires IsHexDigit(ch)
    ensures d < 16
  {
    if '0' <= ch <= '9' then ch as int - '0' as int
    else if 'a' <= ch <= 'f' then ch as int - 'a' as int + 10
    else ch as int - 'A' as int + 10
  }

  /** The lower-case digit for a value below 16. */
  function LowerDigit(d: nat): (ch: char)
    requires d < 16
    ensures IsLowerHexDigit(ch)
    ensures DigitValue(ch) == d
  {
    if d < 10 then (d + '0' as int) as char else (d - 10 + 'a' as int) as char
  }

  /** Upper- and lower-case spellings of a digit have the same value. */
  lemma DigitValueIgnoresCase(ch: char)
    requires IsHexDigit(ch)
    ensures DigitValue(ToLower(ch)) == DigitValue(ch)
  {
  }

  /** Writing back the value of a digit gives the digit in lower case. */
  lemma LowerDigitOfValue(ch: char)
    requires IsHexDigit(ch)
    ensures LowerDigit(DigitValue(ch)) == ToLower(ch)
  {
  }
}
