/**
 * The character classes of the SON lexer (src/parser.cpp:147-152).
 * Characters are plain `char`s; no locale or Unicode classification is involved.
 */
module Chars {

  predicate IsAlpha(c: char) {
    ('a' <= c <= 'z') || ('A' <= c <= 'Z')
  }

  predicate IsDigit(c: char) {
    '0' <= c <= '9'
  }

  predicate IsNewline(c: char) {
    c == '\n' || c == '\r'
  }

  predicate IsSpace(c: char) {
    c == ' ' || c == '\t' || IsNewline(c)
  }

  predicate IsIdentHead(c: char) {
    IsAlpha(c) || c == '_'
  }

  /** Every character that may start an identifier may also continue it. */
  function IsIdentBody(c: char): (r: bool)
    ensures IsIdentHead(c) ==> r
    ensures r ==> !IsSpace(c) && c != '\0'
  {
    IsDigit(c) || IsAlpha(c) || c == '_'
  }

  /** The value of a decimal digit, `c - '0'` in the source. */
  function DigitValue(c: char): (d: nat)
    requires IsDigit(c)
    ensures d < 10
    ensures c == (('0' as int) + d) as char
  {
    (c as int) - ('0' as int)
  }
}
