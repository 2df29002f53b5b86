/**
 * Character classes used by the app's regular expressions and by `str.strip()`.
 *
 * Word characters, decimal digits and case folding are the ASCII ones; whitespace
 * is the full set of characters Python's `str.isspace()` (and the `\s` class of a
 * `str` pattern) accepts.
 */
module CharClass {

  predicate IsAsciiUpper(c: char) { 'A' <= c <= 'Z' }

  predicate IsAsciiLower(c: char) { 'a' <= c <= 'z' }

  predicate IsAsciiLetter(c: char) { IsAsciiUpper(c) || IsAsciiLower(c) }

  /** The `\d` class: a decimal digit. */
  predicate IsDigit(c: char) { '0' <= c <= '9' }

  /** The `\w` class: a letter, a digit or the underscore. `\b` is defined in terms of it. */
  predicate IsWordChar(c: char) { IsAsciiLetter(c) || IsDigit(c) || c == '_' }

  /**
   * The `\s` class and the characters `str.strip()` removes: general category Zs
   * or bidirectional class WS, B or S in the Unicode character database.
   */
  predicate IsSpace(c: char) {
    || '\t' <= c <= '\r'                       // tab, line feed, vertical tab, form feed, carriage return
    || '\U{1C}' <= c <= '\U{1F}'               // file, group, record and unit separators
    || c == ' '
    || c == '\U{85}'                           // next line
    || c == '\U{A0}'                           // no-break space
    || c == '\U{1680}'
    || '\U{2000}' <= c <= '\U{200A}'
    || c == '\U{2028}' || c == '\U{2029}'      // line and paragraph separators
    || c == '\U{202F}' || c == '\U{205F}' || c == '\U{3000}'
  }

  /** The case folding `re.IGNORECASE` applies before comparing two characters. */
  function Lower(c: char): char {
    if IsAsciiUpper(c) then (c as int + 32) as char else c
  }

  /** The numeric value of a decimal digit, as `int()` reads it. */
  function DigitValue(c: char): (d: nat)
    requires IsDigit(c)
    ensures d < 10
  {
    c as int - '0' as int
  }

}
