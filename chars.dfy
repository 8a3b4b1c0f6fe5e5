/** Character classes used by the tweet cleaner: the bracket class of the
    cleaning pattern, Python's whitespace, and Python's Unicode word class. */
module Chars {

  /** `[A-Za-z0-9]`: an ASCII letter or digit. */
  predicate IsAsciiAlnum(c: char) {
    'a' <= c <= 'z' || 'A' <= c <= 'Z' || '0' <= c <= '9'
  }

  /** `[0-9A-Za-z \t]`: the characters the cleaning pattern's negated class lets through. */
  predicate IsKept(c: char) {
    IsAsciiAlnum(c) || c == ' ' || c == '\t'
  }

  /** Python's whitespace (what `str.split()` splits on and what the regex `\s` matches):
      `str.isspace`, listed by code point. */
  predicate IsWhitespace(c: char) {
    var n := c as int;
    (9 <= n <= 13) || (28 <= n <= 32) || n == 0x85 || n == 0xA0 || n == 0x1680
    || (0x2000 <= n <= 0x200A) || n == 0x2028 || n == 0x2029 || n == 0x202F
    || n == 0x205F || n == 0x3000
  }

  /** Which characters outside ASCII Python's Unicode database calls letters or
      digits. The database is not part of this model, so it is a parameter. */
  type WordOracle = char -> bool

  /** The regex class `\w` for a `str` pattern: ASCII letters, digits and `_`, plus
      the non-ASCII characters the oracle calls alphanumeric (never whitespace). */
  predicate IsWordChar(nonAscii: WordOracle, c: char) {
    IsAsciiAlnum(c) || c == '_' || (c as int >= 128 && !IsWhitespace(c) && nonAscii(c))
  }
}
