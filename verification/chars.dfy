/** The character classes the translator's regular expressions and `str` predicates use.
    Python's classes are Unicode-wide; the model covers ASCII and the Hangul syllable
    block, which are the scripts the translator itself singles out. */
module CharClasses {

  predicate IsDigit(c: char) {
    '0' <= c <= '9'
  }

  predicate IsAsciiUpper(c: char) {
    'A' <= c <= 'Z'
  }

  predicate IsAsciiLower(c: char) {
    'a' <= c <= 'z'
  }

  predicate IsAsciiLetter(c: char) {
    IsAsciiUpper(c) || IsAsciiLower(c)
  }

  /** The range `가-힣` (U+AC00 to U+D7A3). */
  predicate IsHangulSyllable(c: char) {
    0xAC00 <= c as int <= 0xD7A3
  }

  /** The class `[a-zA-Z가-힣]`, also used for `str.isalpha()`. */
  predicate IsLetter(c: char) {
    IsAsciiLetter(c) || IsHangulSyllable(c)
  }

  /** The regex class `\w`. */
  predicate IsWordChar(c: char) {
    IsLetter(c) || IsDigit(c) || c == '_'
  }

  /** `[A-Za-z_]`: the first character of an identifier. */
  predicate IsIdentStart(c: char) {
    IsAsciiLetter(c) || c == '_'
  }

  /** `[A-Za-z0-9_]`: the later characters of an identifier. */
  predicate IsIdentChar(c: char) {
    IsAsciiLetter(c) || IsDigit(c) || c == '_'
  }
}
