/**
 * Approximations of the regular-expression character classes the spider uses.
 * Python 3 matches these classes over all of Unicode; these take the ASCII
 * letters, digits and the six common whitespace characters only.
 */
module Chars {
  /** `\w`: ASCII letters, digits and the underscore. */
  predicate IsWord(c: char) {
    ('a' <= c <= 'z') || ('A' <= c <= 'Z') || ('0' <= c <= '9') || c == '_'
  }

  /** `\d`: the ASCII decimal digits. */
  predicate IsDigit(c: char) {
    '0' <= c <= '9'
  }

  /**
   * `\s`, and what `str.strip()` removes, approximated by space, tab, newline,
   * carriage return, vertical tab and form feed. Python also counts the ASCII
   * separators `\x1c`-`\x1f` and Unicode spaces such as `\x85` and `\xa0`.
   */
  predicate IsSpace(c: char) {
    c == ' ' || c == '\t' || c == '\n' || c == '\r' || c == '\U{B}' || c == '\U{C}'
  }
}
