/** The ASCII character classes shared by the regular expressions of the
    password indicator and the upper-casing of breadcrumb names. */
module Ascii {

  /** `[a-z]` */
  predicate IsLowerAscii(c: char) { 'a' <= c <= 'z' }
  /** `[A-Z]` */
  predicate IsUpperAscii(c: char) { 'A' <= c <= 'Z' }
  /** `\d`, the ASCII digits `[0-9]` */
  predicate IsDigitAscii(c: char) { '0' <= c <= '9' }
}
