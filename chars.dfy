/**
 * The ASCII character classes that class names and integer literals are
 * read with: `[A-Z]`, `[a-z]` and `\d`.
 */
module Chars {

  predicate IsUpper(c: char) { 'A' <= c <= 'Z' }
  predicate IsLower(c: char) { 'a' <= c <= 'z' }
  predicate IsDigit(c: char) { '0' <= c <= '9' }
}
