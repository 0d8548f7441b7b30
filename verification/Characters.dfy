module Characters {
  /** `whitespace` */
  predicate IsWhitespace(c: char) { c == ' ' || c == '\t' }

  /** `fielddelim` */
  predicate IsBlank(c: char) { c == ' ' || c == '\t' || c == '\n' }

  predicate IsDigit(c: char) { '0' <= c <= '9' }
}
