/** The character classes of the C library that the program and the emitted code use. */
module Characters {
  predicate IsDigit(c: char) { '0' <= c <= '9' }

  predicate IsLetter(c: char) { 'a' <= c <= 'z' || 'A' <= c <= 'Z' }

  predicate IsAlnum(c: char) { IsDigit(c) || IsLetter(c) }

  /** What may stand in a name; a name does not begin with a digit. */
  predicate IsNameChar(c: char) { IsAlnum(c) || c == '_' }

  predicate IsSpace(c: char) { c == ' ' || '\t' <= c <= '\r' }
}
