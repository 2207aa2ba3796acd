/** The C library's <ctype.h> classifiers that src/lexer.c calls (it includes
    the system header, not include/ctype.h), in the "C" locale: bytes above
    127 belong to no class. */
module LibCType {
  import opened CType

  /** `isspace`: blank and the five control bytes from tab to carriage return. */
  predicate StdIsSpace(c: Byte) {
    c == ' ' as int || '\t' as int <= c <= '\r' as int
  }

  /** `isdigit`. */
  predicate StdIsDigit(c: Byte) {
    '0' as int <= c <= '9' as int
  }

  /** `isalpha`. */
  predicate StdIsAlpha(c: Byte) {
    ('a' as int <= c <= 'z' as int) || ('A' as int <= c <= 'Z' as int)
  }

  /** `isalnum`. */
  predicate StdIsAlnum(c: Byte) {
    StdIsAlpha(c) || StdIsDigit(c)
  }

  /** The library `isspace` also counts vertical tab (11) and form feed (12), which the
      project's `_isspace` does not. */
  lemma StdSpaceAddsVtabFormfeed(c: Byte)
    ensures StdIsSpace(c) <==> IsSpace(c) || c == 11 || c == 12
  {
  }

  /** The library `isdigit` and the project's `_isdigit` agree. */
  lemma StdDigitAgrees(c: Byte)
    ensures StdIsDigit(c) <==> IsDigit(c)
  {
  }

  /** The lexer's identifier-start test `isalpha(c) || c == '_'` is the
      project's `_isnondigit`. */
  lemma IdentifierStartIsNonDigit(c: Byte)
    ensures StdIsAlpha(c) || c == '_' as int <==> IsNonDigit(c)
  {
  }
}
