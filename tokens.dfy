/** Token kinds (src/tokens.h), the token record (src/lexer.h) and the
    kind-to-name lookup `lex_type_repr` (src/lexer.c). */
module Tokens {
  import opened CType

  /** A `LexType` value. Kinds are numbered in the order src/tokens.h lists
      them, which is also the order of the name table `lex_type_repr` uses. */
  type LexType = int

  const PLUSPLUS: LexType := 0
  const EQUAL: LexType := 8
  const LESS: LexType := 20
  const LESS_EQ: LexType := 22
  const INTEGER: LexType := 41
  const NUMBER: LexType := 42
  const STRING: LexType := 43
  const CHAR: LexType := 44
  const IDENTIFIER: LexType := 45
  const KEYWORD: LexType := 46
  /** The number of real kinds; it is itself the last entry of the list. */
  const LexTypeLen: LexType := 47

  /** `lex_type_repr_lookup`: one name per entry of src/tokens.h, including
      the closing `LexTypeLen` entry. */
  const LexTypeNames: seq<string> := [
    "PLUSPLUS", "LESSLESS", "LPAREN", "RPAREN", "LBRACKET", "RBRACKET",
    "LBRACE", "RBRACE", "EQUAL", "STAR", "PLUS", "MINUS",
    "PIPE", "AMPERSAND", "AND", "OR", "BANG", "EQUAL_EQUAL",
    "NOT_EQUAL", "GREATER", "LESS", "GREATER_EQ", "LESS_EQ", "BACKSLASH",
    "QUESTION", "CARET", "QUOTE", "COMMA", "AT", "HASH",
    "UNDERSCORE", "DOLLAR", "DOT", "BACKTICK", "TILDE", "PERCENT",
    "SLASH", "DEL", "APOSTROPHE", "COLON", "SEMICOLON", "INTEGER",
    "NUMBER", "STRING", "CHAR", "IDENTIFIER", "KEYWORD", "LexTypeLen"]

  /** `lex_type_repr`: the name of a kind, or "LexTypeOOB" when the value is
      not a kind. */
  function LexTypeRepr(t: int): (r: string)
    ensures t < 0 || t >= LexTypeLen ==> r == "LexTypeOOB"
    ensures 0 <= t < LexTypeLen ==> r == LexTypeNames[t]
  {
    if t < 0 || t >= LexTypeLen then "LexTypeOOB" else LexTypeNames[t]
  }

  /** The payload union of a `Lex` record. A double for NUMBER is kept as the
      two integers the lexer computes it from (see the lexer). */
  datatype Payload =
    | Text(text: seq<Byte>)
    | Integer(i: int)
    | Number(whole: int, fraction: int)
    | Char(c: Byte)

  /** A `Lex` record without its link: kind, payload, 1-based line and column. */
  datatype Token = Token(kind: LexType, payload: Payload, line: int, offset: int)

  /** An entry of `lex_def_table`: a literal and the kind it produces. */
  datatype LexDef = LexDef(str: seq<Byte>, kind: LexType)
}
