# A verified model of the `cc` lexer

This project models the hand-written lexer of a small C compiler. The lexer
turns a NUL-terminated byte buffer into a linked list of tokens. Each token
has a kind, a payload, a 1-based line and a 1-based column. The model also
covers two helpers from the compiler's own libc headers: the byte
classifiers of `include/ctype.h` and `strndup` of `include/string.h`.

Modules:

- `CType` (ctype.dfy): the `Byte` type, NUL-terminated buffers, and the
  project's `_isspace`, `_isdigit`, `_ishexdigit`, `_isnondigit` and
  `_isunichar` as predicates.
- `LibCType` (libc_ctype.dfy): the standard `<ctype.h>` calls that
  `lexer.c` actually makes (`isspace`, `isdigit`, `isalpha`, `isalnum`),
  read in the "C" locale. They are related to the project's own
  classifiers.
- `CStrings` (strings.dfy): `strndup` as a method over arrays. It is proved
  against `CopyLength`, the number of bytes it copies.
- `Tokens` (tokens.dfy):
  - the token kinds, numbered as `src/tokens.h` lists them,
  - the name lookup `lex_type_repr`,
  - the token record,
  - the lexeme-table entry.
- `TokenStream` (token_list.dfy): the sentinel-headed list of records that
  `lexer` extends through its tail pointer, as a class over linked nodes.
- `LexerSpec` (lexer_spec.dfy): what the lexer computes, as functions.
  - One function for each helper: `ParseChar`, `NumEnd`/`NumValue`,
    `IdentEnd`, `FirstMatch`, `SkipSpace` and `StringBody`.
  - `Step` is one pass through the loop body.
  - `Run`/`Lex` are the whole scan.
- `Lexer` (lexer.dfy): the C code's loops as methods. Each is proved to
  compute its `LexerSpec` function. They are:
  - `ParseNum` and `ParseIdentifier`,
  - the table loop `MatchTable`,
  - the whitespace loop `SkipBlanks`,
  - the string loop `ScanStringBody`, with its doubling buffer,
  - one pass, `ScanOne`,
  - the goto-driven main loop `Lex`, which appends to a `TokenList`.
- `LexerProps` (lexer_props.dfy): properties of the scan.
  - Token positions and source order.
  - Round trips for numbers and string literals.
  - Char literals.
  - Table-order dispatch.
  - How the scan ends.

Modelling choices:

- `lex_def_table` comes from a header that is not part of this model, so it
  is a parameter. Each entry has a non-empty literal with no NUL and a kind
  in range. An empty literal would match everywhere and consume nothing.
- The lexer's C code can go wrong in two ways, and each is an explicit
  status of the scan:
  - It reads past the terminating NUL. This happens in the string loop,
    which has no NUL check, and in `parse_char` after a backslash or a
    quote at the end. The status is `Overrun(at)`.
  - It spins forever without consuming anything. This happens on a `'`
    inside a string literal. The status is `Hang(at)`.
- What `report` prints is kept as a `Diagnostic` record, in order.

The code differs from what one might expect of a C lexer. The model follows
the code:

- Table matching is first match in table order, with no longest-match rule
  and no word-boundary check. See `FirstEntryWinsOverLongest` and
  `KeywordPrefixSplitsIdentifier`.
- The dispatch order is number, string, char, table, identifier, unknown
  byte.
- Identifiers take no universal-character-name escapes.
- Recovery is a plain jump back to the loop head. After an unterminated
  string the scan resumes at the newline. After an unknown byte it resumes
  one byte on.
- `isspace` is the C library's, which also skips vertical tab and form
  feed.
- A raw newline inside a char literal becomes the char's byte and is not
  counted as a line.

## Model

| member | source | states |
|---|---|---|
| Tokens.LexTypeRepr | src/lexer.c:17-22 | Out-of-range kinds give "LexTypeOOB". Every other kind gives its name from the tokens.h list. |
| TokenStream.Node.constructor | src/lexer.c:149-153 | A new record holds its token and has no successor (the zeroed `calloc` record). |
| TokenStream.TokenList.constructor | src/lexer.c:173-174 | The list starts as the sentinel alone: a valid list with no tokens, allocated fresh. |
| TokenStream.TokenList.Append | src/lexer.c:102-111 | Linking a new record after the tail adds exactly that token at the end. The list stays valid, and the only new objects are fresh. |
| LexerSpec.ParseChar | src/lexer.c:48-66 | A backslash and one of `a b f n r t v` gives the control byte and advances 2. A `'` gives 0 and does not advance. A backslash and `'` advances 1 and gives 0. A backslash and any other byte gives that byte and advances 2. Any other byte gives itself and advances 1. The cursor does not move exactly when it is on a `'`. |
| LexerSpec.NumEnd | src/lexer.c:86-100 | The cursor after `parse_num` stays inside the buffer. It moves when the first byte is a digit. |
| LexerSpec.NumEndSpec | src/lexer.c:86-100 | `parse_num` stops at a byte that is not a digit. It starts and ends on a digit. Every byte it takes is a digit or a `_` between two digits, and it never stops just before such a `_`. |
| LexerSpec.StripSpec | src/lexer.c:96-97 | No `_` is left after stripping. From digits and separators only digits remain. |
| LexerSpec.StripByte | src/lexer.c:96-97 | Stripping one byte drops it when it is `_` and keeps it otherwise. |
| LexerSpec.StripConcat | src/lexer.c:91-97 | Stripping works byte by byte: stripping `u + v` is stripping `u`, then `v`. With `StripByte`, this means every byte other than `_` is kept, in order. |
| LexerSpec.DecimalBound | src/lexer.c:89-94 | k digits give a value from 0 up to but not including 10^k. |
| LexerSpec.EighteenDigitsFitLong | src/lexer.c:86-99 | At most 18 digits give a value below 2^63, so it fits the signed `long` that `parse_num` returns. |
| LexerSpec.NumValue | src/lexer.c:89-97 | The value `parse_num` returns for the bytes it consumed: the decimal value of its digits, with the `_` separators left out. |
| LexerSpec.NumValueDigit | src/lexer.c:92-93 | Another digit multiplies the value by 10 and adds the digit. |
| LexerSpec.NumValueSeparator | src/lexer.c:96-97 | A skipped `_` leaves the value unchanged. |
| LexerSpec.IdentEnd | src/lexer.c:79-82 | The identifier scan stays inside the buffer. It takes at least one byte when the first byte is alphanumeric or `_`. |
| LexerSpec.IdentEndSpec | src/lexer.c:74-84 | The identifier run is maximal: every byte taken is alphanumeric or `_`, and the byte after it is not. |
| LexerSpec.Matches | src/lexer.c:254-255 | `strncmp` over the literal's `strlen` bytes returns 0: the literal is a prefix of the input at the cursor. |
| LexerSpec.FirstMatch | src/lexer.c:253-261 | A found entry is in the table, and its literal is a prefix of the input at the cursor. |
| LexerSpec.FirstMatchSpec | src/lexer.c:253-261 | The found entry is the first one in table order that matches. Nothing is found only when no entry matches. |
| LexerSpec.SkipSpace | src/lexer.c:184-190 | Skipping whitespace moves forward and stays in the buffer. The line start stays at or before the cursor. |
| LexerSpec.SkipSpaceSpec | src/lexer.c:184-190 | Whitespace skipping stops at the first byte that is not space. The line count grows by the number of newlines skipped. The line start is just after the last of them, or unchanged if there were none. |
| LexerSpec.StringBody | src/lexer.c:214-221 | The string loop ends inside the buffer, or exactly one byte past it when it overruns. |
| LexerSpec.StringBodySpec | src/lexer.c:214-223 | A closed string ends at a `"`, and its text extends what was decoded before by at most one byte per byte read. An unterminated one ends at a newline. A stuck one ends at a `'`. |
| LexerSpec.Step | src/lexer.c:192-284 | Each pass that does not stop the scan consumes at least one byte and stays in the buffer. |
| LexerSpec.Run | src/lexer.c:182-284 | The scan from a cursor makes at most one token or diagnostic per remaining byte. |
| LexerSpec.Lex | src/lexer.c:168-285 | A whole scan makes at most one token or diagnostic per input byte. |
| Lexer.ParseNum | src/lexer.c:86-100 | The loop leaves the cursor at `NumEnd` and returns `NumValue` of the bytes it consumed. |
| Lexer.ParseIdentifier | src/lexer.c:74-84 | It returns the original start and the count of bytes taken, and the cursor ends at `IdentEnd`. |
| Lexer.MatchTable | src/lexer.c:253-261 | The loop returns the index `FirstMatch` picks, or none. |
| Lexer.ScanStringBody | src/lexer.c:209-231 | The loop with a doubling buffer (count < capacity throughout, so the terminator write is in bounds) returns exactly `StringBody`: the decoded text, or where it stops. |
| Lexer.SkipBlanks | src/lexer.c:184-190 | The whitespace loop leaves the cursor, line count and line start at `SkipSpace`. |
| Lexer.ScanOne | src/lexer.c:192-284 | One pass through the branches, in their order, gives exactly `Step`. |
| Lexer.Lex | src/lexer.c:168-285 | The goto loop returns a valid fresh token list. Its tokens, diagnostics and final status are exactly `LexerSpec.Lex`. |
| LexerProps.StepTokenPosition | src/lexer.c:192-204 | A token is stamped with the current line and the column `lexoffset - linestart + 1` of the byte its pass started at. |
| LexerProps.TokenStarts | src/lexer.c:182-192 | The cursor each token's pass starts at, once the whitespace loop is done, one per token. |
| LexerProps.Blanks | src/lexer.c:182-190 | For each token, the bytes the whitespace loop consumed before it. |
| LexerProps.SkipLine | src/lexer.c:184-190 | The whitespace loop never lowers the line count. When it counts no line, it leaves the line start alone. |
| LexerProps.TokenStartsStamp | src/lexer.c:192-204 | Each token carries the line of its pass's start and the column `lexoffset - linestart + 1`. That start is on a byte that is not space. |
| LexerProps.TokenStartsWithin | src/lexer.c:182-192 | Every token start is at or after the cursor the scan began at. Its line start is the same or just after a newline in between, and its line is no lower. |
| LexerProps.TokenStartsOrdered | src/lexer.c:182-284 | Token starts move strictly forward in the buffer. Each is within the scan from the one before it. |
| LexerProps.BlanksCountLines | src/lexer.c:184-192 | Each token's line is the starting line plus the newlines among the bytes the whitespace loop consumed before it. |
| LexerProps.BlanksAreSpace | src/lexer.c:184-190 | Those bytes are all `isspace` bytes. |
| LexerProps.RunTokenPositions | src/lexer.c:178-192 | The tokens scanned from a cursor are on its line or later, each with a column of at least 1. Each is strictly before the next in (line, column) order. |
| LexerProps.LexTokenPositions | src/lexer.c:168-204 | The tokens `lexer` returns are strictly in (line, column) order. Each token's line is 1 plus the newlines among the space bytes skipped before it. Its column counts from the buffer's start, or from just after a newline, to the first byte of the token, which is not space. |
| LexerProps.NoMatchAtEnd | src/lexer.c:253-261 | No table literal matches at the terminating NUL. |
| LexerProps.RunAtEnd | src/lexer.c:278-284 | A scan at the terminating NUL adds nothing and finishes. |
| LexerProps.StepFinishedAtNul | src/lexer.c:278-284 | A pass ends the scan normally exactly when it starts on a NUL byte. |
| LexerProps.StepInteger | src/lexer.c:193-205 | A digit run not followed by `.` and a digit is one INTEGER token holding `parse_num`'s value, and the cursor moves past the run. |
| LexerProps.DecimalRoundTrip | src/lexer.c:89-94 | Reading back the decimal digits of any natural number gives that number. |
| LexerProps.NumEndOfDigits | src/lexer.c:91-98 | A run of plain digits ends `parse_num` at the first byte that is neither a digit nor `_`. |
| LexerProps.NumOfDecimalString | src/lexer.c:86-100 | `parse_num` over the printed digits of any natural number returns that number and stops just after them. |
| LexerProps.LexInteger | src/lexer.c:193-205 | Any natural number written in decimal lexes to exactly one INTEGER token at 1:1 holding it. |
| LexerProps.SeparatedThousand | src/lexer.c:96-97 | `1_000` lexes to the single INTEGER 1000. |
| LexerProps.DecimalPoint | src/lexer.c:195-201 | `3.14` lexes to one NUMBER token made of the parts 3 and 14. |
| LexerProps.StringBodyEscapedByte | src/lexer.c:214-221 | One escaped byte other than `'` is decoded back to itself in one round. On a `'` the loop is stuck. |
| LexerProps.StringBodyOfEscape | src/lexer.c:214-221 | Any text without `'`, written with `"`, `\` and newline escaped, is decoded back whole. The loop stops at the closing quote. |
| LexerProps.StringBodyOfEscapeWithQuote | src/lexer.c:64 | A `'` anywhere in a string body leaves the loop stuck on a byte it never consumes. |
| LexerProps.LexString | src/lexer.c:209-234 | Any text without `'`, written as a string literal, lexes to exactly one STRING token holding that text. |
| LexerProps.LexStringWithQuoteHangs | src/lexer.c:214-221 | A string literal containing `'` never ends. No token is produced, and the scan stops with `Hang`. |
| LexerProps.ParseCharIntended | src/lexer.c:48-66 | The intended `parse_char` inside strings always advances. It keeps the escapes, and a backslash never steps over a NUL. |
| LexerProps.StringBodyIntended | src/lexer.c:214-222 | The intended string loop is never stuck and never reads past the buffer. It ends inside it at the quote, a newline or a NUL. |
| LexerProps.StringBodyIntendedEscapedByte | src/lexer.c:214-221 | With the intended `parse_char`, every escaped byte except NUL, `'` included, is decoded in one round. |
| LexerProps.StringBodyIntendedOfEscape | src/lexer.c:214-221 | With the intended `parse_char`, every NUL-free text written as a literal is decoded back whole, `'` included. |
| LexerProps.UnterminatedStringRecovers | src/lexer.c:215-229 | `"ab` NL `c` gives one invalid-string diagnostic at 1:1. The scan then resumes at the newline and yields the identifier `c` at 2:1. |
| LexerProps.UnterminatedStringOverruns | src/lexer.c:214-221 | `"a` at the end of the input is read past the terminating NUL. |
| LexerProps.LexChar | src/lexer.c:236-250 | A plain byte between single quotes is one CHAR token holding it. `'''` starts with a CHAR holding 0. |
| LexerProps.LexEscapedChar | src/lexer.c:236-250 | An escape letter between single quotes is one CHAR token holding its control byte. |
| LexerProps.NoMatchLeadingByte | src/lexer.c:253-261 | No entry matches where no literal starts with the byte at the cursor. |
| LexerProps.KeywordPrefixSplitsIdentifier | src/lexer.c:253-276 | With `if` in the table, `iffy` lexes as KEYWORD `if` at 1:1 and then IDENTIFIER `fy` at 1:3, because there is no word-boundary check. |
| LexerProps.FirstEntryWinsOverLongest | src/lexer.c:253-261 | With `<`, `<=` and `=` in that order, `<=` lexes as `<` then `=`: table order wins over the longest match. |
| LexerProps.NewlineRestartsColumns | src/lexer.c:184-192 | `a` NL ` b` gives `a` at 1:1 and `b` at 2:2. |
| LexerProps.RawNewlineInCharKeepsLine | src/lexer.c:236-250 | A raw newline between single quotes is the CHAR's byte and does not count a line, so a following identifier is still on line 1. |
| LexerProps.UnknownByteReported | src/lexer.c:278-282 | A byte no branch takes is reported once and skipped, and the scan finishes. |
| CType.IsSpace | include/ctype.h:3-7 | `_isspace`: true exactly for space, `\t`, `\n` and `\r`. |
| CType.IsDigit | include/ctype.h:9-13 | `_isdigit`: true exactly for `0`-`9`. |
| CType.IsHexDigit | include/ctype.h:15-21 | `_ishexdigit` as written: true for `0`-`9` and for every ASCII letter. |
| CType.IsNonDigit | include/ctype.h:23-29 | `_isnondigit`: true exactly for `_` and the ASCII letters. |
| LibCType.StdSpaceAddsVtabFormfeed | include/ctype.h:3-7 | The library `isspace` the lexer calls is the project's `_isspace` (space, `\t`, `\n`, `\r`) plus vertical tab and form feed. |
| LibCType.StdDigitAgrees | include/ctype.h:9-13 | The library `isdigit` and `_isdigit` agree on every byte (`0`-`9`). |
| LibCType.IdentifierStartIsNonDigit | include/ctype.h:23-29 | The lexer's identifier-start test (`isalpha` or `_`) is exactly `_isnondigit`. |
| CType.HexDigitCoversDigit | include/ctype.h:9-21 | Every `_isdigit` byte is an `_ishexdigit` byte. |
| CType.NonDigitExcludesDigit | include/ctype.h:9-29 | No byte is both `_isnondigit` and `_isdigit`. |
| CType.HexRun | include/ctype.h:38-40 | The digit loop of `_isunichar` is true exactly when the next n bytes are all `_ishexdigit` before the terminator. |
| CType.IsUniChar | include/ctype.h:31-47 | True exactly for a backslash, then `u` or `U`, then four `_ishexdigit` bytes. |
| CType.UniCharReadsSixBytes | include/ctype.h:31-47 | The answer depends only on the first six bytes. |
| CType.HexDigitAcceptsG | include/ctype.h:15-21 | As written, `_ishexdigit('g')` holds, though `g` is not a hexadecimal digit. |
| CType.HexDigitIntendedIsHexDigits | include/ctype.h:15-21 | The intended test holds exactly for 0-9, a-f and A-F. |
| CType.HexRunIntended | include/ctype.h:38-44 | The intended digit loop is true exactly when the next n bytes are hexadecimal digits. |
| CType.IsUniCharIntended | include/ctype.h:41-44 | Intended: `\u` with four hex digits, or `\U` with eight. |
| CType.UniCharShortU | include/ctype.h:41-44 | As written, `\U1234` is accepted, though `\U` needs eight digits. |
| CStrings.CopyLength | include/string.h:13-15 | The copied length is at most `size`. No NUL lies before it. It equals `size` or falls on the first NUL: min(size, index of the first NUL). |
| CStrings.CopyLengthUnique | include/string.h:13-16 | Any length with those properties is the copied length. |
| CStrings.CopyLengthIgnoresTail | include/string.h:13 | Bytes of `src` at `size` and beyond do not affect the copy. |
| CStrings.StrNDup | include/string.h:8-18 | The result is a fresh buffer of `size + 1` bytes. Its first `CopyLength` bytes equal `src`'s, followed by a NUL. Every write is in bounds. |

## Left out

- Lexer.ScanOne: a NUMBER token keeps the integer part and the value of the
  fraction digits, not the `double` built with `pow` and `log10`. Floating
  point is not modelled, and `log10(0)` (as in `1.0`) is undefined.
- Lexer.ParseNum: the value is an unbounded integer. A value above
  LONG_MAX (2^63 - 1) overflows the signed `long`, which is undefined
  behaviour in C, and this is not modelled. Such a value needs at least 19
  digits: `EighteenDigitsFitLong` shows that 18 digits always fit.
- Lexer.Lex: where the C code reads past the terminating NUL or loops
  forever, the model stops with `Overrun` or `Hang` instead. The
  out-of-bounds reads themselves and the endless `realloc` growth are not
  modelled.
- Lexer.Lex: the lexeme table is a parameter with non-empty, NUL-free
  literals. Its header is not part of this model.
- Lexer.Lex: `report` output is kept as `Diagnostic` records. The printing
  is not modelled (`_report`, `printf`, the `%*s` excerpt).
- Tokens.LexTypeRepr: the names come from the order of the kind list. That
  each name is distinct is not stated.
- `lex_free`, `lex_new`'s allocation failure, and the memory leaked when a
  string is invalid are left out. Heap ownership is not modelled beyond
  freshness.
- `check_tables_integrity` is left out. It does nothing at run time.
- The `parse_string` stub is left out. Nothing calls it.
- `lex_print` and the other printing helpers are left out. They are output
  only.
- `src/main.c` (file input, arguments), `src/parser.c` (a stub) and
  `include/assert.h` are not part of this model.
- `src/lexer.h` declares a kind enum that differs from `src/tokens.h`.
  Kinds here follow `src/tokens.h`, whose list includes STRING and CHAR.
- The standard `<ctype.h>` calls are read in the "C" locale. Bytes above
  127 are in no class.

## Findings

| source | as written | input that shows it | evidently intended | confidence | as-written member | corrected member |
|---|---|---|---|---|---|---|
| include/ctype.h:15-21 | `_ishexdigit` accepts every ASCII letter | `g` | only 0-9, a-f and A-F | high; not executed | CType.HexDigitAcceptsG | CType.HexDigitIntendedIsHexDigits |
| include/ctype.h:41-44 | `\U` is checked for four hex digits, like `\u` | `\U1234` then NUL | `\U` followed by eight hex digits | high; not executed | CType.UniCharShortU | CType.IsUniCharIntended |
| src/lexer.c:214-221 | inside a string, `parse_char` returns 0 on `'` without advancing, so the loop never ends | `"'"` | `'` is an ordinary byte inside a string | high; not executed | LexerProps.LexStringWithQuoteHangs | LexerProps.StringBodyIntendedOfEscape |
| src/lexer.c:214-221 | the string loop has no NUL check, so an unclosed string at the end of the input is read past the terminator | `"a` then NUL | stop at the NUL and report an invalid string | high; not executed | LexerProps.UnterminatedStringOverruns | LexerProps.StringBodyIntended |

The lexer model (`LexerSpec.Step`, `Lexer.ScanOne`) keeps the code's
behaviour on the last two rows and reports it as `Hang` and `Overrun`. The
intended string loop is stated beside it, together with what is proved
about it.
