/** The project's own byte classifiers (include/ctype.h), and the byte type
    every other module uses. All of them are total predicates on one byte,
    except IsUniChar, which peeks at a NUL-terminated buffer without
    changing anything. */
module CType {

  /** A C `char`, taken as an unsigned byte. */
  type Byte = b: int | 0 <= b < 256

  /** A buffer the way C hands it around: its last byte is the NUL terminator
      (earlier NULs are allowed; they simply end the C string early). */
  predicate Terminated(buf: seq<Byte>) {
    |buf| > 0 && buf[|buf| - 1] == 0
  }

  /** `_isspace`: blank, tab, newline and carriage return only. */
  predicate IsSpace(c: Byte) {
    c == ' ' as int || c == '\t' as int || c == '\n' as int || c == '\r' as int
  }

  /** `_isdigit`. */
  predicate IsDigit(c: Byte) {
    '0' as int <= c <= '9' as int
  }

  /** `_ishexdigit`, as written: it accepts every ASCII letter, not only a-f. */
  predicate IsHexDigit(c: Byte) {
    ('0' as int <= c <= '9' as int) ||
    ('a' as int <= c <= 'z' as int) ||
    ('A' as int <= c <= 'Z' as int)
  }

  /** `_isnondigit`: the bytes that may start an identifier. */
  predicate IsNonDigit(c: Byte) {
    c == '_' as int ||
    ('a' as int <= c <= 'z' as int) ||
    ('A' as int <= c <= 'Z' as int)
  }

  /** The loop of `_isunichar`: are the `n` bytes from `i` on all hex digits?
      It stops at the first byte that is not, so it never reads past a NUL. */
  function HexRun(c: seq<Byte>, i: nat, n: nat): (r: bool)
    requires Terminated(c) && i < |c|
    ensures r <==> i + n < |c| && forall k :: i <= k < i + n ==> IsHexDigit(c[k])
    decreases n
  {
    if n == 0 then true
    else if !IsHexDigit(c[i]) then false
    else HexRun(c, i + 1, n - 1)
  }

  /** `_isunichar`: does the buffer start with a universal character name?
      Both `\u` and `\U` are followed by a check of four hex digits. */
  function IsUniChar(c: seq<Byte>): (r: bool)
    requires Terminated(c)
    ensures r <==> |c| > 6 && c[0] == '\\' as int && (c[1] == 'u' as int || c[1] == 'U' as int) &&
                   forall k :: 2 <= k < 6 ==> IsHexDigit(c[k])
  {
    if c[0] != '\\' as int then false
    else if c[1] == 'u' as int then HexRun(c, 2, 4)
    else if c[1] == 'U' as int then HexRun(c, 2, 4)
    else false
  }

  /** Every decimal digit is a "hex digit". */
  lemma HexDigitCoversDigit(c: Byte)
    ensures IsDigit(c) ==> IsHexDigit(c)
  {
  }

  /** A byte that may start an identifier is never a digit. */
  lemma NonDigitExcludesDigit(c: Byte)
    ensures !(IsNonDigit(c) && IsDigit(c))
  {
  }

  /** `_isunichar` looks at no more than six bytes: two buffers that agree on
      their first six bytes get the same answer. */
  lemma {:induction false} UniCharReadsSixBytes(c: seq<Byte>, d: seq<Byte>)
    requires Terminated(c) && Terminated(d)
    requires |c| > 6 && |d| > 6 && c[..6] == d[..6]
    ensures IsUniChar(c) == IsUniChar(d)
  {
    assert forall k :: 0 <= k < 6 ==> c[k] == c[..6][k] && d[k] == d[..6][k];
  }

  // ---------------------------------------------------------------------
  // What the two classifiers above were evidently meant to be.

  /** The bytes written as hexadecimal digits: 0-9, a-f and A-F. */
  const HexDigits: seq<Byte> := [
    '0' as int, '1' as int, '2' as int, '3' as int, '4' as int,
    '5' as int, '6' as int, '7' as int, '8' as int, '9' as int,
    'a' as int, 'b' as int, 'c' as int, 'd' as int, 'e' as int, 'f' as int,
    'A' as int, 'B' as int, 'C' as int, 'D' as int, 'E' as int, 'F' as int]

  /** A hex-digit test restricted to a-f and A-F. */
  predicate IsHexDigitIntended(c: Byte) {
    ('0' as int <= c <= '9' as int) ||
    ('a' as int <= c <= 'f' as int) ||
    ('A' as int <= c <= 'F' as int)
  }

  /** The intended test agrees with the list of hexadecimal digits. */
  lemma HexDigitIntendedIsHexDigits(c: Byte)
    ensures IsHexDigitIntended(c) <==> c in HexDigits
  {
  }

  /** As written, `_ishexdigit` accepts `g`, which no hexadecimal number uses. */
  lemma HexDigitAcceptsG()
    ensures IsHexDigit('g' as int) && !IsHexDigitIntended('g' as int)
  {
  }

  function HexRunIntended(c: seq<Byte>, i: nat, n: nat): (r: bool)
    requires Terminated(c) && i < |c|
    ensures r <==> i + n < |c| && forall k :: i <= k < i + n ==> IsHexDigitIntended(c[k])
    decreases n
  {
    if n == 0 then true
    else if !IsHexDigitIntended(c[i]) then false
    else HexRunIntended(c, i + 1, n - 1)
  }

  /** A universal character name as C defines it: `\u` and four hex digits,
      or `\U` and eight. */
  function IsUniCharIntended(c: seq<Byte>): (r: bool)
    requires Terminated(c)
    ensures r <==> |c| > 2 && c[0] == '\\' as int &&
                   ((c[1] == 'u' as int && |c| > 6 && forall k :: 2 <= k < 6 ==> IsHexDigitIntended(c[k])) ||
                    (c[1] == 'U' as int && |c| > 10 && forall k :: 2 <= k < 10 ==> IsHexDigitIntended(c[k])))
  {
    if c[0] != '\\' as int then false
    else if c[1] == 'u' as int then HexRunIntended(c, 2, 4)
    else if c[1] == 'U' as int then HexRunIntended(c, 2, 8)
    else false
  }

  /** As written, `\U` followed by only four hex digits is accepted. */
  lemma UniCharShortU()
    ensures var c: seq<Byte> := ['\\' as int, 'U' as int, '1' as int, '2' as int, '3' as int, '4' as int, 0];
            IsUniChar(c) && !IsUniCharIntended(c)
  {
  }
}
