/** What `lexer` (src/lexer.c:168-285) computes, stated as functions: one
    function per helper it calls, `Step` for one pass through the body of its
    goto-driven loop, and `Run`/`Lex` for the whole scan. The imperative
    version in module Lexer is proved to produce exactly `Lex`.

    The scan is over a NUL-terminated buffer (`Terminated`). Where the C code
    would read past the last byte of that buffer, the result is `Overrun`;
    where it would loop forever without consuming input, the result is
    `Hang`. */
module LexerSpec {
  import opened CType
  import opened LibCType
  import opened Tokens

  datatype Option<T> = None | Some(value: T)

  /** An entry `lex_def_table` may hold: a non-empty literal without NUL (an
      empty one would match everywhere without consuming anything) and a
      real kind. */
  predicate ValidDef(d: LexDef) {
    |d.str| > 0 && 0 !in d.str && 0 <= d.kind < LexTypeLen
  }

  predicate ValidTable(table: seq<LexDef>) {
    forall i :: 0 <= i < |table| ==> ValidDef(table[i])
  }

  /** What `report` prints, as a record: kind of defect and where. */
  datatype Diagnostic =
    | InvalidString(line: int, column: int)
    | InvalidChar(line: int, column: int)
    | UnknownChar(c: Byte)

  /** How the scan ends: at the NUL, by reading past the buffer, or in a loop
      that consumes nothing. */
  datatype Status = Finished | Overrun(at: nat) | Hang(at: nat)

  /** The token list, the diagnostics in the order they were printed, and how
      the scan ended. */
  datatype Outcome = Outcome(tokens: seq<Token>, diags: seq<Diagnostic>, status: Status)

  /** The lexer's state: the cursor `s`, `linecount` and `linestart`. */
  datatype Cursor = Cursor(pos: nat, line: int, lineStart: nat)

  // ---------------------------------------------------------------------
  // parse_char

  /** The escape letters `parse_char` knows and the control bytes they stand
      for: \a \b \f \n \r \t \v. */
  const Escapes: map<Byte, Byte> := map[
    'a' as int := 7, 'b' as int := 8, 'f' as int := 12, 'n' as int := 10,
    'r' as int := 13, 't' as int := 9, 'v' as int := 11]

  /** `parse_char(&s)`: the byte it returns and where it leaves the cursor. */
  function ParseChar(buf: seq<Byte>, s: nat): (r: (Byte, nat))
    requires Terminated(buf) && s < |buf|
    ensures s <= r.1 <= s + 2 && r.1 <= |buf|
    ensures r.1 == s <==> buf[s] == '\'' as int
    ensures buf[s] == '\'' as int ==> r.0 == 0
    ensures buf[s] != '\\' as int && buf[s] != '\'' as int ==> r == (buf[s], s + 1)
    ensures buf[s] == '\\' as int ==> s + 1 < |buf|
    ensures buf[s] == '\\' as int && buf[s + 1] in Escapes ==> r == (Escapes[buf[s + 1]], s + 2)
    ensures buf[s] == '\\' as int && buf[s + 1] == '\'' as int ==> r == (0, s + 1)
    ensures buf[s] == '\\' as int && buf[s + 1] != '\'' as int && buf[s + 1] !in Escapes ==>
              r == (buf[s + 1], s + 2)
  {
    if buf[s] == '\\' as int then
      var t := s + 1;
      if buf[t] == 'a' as int then (7, t + 1)
      else if buf[t] == 'b' as int then (8, t + 1)
      else if buf[t] == 'f' as int then (12, t + 1)
      else if buf[t] == 'n' as int then (10, t + 1)
      else if buf[t] == 'r' as int then (13, t + 1)
      else if buf[t] == 't' as int then (9, t + 1)
      else if buf[t] == 'v' as int then (11, t + 1)
      // no escape letter: fall through to the checks below, one byte on
      else if buf[t] == '\'' as int then (0, t)
      else (buf[t], t + 1)
    else if buf[s] == '\'' as int then (0, s)
    else (buf[s], s + 1)
  }

  // ---------------------------------------------------------------------
  // parse_num

  /** A `_` that `parse_num` skips: one with a digit on each side. */
  predicate IsSeparator(buf: seq<Byte>, k: int)
    requires 0 < k < |buf|
  {
    buf[k] == '_' as int && StdIsDigit(buf[k - 1]) && k + 1 < |buf| && StdIsDigit(buf[k + 1])
  }


  /** Where `parse_num` leaves the cursor: after a maximal run of digits in
      which a `_` is taken only between two digits. */
  function NumEnd(buf: seq<Byte>, s: nat): (e: nat)
    requires Terminated(buf) && s < |buf|
    ensures s <= e < |buf|
    ensures StdIsDigit(buf[s]) ==> s < e
    decreases |buf| - s
  {
    if !StdIsDigit(buf[s]) then s
    else if buf[s + 1] == '_' as int && StdIsDigit(buf[s + 2]) then NumEnd(buf, s + 2)
    else NumEnd(buf, s + 1)
  }

  /** `NumEnd` stops at the first byte that is neither a digit nor a
      separator, and takes nothing else. */
  lemma {:induction false} NumEndSpec(buf: seq<Byte>, s: nat)
    requires Terminated(buf) && s < |buf|
    ensures var e := NumEnd(buf, s);
      !StdIsDigit(buf[e]) &&
      (e > s ==> StdIsDigit(buf[s]) && StdIsDigit(buf[e - 1]) && !IsSeparator(buf, e)) &&
      (forall k :: s < k < e ==> StdIsDigit(buf[k]) || IsSeparator(buf, k))
    decreases |buf| - s
  {
    if !StdIsDigit(buf[s]) {
    } else if buf[s + 1] == '_' as int && StdIsDigit(buf[s + 2]) {
      NumEndSpec(buf, s + 2);
      assert IsSeparator(buf, s + 1);
    } else {
      NumEndSpec(buf, s + 1);
    }
  }

  /** `t` without its `_` separators. */
  function Strip(t: seq<Byte>): (r: seq<Byte>)
    ensures |r| <= |t|
  {
    if t == [] then []
    else Strip(t[..|t| - 1]) + (if t[|t| - 1] == '_' as int then [] else [t[|t| - 1]])
  }

  /** Stripping leaves no separator and, from digits and separators, only
      digits. */
  lemma {:induction false} StripSpec(t: seq<Byte>)
    ensures forall k :: 0 <= k < |Strip(t)| ==> Strip(t)[k] != '_' as int
    ensures (forall k :: 0 <= k < |t| ==> StdIsDigit(t[k]) || t[k] == '_' as int) ==>
              forall k :: 0 <= k < |Strip(t)| ==> StdIsDigit(Strip(t)[k])
  {
    if t != [] {
      var init := t[..|t| - 1];
      StripSpec(init);
      assert forall k :: 0 <= k < |init| ==> init[k] == t[k];
    }
  }

  /** Stripping a single byte drops it exactly when it is `_`. */
  lemma StripByte(b: Byte)
    ensures Strip([b]) == (if b == '_' as int then [] else [b])
  {
    assert [b][..0] == [];
  }

  /** Stripping works byte by byte: it distributes over concatenation. */
  lemma {:induction false} StripConcat(u: seq<Byte>, v: seq<Byte>)
    ensures Strip(u + v) == Strip(u) + Strip(v)
    decreases |v|
  {
    if v == [] {
      assert u + v == u;
    } else {
      var w := u + v;
      var vi := v[..|v| - 1];
      assert w[..|w| - 1] == u + vi;
      assert w[|w| - 1] == v[|v| - 1];
      StripConcat(u, vi);
    }
  }

  function Pow10(n: nat): (p: nat)
    ensures p >= 1
  {
    if n == 0 then 1 else 10 * Pow10(n - 1)
  }

  /** The value of a string of decimal digits, most significant first. */
  function Decimal(d: seq<Byte>): int
  {
    if d == [] then 0
    else Decimal(d[..|d| - 1]) * 10 + (d[|d| - 1] - '0' as int)
  }

  /** `k` decimal digits make a value below 10^k. */
  lemma {:induction false} DecimalBound(d: seq<Byte>)
    requires forall k :: 0 <= k < |d| ==> StdIsDigit(d[k])
    ensures 0 <= Decimal(d) < Pow10(|d|)
  {
    if d != [] {
      var init := d[..|d| - 1];
      assert forall k :: 0 <= k < |init| ==> init[k] == d[k];
      DecimalBound(init);
      var v, p := Decimal(init), Pow10(|init|);
      assert v * 10 <= (p - 1) * 10;
    }
  }

  /** 10^(a+b) is 10^a times 10^b. */
  lemma {:induction false} Pow10Add(a: nat, b: nat)
    ensures Pow10(a + b) == Pow10(a) * Pow10(b)
    decreases b
  {
    if b > 0 {
      Pow10Add(a, b - 1);
      assert Pow10(a + b) == 10 * Pow10(a + b - 1);
    }
  }

  /** Up to 18 digits, and so every digit string of length at most 18,
      has a value that fits a signed 64-bit `long`. */
  lemma EighteenDigitsFitLong(d: seq<Byte>)
    requires |d| <= 18 && forall k :: 0 <= k < |d| ==> StdIsDigit(d[k])
    ensures 0 <= Decimal(d) < 0x8000_0000_0000_0000
  {
    DecimalBound(d);
    Pow10Add(|d|, 18 - |d|);
    assert Pow10(3) == 1000;
    Pow10Add(3, 3);
    Pow10Add(6, 6);
    Pow10Add(12, 6);
    assert Pow10(18) == 1_000_000_000_000_000_000;
  }

  /** What `parse_num` returns for the digits `buf[s..e]`. */
  function NumValue(buf: seq<Byte>, s: nat, e: nat): int
    requires s <= e <= |buf|
  {
    Decimal(Strip(buf[s..e]))
  }

  /** One more digit: `n = n * 10 + (*s - '0')`. */
  lemma NumValueDigit(buf: seq<Byte>, s: nat, e: nat)
    requires s <= e < |buf| && buf[e] != '_' as int
    ensures NumValue(buf, s, e + 1) == NumValue(buf, s, e) * 10 + (buf[e] - '0' as int)
  {
    var t := buf[s..e + 1];
    assert t[..|t| - 1] == buf[s..e];
    var d := Strip(buf[s..e]) + [buf[e]];
    assert d[..|d| - 1] == Strip(buf[s..e]);
  }

  /** A separator leaves the value as it is. */
  lemma NumValueSeparator(buf: seq<Byte>, s: nat, e: nat)
    requires s <= e < |buf| && buf[e] == '_' as int
    ensures NumValue(buf, s, e + 1) == NumValue(buf, s, e)
  {
    var t := buf[s..e + 1];
    assert t[..|t| - 1] == buf[s..e];
    assert Strip(t) == Strip(buf[s..e]);
  }

  // ---------------------------------------------------------------------
  // parse_identifier

  /** The bytes `parse_identifier` takes: `isalnum` or `_`. */
  predicate IsIdentChar(c: Byte) {
    StdIsAlnum(c) || c == '_' as int
  }

  /** Where `parse_identifier` leaves the cursor: after the maximal run of
      identifier bytes. */
  function IdentEnd(buf: seq<Byte>, s: nat): (e: nat)
    requires Terminated(buf) && s < |buf|
    ensures s <= e < |buf|
    ensures IsIdentChar(buf[s]) ==> s < e
    decreases |buf| - s
  {
    if IsIdentChar(buf[s]) then IdentEnd(buf, s + 1) else s
  }

  /** `IdentEnd` takes a maximal run of identifier bytes. */
  lemma {:induction false} IdentEndSpec(buf: seq<Byte>, s: nat)
    requires Terminated(buf) && s < |buf|
    ensures !IsIdentChar(buf[IdentEnd(buf, s)])
    ensures forall k :: s <= k < IdentEnd(buf, s) ==> IsIdentChar(buf[k])
    decreases |buf| - s
  {
    if IsIdentChar(buf[s]) {
      IdentEndSpec(buf, s + 1);
    }
  }

  // ---------------------------------------------------------------------
  // The table lookup

  /** `strncmp(lit, buf + p, strlen(lit)) == 0` for a NUL-free `lit`: the
      literal is a prefix of the input at `p`. A NUL in the input within
      `|lit|` bytes is a mismatch, so the comparison never reads past the
      buffer. */
  predicate Matches(lit: seq<Byte>, buf: seq<Byte>, p: nat) {
    p + |lit| <= |buf| && buf[p..p + |lit|] == lit
  }

  /** The first entry of the table, from index `i` on, whose literal matches
      at `p`. */
  function FirstMatch(table: seq<LexDef>, buf: seq<Byte>, p: nat, i: nat): (r: Option<nat>)
    requires i <= |table|
    ensures r.Some? ==> i <= r.value < |table| && Matches(table[r.value].str, buf, p)
    decreases |table| - i
  {
    if i == |table| then None
    else if Matches(table[i].str, buf, p) then Some(i)
    else FirstMatch(table, buf, p, i + 1)
  }

  /** The entry found is the first that matches, and none is found only when
      none matches: table order decides, not the length of the match. */
  lemma {:induction false} FirstMatchSpec(table: seq<LexDef>, buf: seq<Byte>, p: nat, i: nat)
    requires i <= |table|
    ensures var r := FirstMatch(table, buf, p, i);
      (r.Some? ==> forall j :: i <= j < r.value ==> !Matches(table[j].str, buf, p)) &&
      (r.None? ==> forall j :: i <= j < |table| ==> !Matches(table[j].str, buf, p))
    decreases |table| - i
  {
    if i < |table| && !Matches(table[i].str, buf, p) {
      FirstMatchSpec(table, buf, p, i + 1);
    }
  }

  // ---------------------------------------------------------------------
  // Whitespace and line tracking

  /** The number of newline bytes in `t`. */
  function Newlines(t: seq<Byte>): nat
  {
    if t == [] then 0
    else (if t[0] == '\n' as int then 1 else 0) + Newlines(t[1..])
  }

  /** The whitespace loop at the head of each pass: skip `isspace` bytes,
      counting lines and moving the line start past each newline. */
  function SkipSpace(buf: seq<Byte>, c: Cursor): (r: Cursor)
    requires Terminated(buf) && c.pos < |buf| && c.lineStart <= c.pos
    ensures c.pos <= r.pos < |buf|
    ensures c.lineStart <= r.lineStart <= r.pos
    decreases |buf| - c.pos
  {
    if !StdIsSpace(buf[c.pos]) then
      c
    else if buf[c.pos] == '\n' as int then
      SkipSpace(buf, Cursor(c.pos + 1, c.line + 1, c.pos + 1))
    else
      SkipSpace(buf, Cursor(c.pos + 1, c.line, c.lineStart))
  }

  /** `SkipSpace` stops at the first byte that is not space; the line count
      grows by the newlines skipped, and the line start is just after the
      last of them. */
  lemma {:induction false} SkipSpaceSpec(buf: seq<Byte>, c: Cursor)
    requires Terminated(buf) && c.pos < |buf| && c.lineStart <= c.pos
    ensures var r := SkipSpace(buf, c);
      !StdIsSpace(buf[r.pos]) &&
      (forall k :: c.pos <= k < r.pos ==> StdIsSpace(buf[k])) &&
      r.line == c.line + Newlines(buf[c.pos..r.pos]) &&
      (r.lineStart == c.lineStart || (c.pos < r.lineStart && buf[r.lineStart - 1] == '\n' as int)) &&
      (forall k :: c.pos <= k < r.pos && r.lineStart <= k ==> buf[k] != '\n' as int)
    decreases |buf| - c.pos
  {
    if StdIsSpace(buf[c.pos]) {
      var next := if buf[c.pos] == '\n' as int then Cursor(c.pos + 1, c.line + 1, c.pos + 1)
                  else Cursor(c.pos + 1, c.line, c.lineStart);
      SkipSpaceSpec(buf, next);
      var r := SkipSpace(buf, next);
      assert buf[c.pos..r.pos][1..] == buf[c.pos + 1..r.pos];
    }
  }

  // ---------------------------------------------------------------------
  // String literals

  /** How the body of a string literal ends: at the closing quote with the
      decoded text, at a newline, by reading past the buffer, or stuck on a
      byte `parse_char` does not consume. */
  datatype StringScan =
    | Closed(text: seq<Byte>, at: nat)
    | Unterminated(at: nat)
    | Overran(at: nat)
    | Stuck(at: nat)

  /** The loop of src/lexer.c:214-221 from `s`, with `acc` decoded so far. */
  function StringBody(buf: seq<Byte>, s: nat, acc: seq<Byte>): (r: StringScan)
    requires Terminated(buf) && s <= |buf|
    ensures !r.Overran? ==> s <= r.at < |buf|
    ensures r.Overran? ==> r.at == |buf|
    decreases |buf| - s
  {
    if s == |buf| then Overran(s)
    else if buf[s] == '"' as int then Closed(acc, s)
    else if buf[s] == '\n' as int then Unterminated(s)
    else
      var (ch, next) := ParseChar(buf, s);
      if next == s then Stuck(s) else StringBody(buf, next, acc + [ch])
  }

  /** Each way `StringBody` ends is at the byte that ends it, and the decoded
      text extends what was decoded before, by at most one byte per byte
      read. */
  lemma {:induction false} StringBodySpec(buf: seq<Byte>, s: nat, acc: seq<Byte>)
    requires Terminated(buf) && s <= |buf|
    ensures var r := StringBody(buf, s, acc);
      (r.Closed? ==> buf[r.at] == '"' as int && |acc| <= |r.text| <= |acc| + (r.at - s) &&
                     r.text[..|acc|] == acc) &&
      (r.Unterminated? ==> buf[r.at] == '\n' as int) &&
      (r.Stuck? ==> buf[r.at] == '\'' as int)
    decreases |buf| - s
  {
    if s < |buf| && buf[s] != '"' as int && buf[s] != '\n' as int {
      var (ch, next) := ParseChar(buf, s);
      if next != s {
        StringBodySpec(buf, next, acc + [ch]);
        var r := StringBody(buf, next, acc + [ch]);
        assert r.Closed? ==> r.text[..|acc|] == (acc + [ch])[..|acc|];
      }
    }
  }

  // ---------------------------------------------------------------------
  // One pass of the loop, and the whole scan

  /** What one pass of the loop does once whitespace is skipped. */
  datatype Pass =
    | Emit(tok: Token, next: nat)
    | Report(diag: Diagnostic, next: nat)
    | Halt(status: Status)

  /** One pass of `lexer` after the whitespace loop, at cursor `c`: number,
      string, char, table entry, identifier, unknown byte, or the end. Every
      pass that does not stop consumes at least one byte. */
  function Step(table: seq<LexDef>, buf: seq<Byte>, c: Cursor): (r: Pass)
    requires ValidTable(table) && Terminated(buf) && c.pos < |buf| && c.lineStart <= c.pos
    ensures !r.Halt? ==> c.pos < r.next < |buf|
  {
    var p := c.pos;
    var column := p - c.lineStart + 1;
    if StdIsDigit(buf[p]) then
      var e := NumEnd(buf, p);
      if buf[e] == '.' as int && StdIsDigit(buf[e + 1]) then
        var e2 := NumEnd(buf, e + 1);
        Emit(Token(NUMBER, Number(NumValue(buf, p, e), NumValue(buf, e + 1, e2)), c.line, column), e2)
      else
        Emit(Token(INTEGER, Integer(NumValue(buf, p, e)), c.line, column), e)
    else if buf[p] == '"' as int then
      match StringBody(buf, p + 1, [])
      case Closed(text, q) => StringBodySpec(buf, p + 1, []);
                              Emit(Token(STRING, Text(text), c.line, column), q + 1)
      case Unterminated(q) => Report(InvalidString(c.line, column), q)
      case Overran(q) => Halt(Overrun(q))
      case Stuck(q) => Halt(Hang(q))
    else if buf[p] == '\'' as int then
      var (ch, q) := ParseChar(buf, p + 1);
      if q == |buf| then Halt(Overrun(q))
      else if buf[q] != '\'' as int then Report(InvalidChar(c.line, column), q)
      else Emit(Token(CHAR, Char(ch), c.line, column), q + 1)
    else
      match FirstMatch(table, buf, p, 0)
      case Some(i) =>
        var lit := table[i].str;
        assert buf[p + |lit| - 1] == lit[|lit| - 1];
        Emit(Token(table[i].kind, Text(lit), c.line, column), p + |lit|)
      case None =>
        if StdIsAlpha(buf[p]) || buf[p] == '_' as int then
          var e := IdentEnd(buf, p);
          Emit(Token(IDENTIFIER, Text(buf[p..e]), c.line, column), e)
        else if buf[p] != 0 then
          Report(UnknownChar(buf[p]), p + 1)
        else
          Halt(Finished)
  }

  /** The scan from cursor `c` (the `cont:` label) to its end. Every pass
      consumes at least one byte, so there is at most one token or
      diagnostic per byte. */
  function Run(table: seq<LexDef>, buf: seq<Byte>, c: Cursor): (r: Outcome)
    requires ValidTable(table) && Terminated(buf) && c.pos < |buf| && c.lineStart <= c.pos
    ensures |r.tokens| + |r.diags| <= |buf| - c.pos
    decreases |buf| - c.pos
  {
    var here := SkipSpace(buf, c);
    match Step(table, buf, here)
    case Emit(tok, next) =>
      var rest := Run(table, buf, Cursor(next, here.line, here.lineStart));
      Outcome([tok] + rest.tokens, rest.diags, rest.status)
    case Report(d, next) =>
      var rest := Run(table, buf, Cursor(next, here.line, here.lineStart));
      Outcome(rest.tokens, [d] + rest.diags, rest.status)
    case Halt(st) =>
      Outcome([], [], st)
  }

  /** `lexer(s)`: the scan from the start of the buffer, on line 1. */
  function Lex(table: seq<LexDef>, buf: seq<Byte>): (r: Outcome)
    requires ValidTable(table) && Terminated(buf)
    ensures |r.tokens| + |r.diags| <= |buf|
  {
    Run(table, buf, Cursor(0, 1, 0))
  }
}
