/** The lexer as the C code runs it (src/lexer.c): cursor-advancing helpers
    with while loops, a growable string buffer, and the goto-driven main loop
    appending to a sentinel-headed token list. Each method is proved to
    compute what module LexerSpec says. */
module Lexer {
  import opened CType
  import opened LibCType
  import opened Tokens
  import opened TokenStream
  import opened LexerSpec

  /** `parse_num(&s)`: the value of the digits from `s0` and the cursor after
      them. */
  method ParseNum(buf: seq<Byte>, s0: nat) returns (n: int, s: nat)
    requires Terminated(buf) && s0 < |buf|
    ensures s == NumEnd(buf, s0)
    ensures n == NumValue(buf, s0, s)
  {
    n, s := 0, s0;
    while StdIsDigit(buf[s])
      invariant s0 <= s < |buf|
      invariant NumEnd(buf, s) == NumEnd(buf, s0)
      invariant n == NumValue(buf, s0, s)
      decreases |buf| - s
    {
      NumValueDigit(buf, s0, s);
      n := n * 10;
      n := n + (buf[s] - '0' as int);
      s := s + 1;
      // a `_` is skipped only when a digit follows it
      if buf[s] == '_' as int && StdIsDigit(buf[s + 1]) {
        NumValueSeparator(buf, s0, s);
        s := s + 1;
      }
    }
  }

  /** `parse_identifier(&s, &len)`: returns the original start, the number of
      bytes taken and the cursor after them. */
  method ParseIdentifier(buf: seq<Byte>, s0: nat) returns (start: nat, len: nat, s: nat)
    requires Terminated(buf) && s0 < |buf|
    ensures start == s0 && s == s0 + len
    ensures s == IdentEnd(buf, s0)
  {
    start := s0;
    len := 0;
    s := s0;
    while StdIsAlnum(buf[s]) || buf[s] == '_' as int
      invariant s == s0 + len && s < |buf|
      invariant IdentEnd(buf, s) == IdentEnd(buf, s0)
      decreases |buf| - s
    {
      s := s + 1;
      len := len + 1;
    }
  }

  /** The loop over `lex_def_table` (src/lexer.c:253-261): the index of the
      first entry whose literal `strncmp` finds at `s`, if any. */
  method MatchTable(table: seq<LexDef>, buf: seq<Byte>, s: nat) returns (found: Option<nat>)
    requires ValidTable(table) && Terminated(buf) && s < |buf|
    ensures found == FirstMatch(table, buf, s, 0)
  {
    var i := 0;
    while i < |table|
      invariant i <= |table|
      invariant FirstMatch(table, buf, s, i) == FirstMatch(table, buf, s, 0)
    {
      if Matches(table[i].str, buf, s) {
        return Some(i);
      }
      i := i + 1;
    }
    return None;
  }

  /** The body of a string literal (src/lexer.c:210-230), from just after the
      opening quote: decode with `parse_char` into a buffer that starts with
      8 bytes and doubles whenever it is about to fill, so that the
      terminating NUL always fits. Where the C loop would spin forever on a
      byte `parse_char` does not consume, this stops with `Stuck`. */
  method ScanStringBody(buf: seq<Byte>, s0: nat) returns (r: StringScan)
    requires Terminated(buf) && s0 < |buf|
    ensures r == StringBody(buf, s0, [])
  {
    var capacity := 8;
    var text := new Byte[capacity];
    var count := 0;
    var s := s0;
    ghost var acc: seq<Byte> := [];
    while s == |buf| || buf[s] != '"' as int
      invariant s0 <= s <= |buf|
      invariant text.Length == capacity && fresh(text)
      invariant count < capacity && text[..count] == acc
      invariant StringBody(buf, s, acc) == StringBody(buf, s0, [])
      decreases |buf| - s
    {
      if s == |buf| {
        return Overran(s);
      }
      if buf[s] == '\n' as int {
        break; // a raw newline ends the literal unclosed
      }
      var (c, next) := ParseChar(buf, s);
      if next == s {
        return Stuck(s);
      }
      if count + 1 == capacity {
        capacity := capacity * 2;
        var grown := new Byte[capacity];
        forall k | 0 <= k < count {
          grown[k] := text[k];
        }
        assert grown[..count] == text[..count];
        text := grown;
      }
      text[count] := c;
      acc := acc + [c];
      assert text[..count + 1] == acc;
      count := count + 1;
      s := next;
    }
    text[count] := 0; // in bounds: count < capacity
    assert text[..count] == acc;
    if buf[s] != '"' as int {
      return Unterminated(s);
    }
    return Closed(text[..count], s);
  }

  /** `lexer(s)`: scan the whole buffer. Returns the sentinel-headed token
      list, the diagnostics `report` printed, and how the scan ended. Where
      the C code would read past the buffer or loop forever, this stops and
      says so in `status`. */
  method Lex(table: seq<LexDef>, buf: seq<Byte>) returns (lexHead: TokenList, diags: seq<Diagnostic>, status: Status)
    requires ValidTable(table) && Terminated(buf)
    ensures lexHead.Valid() && fresh(lexHead.Repr)
    ensures Outcome(lexHead.Contents, diags, status) == LexerSpec.Lex(table, buf)
  {
    lexHead := new TokenList();
    diags := [];
    var s: nat, linecount: int, linestart: nat := 0, 1, 0;

    while true
      invariant lexHead.Valid() && fresh(lexHead.Repr)
      invariant s < |buf| && linestart <= s
      invariant var rest := Run(table, buf, Cursor(s, linecount, linestart));
                LexerSpec.Lex(table, buf) ==
                Outcome(lexHead.Contents + rest.tokens, diags + rest.diags, rest.status)
      decreases |buf| - s
    {
      ghost var head := Cursor(s, linecount, linestart);
      s, linecount, linestart := SkipBlanks(buf, s, linecount, linestart);

      var pass := ScanOne(table, buf, s, linecount, linestart);
      match pass {
        case Emit(tok, next) =>
          ghost var rest := Run(table, buf, Cursor(next, linecount, linestart));
          assert Run(table, buf, head).tokens == [tok] + rest.tokens;
          assert lexHead.Contents + ([tok] + rest.tokens) == (lexHead.Contents + [tok]) + rest.tokens;
          lexHead.Append(tok);
          s := next;
        case Report(d, next) =>
          ghost var rest := Run(table, buf, Cursor(next, linecount, linestart));
          assert Run(table, buf, head).diags == [d] + rest.diags;
          assert diags + ([d] + rest.diags) == (diags + [d]) + rest.diags;
          diags := diags + [d];
          s := next;
        case Halt(st) =>
          assert lexHead.Contents + [] == lexHead.Contents;
          assert diags + [] == diags;
          return lexHead, diags, st;
      }
    }
  }

  /** The whitespace loop after `cont:` (src/lexer.c:184-190): skip `isspace`
      bytes, and on each newline count a line and move the line start past
      it. */
  method SkipBlanks(buf: seq<Byte>, s0: nat, line0: int, start0: nat)
    returns (s: nat, linecount: int, linestart: nat)
    requires Terminated(buf) && s0 < |buf| && start0 <= s0
    ensures Cursor(s, linecount, linestart) == SkipSpace(buf, Cursor(s0, line0, start0))
  {
    s, linecount, linestart := s0, line0, start0;
    while StdIsSpace(buf[s])
      invariant s0 <= s < |buf| && linestart <= s
      invariant SkipSpace(buf, Cursor(s, linecount, linestart)) == SkipSpace(buf, Cursor(s0, line0, start0))
      decreases |buf| - s
    {
      if buf[s] == '\n' as int {
        linecount := linecount + 1;
        linestart := s + 1;
      }
      s := s + 1;
    }
  }

  /** One pass of the body of `lexer` after the whitespace loop
      (src/lexer.c:192-284), at cursor `s` on line `linecount`: the token it
      appends, the diagnostic it reports, or how the scan stops. */
  method ScanOne(table: seq<LexDef>, buf: seq<Byte>, s0: nat, linecount: int, linestart: nat)
    returns (r: Pass)
    requires ValidTable(table) && Terminated(buf) && s0 < |buf| && linestart <= s0
    ensures r == Step(table, buf, Cursor(s0, linecount, linestart))
  {
    var s := s0;
    var lexoffset := s;
    var column := lexoffset - linestart + 1;

    if StdIsDigit(buf[s]) {
      var num;
      num, s := ParseNum(buf, s);
      if buf[s] == '.' as int && StdIsDigit(buf[s + 1]) {
        s := s + 1; // step over the `.`
        var dec;
        dec, s := ParseNum(buf, s);
        return Emit(Token(NUMBER, Number(num, dec), linecount, column), s);
      }
      return Emit(Token(INTEGER, Integer(num), linecount, column), s);
    }

    if buf[s] == '"' as int {
      var body := ScanStringBody(buf, s + 1);
      match body {
        case Overran(q) =>
          return Halt(Overrun(q));
        case Stuck(q) =>
          return Halt(Hang(q));
        case Unterminated(q) =>
          return Report(InvalidString(linecount, column), q);
        case Closed(text, q) =>
          return Emit(Token(STRING, Text(text), linecount, column), q + 1); // resume after the closing quote
      }
    }

    if buf[s] == '\'' as int {
      s := s + 1; // step over the opening quote
      var (c, q) := ParseChar(buf, s);
      if q == |buf| {
        return Halt(Overrun(q));
      }
      s := q;
      if buf[s] != '\'' as int {
        return Report(InvalidChar(linecount, column), s);
      }
      s := s + 1; // step over the closing quote
      return Emit(Token(CHAR, Char(c), linecount, column), s);
    }

    var found := MatchTable(table, buf, s);
    if found.Some? {
      var entry := table[found.value];
      s := s + |entry.str|;
      return Emit(Token(entry.kind, Text(entry.str), linecount, column), s);
    }

    if StdIsAlpha(buf[s]) || buf[s] == '_' as int {
      var id, len;
      id, len, s := ParseIdentifier(buf, s);
      return Emit(Token(IDENTIFIER, Text(buf[id..id + len]), linecount, column), s);
    }

    if buf[s] != 0 {
      return Report(UnknownChar(buf[s]), s + 1);
    }
    return Halt(Finished);
  }
}
