/** Properties of the lexer model: where tokens sit, the literals the lexer
    reads back (numbers, strings, chars), and how the scan ends. */
module LexerProps {
  import opened CType
  import opened LibCType
  import opened Tokens
  import opened LexerSpec

  // ---------------------------------------------------------------------
  // Positions

  /** A token of one pass is stamped with the line and the 1-based column of
      the byte the pass started at (`lexoffset - linestart + 1`). */
  lemma StepTokenPosition(table: seq<LexDef>, buf: seq<Byte>, c: Cursor)
    requires ValidTable(table) && Terminated(buf) && c.pos < |buf| && c.lineStart <= c.pos
    ensures var r := Step(table, buf, c);
      r.Emit? ==> r.tok.line == c.line && r.tok.offset == c.pos - c.lineStart + 1
  {
  }

  /** The cursor each token's pass starts at, once the whitespace loop is
      done: one per token of `Run(table, buf, c)`, in order. */
  function TokenStarts(table: seq<LexDef>, buf: seq<Byte>, c: Cursor): (r: seq<Cursor>)
    requires ValidTable(table) && Terminated(buf) && c.pos < |buf| && c.lineStart <= c.pos
    decreases |buf| - c.pos
  {
    var here := SkipSpace(buf, c);
    match Step(table, buf, here)
    case Emit(_, next) => [here] + TokenStarts(table, buf, Cursor(next, here.line, here.lineStart))
    case Report(_, next) => TokenStarts(table, buf, Cursor(next, here.line, here.lineStart))
    case Halt(_) => []
  }

  /** `gap` in front of each of `gaps`. */
  function PrefixAll(gap: seq<Byte>, gaps: seq<seq<Byte>>): (r: seq<seq<Byte>>)
    ensures |r| == |gaps| && forall k :: 0 <= k < |gaps| ==> r[k] == gap + gaps[k]
  {
    if gaps == [] then [] else [gap + gaps[0]] + PrefixAll(gap, gaps[1..])
  }

  /** For each token of `Run(table, buf, c)`, all the bytes the whitespace
      loop consumed from `c` up to that token's start, in order. */
  function Blanks(table: seq<LexDef>, buf: seq<Byte>, c: Cursor): (r: seq<seq<Byte>>)
    requires ValidTable(table) && Terminated(buf) && c.pos < |buf| && c.lineStart <= c.pos
    decreases |buf| - c.pos
  {
    var here := SkipSpace(buf, c);
    var gap := buf[c.pos..here.pos];
    match Step(table, buf, here)
    case Emit(_, next) => [gap] + PrefixAll(gap, Blanks(table, buf, Cursor(next, here.line, here.lineStart)))
    case Report(_, next) => PrefixAll(gap, Blanks(table, buf, Cursor(next, here.line, here.lineStart)))
    case Halt(_) => []
  }

  /** Newlines are counted piece by piece. */
  lemma {:induction false} NewlinesAppend(a: seq<Byte>, b: seq<Byte>)
    ensures Newlines(a + b) == Newlines(a) + Newlines(b)
  {
    if a == [] {
      assert a + b == b;
    } else {
      assert (a + b)[1..] == a[1..] + b;
      NewlinesAppend(a[1..], b);
    }
  }

  /** The whitespace loop never lowers the line count, and leaves the line
      start alone when it counts no line. */
  lemma {:induction false} SkipLine(buf: seq<Byte>, c: Cursor)
    requires Terminated(buf) && c.pos < |buf| && c.lineStart <= c.pos
    ensures var r := SkipSpace(buf, c);
      c.line <= r.line && (r.line == c.line ==> r.lineStart == c.lineStart)
    decreases |buf| - c.pos
  {
    if StdIsSpace(buf[c.pos]) {
      if buf[c.pos] == '\n' as int {
        SkipLine(buf, Cursor(c.pos + 1, c.line + 1, c.pos + 1));
      } else {
        SkipLine(buf, Cursor(c.pos + 1, c.line, c.lineStart));
      }
    }
  }

  /** Cursor `s` lies at or after `c` in the scan: no earlier, with a line
      start that is `c`'s own or just after a newline since `c`, on `c`'s
      line or a later one, and with `c`'s line start while on `c`'s line. */
  predicate Within(buf: seq<Byte>, c: Cursor, s: Cursor) {
    c.pos <= s.pos < |buf| && c.lineStart <= s.lineStart <= s.pos &&
    (s.lineStart == c.lineStart || (c.pos < s.lineStart && buf[s.lineStart - 1] == '\n' as int)) &&
    c.line <= s.line && (s.line == c.line ==> s.lineStart == c.lineStart)
  }

  lemma WithinTrans(buf: seq<Byte>, a: Cursor, b: Cursor, s: Cursor)
    requires Within(buf, a, b) && Within(buf, b, s)
    ensures Within(buf, a, s)
  {
  }

  /** The cursor after the whitespace loop lies within the scan from `c`. */
  lemma SkipWithin(buf: seq<Byte>, c: Cursor)
    requires Terminated(buf) && c.pos < |buf| && c.lineStart <= c.pos
    ensures Within(buf, c, SkipSpace(buf, c))
  {
    SkipSpaceSpec(buf, c);
    SkipLine(buf, c);
  }

  /** Each token is stamped with the line and the column of the cursor its
      pass starts at, and that cursor is on a byte that is not space. */
  lemma {:induction false} TokenStartsStamp(table: seq<LexDef>, buf: seq<Byte>, c: Cursor)
    requires ValidTable(table) && Terminated(buf) && c.pos < |buf| && c.lineStart <= c.pos
    ensures var toks, st := Run(table, buf, c).tokens, TokenStarts(table, buf, c);
      |st| == |toks| &&
      forall i :: 0 <= i < |st| ==>
        toks[i].line == st[i].line && toks[i].offset == st[i].pos - st[i].lineStart + 1 &&
        st[i].pos < |buf| && !StdIsSpace(buf[st[i].pos])
    decreases |buf| - c.pos
  {
    var here := SkipSpace(buf, c);
    SkipSpaceSpec(buf, c);
    StepTokenPosition(table, buf, here);
    match Step(table, buf, here)
    case Emit(tok, next) =>
      var after := Cursor(next, here.line, here.lineStart);
      TokenStartsStamp(table, buf, after);
      var st := TokenStarts(table, buf, after);
      var rest := Run(table, buf, after).tokens;
      assert TokenStarts(table, buf, c) == [here] + st;
      assert Run(table, buf, c).tokens == [tok] + rest;
    case Report(d, next) =>
      TokenStartsStamp(table, buf, Cursor(next, here.line, here.lineStart));
    case Halt(st) =>
  }

  /** Every cursor of `st` lies within the scan from `c`. */
  predicate AllWithin(buf: seq<Byte>, c: Cursor, st: seq<Cursor>) {
    forall i :: 0 <= i < |st| ==> Within(buf, c, st[i])
  }

  /** Within the scan from `a` is within the scan from any cursor `a` lies
      within. */
  lemma AllWithinTrans(buf: seq<Byte>, c: Cursor, a: Cursor, st: seq<Cursor>)
    requires Within(buf, c, a) && AllWithin(buf, a, st)
    ensures AllWithin(buf, c, st)
  {
    forall i | 0 <= i < |st| ensures Within(buf, c, st[i]) {
      WithinTrans(buf, c, a, st[i]);
    }
  }

  /** Every token start lies within the scan from `c`. */
  lemma {:induction false} TokenStartsWithin(table: seq<LexDef>, buf: seq<Byte>, c: Cursor)
    requires ValidTable(table) && Terminated(buf) && c.pos < |buf| && c.lineStart <= c.pos
    ensures AllWithin(buf, c, TokenStarts(table, buf, c))
    decreases |buf| - c.pos
  {
    var here := SkipSpace(buf, c);
    SkipWithin(buf, c);
    match Step(table, buf, here)
    case Emit(tok, next) =>
      var after := Cursor(next, here.line, here.lineStart);
      TokenStartsWithin(table, buf, after);
      var st := TokenStarts(table, buf, after);
      WithinTrans(buf, c, here, after);
      AllWithinTrans(buf, c, after, st);
      var all := [here] + st;
      assert TokenStarts(table, buf, c) == all;
      assert forall j :: 1 <= j < |all| ==> all[j] == st[j - 1];
    case Report(d, next) =>
      var after := Cursor(next, here.line, here.lineStart);
      TokenStartsWithin(table, buf, after);
      WithinTrans(buf, c, here, after);
      AllWithinTrans(buf, c, after, TokenStarts(table, buf, after));
    case Halt(st) =>
  }

  /** Each cursor of `st` is strictly before, and within the scan from,
      every one before it. */
  predicate StartsOrdered(buf: seq<Byte>, st: seq<Cursor>) {
    forall i, j :: 0 <= i < j < |st| ==> st[i].pos < st[j].pos && Within(buf, st[i], st[j])
  }

  /** Token starts move strictly forward, each within the scan from the one
      before it. */
  lemma {:induction false} TokenStartsOrdered(table: seq<LexDef>, buf: seq<Byte>, c: Cursor)
    requires ValidTable(table) && Terminated(buf) && c.pos < |buf| && c.lineStart <= c.pos
    ensures StartsOrdered(buf, TokenStarts(table, buf, c))
    decreases |buf| - c.pos
  {
    var here := SkipSpace(buf, c);
    match Step(table, buf, here)
    case Emit(tok, next) =>
      var after := Cursor(next, here.line, here.lineStart);
      TokenStartsWithin(table, buf, after);
      TokenStartsOrdered(table, buf, after);
      var st := TokenStarts(table, buf, after);
      AllWithinTrans(buf, here, after, st);
      var all := [here] + st;
      assert TokenStarts(table, buf, c) == all;
      forall i, j | 0 <= i < j < |all| ensures all[i].pos < all[j].pos && Within(buf, all[i], all[j]) {
        assert all[j] == st[j - 1];
        if i > 0 {
          assert all[i] == st[i - 1];
        } else {
          assert Within(buf, after, st[j - 1]);
        }
      }
    case Report(d, next) =>
      TokenStartsOrdered(table, buf, Cursor(next, here.line, here.lineStart));
    case Halt(st) =>
  }

  /** Lines counted in front of a gap: if each of `rest` is on `line1` plus
      the newlines of its blanks, and `line1` is `line0` plus those of `gap`,
      then each is on `line0` plus the newlines of `gap` and its blanks. */
  lemma LinesAfterGap(rest: seq<Token>, bl: seq<seq<Byte>>, gap: seq<Byte>, line0: int, line1: int)
    requires |bl| == |rest| && line1 == line0 + Newlines(gap)
    requires forall i :: 0 <= i < |rest| ==> rest[i].line == line1 + Newlines(bl[i])
    ensures forall i :: 0 <= i < |rest| ==> rest[i].line == line0 + Newlines(PrefixAll(gap, bl)[i])
  {
    forall i | 0 <= i < |rest| ensures rest[i].line == line0 + Newlines(PrefixAll(gap, bl)[i]) {
      NewlinesAppend(gap, bl[i]);
    }
  }

  /** Each token's line is the starting line plus the newlines among the
      bytes the whitespace loop consumed before it. */
  lemma {:induction false} BlanksCountLines(table: seq<LexDef>, buf: seq<Byte>, c: Cursor)
    requires ValidTable(table) && Terminated(buf) && c.pos < |buf| && c.lineStart <= c.pos
    ensures var toks, bl := Run(table, buf, c).tokens, Blanks(table, buf, c);
      |bl| == |toks| && forall i :: 0 <= i < |bl| ==> toks[i].line == c.line + Newlines(bl[i])
    decreases |buf| - c.pos
  {
    var here := SkipSpace(buf, c);
    var gap := buf[c.pos..here.pos];
    SkipSpaceSpec(buf, c);
    StepTokenPosition(table, buf, here);
    match Step(table, buf, here)
    case Emit(tok, next) =>
      var after := Cursor(next, here.line, here.lineStart);
      BlanksCountLines(table, buf, after);
      var bl := Blanks(table, buf, after);
      var rest := Run(table, buf, after).tokens;
      LinesAfterGap(rest, bl, gap, c.line, here.line);
      var all := [gap] + PrefixAll(gap, bl);
      assert Blanks(table, buf, c) == all;
      assert Run(table, buf, c).tokens == [tok] + rest;
      assert forall j :: 1 <= j < |all| ==> all[j] == PrefixAll(gap, bl)[j - 1];
    case Report(d, next) =>
      var after := Cursor(next, here.line, here.lineStart);
      BlanksCountLines(table, buf, after);
      LinesAfterGap(Run(table, buf, after).tokens, Blanks(table, buf, after), gap, c.line, here.line);
    case Halt(st) =>
  }

  /** Every byte of every one of `bl` is space. */
  predicate AllSpace(bl: seq<seq<Byte>>) {
    forall i, k :: 0 <= i < |bl| && 0 <= k < |bl[i]| ==> StdIsSpace(bl[i][k])
  }

  /** The blanks in front of each token are all space bytes. */
  lemma {:induction false} BlanksAreSpace(table: seq<LexDef>, buf: seq<Byte>, c: Cursor)
    requires ValidTable(table) && Terminated(buf) && c.pos < |buf| && c.lineStart <= c.pos
    ensures AllSpace(Blanks(table, buf, c))
    decreases |buf| - c.pos
  {
    var here := SkipSpace(buf, c);
    var gap := buf[c.pos..here.pos];
    SkipSpaceSpec(buf, c);
    assert AllSpace([gap]);
    match Step(table, buf, here)
    case Emit(tok, next) =>
      var after := Cursor(next, here.line, here.lineStart);
      BlanksAreSpace(table, buf, after);
      var bl := PrefixAll(gap, Blanks(table, buf, after));
      assert AllSpace(bl) by { SpaceAfterGap(gap, Blanks(table, buf, after)); }
      var all := [gap] + bl;
      assert Blanks(table, buf, c) == all;
      forall i, k | 0 <= i < |all| && 0 <= k < |all[i]| ensures StdIsSpace(all[i][k]) {
        if i > 0 {
          assert all[i] == bl[i - 1];
        }
      }
    case Report(d, next) =>
      var after := Cursor(next, here.line, here.lineStart);
      BlanksAreSpace(table, buf, after);
      SpaceAfterGap(gap, Blanks(table, buf, after));
    case Halt(st) =>
  }

  /** A space gap in front of space blanks leaves them space. */
  lemma SpaceAfterGap(gap: seq<Byte>, bl: seq<seq<Byte>>)
    requires AllSpace([gap]) && AllSpace(bl)
    ensures AllSpace(PrefixAll(gap, bl))
  {
    var r := PrefixAll(gap, bl);
    forall i, k | 0 <= i < |r| && 0 <= k < |r[i]| ensures StdIsSpace(r[i][k]) {
      assert r[i] == gap + bl[i];
      if k < |gap| {
        assert [gap][0] == gap;
        assert r[i][k] == gap[k];
      } else {
        assert r[i][k] == bl[i][k - |gap|];
      }
    }
  }

  /** `a` comes before `b` in the source: an earlier line, or the same line
      and an earlier column. */
  predicate Precedes(a: Token, b: Token) {
    a.line < b.line || (a.line == b.line && a.offset < b.offset)
  }

  /** Tokens on line `line` or later, each with a column of at least 1, each
      strictly before the next in (line, column) order. */
  predicate InSourceOrder(tokens: seq<Token>, line: int) {
    (forall i :: 0 <= i < |tokens| ==> line <= tokens[i].line && 1 <= tokens[i].offset) &&
    (forall i, j :: 0 <= i < j < |tokens| ==> Precedes(tokens[i], tokens[j]))
  }

  /** The tokens of a scan from `c` are on line `c.line` or later, each with
      a column of at least 1, and strictly in source order. */
  lemma RunTokenPositions(table: seq<LexDef>, buf: seq<Byte>, c: Cursor)
    requires ValidTable(table) && Terminated(buf) && c.pos < |buf| && c.lineStart <= c.pos
    ensures InSourceOrder(Run(table, buf, c).tokens, c.line)
  {
    TokenStartsStamp(table, buf, c);
    TokenStartsWithin(table, buf, c);
    TokenStartsOrdered(table, buf, c);
  }

  /** What `lexer` returns is in source order, and each token's position is
      where it starts: its line is 1 plus the newlines among the space bytes
      the whitespace loop consumed before it, and its column counts, from
      the start of the buffer or from just after a newline, to the first
      byte that is not space. */
  lemma LexTokenPositions(table: seq<LexDef>, buf: seq<Byte>)
    requires ValidTable(table) && Terminated(buf)
    ensures InSourceOrder(Lex(table, buf).tokens, 1)
    ensures var toks, bl := Lex(table, buf).tokens, Blanks(table, buf, Cursor(0, 1, 0));
      |bl| == |toks| && AllSpace(bl) &&
      forall i :: 0 <= i < |toks| ==> toks[i].line == 1 + Newlines(bl[i])
    ensures var toks, st := Lex(table, buf).tokens, TokenStarts(table, buf, Cursor(0, 1, 0));
      |st| == |toks| &&
      forall i :: 0 <= i < |toks| ==>
        toks[i].offset == st[i].pos - st[i].lineStart + 1 && st[i].lineStart <= st[i].pos < |buf| &&
        !StdIsSpace(buf[st[i].pos]) &&
        (st[i].lineStart == 0 || buf[st[i].lineStart - 1] == '\n' as int)
  {
    RunTokenPositions(table, buf, Cursor(0, 1, 0));
    BlanksCountLines(table, buf, Cursor(0, 1, 0));
    BlanksAreSpace(table, buf, Cursor(0, 1, 0));
    TokenStartsStamp(table, buf, Cursor(0, 1, 0));
    TokenStartsWithin(table, buf, Cursor(0, 1, 0));
  }

  // ---------------------------------------------------------------------
  // The end of the input

  /** No table entry matches at the terminating NUL. */
  lemma {:induction false} NoMatchAtEnd(table: seq<LexDef>, buf: seq<Byte>, i: nat)
    requires ValidTable(table) && Terminated(buf) && i <= |table|
    ensures FirstMatch(table, buf, |buf| - 1, i) == None
    decreases |table| - i
  {
    if i < |table| {
      NoMatchAtEnd(table, buf, i + 1);
    }
  }

  /** A scan that reaches the terminating NUL adds nothing and finishes. */
  lemma RunAtEnd(table: seq<LexDef>, buf: seq<Byte>, c: Cursor)
    requires ValidTable(table) && Terminated(buf) && c.pos == |buf| - 1 && c.lineStart <= c.pos
    ensures Run(table, buf, c) == Outcome([], [], Finished)
  {
    NoMatchAtEnd(table, buf, 0);
  }

  /** One pass stops the scan as finished exactly at a NUL byte. */
  lemma StepFinishedAtNul(table: seq<LexDef>, buf: seq<Byte>, c: Cursor)
    requires ValidTable(table) && Terminated(buf) && c.pos < |buf| && c.lineStart <= c.pos
    ensures Step(table, buf, c) == Halt(Finished) <==> buf[c.pos] == 0
  {
    var p := c.pos;
    if buf[p] == 0 {
      NoMatchLeadingByte(table, buf, p, 0);
    }
  }

  /** A pass that starts at a byte that is not space and emits a token puts
      that token in front of the rest of the scan. */
  lemma RunEmit(table: seq<LexDef>, buf: seq<Byte>, c: Cursor, tok: Token, next: nat)
    requires ValidTable(table) && Terminated(buf) && c.pos < |buf| && c.lineStart <= c.pos
    requires !StdIsSpace(buf[c.pos]) && Step(table, buf, c) == Emit(tok, next)
    ensures Run(table, buf, c) ==
      var rest := Run(table, buf, Cursor(next, c.line, c.lineStart));
      Outcome([tok] + rest.tokens, rest.diags, rest.status)
  {
  }

  /** A digit run not followed by `.` and a digit is one INTEGER token. */
  lemma StepInteger(table: seq<LexDef>, buf: seq<Byte>, c: Cursor)
    requires ValidTable(table) && Terminated(buf) && c.pos < |buf| && c.lineStart <= c.pos
    requires StdIsDigit(buf[c.pos])
    requires var e := NumEnd(buf, c.pos); !(buf[e] == '.' as int && StdIsDigit(buf[e + 1]))
    ensures var e := NumEnd(buf, c.pos);
      Step(table, buf, c) ==
      Emit(Token(INTEGER, Integer(NumValue(buf, c.pos, e)), c.line, c.pos - c.lineStart + 1), e)
  {
  }

  // ---------------------------------------------------------------------
  // Numbers

  /** The decimal digits of `n`, most significant first. */
  function DecimalString(n: nat): (d: seq<Byte>)
    ensures |d| >= 1
  {
    if n < 10 then ['0' as int + n] else DecimalString(n / 10) + ['0' as int + n % 10]
  }

  /** The printed form is all digits. */
  lemma {:induction false} DecimalStringDigits(n: nat)
    ensures forall k :: 0 <= k < |DecimalString(n)| ==> StdIsDigit(DecimalString(n)[k])
  {
    if n >= 10 {
      DecimalStringDigits(n / 10);
    }
  }

  /** Reading back the printed digits gives the number. */
  lemma {:induction false} DecimalRoundTrip(n: nat)
    ensures Decimal(DecimalString(n)) == n
  {
    var d := DecimalString(n);
    if n < 10 {
      assert d[..0] == [];
    } else {
      DecimalRoundTrip(n / 10);
      assert d[..|d| - 1] == DecimalString(n / 10);
    }
  }

  /** Without `_` bytes, stripping changes nothing. */
  lemma {:induction false} StripWithoutSeparators(t: seq<Byte>)
    requires forall k :: 0 <= k < |t| ==> t[k] != '_' as int
    ensures Strip(t) == t
  {
    if t != [] {
      var init := t[..|t| - 1];
      StripWithoutSeparators(init);
      assert init + [t[|t| - 1]] == t;
    }
  }

  /** A plain run of digits ends `parse_num` at the first byte that is
      neither a digit nor `_`. */
  lemma {:induction false} NumEndOfDigits(buf: seq<Byte>, s: nat, e: nat)
    requires Terminated(buf) && s <= e < |buf|
    requires forall k :: s <= k < e ==> StdIsDigit(buf[k])
    requires !StdIsDigit(buf[e]) && buf[e] != '_' as int
    ensures NumEnd(buf, s) == e
    decreases e - s
  {
    if s < e {
      NumEndOfDigits(buf, s + 1, e);
    }
  }

  /** The digits of any natural number, read by `parse_num`, give that
      number and stop at the byte after them. */
  lemma NumOfDecimalString(buf: seq<Byte>, n: nat)
    requires Terminated(buf) && |DecimalString(n)| < |buf| && At(buf, 0, DecimalString(n))
    requires !StdIsDigit(buf[|DecimalString(n)|]) && buf[|DecimalString(n)|] != '_' as int
    ensures StdIsDigit(buf[0])
    ensures NumEnd(buf, 0) == |DecimalString(n)|
    ensures NumValue(buf, 0, |DecimalString(n)|) == n
  {
    var d := DecimalString(n);
    DecimalStringDigits(n);
    assert forall k :: 0 <= k < |d| ==> buf[k] == d[k];
    assert buf[0..|d|] == d;
    NumEndOfDigits(buf, 0, |d|);
    StripWithoutSeparators(d);
    DecimalRoundTrip(n);
  }

  /** The digits of any natural number, alone in the input, come back as one
      INTEGER token holding that number. */
  lemma LexInteger(table: seq<LexDef>, n: nat)
    requires ValidTable(table)
    ensures var d := DecimalString(n);
      Lex(table, d + [0]) == Outcome([Token(INTEGER, Integer(n), 1, 1)], [], Finished)
  {
    var d := DecimalString(n);
    var buf := d + [0];
    assert buf[0..|d|] == d;
    NumOfDecimalString(buf, n);
    var tok := Token(INTEGER, Integer(n), 1, 1);
    StepInteger(table, buf, Cursor(0, 1, 0));
    RunAtEnd(table, buf, Cursor(|d|, 1, 0));
    RunEmit(table, buf, Cursor(0, 1, 0), tok, |d|);
  }

  /** `_` between digits is skipped: `1_000` reads as 1000. */
  lemma SeparatedThousand(table: seq<LexDef>)
    requires ValidTable(table)
    ensures Lex(table, ['1' as int, '_' as int, '0' as int, '0' as int, '0' as int, 0]) ==
            Outcome([Token(INTEGER, Integer(1000), 1, 1)], [], Finished)
  {
    var buf: seq<Byte> := ['1' as int, '_' as int, '0' as int, '0' as int, '0' as int, 0];
    NumEndOfDigits(buf, 2, 5);
    assert NumEnd(buf, 0) == 5;
    NumValueDigit(buf, 0, 0);
    NumValueSeparator(buf, 0, 1);
    NumValueDigit(buf, 0, 2);
    NumValueDigit(buf, 0, 3);
    NumValueDigit(buf, 0, 4);
    assert buf[0..0] == [];
    RunAtEnd(table, buf, Cursor(5, 1, 0));
  }

  /** A `.` followed by a digit makes a NUMBER of the two digit runs: `3.14`
      gives the parts 3 and 14. */
  lemma DecimalPoint(table: seq<LexDef>)
    requires ValidTable(table)
    ensures Lex(table, ['3' as int, '.' as int, '1' as int, '4' as int, 0]) ==
            Outcome([Token(NUMBER, Number(3, 14), 1, 1)], [], Finished)
  {
    var buf: seq<Byte> := ['3' as int, '.' as int, '1' as int, '4' as int, 0];
    NumEndOfDigits(buf, 0, 1);
    NumEndOfDigits(buf, 2, 4);
    NumValueDigit(buf, 0, 0);
    NumValueDigit(buf, 2, 2);
    NumValueDigit(buf, 2, 3);
    assert buf[0..0] == [] && buf[2..2] == [];
    RunAtEnd(table, buf, Cursor(4, 1, 0));
  }

  // ---------------------------------------------------------------------
  // String literals

  /** How a byte is written inside a string literal so that the lexer reads
      it back: the quote, the backslash and the newline are escaped. */
  function EscapeByte(b: Byte): (e: seq<Byte>)
    ensures 1 <= |e| <= 2
  {
    if b == '"' as int then ['\\' as int, '"' as int]
    else if b == '\\' as int then ['\\' as int, '\\' as int]
    else if b == '\n' as int then ['\\' as int, 'n' as int]
    else [b]
  }

  /** The body of a string literal for `text`. */
  function Escape(text: seq<Byte>): (e: seq<Byte>)
    ensures |text| <= |e| <= 2 * |text|
  {
    if text == [] then [] else EscapeByte(text[0]) + Escape(text[1..])
  }

  /** The bytes `w` stand in `buf` from `s` on. */
  predicate At(buf: seq<Byte>, s: nat, w: seq<Byte>) {
    s + |w| <= |buf| && forall k :: 0 <= k < |w| ==> buf[s + k] == w[k]
  }

  /** Two words in a row stand one after the other. */
  lemma AtSplit(buf: seq<Byte>, s: nat, u: seq<Byte>, v: seq<Byte>)
    requires At(buf, s, u + v)
    ensures At(buf, s, u) && At(buf, s + |u|, v)
  {
    forall k | 0 <= k < |u| ensures buf[s + k] == u[k] {
      assert (u + v)[k] == u[k];
    }
    forall k | 0 <= k < |v| ensures buf[s + |u| + k] == v[k] {
      assert (u + v)[|u| + k] == v[k];
    }
  }

  /** An escaped text is its first byte escaped, then the rest escaped. */
  lemma AtEscape(buf: seq<Byte>, s: nat, text: seq<Byte>)
    requires text != [] && At(buf, s, Escape(text))
    ensures |Escape(text)| == |EscapeByte(text[0])| + |Escape(text[1..])|
    ensures At(buf, s, EscapeByte(text[0]))
    ensures At(buf, s + |EscapeByte(text[0])|, Escape(text[1..]))
  {
    assert Escape(text) == EscapeByte(text[0]) + Escape(text[1..]);
    AtSplit(buf, s, EscapeByte(text[0]), Escape(text[1..]));
  }

  /** One escaped byte: the string loop takes it in one round, unless it is
      a `'`, on which the loop is stuck. */
  lemma StringBodyEscapedByte(buf: seq<Byte>, s: nat, acc: seq<Byte>, b: Byte)
    requires Terminated(buf) && s + |EscapeByte(b)| < |buf| && At(buf, s, EscapeByte(b))
    ensures b != '\'' as int ==> StringBody(buf, s, acc) == StringBody(buf, s + |EscapeByte(b)|, acc + [b])
    ensures b == '\'' as int ==> StringBody(buf, s, acc) == Stuck(s)
  {
    var e := EscapeByte(b);
    assert buf[s] == e[0];
    if |e| == 2 {
      assert buf[s + 1] == e[1];
    }
  }

  /** Reading an escaped text without `'` from `s` up to the closing quote
      gives the text back whole. */
  lemma {:induction false} StringBodyOfEscape(buf: seq<Byte>, s: nat, acc: seq<Byte>, text: seq<Byte>)
    requires Terminated(buf) && s + |Escape(text)| < |buf| && '\'' as int !in text
    requires At(buf, s, Escape(text)) && buf[s + |Escape(text)|] == '"' as int
    ensures StringBody(buf, s, acc) == Closed(acc + text, s + |Escape(text)|)
    decreases text
  {
    if text != [] {
      var b, rest := text[0], text[1..];
      var e := EscapeByte(b);
      AtEscape(buf, s, text);
      assert '\'' as int !in rest;
      assert acc + [b] + rest == acc + text;
      calc {
        StringBody(buf, s, acc);
        { StringBodyEscapedByte(buf, s, acc, b); }
        StringBody(buf, s + |e|, acc + [b]);
        { StringBodyOfEscape(buf, s + |e|, acc + [b], rest); }
        Closed(acc + text, s + |Escape(text)|);
      }
    }
  }

  /** A `'` anywhere in an escaped text stops the loop of
      src/lexer.c:214-221 on a byte it never consumes. */
  lemma {:induction false} StringBodyOfEscapeWithQuote(buf: seq<Byte>, s: nat, acc: seq<Byte>, text: seq<Byte>)
    requires Terminated(buf) && s + |Escape(text)| < |buf| && '\'' as int in text
    requires At(buf, s, Escape(text)) && buf[s + |Escape(text)|] == '"' as int
    ensures StringBody(buf, s, acc).Stuck?
    decreases text
  {
    var b := text[0];
    AtEscape(buf, s, text);
    StringBodyEscapedByte(buf, s, acc, b);
    if b != '\'' as int {
      assert '\'' as int in text[1..];
      StringBodyOfEscapeWithQuote(buf, s + |EscapeByte(b)|, acc + [b], text[1..]);
    }
  }

  /** Any text without a `'`, written as a literal, comes back as one STRING
      token holding that text. */
  lemma LexString(table: seq<LexDef>, text: seq<Byte>)
    requires ValidTable(table) && '\'' as int !in text
    ensures var buf := ['"' as int] + Escape(text) + ['"' as int, 0];
      Lex(table, buf) == Outcome([Token(STRING, Text(text), 1, 1)], [], Finished)
  {
    var e := Escape(text);
    var buf := ['"' as int] + e + ['"' as int, 0];
    assert buf[1..1 + |e|] == e;
    StringBodyOfEscape(buf, 1, [], text);
    assert StringBody(buf, 1, []) == Closed(text, |e| + 1);
    assert Step(table, buf, Cursor(0, 1, 0)) == Emit(Token(STRING, Text(text), 1, 1), |e| + 2);
    RunAtEnd(table, buf, Cursor(|e| + 2, 1, 0));
  }

  /** A string with a `'` in it never ends: the model halts with `Hang`
      where the C loop spins forever, before any token is made. */
  lemma LexStringWithQuoteHangs(table: seq<LexDef>, text: seq<Byte>)
    requires ValidTable(table) && '\'' as int in text
    ensures var buf := ['"' as int] + Escape(text) + ['"' as int, 0];
      Lex(table, buf).tokens == [] && Lex(table, buf).status.Hang?
  {
    var e := Escape(text);
    var buf := ['"' as int] + e + ['"' as int, 0];
    assert buf[1..1 + |e|] == e;
    StringBodyOfEscapeWithQuote(buf, 1, [], text);
  }

  /** What the string loop evidently intends `parse_char` to do inside a
      string: a `'` is an ordinary byte there, `\'` stands for it, and a
      backslash never steps over the terminating NUL. */
  function ParseCharIntended(buf: seq<Byte>, s: nat): (r: (Byte, nat))
    requires Terminated(buf) && s < |buf| && buf[s] != 0
    ensures s < r.1 <= s + 2 && r.1 < |buf|
    ensures buf[s] != '\\' as int ==> r == (buf[s], s + 1)
    ensures buf[s] == '\\' as int && buf[s + 1] == 0 ==> r == (buf[s], s + 1)
    ensures buf[s] == '\\' as int && buf[s + 1] in Escapes ==> r == (Escapes[buf[s + 1]], s + 2)
    ensures buf[s] == '\\' as int && buf[s + 1] != 0 && buf[s + 1] !in Escapes ==> r == (buf[s + 1], s + 2)
  {
    if buf[s] == '\\' as int && buf[s + 1] != 0 then
      var t := s + 1;
      if buf[t] in Escapes then (Escapes[buf[t]], t + 1) else (buf[t], t + 1)
    else (buf[s], s + 1)
  }

  /** The string loop as evidently intended: it always moves on, and a NUL
      ends the literal like a newline does, so it ends at the quote or at
      the byte it reports, and never reads past the buffer. */
  function StringBodyIntended(buf: seq<Byte>, s: nat, acc: seq<Byte>): (r: StringScan)
    requires Terminated(buf) && s < |buf|
    ensures !r.Stuck? && !r.Overran?
    ensures s <= r.at < |buf|
    decreases |buf| - s
  {
    if buf[s] == '"' as int then Closed(acc, s)
    else if buf[s] == '\n' as int || buf[s] == 0 then Unterminated(s)
    else
      var (ch, next) := ParseCharIntended(buf, s);
      StringBodyIntended(buf, next, acc + [ch])
  }

  /** One escaped byte, read with the intended `parse_char`. */
  lemma StringBodyIntendedEscapedByte(buf: seq<Byte>, s: nat, acc: seq<Byte>, b: Byte)
    requires Terminated(buf) && s + |EscapeByte(b)| < |buf| && At(buf, s, EscapeByte(b)) && b != 0
    ensures StringBodyIntended(buf, s, acc) == StringBodyIntended(buf, s + |EscapeByte(b)|, acc + [b])
  {
    var e := EscapeByte(b);
    assert buf[s] == e[0];
    if |e| == 2 {
      assert buf[s + 1] == e[1];
    }
  }

  /** With the intended `parse_char`, every text without NUL written as a
      literal comes back whole, `'` included. */
  lemma {:induction false} StringBodyIntendedOfEscape(buf: seq<Byte>, s: nat, acc: seq<Byte>, text: seq<Byte>)
    requires Terminated(buf) && s + |Escape(text)| < |buf| && 0 !in text
    requires At(buf, s, Escape(text)) && buf[s + |Escape(text)|] == '"' as int
    ensures StringBodyIntended(buf, s, acc) == Closed(acc + text, s + |Escape(text)|)
    decreases text
  {
    if text != [] {
      var b := text[0];
      var rest := text[1..];
      var e := EscapeByte(b);
      AtEscape(buf, s, text);
      assert 0 !in rest;
      assert acc + [b] + rest == acc + text;
      calc {
        StringBodyIntended(buf, s, acc);
        { StringBodyIntendedEscapedByte(buf, s, acc, b); }
        StringBodyIntended(buf, s + |e|, acc + [b]);
        { StringBodyIntendedOfEscape(buf, s + |e|, acc + [b], rest); }
        Closed(acc + text, s + |Escape(text)|);
      }
    }
  }

  /** A newline inside a string is reported once, at the string's start, and
      the scan goes on from the newline: `"ab` NL `c` gives one diagnostic
      and the identifier `c` on line 2. */
  lemma UnterminatedStringRecovers(table: seq<LexDef>)
    requires ValidTable(table)
    requires forall i :: 0 <= i < |table| ==> table[i].str[0] != 'c' as int
    ensures Lex(table, ['"' as int, 'a' as int, 'b' as int, '\n' as int, 'c' as int, 0]) ==
            Outcome([Token(IDENTIFIER, Text(['c' as int]), 2, 1)], [InvalidString(1, 1)], Finished)
  {
    var buf: seq<Byte> := ['"' as int, 'a' as int, 'b' as int, '\n' as int, 'c' as int, 0];
    assert At(buf, 1, ['a' as int]) && At(buf, 2, ['b' as int]);
    StringBodyEscapedByte(buf, 1, [], 'a' as int);
    StringBodyEscapedByte(buf, 2, ['a' as int], 'b' as int);
    assert StringBody(buf, 1, []) == Unterminated(3);
    assert SkipSpace(buf, Cursor(3, 1, 0)) == Cursor(4, 2, 4);
    NoMatchLeadingByte(table, buf, 4, 0);
    assert IdentEnd(buf, 4) == 5;
    assert buf[4..5] == ['c' as int];
    assert Step(table, buf, Cursor(0, 1, 0)) == Report(InvalidString(1, 1), 3);
    assert Step(table, buf, Cursor(4, 2, 4)) == Emit(Token(IDENTIFIER, Text(['c' as int]), 2, 1), 5);
    RunAtEnd(table, buf, Cursor(5, 2, 4));
    assert Run(table, buf, Cursor(3, 1, 0)) == Outcome([Token(IDENTIFIER, Text(['c' as int]), 2, 1)], [], Finished);
  }

  /** A string still open at the end of the input is read past the
      terminating NUL. */
  lemma UnterminatedStringOverruns(table: seq<LexDef>)
    requires ValidTable(table)
    ensures Lex(table, ['"' as int, 'a' as int, 0]) == Outcome([], [], Overrun(3))
  {
    var buf: seq<Byte> := ['"' as int, 'a' as int, 0];
    assert At(buf, 1, ['a' as int]);
    StringBodyEscapedByte(buf, 1, [], 'a' as int);
    assert StringBody(buf, 1, []) == Overran(3);
  }

  // ---------------------------------------------------------------------
  // Char literals

  /** A byte other than `'` and `\` (NUL included) between single quotes
      comes back as one CHAR token holding it; `'''` starts with CHAR 0. */
  lemma LexChar(table: seq<LexDef>, b: Byte)
    requires ValidTable(table) && b != '\\' as int
    ensures b != '\'' as int ==>
      Lex(table, ['\'' as int, b, '\'' as int, 0]) == Outcome([Token(CHAR, Char(b), 1, 1)], [], Finished)
    ensures b == '\'' as int ==>
      Lex(table, ['\'' as int, b, '\'' as int, 0]).tokens[0] == Token(CHAR, Char(0), 1, 1)
  {
    var buf: seq<Byte> := ['\'' as int, b, '\'' as int, 0];
    if b != '\'' as int {
      RunAtEnd(table, buf, Cursor(3, 1, 0));
    } else {
      assert Step(table, buf, Cursor(0, 1, 0)) == Emit(Token(CHAR, Char(0), 1, 1), 2);
    }
  }

  /** An escape letter between single quotes gives its control byte:
      `'\n'` is a newline. */
  lemma LexEscapedChar(table: seq<LexDef>, letter: Byte)
    requires ValidTable(table) && letter in Escapes
    ensures Lex(table, ['\'' as int, '\\' as int, letter, '\'' as int, 0]) ==
            Outcome([Token(CHAR, Char(Escapes[letter]), 1, 1)], [], Finished)
  {
    var buf: seq<Byte> := ['\'' as int, '\\' as int, letter, '\'' as int, 0];
    RunAtEnd(table, buf, Cursor(4, 1, 0));
  }

  // ---------------------------------------------------------------------
  // Table entries and identifiers

  /** No entry matches at `p` when no literal starts with the byte there. */
  lemma {:induction false} NoMatchLeadingByte(table: seq<LexDef>, buf: seq<Byte>, p: nat, i: nat)
    requires ValidTable(table) && Terminated(buf) && p < |buf| && i <= |table|
    requires forall j :: 0 <= j < |table| ==> table[j].str[0] != buf[p]
    ensures FirstMatch(table, buf, p, i) == None
    decreases |table| - i
  {
    if i < |table| {
      NoMatchLeadingByte(table, buf, p, i + 1);
    }
  }

  /** Table entries are tried before identifiers and without regard for
      word boundaries: with `if` as a keyword, `iffy` lexes as the keyword
      `if` followed by the identifier `fy`. */
  lemma KeywordPrefixSplitsIdentifier()
    ensures var table := [LexDef(['i' as int, 'f' as int], KEYWORD)];
      Lex(table, ['i' as int, 'f' as int, 'f' as int, 'y' as int, 0]) ==
      Outcome([Token(KEYWORD, Text(['i' as int, 'f' as int]), 1, 1),
               Token(IDENTIFIER, Text(['f' as int, 'y' as int]), 1, 3)], [], Finished)
  {
    var table := [LexDef(['i' as int, 'f' as int], KEYWORD)];
    var buf: seq<Byte> := ['i' as int, 'f' as int, 'f' as int, 'y' as int, 0];
    assert buf[0..2] == table[0].str;
    assert FirstMatch(table, buf, 0, 0) == Some(0);
    assert buf[2..4][0] != table[0].str[0];
    assert FirstMatch(table, buf, 2, 0) == None;
    assert IdentEnd(buf, 2) == 4;
    assert buf[2..4] == ['f' as int, 'y' as int];
    assert Step(table, buf, Cursor(0, 1, 0)) == Emit(Token(KEYWORD, Text(['i' as int, 'f' as int]), 1, 1), 2);
    assert Step(table, buf, Cursor(2, 1, 0)) == Emit(Token(IDENTIFIER, Text(['f' as int, 'y' as int]), 1, 3), 4);
    RunAtEnd(table, buf, Cursor(4, 1, 0));
    assert Run(table, buf, Cursor(2, 1, 0)) ==
      Outcome([Token(IDENTIFIER, Text(['f' as int, 'y' as int]), 1, 3)], [], Finished);
  }

  /** The first entry in table order wins, not the longest: with `<` listed
      before `<=`, the input `<=` lexes as `<` and then `=`. */
  lemma FirstEntryWinsOverLongest()
    ensures var table := [LexDef(['<' as int], LESS), LexDef(['<' as int, '=' as int], LESS_EQ),
                          LexDef(['=' as int], EQUAL)];
      Lex(table, ['<' as int, '=' as int, 0]) ==
      Outcome([Token(LESS, Text(['<' as int]), 1, 1), Token(EQUAL, Text(['=' as int]), 1, 2)], [], Finished)
  {
    var table := [LexDef(['<' as int], LESS), LexDef(['<' as int, '=' as int], LESS_EQ),
                  LexDef(['=' as int], EQUAL)];
    var buf: seq<Byte> := ['<' as int, '=' as int, 0];
    assert buf[0..1] == table[0].str;
    assert FirstMatch(table, buf, 0, 0) == Some(0);
    assert buf[1..2] == table[2].str;
    assert !Matches(table[0].str, buf, 1) by { assert buf[1..2][0] != table[0].str[0]; }
    assert !Matches(table[1].str, buf, 1) by { assert buf[1..3][0] != table[1].str[0]; }
    assert Matches(table[2].str, buf, 1);
    assert FirstMatch(table, buf, 1, 2) == Some(2);
    assert FirstMatch(table, buf, 1, 1) == Some(2);
    assert FirstMatch(table, buf, 1, 0) == Some(2);
    assert Step(table, buf, Cursor(0, 1, 0)) == Emit(Token(LESS, Text(['<' as int]), 1, 1), 1);
    assert Step(table, buf, Cursor(1, 1, 0)) == Emit(Token(EQUAL, Text(['=' as int]), 1, 2), 2);
    RunAtEnd(table, buf, Cursor(2, 1, 0));
    assert Run(table, buf, Cursor(1, 1, 0)) == Outcome([Token(EQUAL, Text(['=' as int]), 1, 2)], [], Finished);
  }

  /** A newline moves later tokens to the next line and restarts columns:
      `a` NL ` b` gives `a` at 1:1 and `b` at 2:2. */
  lemma NewlineRestartsColumns()
    ensures Lex([], ['a' as int, '\n' as int, ' ' as int, 'b' as int, 0]) ==
      Outcome([Token(IDENTIFIER, Text(['a' as int]), 1, 1),
               Token(IDENTIFIER, Text(['b' as int]), 2, 2)], [], Finished)
  {
    var buf: seq<Byte> := ['a' as int, '\n' as int, ' ' as int, 'b' as int, 0];
    assert IdentEnd(buf, 0) == 1;
    assert SkipSpace(buf, Cursor(3, 2, 2)) == Cursor(3, 2, 2);
    assert SkipSpace(buf, Cursor(2, 2, 2)) == Cursor(3, 2, 2);
    assert SkipSpace(buf, Cursor(1, 1, 0)) == Cursor(3, 2, 2);
    assert IdentEnd(buf, 3) == 4;
    assert buf[0..1] == ['a' as int] && buf[3..4] == ['b' as int];
    assert Step([], buf, Cursor(0, 1, 0)) == Emit(Token(IDENTIFIER, Text(['a' as int]), 1, 1), 1);
    assert Step([], buf, Cursor(3, 2, 2)) == Emit(Token(IDENTIFIER, Text(['b' as int]), 2, 2), 4);
    RunAtEnd([], buf, Cursor(4, 2, 2));
    assert Run([], buf, Cursor(1, 1, 0)) == Outcome([Token(IDENTIFIER, Text(['b' as int]), 2, 2)], [], Finished);
  }

  /** Only the whitespace loop counts lines: a raw newline between single
      quotes is taken as the char's byte, so `'` NL `'a` gives the CHAR
      holding a newline at 1:1 and `a` still on line 1, at column 4. */
  lemma RawNewlineInCharKeepsLine()
    ensures Lex([], ['\'' as int, '\n' as int, '\'' as int, 'a' as int, 0]) ==
      Outcome([Token(CHAR, Char('\n' as int), 1, 1),
               Token(IDENTIFIER, Text(['a' as int]), 1, 4)], [], Finished)
  {
    var buf: seq<Byte> := ['\'' as int, '\n' as int, '\'' as int, 'a' as int, 0];
    assert IdentEnd(buf, 3) == 4;
    assert buf[3..4] == ['a' as int];
    assert Step([], buf, Cursor(0, 1, 0)) == Emit(Token(CHAR, Char('\n' as int), 1, 1), 3);
    assert Step([], buf, Cursor(3, 1, 0)) == Emit(Token(IDENTIFIER, Text(['a' as int]), 1, 4), 4);
    RunAtEnd([], buf, Cursor(4, 1, 0));
    assert Run([], buf, Cursor(3, 1, 0)) == Outcome([Token(IDENTIFIER, Text(['a' as int]), 1, 4)], [], Finished);
  }

  /** A byte no branch takes is reported and skipped. */
  lemma UnknownByteReported()
    ensures Lex([], ['#' as int, 0]) == Outcome([], [UnknownChar('#' as int)], Finished)
  {
    RunAtEnd([], ['#' as int, 0], Cursor(1, 1, 0));
  }
}
