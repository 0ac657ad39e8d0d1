/** Lexical structure, as functions of the text still to come: how far blanks reach, where a token
    ends, and what it is. */
module Scanning {
  import opened Characters
  import opened Grammar

  predicate IsAlpha(c: char) { c == '_' || IsLetter(c) }

  /** The kinds of characters the lexer runs over. */
  datatype Run = NameRun | DigitRun | LineRun

  predicate InRun(k: Run, c: char) {
    match k
    case NameRun => IsNameChar(c)
    case DigitRun => IsDigit(c)
    case LineRun => c != '\n'
  }

  /** The length of the longest prefix whose characters are all of one kind. */
  function RunLength(k: Run, s: string): (n: nat)
    ensures n <= |s|
  {
    if s == [] || !InRun(k, s[0]) then 0 else 1 + RunLength(k, s[1..])
  }

  // ----- Blanks and comments -----

  predicate Opens(s: string, mark: char) {
    |s| > 1 && s[0] == '/' && s[1] == mark
  }

  predicate Closes(s: string) {
    |s| > 1 && s[0] == '*' && s[1] == '/'
  }

  /** Inside a block comment: up to and with its end, or to the end of the source. */
  function BlockLength(s: string): (n: nat)
    ensures n <= |s|
  {
    if s == [] then 0 else if Closes(s) then 2 else 1 + BlockLength(s[1..])
  }

  function SkipLength(s: string): (n: nat)
    ensures n <= |s|
    decreases |s|
  {
    if s == [] then 0
    else if IsSpace(s[0]) then 1 + SkipLength(s[1..])
    else if Opens(s, '/') then
      var n := 2 + RunLength(LineRun, s[2..]);
      n + SkipLength(s[n..])
    else if Opens(s, '*') then
      var n := 2 + BlockLength(s[2..]);
      n + SkipLength(s[n..])
    else 0
  }

  // ----- Tokens -----

  /** The reserved words, interned before anything else. */
  const KEYWORDS: map<string, Token> :=
    map["import" := KwImport, "schema" := KwSchema, "section" := KwSection, "enum" := KwEnum, "true" := KwTrue, "false" := KwFalse]

  function KeywordOrName(s: string): Token {
    if s in KEYWORDS then KEYWORDS[s] else Ident(s)
  }

  /** After an opening quote: up to and with the closing quote, or to the end of the source. A
      backslash takes the next character with it. */
  function StringLength(s: string): (n: nat)
    ensures n <= |s|
    decreases |s|
  {
    if s == [] then 0
    else if s[0] == '"' then 1
    else if s[0] == '\\' && |s| > 1 then 2 + StringLength(s[2..])
    else 1 + StringLength(s[1..])
  }

  function Unescape(s: string): string
    decreases |s|
  {
    if s == [] then []
    else if s[0] == '\\' && |s| > 1 then [Unescaped(s[1])] + Unescape(s[2..])
    else [s[0]] + Unescape(s[1..])
  }

  function Unescaped(c: char): char {
    if c == 'n' then '\n' else if c == 't' then '\t' else if c == 'r' then '\r' else c
  }

  datatype Scanned = Scanned(token: Token, len: nat)

  predicate StartsNumber(s: string) {
    s != [] && (IsDigit(s[0]) || (s[0] == '-' && |s| > 1 && IsDigit(s[1])))
  }

  predicate StartsFraction(s: string) {
    |s| > 1 && s[0] == '.' && IsDigit(s[1])
  }

  function ScanNumber(s: string): (r: Scanned)
    requires StartsNumber(s)
    ensures 0 < r.len <= |s|
  {
    var n := 1 + RunLength(DigitRun, s[1..]);
    if StartsFraction(s[n..]) then
      var m := n + 1 + RunLength(DigitRun, s[n + 1..]);
      Scanned(FloatTok(s[..m]), m)
    else Scanned(IntTok(s[..n]), n)
  }

  function Punctuation(c: char): Token {
    match c
    case '{' => LBrace
    case '}' => RBrace
    case '[' => LBracket
    case ']' => RBracket
    case '(' => LParen
    case ')' => RParen
    case '<' => Lt
    case '>' => Gt
    case ':' => Colon
    case ',' => Comma
    case '.' => Dot
    case _ => Unknown
  }

  /** The token at the front of a text that starts with none of the blanks. */
  function Scan(s: string): (r: Scanned)
    requires s != []
    ensures 0 < r.len <= |s| && !r.token.Eof?
  {
    if IsAlpha(s[0]) then
      var n := 1 + RunLength(NameRun, s[1..]);
      Scanned(KeywordOrName(s[..n]), n)
    else if StartsNumber(s) then ScanNumber(s)
    else if s[0] == '"' then
      var n := 1 + StringLength(s[1..]);
      Scanned(StringTok(if n > 1 then Unescape(s[1..n - 1]) else []), n)
    else if |s| > 1 && s[0] == '=' && s[1] == '=' then Scanned(EqEq, 2)
    else if |s| > 1 && s[0] == '.' && s[1] == '.' then Scanned(DotDot, 2)
    else Scanned(Punctuation(s[0]), 1)
  }

  // ----- Positions -----

  /** One more than the newlines before `n`. */
  function LineAt(s: string, n: nat): nat
    requires n <= |s|
  {
    if n == 0 then 1 else LineAt(s, n - 1) + if s[n - 1] == '\n' then 1 else 0
  }

  function ColumnAt(s: string, n: nat): nat
    requires n <= |s|
  {
    if n == 0 || s[n - 1] == '\n' then 1 else ColumnAt(s, n - 1) + 1
  }

  /** The column counts from the last newline before `n`, or from the start. */
  lemma {:induction false} ColumnCountsFromTheLineStart(s: string, n: nat)
    requires n <= |s|
    ensures 1 <= ColumnAt(s, n) <= n + 1
    ensures (var start := n + 1 - ColumnAt(s, n);
             (start == 0 || s[start - 1] == '\n') && forall i :: start <= i < n ==> s[i] != '\n')
  {
    if n > 0 {
      ColumnCountsFromTheLineStart(s, n - 1);
    }
  }

  // ----- Whole sources -----

  datatype Span = Span(startLine: nat, startColumn: nat, endLine: nat, endColumn: nat)

  datatype Lexeme = Lexeme(token: Token, start: nat, end: nat, span: Span)

  function LexemeOf(source: string, token: Token, start: nat, end: nat): Lexeme
    requires start <= end <= |source|
  {
    Lexeme(token, start, end,
           Span(LineAt(source, start), ColumnAt(source, start), LineAt(source, end), ColumnAt(source, end)))
  }

  function ScannedAt(source: string, start: nat, r: Scanned): Lexeme
    requires start + r.len <= |source|
  {
    LexemeOf(source, r.token, start, start + r.len)
  }

  function NextLexeme(source: string, pos: nat): (x: Lexeme)
    requires pos <= |source|
    ensures x.start == pos + SkipLength(source[pos..]) && x.start <= x.end <= |source|
    ensures x == LexemeOf(source, x.token, x.start, x.end)
    ensures if x.token.Eof? then x.end == |source| else x.start < x.end
  {
    var start := pos + SkipLength(source[pos..]);
    if start == |source| then LexemeOf(source, Eof, start, start)
    else ScannedAt(source, start, Scan(source[start..]))
  }

  lemma NextAt(source: string, pos: nat, start: nat, token: Token, end: nat)
    requires pos <= start < end <= |source| && start == pos + SkipLength(source[pos..])
    requires Scanned(token, end - start) == Scan(source[start..])
    ensures NextLexeme(source, pos) == LexemeOf(source, token, start, end)
  {
    NextIsScanned(source, pos, start);
  }

  lemma NextIsScanned(source: string, pos: nat, start: nat)
    requires pos <= start < |source| && start == pos + SkipLength(source[pos..])
    ensures (var r := Scan(source[start..]);
             NextLexeme(source, pos).token == r.token && NextLexeme(source, pos).end == start + r.len)
  {
  }

  function LexFrom(source: string, pos: nat): seq<Lexeme>
    requires pos <= |source|
    decreases |source| - pos
  {
    var x := NextLexeme(source, pos);
    if x.token.Eof? then [x] else [x] + LexFrom(source, x.end)
  }

  // ----- Tiling -----

  /** What may stand between tokens. An open comment reaches the end of the source. */
  datatype Blank = SpaceChar(c: char) | LineComment(body: string) | BlockComment(body: string) | OpenComment(body: string)

  predicate IsBlank(b: Blank) {
    match b
    case SpaceChar(c) => IsSpace(c)
    case LineComment(body) => '\n' !in body
    case BlockComment(body) => Contained(body + "*")
    case OpenComment(body) => Contained(body)
  }

  /** No comment end inside. */
  predicate Contained(body: string) {
    body != [] ==> !Closes(body) && Contained(body[1..])
  }

  function BlankText(b: Blank): string {
    match b
    case SpaceChar(c) => [c]
    case LineComment(body) => "//" + body
    case BlockComment(body) => "/*" + body + "*/"
    case OpenComment(body) => "/*" + body
  }

  function BlanksText(bs: seq<Blank>): string {
    if bs == [] then [] else BlankText(bs[0]) + BlanksText(bs[1..])
  }

  /** A text that starts with neither a blank nor a comment. */
  predicate StartsToken(s: string) {
    s != [] ==> !IsSpace(s[0]) && !Opens(s, '/') && !Opens(s, '*')
  }

  lemma {:induction false} RunStops(k: Run, s: string)
    ensures forall i :: 0 <= i < RunLength(k, s) ==> InRun(k, s[i])
    ensures RunLength(k, s) < |s| ==> !InRun(k, s[RunLength(k, s)])
    decreases |s|
  {
    if s != [] && InRun(k, s[0]) {
      RunStops(k, s[1..]);
    }
  }

  predicate EndsBlock(s: string, n: nat) {
    2 <= n <= |s| && Closes(s[n - 2..]) && Contained(s[..n - 1])
  }

  /** A block comment's inside ends at the first end mark, or runs to the end of the text. */
  lemma {:induction false} BlockStops(s: string)
    ensures EndsBlock(s, BlockLength(s)) || (BlockLength(s) == |s| && Contained(s))
    decreases |s|
  {
    if Closes(s) {
      assert Contained(s[..1]);
    } else if s != [] {
      BlockStops(s[1..]);
      var n := BlockLength(s[1..]);
      if EndsBlock(s[1..], n) {
        assert s[n - 1..] == s[1..][n - 2..];
        assert s[..n][1..] == s[1..][..n - 1];
      }
    }
  }

  /** What is skipped is a run of blanks and comments, and it is skipped to its end. */
  lemma {:induction false} SkipsBlanks(s: string) returns (bs: seq<Blank>)
    ensures BlanksText(bs) == s[..SkipLength(s)] && forall i :: 0 <= i < |bs| ==> IsBlank(bs[i])
    ensures StartsToken(s[SkipLength(s)..])
    decreases |s|
  {
    if s == [] || !(IsSpace(s[0]) || Opens(s, '/') || Opens(s, '*')) {
      bs := [];
    } else {
      var b, n := FirstBlank(s);
      bs := SkipsBlanks(s[n..]);
      var k := SkipLength(s[n..]);
      assert s[n..][..k] == s[n..n + k] && s[..n] + s[n..n + k] == s[..n + k];
      assert s[n..][k..] == s[n + k..];
      bs := [b] + bs;
      assert bs[1..] == bs[1..];
    }
  }

  lemma FirstBlockComment(s: string) returns (b: Blank, n: nat)
    requires Opens(s, '*')
    ensures 0 < n <= |s| && IsBlank(b) && BlankText(b) == s[..n]
    ensures n == 2 + BlockLength(s[2..])
  {
    var m := BlockLength(s[2..]);
    n := 2 + m;
    BlockStops(s[2..]);
    if EndsBlock(s[2..], m) {
      b := BlockComment(s[2..n - 2]);
      assert s[2..][..m - 1] == s[2..n - 2] + "*";
      assert "/*" + s[2..n - 2] + "*/" == s[..n];
    } else {
      b := OpenComment(s[2..]);
      assert "/*" + s[2..] == s[..n];
    }
  }

  lemma FirstBlank(s: string) returns (b: Blank, n: nat)
    requires s != [] && (IsSpace(s[0]) || Opens(s, '/') || Opens(s, '*'))
    ensures 0 < n <= |s| && IsBlank(b) && BlankText(b) == s[..n]
    ensures SkipLength(s) == n + SkipLength(s[n..])
  {
    if IsSpace(s[0]) {
      b, n := SpaceChar(s[0]), 1;
    } else if Opens(s, '/') {
      n := 2 + RunLength(LineRun, s[2..]);
      b := LineComment(s[2..n]);
      RunStops(LineRun, s[2..]);
      assert forall i :: 2 <= i < n ==> s[i] == s[2..][i - 2];
      assert "//" + s[2..n] == s[..n];
    } else {
      b, n := FirstBlockComment(s);
    }
  }

  ghost predicate IsBlankRun(s: string) {
    exists bs :: BlanksText(bs) == s && forall i :: 0 <= i < |bs| ==> IsBlank(bs[i])
  }

  lemma SkippedIsBlank(s: string)
    ensures IsBlankRun(s[..SkipLength(s)]) && StartsToken(s[SkipLength(s)..])
  {
    var bs := SkipsBlanks(s);
  }

  /** Blanks from `pos`, then the lexeme at its right place with its right position. */
  ghost predicate Fits(source: string, pos: nat, x: Lexeme)
    requires pos <= |source|
  {
    pos <= x.start <= x.end <= |source| &&
    IsBlankRun(source[pos..x.start]) && StartsToken(source[x.start..]) &&
    x == LexemeOf(source, x.token, x.start, x.end)
  }

  /** Blanks, a non-empty token, blanks, ..., one end marker at the end of the source. */
  ghost predicate Tiles(source: string, pos: nat, xs: seq<Lexeme>)
    requires pos <= |source|
    decreases |xs|
  {
    xs != [] && Fits(source, pos, xs[0]) &&
    if |xs| == 1 then xs[0].token.Eof? && xs[0].start == xs[0].end == |source|
    else !xs[0].token.Eof? && xs[0].start < xs[0].end && Tiles(source, xs[0].end, xs[1..])
  }

  lemma SkippedInside(source: string, pos: nat)
    requires pos <= |source|
    ensures IsBlankRun(source[pos..pos + SkipLength(source[pos..])])
    ensures StartsToken(source[pos + SkipLength(source[pos..])..])
  {
    var s := source[pos..];
    var n := SkipLength(s);
    SkippedIsBlank(s);
    assert s[..n] == source[pos..pos + n];
    assert s[n..] == source[pos + n..];
  }

  lemma FitsAt(source: string, pos: nat, x: Lexeme)
    requires pos <= |source| && x.start == pos + SkipLength(source[pos..])
    requires x.start <= x.end <= |source| && x == LexemeOf(source, x.token, x.start, x.end)
    ensures Fits(source, pos, x)
  {
    SkippedInside(source, pos);
  }

  lemma {:induction false} LexingTiles(source: string, pos: nat)
    requires pos <= |source|
    ensures Tiles(source, pos, LexFrom(source, pos))
    decreases |source| - pos
  {
    var x := NextLexeme(source, pos);
    FitsAt(source, pos, x);
    if !x.token.Eof? {
      LexingTiles(source, x.end);
      assert ([x] + LexFrom(source, x.end))[1..] == LexFrom(source, x.end);
    }
  }
}
