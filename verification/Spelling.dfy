/** Writing programs as text: spelling tokens, with white space between them, is undone by the lexer,
    and so printing a program is undone by lexing and parsing it. */
module Spelling {
  import opened Characters
  import opened Numbers
  import opened Grammar
  import opened Reading
  import opened Scanning

  predicate IsIdentifier(s: string) {
    s != [] && IsAlpha(s[0]) && (forall i :: 0 <= i < |s| ==> IsNameChar(s[i])) && KeywordOrName(s) == Ident(s)
  }

  predicate IsIntText(s: string) {
    Digits(s) != [] && AllDigits(Digits(s))
  }

  /** Every token but the end marker and a stray character has a spelling; string contents are any. */
  predicate Spellable(t: Token) {
    (t.Ident? ==> IsIdentifier(t.name)) && (t.IntTok? ==> IsIntText(t.lexeme)) && (t.FloatTok? ==> FloatValue(t.lexeme).Some?) &&
    !t.Eof? && !t.Unknown?
  }

  function EscapeChar(c: char): string {
    if c == '\n' then "\\n" else if c == '\t' then "\\t" else if c == '\r' then "\\r"
    else if c == '"' || c == '\\' then ['\\', c] else [c]
  }

  function Escape(s: string): string {
    if s == [] then [] else EscapeChar(s[0]) + Escape(s[1..])
  }

  function Spelling(t: Token): string {
    match t
    case Ident(n) => n
    case IntTok(s) => s
    case FloatTok(s) => s
    case StringTok(s) => "\"" + Escape(s) + "\""
    case KwImport => "import"
    case KwSchema => "schema"
    case KwSection => "section"
    case KwEnum => "enum"
    case KwTrue => "true"
    case KwFalse => "false"
    case LBrace => "{"
    case RBrace => "}"
    case LBracket => "["
    case RBracket => "]"
    case LParen => "("
    case RParen => ")"
    case Colon => ":"
    case Comma => ","
    case Lt => "<"
    case Gt => ">"
    case Dot => "."
    case EqEq => "=="
    case DotDot => ".."
    case Eof => ""
    case Unknown => ""
  }

  // ----- Runs of characters -----

  lemma {:induction false} RunOver(k: Run, a: string, rest: string)
    requires forall i :: 0 <= i < |a| ==> InRun(k, a[i])
    requires rest == [] || !InRun(k, rest[0])
    ensures RunLength(k, a + rest) == |a|
    decreases |a|
  {
    if a == [] {
      assert a + rest == rest;
    } else {
      assert (a + rest)[1..] == a[1..] + rest;
      RunOver(k, a[1..], rest);
    }
  }

  lemma {:induction false} SkipOver(gap: string, rest: string)
    requires forall i :: 0 <= i < |gap| ==> IsSpace(gap[i])
    ensures SkipLength(gap + rest) == |gap| + SkipLength(rest)
    decreases |gap|
  {
    if gap == [] {
      assert gap + rest == rest;
    } else {
      assert (gap + rest)[1..] == gap[1..] + rest;
      SkipOver(gap[1..], rest);
    }
  }

  // ----- Strings -----

  lemma EscapedCharIsRead(c: char, rest: string)
    ensures Unescape(EscapeChar(c) + rest) == [c] + Unescape(rest)
    ensures StringLength(EscapeChar(c) + rest) == |EscapeChar(c)| + StringLength(rest)
  {
    var e := EscapeChar(c);
    assert (e + rest)[|e|..] == rest;
  }

  lemma {:induction false} EscapeIsUndone(s: string)
    ensures Unescape(Escape(s)) == s
    decreases |s|
  {
    if s != [] {
      EscapeIsUndone(s[1..]);
      EscapedCharIsRead(s[0], Escape(s[1..]));
    }
  }

  /** Escaping hides every quote, so the closing one is found. */
  lemma {:induction false} QuoteIsFound(s: string, rest: string)
    ensures StringLength(Escape(s) + ("\"" + rest)) == |Escape(s)| + 1
    decreases |s|
  {
    var close := "\"" + rest;
    if s == [] {
      assert Escape(s) + close == close;
    } else {
      QuoteIsFound(s[1..], rest);
      EscapedCharIsRead(s[0], Escape(s[1..]) + close);
      assert Escape(s) + close == EscapeChar(s[0]) + (Escape(s[1..]) + close);
    }
  }

  lemma ScanString(s: string, rest: string)
    ensures Scan(Spelling(StringTok(s)) + rest) == Scanned(StringTok(s), |Spelling(StringTok(s))|)
  {
    var w := Spelling(StringTok(s));
    var t := w + rest;
    EscapeIsUndone(s);
    QuoteIsFound(s, rest);
    assert t[1..] == Escape(s) + ("\"" + rest);
    assert t[1..|w| - 1] == Escape(s);
    assert t[0] == '"' && !IsAlpha(t[0]) && !StartsNumber(t);
  }

  // ----- Names and keywords -----

  predicate AllNameChars(s: string) {
    forall i :: 0 <= i < |s| ==> IsNameChar(s[i])
  }

  lemma ScanWord(w: string, rest: string)
    requires w != [] && IsAlpha(w[0]) && AllNameChars(w)
    requires rest == [] || !IsNameChar(rest[0])
    ensures Scan(w + rest) == Scanned(KeywordOrName(w), |w|)
  {
    var t := w + rest;
    assert t[1..] == w[1..] + rest;
    RunOver(NameRun, w[1..], rest);
    assert t[..|w|] == w;
  }

  predicate IsKeyword(t: Token) {
    t.KwImport? || t.KwSchema? || t.KwSection? || t.KwEnum? || t.KwTrue? || t.KwFalse?
  }

  lemma ScanKeyword(t: Token, rest: string)
    requires IsKeyword(t)
    requires rest == [] || !IsNameChar(rest[0])
    ensures Scan(Spelling(t) + rest) == Scanned(t, |Spelling(t)|)
  {
    ScanWord(Spelling(t), rest);
    KeywordsAreFound(t);
  }

  lemma KeywordsAreFound(t: Token)
    requires IsKeyword(t)
    ensures KeywordOrName(Spelling(t)) == t
  {
    assert "schema"[0] != "import"[0] && "section"[2] != "schema"[2] && "true"[0] != "enum"[0] && "false"[0] != "enum"[0];
  }

  // ----- Numbers -----

  /** What may follow a whole number without becoming a part of it: a range may. */
  predicate EndsNumber(rest: string) {
    rest == [] || (!IsDigit(rest[0]) && !StartsFraction(rest))
  }

  /** The sign and the digits of a number are taken together. */
  lemma WholePart(w: string, rest: string)
    requires IsIntText(w) && (rest == [] || !IsDigit(rest[0]))
    ensures StartsNumber(w + rest) && 1 + RunLength(DigitRun, (w + rest)[1..]) == |w|
    ensures (w + rest)[|w|..] == rest && (w + rest)[..|w|] == w
    ensures (w + rest)[0] == w[0] && (w[0] == '-' || IsDigit(w[0]))
  {
    assert IsDigit(Digits(w)[0]);
    assert forall i :: 0 <= i < |w[1..]| ==> w[1..][i] == Digits(w)[if Digits(w) == w then i + 1 else i];
    RunOver(DigitRun, w[1..], rest);
    assert (w + rest)[1..] == w[1..] + rest;
  }

  lemma ScanInt(s: string, rest: string)
    requires IsIntText(s) && EndsNumber(rest)
    ensures Scan(s + rest) == Scanned(IntTok(s), |s|) && !IsSpace(s[0]) && s[0] != '/'
  {
    WholePart(s, rest);
  }

  lemma {:induction false} PointSplits(u: string)
    ensures (var p := PointAt(u); (p < |u| ==> u[p] == '.') && forall i :: 0 <= i < p ==> u[i] != '.')
    decreases |u|
  {
    if u != [] && u[0] != '.' {
      PointSplits(u[1..]);
    }
  }

  /** The parts of a decimal on either side of its point. */
  lemma DecimalParts(s: string) returns (w: string, d: string)
    requires FloatValue(s).Some?
    ensures s == w + ("." + d) && IsIntText(w) && d != [] && AllDigits(d)
  {
    var u := Digits(s);
    var p := PointAt(u);
    PointSplits(u);
    var n := |s| - |u| + p;
    w, d := s[..n], s[n + 1..];
    assert d == u[p + 1..];
    assert u[..p][0] == u[0];
    assert Digits(w) == u[..p];
  }

  lemma ScanDecimal(w: string, d: string, rest: string)
    requires IsIntText(w) && d != [] && AllDigits(d) && (rest == [] || !IsDigit(rest[0]))
    ensures (var t := w + ("." + (d + rest));
             StartsNumber(t) && ScanNumber(t) == Scanned(FloatTok(t[..|w| + 1 + |d|]), |w| + 1 + |d|))
    ensures w[0] == '-' || IsDigit(w[0])
  {
    var fraction := "." + (d + rest);
    WholePart(w, fraction);
    assert fraction[1] == d[0];
    assert (w + fraction)[|w| + 1..] == d + rest;
    RunOver(DigitRun, d, rest);
  }

  lemma ScanFloat(s: string, rest: string)
    requires FloatValue(s).Some? && (rest == [] || !IsDigit(rest[0]))
    ensures Scan(s + rest) == Scanned(FloatTok(s), |s|) && !IsSpace(s[0]) && s[0] != '/'
  {
    var w, d := DecimalParts(s);
    ScanDecimal(w, d, rest);
    DecimalJoined(s, w, d, rest);
    assert !IsAlpha(w[0]);
  }

  lemma DecimalJoined(s: string, w: string, d: string, rest: string)
    requires w != [] && s == w + ("." + d)
    ensures s + rest == w + ("." + (d + rest)) && |s| == |w| + 1 + |d|
    ensures (s + rest)[..|s|] == s && s[0] == (s + rest)[0] == w[0]
  {
  }

  // ----- Any token -----

  /** What may follow a token without a space between. */
  predicate Separated(t: Token, rest: string) {
    rest == [] || IsSpace(rest[0]) ||
    (if t.Ident? || IsKeyword(t) then !IsNameChar(rest[0])
     else if t.IntTok? then EndsNumber(rest)
     else if t.FloatTok? then !IsDigit(rest[0])
     else t.Dot? ==> rest[0] != '.')
  }

  /** Each token is read back from its spelling when what follows is separate from it. */
  lemma ScanSpelling(t: Token, rest: string)
    requires Spellable(t) && Separated(t, rest)
    ensures Scan(Spelling(t) + rest) == Scanned(t, |Spelling(t)|)
    ensures StartsToken(Spelling(t) + rest)
  {
    var s := Spelling(t) + rest;
    match t
    case Ident(n) =>
      ScanWord(n, rest);
    case IntTok(n) =>
      ScanInt(n, rest);
      assert s[0] == n[0];
    case FloatTok(n) =>
      ScanFloat(n, rest);
      assert s[0] == n[0];
    case StringTok(n) =>
      ScanString(n, rest);
    case _ =>
      if IsKeyword(t) {
        ScanKeyword(t, rest);
      } else {
        ScanMark(t, rest);
      }
  }

  predicate IsMark(t: Token) {
    t.LBrace? || t.RBrace? || t.LBracket? || t.RBracket? || t.LParen? || t.RParen? || t.Colon? || t.Comma? ||
    t.Lt? || t.Gt? || t.Dot? || t.EqEq? || t.DotDot?
  }

  lemma ScanMark(t: Token, rest: string)
    requires IsMark(t) && (t == Dot ==> rest == [] || rest[0] != '.')
    ensures Scan(Spelling(t) + rest) == Scanned(t, |Spelling(t)|)
    ensures StartsToken(Spelling(t) + rest)
  {
    var s := Spelling(t) + rest;
    assert s[0] == Spelling(t)[0];
    assert !IsAlpha(s[0]) && !StartsNumber(s);
    if t.EqEq? || t.DotDot? {
      assert s[1] == Spelling(t)[1];
    } else if t.Dot? && rest != [] {
      assert s[1] == rest[0];
    }
  }

  // ----- Whole texts -----

  /** A token and the white space written after it. */
  datatype Written = Written(token: Token, gap: string)

  predicate IsGap(gap: string) {
    forall i :: 0 <= i < |gap| ==> IsSpace(gap[i])
  }

  predicate WellSpaced(ws: seq<Written>) {
    ws != [] ==>
      Spellable(ws[0].token) && IsGap(ws[0].gap) && Separated(ws[0].token, ws[0].gap + TextOf(ws[1..])) && WellSpaced(ws[1..])
  }

  function TextOf(ws: seq<Written>): string {
    if ws == [] then [] else Spelling(ws[0].token) + (ws[0].gap + TextOf(ws[1..]))
  }

  function TokensWritten(ws: seq<Written>): seq<Token> {
    if ws == [] then [] else [ws[0].token] + TokensWritten(ws[1..])
  }

  function TokensLexed(xs: seq<Lexeme>): seq<Token> {
    if xs == [] then [] else [xs[0].token] + TokensLexed(xs[1..])
  }

  lemma TokensLexedFrom(source: string, pos: nat)
    requires pos <= |source|
    ensures (var x := NextLexeme(source, pos);
             TokensLexed(LexFrom(source, pos)) == [x.token] + if x.token.Eof? then [] else TokensLexed(LexFrom(source, x.end)))
  {
    var x := NextLexeme(source, pos);
    if x.token.Eof? {
      assert TokensLexed([x][1..]) == [];
    } else {
      assert ([x] + LexFrom(source, x.end))[1..] == LexFrom(source, x.end);
    }
  }

  lemma AfterGap(source: string, pos: nat, gap: string, here: string)
    requires pos <= |source| && IsGap(gap) && source[pos..] == gap + here && StartsToken(here)
    ensures SkipLength(source[pos..]) == |gap|
    ensures pos + |gap| + |here| == |source| && source[pos + |gap|..] == here
  {
    SkipOver(gap, here);
    assert SkipLength(here) == 0;
    assert source[pos + |gap|..] == source[pos..][|gap|..] == here;
  }

  /** The next lexeme when blanks and then the text of a token are ahead. */
  lemma NextIs(source: string, pos: nat, gap: string, w: string, t: Token, rest: string)
    requires pos <= |source| && IsGap(gap) && source[pos..] == gap + (w + rest)
    requires w != [] && Scan(w + rest) == Scanned(t, |w|) && StartsToken(w + rest)
    ensures (var x := NextLexeme(source, pos);
             x.token == t && x.end == pos + |gap| + |w| && x.end <= |source| && source[x.end..] == rest)
  {
    var here := w + rest;
    var start := pos + |gap|;
    AfterGap(source, pos, gap, here);
    AfterPrefix(source, start, w, rest);
    assert Scan(source[start..]) == Scanned(t, start + |w| - start);
    NextAt(source, pos, start, t, start + |w|);
  }

  lemma AfterPrefix(source: string, start: nat, w: string, rest: string)
    requires start <= |source| && source[start..] == w + rest
    ensures start + |w| <= |source| && source[start + |w|..] == rest
  {
    assert source[start + |w|..] == source[start..][|w|..];
  }

  lemma NextIsEnd(source: string, pos: nat)
    requires pos <= |source| && IsGap(source[pos..])
    ensures NextLexeme(source, pos).token.Eof?
  {
    SkipOver(source[pos..], []);
    assert source[pos..] + [] == source[pos..];
  }

  lemma TokensAfter(source: string, pos: nat, t: Token, end: nat)
    requires pos <= |source| && !t.Eof? && NextLexeme(source, pos).token == t && NextLexeme(source, pos).end == end
    ensures end <= |source| && TokensLexed(LexFrom(source, pos)) == [t] + TokensLexed(LexFrom(source, end))
  {
    TokensLexedFrom(source, pos);
  }

  /** However the tokens are spaced, as long as none runs into the next, lexing gives them back. */
  lemma {:induction false} LexingUndoesSpelling(source: string, pos: nat, gap: string, ws: seq<Written>)
    requires pos <= |source| && IsGap(gap) && WellSpaced(ws) && source[pos..] == gap + TextOf(ws)
    ensures TokensLexed(LexFrom(source, pos)) == TokensWritten(ws) + [Eof]
    decreases |ws|
  {
    if ws == [] {
      assert source[pos..] == gap;
      NextIsEnd(source, pos);
      TokensLexedFrom(source, pos);
    } else {
      var t, rest := ws[0].token, ws[0].gap + TextOf(ws[1..]);
      ScanSpelling(t, rest);
      SpellingIsNotEmpty(t);
      NextIs(source, pos, gap, Spelling(t), t, rest);
      var end := pos + |gap| + |Spelling(t)|;
      assert source[end..] == rest;
      TokensAfter(source, pos, t, end);
      LexingUndoesSpelling(source, end, ws[0].gap, ws[1..]);
      Regroup([t], TokensWritten(ws[1..]), [Eof]);
    }
  }

  lemma SpellingIsNotEmpty(t: Token)
    requires Spellable(t)
    ensures Spelling(t) != []
  {
  }

  /** Printing a program, with any commas, any omitted empty blocks and any spacing that keeps the
      tokens apart, and then lexing and parsing the text gives back the very program. */
  lemma PrintingIsUndone(p: ProgramTree, gap: string, ws: seq<Written>)
    requires SchemasWritable(p.schemas) && TokensWritten(ws) == ProgramTokens(p)
    requires IsGap(gap) && WellSpaced(ws)
    ensures ReadProgram(TokensLexed(LexFrom(gap + TextOf(ws), 0))) == Done(p, [Eof])
  {
    var source := gap + TextOf(ws);
    assert source[0..] == source;
    LexingUndoesSpelling(source, 0, gap, ws);
    ProgramReadsBack(p, [Eof]);
  }

  /** `a..b` needs no spaces: two whole numbers and a range mark, never a decimal. */
  lemma RangesLexTight(a: string, b: string)
    requires IsIntText(a) && IsIntText(b)
    ensures TokensLexed(LexFrom(a + (".." + b), 0)) == [IntTok(a), DotDot, IntTok(b)] + [Eof]
  {
    var ws := [Written(IntTok(a), []), Written(DotDot, []), Written(IntTok(b), [])];
    RangeIsWritten(a, b);
    assert TextOf(ws)[0..] == [] + TextOf(ws);
    LexingUndoesSpelling(TextOf(ws), 0, [], ws);
  }

  lemma OneWritten(t: Token, more: seq<Written>)
    requires Spellable(t) && Separated(t, TextOf(more)) && WellSpaced(more)
    ensures (var ws := [Written(t, [])] + more;
             WellSpaced(ws) && TextOf(ws) == Spelling(t) + TextOf(more) && TokensWritten(ws) == [t] + TokensWritten(more))
  {
    var ws := [Written(t, [])] + more;
    assert ws[1..] == more && [] + TextOf(more) == TextOf(more);
  }

  lemma RangeIsWritten(a: string, b: string)
    requires IsIntText(a) && IsIntText(b)
    ensures (var ws := [Written(IntTok(a), []), Written(DotDot, []), Written(IntTok(b), [])];
             WellSpaced(ws) && TextOf(ws) == a + (".." + b) && TokensWritten(ws) == [IntTok(a), DotDot, IntTok(b)])
  {
    var last := [Written(IntTok(b), [])];
    OneWritten(IntTok(b), []);
    assert [Written(IntTok(b), [])] + [] == last && b + [] == b;
    OneWritten(DotDot, last);
    OneWritten(IntTok(a), [Written(DotDot, [])] + last);
    assert [Written(IntTok(a), [])] + ([Written(DotDot, [])] + last)
        == [Written(IntTok(a), []), Written(DotDot, []), Written(IntTok(b), [])];
  }

  // ----- What the lexer can produce -----

  /** A scanned number has the exact form of a numeral, so a whole one is refused by the parser only
      when its value does not fit, and a decimal never is. */
  lemma ScannedNumerals(s: string)
    requires StartsNumber(s)
    ensures (var t := ScanNumber(s).token;
             if t.IntTok? then IsIntText(t.lexeme) && Denotes(t.lexeme).Some? else FloatValue(t.lexeme).Some?)
  {
    var n := 1 + RunLength(DigitRun, s[1..]);
    var w := s[..n];
    RunStops(DigitRun, s[1..]);
    WholeIsNumeral(s, n);
    if StartsFraction(s[n..]) {
      FractionIsNumeral(s, n);
      assert ScanNumber(s).token == FloatTok(s[..n + 1 + RunLength(DigitRun, s[n + 1..])]);
    } else {
      assert ScanNumber(s).token == IntTok(w);
    }
  }

  lemma FractionIsNumeral(s: string, n: nat)
    requires n <= |s| && IsIntText(s[..n]) && StartsFraction(s[n..])
    ensures FloatValue(s[..n + 1 + RunLength(DigitRun, s[n + 1..])]).Some?
  {
    var k := RunLength(DigitRun, s[n + 1..]);
    RunStops(DigitRun, s[n + 1..]);
    assert s[n..][1] == s[n + 1..][0];
    var d := s[n + 1..][..k];
    assert forall i :: 0 <= i < k ==> d[i] == s[n + 1..][i];
    assert s[..n + 1 + k] == s[..n] + "." + d;
    DecimalFromParts(s[..n], d);
  }

  lemma WholeIsNumeral(s: string, n: nat)
    requires StartsNumber(s) && n == 1 + RunLength(DigitRun, s[1..])
    ensures IsIntText(s[..n])
  {
    var w := s[..n];
    RunStops(DigitRun, s[1..]);
    if s[0] == '-' {
      assert s[1..][0] == s[1] && n > 1;
      assert forall i :: 0 <= i < n - 1 ==> w[1..][i] == s[1..][i];
    } else {
      assert forall i :: 0 < i < n ==> w[i] == s[1..][i - 1];
    }
  }

  lemma DecimalFromParts(w: string, d: string)
    requires IsIntText(w) && d != [] && AllDigits(d)
    ensures FloatValue(w + "." + d).Some?
  {
    var s, u := w + "." + d, Digits(w);
    assert s[0] == w[0];
    assert Digits(s) == u + ("." + d);
    PointBehind(u, d);
    assert (u + ("." + d))[..|u|] == u && (u + ("." + d))[|u| + 1..] == d;
  }

  lemma {:induction false} PointBehind(u: string, d: string)
    requires AllDigits(u)
    ensures PointAt(u + ("." + d)) == |u|
    decreases |u|
  {
    if u == [] {
      assert u + ("." + d) == "." + d;
    } else {
      assert (u + ("." + d))[1..] == u[1..] + ("." + d);
      PointBehind(u[1..], d);
    }
  }

  lemma ScannedWord(s: string)
    requires s != [] && IsAlpha(s[0])
    ensures Spellable(Scan(s).token)
  {
    var n := 1 + RunLength(NameRun, s[1..]);
    var w := s[..n];
    RunStops(NameRun, s[1..]);
    assert forall i :: 0 < i < n ==> w[i] == s[1..][i - 1];
    assert w in KEYWORDS ==> IsKeyword(KEYWORDS[w]);
  }

  /** Only stray characters are scanned into something that cannot be spelled. */
  lemma ScannedIsSpellable(s: string)
    requires s != []
    ensures Scan(s).token.Unknown? || Spellable(Scan(s).token)
  {
    if IsAlpha(s[0]) {
      ScannedWord(s);
    } else if StartsNumber(s) {
      ScannedNumerals(s);
    }
  }

  /** A finished token list, every token of which can be spelled. */
  predicate Complete(ts: seq<Token>) {
    ts != [] && ts[|ts| - 1].Eof? && AllSpellable(ts[..|ts| - 1])
  }

  lemma CompleteGrows(t: Token, ts: seq<Token>)
    requires Complete(ts) && Spellable(t)
    ensures Complete([t] + ts)
  {
    assert ([t] + ts)[..|ts|] == [t] + ts[..|ts| - 1];
  }

  lemma NextIsSpellable(source: string, pos: nat)
    requires pos <= |source|
    ensures (var t := NextLexeme(source, pos).token; t.Eof? || t.Unknown? || Spellable(t))
  {
    var start := pos + SkipLength(source[pos..]);
    if start < |source| {
      ScannedIsSpellable(source[start..]);
      NextIsScanned(source, pos, start);
    }
  }

  lemma LexedTail(source: string, pos: nat, ts: seq<Token>)
    requires pos <= |source| && ts == TokensLexed(LexFrom(source, pos))
    ensures ts != [] && ts[0] == NextLexeme(source, pos).token
    ensures ts[1..] == if ts[0].Eof? then [] else TokensLexed(LexFrom(source, NextLexeme(source, pos).end))
  {
    TokensLexedFrom(source, pos);
  }

  lemma {:induction false} LexedIsSpellable(source: string, pos: nat, ts: seq<Token>)
    requires pos <= |source| && ts == TokensLexed(LexFrom(source, pos)) && Unknown !in ts
    ensures Complete(ts)
    decreases |source| - pos
  {
    LexedTail(source, pos, ts);
    if !ts[0].Eof? {
      NextIsSpellable(source, pos);
      LexedIsSpellable(source, NextLexeme(source, pos).end, ts[1..]);
      CompleteGrows(ts[0], ts[1..]);
      assert ts == [ts[0]] + ts[1..];
    }
  }

  predicate AllSpellable(ts: seq<Token>) {
    forall i :: 0 <= i < |ts| ==> Spellable(ts[i])
  }

  function Spaced(ts: seq<Token>): seq<Written> {
    if ts == [] then [] else [Written(ts[0], " ")] + Spaced(ts[1..])
  }

  lemma {:induction false} SpacedIsWellSpaced(ts: seq<Token>)
    requires AllSpellable(ts)
    ensures WellSpaced(Spaced(ts)) && TokensWritten(Spaced(ts)) == ts
    decreases |ts|
  {
    if ts != [] {
      SpacedIsWellSpaced(ts[1..]);
      assert Spaced(ts)[1..] == Spaced(ts[1..]);
    }
  }

  lemma SpacedLexesBack(ts: seq<Token>)
    requires AllSpellable(ts)
    ensures TokensLexed(LexFrom(TextOf(Spaced(ts)), 0)) == ts + [Eof]
  {
    var text := TextOf(Spaced(ts));
    SpacedIsWellSpaced(ts);
    assert text[0..] == [] + text;
    LexingUndoesSpelling(text, 0, [], Spaced(ts));
  }

  /** Normalising a source, that is dropping its comments and printing its tokens with single spaces,
      changes nothing for the parser; this holds of every source without stray characters. */
  lemma NormalisingKeepsTheTokens(source: string, ts: seq<Token>)
    requires ts == TokensLexed(LexFrom(source, 0)) && Unknown !in ts
    ensures ts != [] && TokensLexed(LexFrom(TextOf(Spaced(ts[..|ts| - 1])), 0)) == ts
  {
    LexedIsSpellable(source, 0, ts);
    var body := ts[..|ts| - 1];
    assert ts == body + [Eof];
    SpacedLexesBack(body);
  }
}
