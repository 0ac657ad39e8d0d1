/** The lexer: a cursor with a line and a column, moved one character at a time. */
module Lexer {
  import opened Characters
  import opened Grammar
  import opened Scanning

  // ----- One step of each scanning function, at a position -----

  lemma RunStep(k: Run, s: string, i: nat)
    requires i <= |s|
    ensures RunLength(k, s[i..]) == if i == |s| || !InRun(k, s[i]) then 0 else 1 + RunLength(k, s[i + 1..])
  {
    assert i < |s| ==> s[i..][1..] == s[i + 1..];
  }

  lemma BlockStep(s: string, i: nat)
    requires i <= |s|
    ensures BlockLength(s[i..]) == if i == |s| then 0 else if Closes(s[i..]) then 2 else 1 + BlockLength(s[i + 1..])
  {
    assert i < |s| ==> s[i..][1..] == s[i + 1..];
  }

  lemma StringStep(s: string, i: nat)
    requires i <= |s|
    ensures StringLength(s[i..]) ==
            if i == |s| then 0
            else if s[i] == '"' then 1
            else if s[i] == '\\' && i + 1 < |s| then 2 + StringLength(s[i + 2..])
            else 1 + StringLength(s[i + 1..])
  {
    assert i < |s| ==> s[i..][1..] == s[i + 1..];
    assert i + 1 < |s| ==> s[i..][2..] == s[i + 2..];
  }

  lemma SkipStep(s: string, i: nat)
    requires i <= |s|
    ensures i < |s| && IsSpace(s[i]) ==> SkipLength(s[i..]) == 1 + SkipLength(s[i + 1..])
    ensures StartsToken(s[i..]) ==> SkipLength(s[i..]) == 0
  {
    var t := s[i..];
    if t != [] && IsSpace(t[0]) {
      assert t[1..] == s[i + 1..];
    }
  }

  lemma CommentAt(source: string, start: nat, end: nat)
    requires start + 2 <= end <= |source| && (Opens(source[start..], '/') || Opens(source[start..], '*'))
    requires end == start + 2 +
                    if source[start + 1] == '/' then RunLength(LineRun, source[start + 2..])
                    else BlockLength(source[start + 2..])
    ensures SkipLength(source[start..]) == end - start + SkipLength(source[end..])
  {
    assert source[start..][1] == source[start + 1];
    if source[start + 1] == '/' {
      LineCommentAt(source, start, end);
    } else {
      BlockCommentAt(source, start, end);
    }
  }

  lemma LineCommentAt(source: string, start: nat, end: nat)
    requires start + 2 <= end <= |source| && Opens(source[start..], '/')
    requires end == start + 2 + RunLength(LineRun, source[start + 2..])
    ensures SkipLength(source[start..]) == end - start + SkipLength(source[end..])
  {
    assert source[start..][2..] == source[start + 2..];
    assert source[start..][end - start..] == source[end..];
  }

  lemma BlockCommentAt(source: string, start: nat, end: nat)
    requires start + 2 <= end <= |source| && Opens(source[start..], '*')
    requires end == start + 2 + BlockLength(source[start + 2..])
    ensures SkipLength(source[start..]) == end - start + SkipLength(source[end..])
  {
    assert source[start..][2..] == source[start + 2..];
    assert source[start..][end - start..] == source[end..];
  }

  /** A number's parts, counted from the start of the source. */
  lemma NumberAt(source: string, start: nat, whole: nat, end: nat)
    requires start < whole <= end <= |source| && StartsNumber(source[start..])
    requires whole == start + 1 + RunLength(DigitRun, source[start + 1..])
    requires end == if StartsFraction(source[whole..]) then whole + 1 + RunLength(DigitRun, source[whole + 1..]) else whole
    ensures StartsFraction(source[whole..]) <==>
            whole + 1 < |source| && source[whole] == '.' && IsDigit(source[whole + 1])
    ensures ScanNumber(source[start..]) ==
            Scanned(if StartsFraction(source[whole..]) then FloatTok(source[start..end]) else IntTok(source[start..end]),
                    end - start)
  {
    var s := source[start..];
    var n := whole - start;
    assert s[1..] == source[start + 1..] && s[n..] == source[whole..];
    assert s[..end - start] == source[start..end];
    if StartsFraction(s[n..]) {
      assert s[n + 1..] == source[whole + 1..];
    }
  }

  lemma LexStep(had: seq<Lexeme>, source: string, pos: nat)
    requires pos <= |source|
    ensures (var x := NextLexeme(source, pos);
             had + LexFrom(source, pos) == had + [x] + if x.token.Eof? then [] else LexFrom(source, x.end))
  {
  }

  lemma UnescapeStep(raw: string, r: nat)
    requires r < |raw|
    ensures Unescape(raw[r..]) ==
            if raw[r] == '\\' && r + 1 < |raw| then [Unescaped(raw[r + 1])] + Unescape(raw[r + 2..])
            else [raw[r]] + Unescape(raw[r + 1..])
  {
    assert raw[r..][1..] == raw[r + 1..];
    assert r + 1 < |raw| ==> raw[r..][2..] == raw[r + 2..];
  }

  lemma Regroup(a: string, b: string, c: string)
    ensures a + (b + c) == (a + b) + c
  {
  }

  /** `unescape_string_into_arena` */
  method UnescapeString(raw: string) returns (out: string)
    ensures out == Unescape(raw)
  {
    out := [];
    var r := 0;
    assert raw[0..] == raw;
    while r < |raw|
      invariant r <= |raw| && Unescape(raw) == out + Unescape(raw[r..])
    {
      UnescapeStep(raw, r);
      if raw[r] == '\\' && r + 1 < |raw| {
        Regroup(out, [Unescaped(raw[r + 1])], Unescape(raw[r + 2..]));
        r := r + 1;
        out := out + [Unescaped(raw[r])];
      } else {
        Regroup(out, [raw[r]], Unescape(raw[r + 1..]));
        out := out + [raw[r]];
      }
      r := r + 1;
    }
  }

  class Lexer {
    const source: string
    var pos: nat
    var line: nat
    var column: nat
    var tokens: seq<Lexeme>

    ghost predicate Valid()
      reads this
    {
      pos <= |source| && line == LineAt(source, pos) && column == ColumnAt(source, pos)
    }

    ghost function Left(): string
      requires pos <= |source|
      reads this
    {
      source[pos..]
    }

    constructor (source: string)
      ensures Valid() && this.source == source && pos == 0 && tokens == []
    {
      this.source := source;
      pos, line, column, tokens := 0, 1, 1, [];
    }

    /** `lexer_advance` does not move at the end. */
    method Advance()
      requires Valid()
      modifies this`pos, this`line, this`column
      ensures Valid() && pos == if old(pos) == |source| then old(pos) else old(pos) + 1
    {
      if pos >= |source| {
        return;
      }
      var c := source[pos];
      pos := pos + 1;
      if c == '\n' {
        line := line + 1;
        column := 1;
      } else {
        column := column + 1;
      }
    }

    method AdvanceWhile(k: Run)
      requires Valid()
      modifies this`pos, this`line, this`column
      ensures Valid() && pos == old(pos) + RunLength(k, old(Left()))
    {
      RunStep(k, source, pos);
      while pos < |source| && InRun(k, source[pos])
        invariant Valid() && old(pos) <= pos
        invariant pos + RunLength(k, Left()) == old(pos) + RunLength(k, old(Left()))
      {
        RunStep(k, source, pos);
        Advance();
      }
      RunStep(k, source, pos);
    }

    /** The rest of a block comment. */
    method SkipBlockComment()
      requires Valid()
      modifies this`pos, this`line, this`column
      ensures Valid() && pos == old(pos) + BlockLength(old(Left()))
    {
      while pos < |source|
        invariant Valid() && old(pos) <= pos
        invariant pos + BlockLength(Left()) == old(pos) + BlockLength(old(Left()))
      {
        BlockStep(source, pos);
        if source[pos] == '*' && pos + 1 < |source| && source[pos + 1] == '/' {
          assert Closes(source[pos..]);
          Advance();
          Advance();
          return;
        }
        Advance();
      }
    }

    /** One whole comment. */
    method SkipComment()
      requires Valid() && (Opens(Left(), '/') || Opens(Left(), '*'))
      modifies this`pos, this`line, this`column
      ensures Valid() && old(pos) < pos && SkipLength(old(Left())) == pos - old(pos) + SkipLength(Left())
    {
      var from := pos;
      Advance();
      Advance();
      if source[from + 1] == '/' {
        AdvanceWhile(LineRun);
      } else {
        SkipBlockComment();
      }
      CommentAt(source, from, pos);
    }

    method SkipWhitespace()
      requires Valid()
      modifies this`pos, this`line, this`column
      ensures Valid() && pos == old(pos) + SkipLength(old(Left()))
    {
      while pos < |source|
        invariant Valid() && old(pos) <= pos
        invariant pos + SkipLength(Left()) == old(pos) + SkipLength(old(Left()))
        decreases |source| - pos
      {
        SkipStep(source, pos);
        if IsSpace(source[pos]) {
          Advance();
        } else if source[pos] == '/' && pos + 1 < |source| && (source[pos + 1] == '/' || source[pos + 1] == '*') {
          SkipComment();
        } else {
          assert StartsToken(source[pos..]);
          return;
        }
      }
    }

    /** The rest of a string literal. */
    method SkipString()
      requires Valid()
      modifies this`pos, this`line, this`column
      ensures Valid() && pos == old(pos) + StringLength(old(Left()))
    {
      while pos < |source| && source[pos] != '"'
        invariant Valid() && old(pos) <= pos
        invariant pos + StringLength(Left()) == old(pos) + StringLength(old(Left()))
        decreases |source| - pos
      {
        StringStep(source, pos);
        if source[pos] == '\\' {
          Advance();
          StringEnd(source);
        }
        Advance();
      }
      StringStep(source, pos);
      if pos < |source| {
        Advance();
      }
    }

    /** Digits after the first character, then a fraction if a point and a digit follow. */
    method LexNumber(start: nat) returns (token: Token)
      requires Valid() && start + 1 == pos && StartsNumber(source[start..])
      modifies this`pos, this`line, this`column
      ensures Valid() && start < pos && Scanned(token, pos - start) == ScanNumber(source[start..])
    {
      AdvanceWhile(DigitRun);
      var whole := pos;
      var isFloat := pos + 1 < |source| && source[pos] == '.' && IsDigit(source[pos + 1]);
      if isFloat {
        Advance();
        AdvanceWhile(DigitRun);
      }
      NumberAt(source, start, whole, pos);
      return if isFloat then FloatTok(source[start..pos]) else IntTok(source[start..pos]);
    }

    /** Everything that is neither name, number nor string. */
    method LexPunctuation(start: nat) returns (token: Token)
      requires Valid() && start + 1 == pos
      modifies this`pos, this`line, this`column
      ensures Valid() && start < pos
      ensures (var s := source[start..];
               Scanned(token, pos - start) ==
               if |s| > 1 && s[0] == '=' && s[1] == '=' then Scanned(EqEq, 2)
               else if |s| > 1 && s[0] == '.' && s[1] == '.' then Scanned(DotDot, 2)
               else Scanned(Punctuation(s[0]), 1))
    {
      var c := source[start];
      if pos < |source| && c == '=' && source[pos] == '=' {
        Advance();
        return EqEq;
      }
      if pos < |source| && c == '.' && source[pos] == '.' {
        Advance();
        return DotDot;
      }
      return Punctuation(c);
    }

    method LexString(start: nat) returns (token: Token)
      requires Valid() && start + 1 == pos
      modifies this`pos, this`line, this`column
      ensures Valid() && start < pos
      ensures (var s := source[start..];
               var n := 1 + StringLength(s[1..]);
               Scanned(token, pos - start) == Scanned(StringTok(if n > 1 then Unescape(s[1..n - 1]) else []), n))
    {
      ghost var s := source[start..];
      assert s[1..] == Left();
      SkipString();
      var content := [];
      if pos > start + 1 {
        assert s[1..pos - start - 1] == source[start + 1..pos - 1];
        content := UnescapeString(source[start + 1..pos - 1]);
      }
      return StringTok(content);
    }

    method LexToken() returns (token: Token)
      requires Valid() && pos < |source|
      modifies this`pos, this`line, this`column
      ensures Valid() && old(pos) < pos && Scanned(token, pos - old(pos)) == Scan(old(Left()))
    {
      var start := pos;
      ghost var s := Left();
      var c := source[pos];
      Advance();
      assert s[1..] == Left();
      if IsAlpha(c) {
        AdvanceWhile(NameRun);
        assert s[..pos - start] == source[start..pos];
        return KeywordOrName(source[start..pos]);
      }
      if IsDigit(c) || (c == '-' && pos < |source| && IsDigit(source[pos])) {
        assert StartsNumber(s);
        token := LexNumber(start);
        return;
      }
      assert !StartsNumber(s);
      if c == '"' {
        token := LexString(start);
        return;
      }
      token := LexPunctuation(start);
    }

    method NextToken() returns (x: Lexeme)
      requires Valid()
      modifies this`pos, this`line, this`column
      ensures Valid() && x == NextLexeme(source, old(pos)) && pos == x.end
    {
      SkipWhitespace();
      if pos >= |source| {
        return Lexeme(Eof, pos, pos, Span(line, column, line, column));
      }
      var start, startLine, startColumn := pos, line, column;
      var token := LexToken();
      NextAt(source, old(pos), start, token, pos);
      return Lexeme(token, start, pos, Span(startLine, startColumn, line, column));
    }

    /** `lexer_lex_all` */
    method LexAll()
      requires Valid()
      modifies this
      ensures Valid() && tokens == old(tokens) + LexFrom(source, old(pos)) && pos == |source|
    {
      ghost var from, had := pos, tokens;
      while true
        invariant Valid() && old(tokens) + LexFrom(source, from) == tokens + LexFrom(source, pos)
        decreases |source| - pos
      {
        LexStep(tokens, source, pos);
        var x := NextToken();
        tokens := tokens + [x];
        if x.token.Eof? {
          return;
        }
      }
    }
  }

  lemma StringEnd(s: string)
    ensures StringLength(s[|s|..]) == 0
  {
  }

  /** Any source, read from its start: the tokens tile it. */
  method Lex(source: string) returns (xs: seq<Lexeme>)
    ensures xs == LexFrom(source, 0) && Tiles(source, 0, xs)
  {
    var lexer := new Lexer(source);
    lexer.LexAll();
    LexingTiles(source, 0);
    return lexer.tokens;
  }
}
