/** One line of an INI file, as the generated `cfg_parse_ini` reads it. */
module IniText {
  import opened Characters
  import opened Text
  import opened ArrayText

  datatype LineEffect =
    | Ignored
    | NewSection(section: string, isElement: bool)
    | Assignment(key: string, value: string)
    | NoBracket
    | NoEquals

  /** Where a comment starts, if the text so far left a quote open or not. */
  function CommentAt(s: string, inQuotes: bool): (n: nat)
    ensures n <= |s|
  {
    if s == [] || ((s[0] == ';' || s[0] == '#') && !inQuotes) then 0
    else 1 + CommentAt(s[1..], if s[0] == '"' then !inQuotes else inQuotes)
  }

  function QuoteCount(s: string): nat {
    if s == [] then 0 else (if s[0] == '"' then 1 else 0) + QuoteCount(s[1..])
  }

  /** One pair of quotes around everything goes; any other quotes stay. */
  function Unwrapped(s: string): string {
    if |s| > 1 && s[0] == '"' && s[|s| - 1] == '"' && QuoteCount(s) == 2 then s[1..|s| - 1] else s
  }

  function ValueOf(raw: string): string {
    var val := DropSpaces(raw);
    Unwrapped(TrimEnd(val[..CommentAt(val, false)], 0))
  }

  /** The section buffer holds 255 characters. */
  function Cut(s: string): string {
    if |s| > 255 then s[..255] else s
  }

  /** The position of the first `]]`, or the length. */
  function PairAt(s: string): (n: nat)
    ensures n <= |s|
  {
    if s == [] || (|s| > 1 && s[0] == ']' && s[1] == ']') then 0 else 1 + PairAt(s[1..])
  }

  function HeaderOf(p: string): LineEffect
    requires p != [] && p[0] == '['
  {
    if |p| > 1 && p[1] == '[' then
      var q := p[1..];
      if PairAt(q) < |q| && PairAt(q) > 0 then NewSection(Cut(q[1..PairAt(q)]), true) else NoBracket
    else if ']' in p then NewSection(Cut(Head(p[1..], ']')), false)
    else NoBracket
  }

  function EffectOf(line: string): LineEffect {
    var p := DropSpaces(line);
    if p == [] || p[0] == ';' || p[0] == '#' then Ignored
    else if p[0] == '[' then HeaderOf(p)
    else if '=' in p then
      var n := |Head(p, '=')|;
      Assignment(TrimEnd(p[..n], 1), ValueOf(if n < |p| then p[n + 1..] else []))
    else NoEquals
  }

  // ----- The loops -----

  lemma CommentStep(s: string, i: nat, inQuotes: bool)
    requires i < |s|
    ensures CommentAt(s[i..], inQuotes) ==
            if (s[i] == ';' || s[i] == '#') && !inQuotes then 0
            else 1 + CommentAt(s[i + 1..], if s[i] == '"' then !inQuotes else inQuotes)
  {
    assert s[i..][1..] == s[i + 1..];
  }

  method FindComment(s: string) returns (i: nat)
    ensures i == CommentAt(s, false)
  {
    var inQuotes := false;
    i := 0;
    assert s[0..] == s;
    while i < |s|
      invariant i <= |s| && i + CommentAt(s[i..], inQuotes) == CommentAt(s, false)
    {
      CommentStep(s, i, inQuotes);
      if s[i] == '"' {
        inQuotes := !inQuotes;
      } else if (s[i] == ';' || s[i] == '#') && !inQuotes {
        return;
      }
      i := i + 1;
    }
  }

  method CountQuotes(s: string) returns (n: nat)
    ensures n == QuoteCount(s)
  {
    n := 0;
    assert s[0..] == s;
    for i := 0 to |s|
      invariant n + QuoteCount(s[i..]) == QuoteCount(s)
    {
      assert s[i..][1..] == s[i + 1..];
      if s[i] == '"' {
        n := n + 1;
      }
    }
  }

  method ReadValue(raw: string) returns (val: string)
    ensures val == ValueOf(raw)
  {
    var i := SkipSpaces(raw, 0);
    assert raw[0..] == raw;
    var text := raw[i..];
    var n := FindComment(text);
    val := CutSpaces(text[..n], 0);
    if |val| > 0 && val[0] == '"' && val[|val| - 1] == '"' {
      var quotes := CountQuotes(val);
      QuotesAtBothEnds(val);
      if quotes == 2 {
        val := val[1..|val| - 1];
      }
    }
  }

  lemma QuotesAtBothEnds(s: string)
    ensures |s| == 1 ==> QuoteCount(s) <= 1
  {
  }

  method ReadLine(line: string) returns (e: LineEffect)
    ensures e == EffectOf(line)
  {
    var i := SkipSpaces(line, 0);
    assert line[0..] == line;
    var p := line[i..];
    if p == [] || p[0] == ';' || p[0] == '#' {
      return Ignored;
    }
    if p[0] == '[' {
      return HeaderOf(p);
    }
    if '=' !in p {
      return NoEquals;
    }
    var n := |Head(p, '=')|;
    HeadStops(p, '=');
    var key := CutSpaces(p[..n], 1);
    var value := ReadValue(p[n + 1..]);
    return Assignment(key, value);
  }

  lemma {:induction false} HeadStops(s: string, c: char)
    ensures c in s ==> |Head(s, c)| < |s| && s[|Head(s, c)|] == c && Head(s, c) == s[..|Head(s, c)|]
    decreases |s|
  {
    if s != [] && s[0] != c {
      HeadStops(s[1..], c);
      assert c in s ==> c in s[1..];
      assert Head(s, c) <= s;
    }
  }

  // ----- Lines that are read back -----

  predicate IsKey(key: string) {
    key != [] && '=' !in key && Trimmed(key) && key[0] !in [';', '#', '[']
  }

  predicate IsComment(s: string) {
    s != [] ==> s[0] == ';' || s[0] == '#'
  }

  lemma {:induction false} NoCommentInside(v: string, rest: string)
    requires '"' !in v
    ensures CommentAt(v + rest, true) == |v| + CommentAt(rest, true)
    decreases |v|
  {
    if v == [] {
      assert v + rest == rest;
    } else {
      assert (v + rest)[1..] == v[1..] + rest;
      NoCommentInside(v[1..], rest);
    }
  }

  lemma {:induction false} CommentAfterSpace(gap: string, comment: string)
    requires AllSpace(gap) && IsComment(comment)
    ensures CommentAt(gap + comment, false) == |gap|
    decreases |gap|
  {
    if gap == [] {
      assert gap + comment == comment;
    } else {
      assert (gap + comment)[1..] == gap[1..] + comment;
      CommentAfterSpace(gap[1..], comment);
    }
  }

  lemma {:induction false} QuotesAdd(a: string, b: string)
    ensures QuoteCount(a + b) == QuoteCount(a) + QuoteCount(b)
    decreases |a|
  {
    if a == [] {
      assert a + b == b;
    } else {
      assert (a + b)[1..] == a[1..] + b;
      QuotesAdd(a[1..], b);
    }
  }

  lemma {:induction false} NoQuotes(v: string)
    requires '"' !in v
    ensures QuoteCount(v) == 0
    decreases |v|
  {
    if v != [] {
      NoQuotes(v[1..]);
    }
  }

  lemma UnwrapsQuoted(v: string)
    requires '"' !in v
    ensures Unwrapped("\"" + v + "\"") == v
  {
    var s := "\"" + v + "\"";
    QuotesAdd("\"" + v, "\"");
    QuotesAdd("\"", v);
    NoQuotes(v);
    assert QuoteCount("\"") == 1;
    assert s[1..|s| - 1] == v;
  }

  lemma Regroup(a: string, b: string, c: string)
    ensures a + b + c == a + (b + c)
  {
  }

  lemma CommentPastQuote(rest: string, inQuotes: bool)
    ensures CommentAt("\"" + rest, inQuotes) == 1 + CommentAt(rest, !inQuotes)
  {
    assert ("\"" + rest)[1..] == rest;
  }

  lemma CommentAfterQuoted(v: string, h: string, comment: string)
    requires AllSpace(h) && '"' !in v && IsComment(comment)
    ensures CommentAt("\"" + v + "\"" + (h + comment), false) == |v| + 2 + |h|
  {
    var close := "\"" + (h + comment);
    Regroup("\"" + v, "\"", h + comment);
    Regroup("\"", v, close);
    CommentPastQuote(v + close, false);
    NoCommentInside(v, close);
    CommentPastQuote(h + comment, true);
    CommentAfterSpace(h, comment);
  }

  lemma QuotedValue(g: string, v: string, h: string, comment: string)
    requires AllSpace(g) && AllSpace(h) && '"' !in v && IsComment(comment)
    ensures ValueOf(g + ("\"" + v + "\"" + (h + comment))) == v
  {
    var q := "\"" + v + "\"";
    var val := q + (h + comment);
    DropSpacesOf(g, val);
    CommentAfterQuoted(v, h, comment);
    assert val[..|q| + |h|] == q + h;
    assert !IsSpace(q[|q| - 1]);
    TrimEndOf(q, h, 0);
    UnwrapsQuoted(v);
  }

  lemma {:induction false} HeadOfKey(key: string, rest: string)
    requires '=' !in key
    ensures Head(key + ("=" + rest), '=') == key
  {
    HeadOf(key, "=" + rest, '=');
  }

  lemma KeyParts(key: string, gap: string, raw: string)
    requires AllSpace(gap) && IsKey(key)
    ensures (var p := key + gap + ("=" + raw);
             var n := |Head(p, '=')|;
             p[0] == key[0] && '=' in p && n < |p| && p[..n] == key + gap && p[n + 1..] == raw)
    ensures !IsSpace(key[0]) && key[0] !in [';', '#', '['] && !IsSpace(key[|key| - 1])
  {
    var p := key + gap + ("=" + raw);
    assert '=' !in gap;
    HeadOfKey(key + gap, raw);
    assert p[|key + gap|] == '=';
  }

  /** The effect of a line with a key, space around it, and a value text. */
  lemma KeyedLine(indent: string, key: string, gap: string, raw: string)
    requires AllSpace(indent) && AllSpace(gap) && IsKey(key)
    ensures EffectOf(indent + (key + gap + ("=" + raw))) == Assignment(key, ValueOf(raw))
  {
    var p := key + gap + ("=" + raw);
    KeyParts(key, gap, raw);
    DropSpacesOf(indent, p);
    KeyedEffect(indent + p, p, key, gap, raw);
  }

  lemma KeyedEffect(line: string, p: string, key: string, gap: string, raw: string)
    requires p == DropSpaces(line) && p != [] && p[0] !in [';', '#', '['] && '=' in p
    requires (var n := |Head(p, '=')|; n < |p| && p[..n] == key + gap && p[n + 1..] == raw)
    requires AllSpace(gap) && key != [] && !IsSpace(key[|key| - 1])
    ensures EffectOf(line) == Assignment(key, ValueOf(raw))
  {
    AssignmentOf(line, p);
    TrimEndOf(key, gap, 1);
  }

  lemma AssignmentOf(line: string, p: string)
    requires p == DropSpaces(line) && p != [] && p[0] !in [';', '#', '['] && '=' in p
    ensures (var n := |Head(p, '=')|;
             n < |p| && EffectOf(line) == Assignment(TrimEnd(p[..n], 1), ValueOf(p[n + 1..])))
  {
    HeadStops(p, '=');
  }

  /** What one call of `fgets` can deliver, seen as a C string: no terminator, and a newline at the end
      only. */
  predicate IsLine(s: string) {
    '\0' !in s && forall i :: 0 <= i < |s| - 1 ==> s[i] != '\n'
  }

  /** A quoted value arrives exactly as written, whatever `;`, `#`, `=` or outer space it holds, with
      any space around the parts and any comment behind, if all of it is one line. */
  lemma QuotedLineIsVerbatim(indent: string, key: string, gap: string, g: string, v: string, h: string, comment: string)
    requires IsLine(indent + (key + gap + ("=" + (g + ("\"" + v + "\"" + (h + comment))))))
    requires AllSpace(indent) && AllSpace(gap) && AllSpace(g) && AllSpace(h)
    requires IsKey(key) && '"' !in v && IsComment(comment)
    ensures EffectOf(indent + (key + gap + ("=" + (g + ("\"" + v + "\"" + (h + comment)))))) == Assignment(key, v)
  {
    KeyedLine(indent, key, gap, g + ("\"" + v + "\"" + (h + comment)));
    QuotedValue(g, v, h, comment);
  }

  /** Which values survive without quotes. */
  predicate SurvivesBare(v: string) {
    Trimmed(v) && CommentAt(v, false) == |v| &&
    !(|v| > 1 && v[0] == '"' && v[|v| - 1] == '"' && QuoteCount(v) == 2)
  }

  /** Exactly when an unquoted value arrives as written. */
  lemma BareLineIff(key: string, v: string)
    requires IsKey(key) && IsLine(key + ("=" + v))
    ensures EffectOf(key + ("=" + v)) == Assignment(key, v) <==> SurvivesBare(v)
  {
    assert [] + (key + [] + ("=" + v)) == key + ("=" + v);
    KeyedLine([], key, [], v);
    BareValueIff(v);
  }

  lemma SurvivorIsKept(v: string)
    requires SurvivesBare(v)
    ensures ValueOf(v) == v
  {
    assert DropSpaces(v) == v && v[..|v|] == v && TrimEnd(v, 0) == v;
  }

  lemma KeptSurvives(v: string, d: string, c: string, t: string)
    requires d == DropSpaces(v) && c == d[..CommentAt(d, false)] && t == TrimEnd(c, 0) && Unwrapped(t) == v
    ensures SurvivesBare(v)
  {
    DropSpacesIsSuffix(v);
    assert |v| == |Unwrapped(t)| <= |t| <= |c| <= |d| <= |v|;
    assert d == v;
    assert c == v;
    assert t == v;
  }

  lemma BareValueIff(v: string)
    ensures ValueOf(v) == v <==> SurvivesBare(v)
  {
    if SurvivesBare(v) {
      SurvivorIsKept(v);
    }
    if ValueOf(v) == v {
      var d := DropSpaces(v);
      var c := d[..CommentAt(d, false)];
      KeptSurvives(v, d, c, TrimEnd(c, 0));
    }
  }

  // ----- What cannot be read back -----

  lemma {:induction false} SomeQuote(s: string)
    requires '"' in s
    ensures QuoteCount(s) > 0
    decreases |s|
  {
    if s[0] != '"' {
      SomeQuote(s[1..]);
    }
  }

  lemma {:induction false} AllQuotes(s: string)
    requires forall i :: 0 <= i < |s| ==> s[i] == '"'
    ensures forall q :: CommentAt(s, q) == |s|
    decreases |s|
  {
    if s != [] {
      AllQuotes(s[1..]);
    }
  }

  /** A text that is its own shift by one holds one character only. */
  lemma {:induction false} ShiftedIsConstant(c: char, v: string, i: nat)
    requires v <= [c] + v && i < |v|
    ensures v[i] == c
    decreases i
  {
    assert v[i] == ([c] + v)[i];
    if i > 0 {
      ShiftedIsConstant(c, v, i - 1);
    }
  }

  /** With both its quotes left on, or with its end cut off, the text is not the value. */
  lemma CutIsNotTheValue(v: string, t: string)
    requires t == TrimEnd(("\"" + v + "\"")[..CommentAt("\"" + v + "\"", false)], 0)
    ensures t != v
  {
    var raw := "\"" + v + "\"";
    assert |t| == |v| ==> t == raw[..|v|] == ("\"" + v)[..|v|];
    if v <= "\"" + v {
      forall i | 0 <= i < |raw| ensures raw[i] == '"' {
        if 0 < i <= |v| {
          ShiftedIsConstant('"', v, i - 1);
        }
      }
      AllQuotes(raw);
      assert raw[..CommentAt(raw, false)] == raw && TrimEnd(raw, 0) == raw;
    }
  }

  /** Quotes inside quotes never arrive as written. */
  lemma QuotedValueHasNoQuote(v: string)
    requires ValueOf("\"" + v + "\"") == v
    ensures '"' !in v
  {
    var raw := "\"" + v + "\"";
    var t := TrimEnd(raw[..CommentAt(raw, false)], 0);
    assert DropSpaces(raw) == raw && v == Unwrapped(t);
    CutIsNotTheValue(v, t);
    assert t == "\"" + v + "\"";
    QuotesAdd("\"" + v, "\"");
    QuotesAdd("\"", v);
    assert QuoteCount("\"") == 1;
    if '"' in v {
      SomeQuote(v);
    }
  }

  /** Exactly when a quoted value arrives as written. */
  lemma QuotedLineIff(key: string, v: string)
    requires IsKey(key) && IsLine(key + ("=" + ("\"" + v + "\"")))
    ensures EffectOf(key + ("=" + ("\"" + v + "\""))) == Assignment(key, v) <==> '"' !in v
  {
    var raw := "\"" + v + "\"";
    assert [] + (key + [] + ("=" + raw)) == key + ("=" + raw);
    KeyedLine([], key, [], raw);
    if '"' !in v {
      QuotedValue([], v, [], []);
      assert [] + (raw + ([] + [])) == raw;
    }
    if ValueOf(raw) == v {
      QuotedValueHasNoQuote(v);
    }
  }

  /** A value lies within its line, and never takes the newline with it. */
  lemma ValueIsWithin(raw: string)
    requires IsLine(raw)
    ensures '\n' !in ValueOf(raw) && '\0' !in ValueOf(raw) && |ValueOf(raw)| <= |raw|
  {
    DropSpacesIsSuffix(raw);
    var val := DropSpaces(raw);
    var k := |raw| - |val|;
    var t := TrimEnd(val[..CommentAt(val, false)], 0);
    forall i | 0 <= i < |t| ensures t[i] != '\n' && t[i] != '\0' {
      assert t[i] == val[i] == raw[k + i];
    }
    assert ValueOf(raw) == t || ValueOf(raw) == t[1..|t| - 1];
  }

  lemma AssignedIsWithin(line: string)
    requires IsLine(line) && EffectOf(line).Assignment?
    ensures var v := EffectOf(line).value; '\n' !in v && '\0' !in v && |v| < |line|
  {
    DropSpacesIsSuffix(line);
    var p := DropSpaces(line);
    AssignmentOf(line, p);
    var n, k := |Head(p, '=')|, |line| - |p|;
    var raw := p[n + 1..];
    assert forall i :: 0 <= i < |raw| ==> raw[i] == line[k + n + 1 + i];
    ValueIsWithin(raw);
  }

  lemma {:induction false} DropSpacesIsSuffix(s: string)
    ensures DropSpaces(s) == s[|s| - |DropSpaces(s)|..]
    decreases |s|
  {
    if s != [] && IsSpace(s[0]) {
      DropSpacesIsSuffix(s[1..]);
    }
  }

  lemma {:induction false} PairAfter(s: string, rest: string)
    requires ']' !in s
    ensures PairAt(s + ("]]" + rest)) == |s|
    decreases |s|
  {
    if s == [] {
      assert s + ("]]" + rest) == "]]" + rest;
    } else {
      assert (s + ("]]" + rest))[1..] == s[1..] + ("]]" + rest);
      PairAfter(s[1..], rest);
    }
  }

  predicate IsSectionName(s: string) {
    |s| <= 255 && ']' !in s && '[' !in s
  }

  lemma HeaderReadsBack(s: string, rest: string)
    requires IsSectionName(s)
    ensures EffectOf("[" + (s + ("]" + rest))) == NewSection(s, false)
    ensures EffectOf("[[" + (s + ("]]" + rest))) == NewSection(s, true)
  {
    PlainHeaderReadsBack(s, rest);
    ElementHeaderReadsBack(s, rest);
  }

  lemma PlainHeaderReadsBack(s: string, rest: string)
    requires IsSectionName(s)
    ensures EffectOf("[" + (s + ("]" + rest))) == NewSection(s, false)
  {
    var p := "[" + (s + ("]" + rest));
    assert p[1..] == s + ("]" + rest) && p[|s| + 1] == ']';
    HeadOf(s, "]" + rest, ']');
    assert p[1] == if s == [] then ']' else s[0];
  }

  lemma ElementHeaderReadsBack(s: string, rest: string)
    requires IsSectionName(s)
    ensures EffectOf("[[" + (s + ("]]" + rest))) == NewSection(s, true)
  {
    var q := "[[" + (s + ("]]" + rest));
    assert q[1..] == "[" + s + ("]]" + rest);
    PairAfter("[" + s, rest);
    assert q[1..][1..|s| + 1] == s;
  }
}
