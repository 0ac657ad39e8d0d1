/** How the generated runtime reads a list of values out of one text. */
module ArrayText {
  import opened Schema
  import opened Characters
  import opened Text

  // ----- Trimming -----

  function DropSpaces(s: string): (r: string)
    ensures |r| <= |s| && (r != [] ==> !IsSpace(r[0]))
  {
    if s != [] && IsSpace(s[0]) then DropSpaces(s[1..]) else s
  }

  /** Trailing white space goes, but the first `keep` characters stay. */
  function TrimEnd(s: string, keep: nat): (r: string)
    ensures r <= s
    ensures |r| > keep ==> !IsSpace(r[|r| - 1])
  {
    if |s| > keep && IsSpace(s[|s| - 1]) then TrimEnd(s[..|s| - 1], keep) else s
  }

  predicate Trimmed(s: string) {
    s != [] ==> !IsSpace(s[0]) && !IsSpace(s[|s| - 1])
  }

  method SkipSpaces(s: string, start: nat) returns (i: nat)
    requires start <= |s|
    ensures start <= i <= |s| && s[i..] == DropSpaces(s[start..])
  {
    i := start;
    while i < |s| && IsSpace(s[i])
      invariant start <= i <= |s| && DropSpaces(s[i..]) == DropSpaces(s[start..])
    {
      assert s[i..][1..] == s[i + 1..];
      i := i + 1;
    }
    assert i < |s| ==> s[i..][0] == s[i];
  }

  /** The loops that write terminators from the end backwards. */
  method CutSpaces(s: string, keep: nat) returns (r: string)
    ensures r == TrimEnd(s, keep)
  {
    var n: nat := |s|;
    assert s[..n] == s;
    while n > keep && IsSpace(s[n - 1])
      invariant n <= |s| && TrimEnd(s[..n], keep) == TrimEnd(s, keep)
    {
      assert s[..n][..n - 1] == s[..n - 1];
      n := n - 1;
    }
    return s[..n];
  }

  // ----- Elements -----

  /** The text before the last `c`, if there is one. */
  function BeforeLast(s: string, c: char): string {
    if c !in s then s else if s[|s| - 1] == c then s[..|s| - 1] else BeforeLast(s[..|s| - 1], c)
  }

  /** What one token between commas stands for: leading space dropped, then the inside of the quotes
      if it opens with one, else trailing space dropped. */
  function Element(token: string): string {
    var t := DropSpaces(token);
    if t != [] && t[0] == '"' then BeforeLast(t[1..], '"') else TrimEnd(t, 1)
  }

  function ElementsOf(tokens: seq<string>): (r: seq<string>)
    ensures |r| == |tokens| && forall i :: 0 <= i < |r| ==> r[i] == Element(tokens[i])
  {
    seq(|tokens|, i requires 0 <= i < |tokens| => Element(tokens[i]))
  }

  method ReadElement(token: string) returns (elem: string)
    ensures elem == Element(token)
  {
    var i := SkipSpaces(token, 0);
    assert token[0..] == token;
    if i < |token| && token[i] == '"' {
      assert token[i..][1..] == token[i + 1..];
      return BeforeLast(token[i + 1..], '"');
    }
    elem := CutSpaces(token[i..], 1);
  }

  /** The first pass: how many tokens there are. */
  method CountTokens(val: string) returns (n: nat)
    ensures n == |Tokens(val, ',')|
  {
    var s := val;
    var token := NextToken(s, ',');
    n := 0;
    while token.token.Some?
      invariant token == NextToken(s, ',') && n + |Tokens(s, ',')| == |Tokens(val, ',')|
      decreases |s|
    {
      n := n + 1;
      s := token.rest;
      token := NextToken(s, ',');
    }
  }

  /** `cfg_parse_array_string`: the second pass reads a token at every index without asking whether
      there is one. `None` is the null pointer stored for an empty list. */
  method ParseArrayString(val: string) returns (data: Option<seq<string>>, count: nat)
    ensures count == |Tokens(val, ',')|
    ensures data == if count == 0 then None else Some(ElementsOf(Tokens(val, ',')))
  {
    count := CountTokens(val);
    if count == 0 {
      return None, 0;
    }
    var elems := [];
    var s := val;
    var token := NextToken(s, ',');
    ghost var all := Tokens(val, ',');
    for i := 0 to count
      invariant token == NextToken(s, ',') && Tokens(s, ',') == all[i..]
      invariant elems == ElementsOf(all[..i])
    {
      assert token.token.Some? && token.token.value == all[i];
      var e := ReadElement(token.token.value);
      elems := elems + [e];
      s := token.rest;
      token := NextToken(s, ',');
      assert all[i..][1..] == all[i + 1..];
      assert all[..i + 1] == all[..i] + [all[i]];
    }
    assert all[..count] == all;
    return Some(elems), count;
  }

  /** `cfg_parse_array_int`: as above, and `convert` stands for `strtoll`. */
  method ParseArrayInt(val: string, convert: string -> int) returns (data: Option<seq<int>>, count: nat)
    ensures count == |Tokens(val, ',')|
    ensures if count == 0 then data == None
            else data.Some? && |data.value| == count && forall i :: 0 <= i < count ==> data.value[i] == convert(Tokens(val, ',')[i])
  {
    count := CountTokens(val);
    if count == 0 {
      return None, 0;
    }
    var numbers := [];
    var s := val;
    var token := NextToken(s, ',');
    ghost var all := Tokens(val, ',');
    for i := 0 to count
      invariant token == NextToken(s, ',') && Tokens(s, ',') == all[i..]
      invariant |numbers| == i && forall k :: 0 <= k < i ==> numbers[k] == convert(all[k])
    {
      assert token.token.Some? && token.token.value == all[i];
      numbers := numbers + [convert(token.token.value)];
      s := token.rest;
      token := NextToken(s, ',');
      assert all[i..][1..] == all[i + 1..];
    }
    return Some(numbers), count;
  }

  // ----- Writing a list and reading it back -----

  /** An element that needs no quotes. */
  predicate Plain(e: string) {
    e != [] && Trimmed(e) && ',' !in e && '"' !in e
  }

  /** One element as it may be written: quoted or not, with space around it. */
  datatype Writing = Writing(before: string, elem: string, quoted: bool, after: string)

  predicate AllSpace(s: string) {
    forall i :: 0 <= i < |s| ==> IsSpace(s[i])
  }

  predicate WritingOk(w: Writing) {
    AllSpace(w.before) && AllSpace(w.after) && ',' !in w.elem && '"' !in w.elem && (!w.quoted ==> Plain(w.elem))
  }

  function WritingText(w: Writing): string {
    w.before + (if w.quoted then "\"" + w.elem + "\"" else w.elem) + w.after
  }

  lemma {:induction false} DropSpacesOf(gap: string, rest: string)
    requires AllSpace(gap) && (rest != [] ==> !IsSpace(rest[0]))
    ensures DropSpaces(gap + rest) == rest
    decreases |gap|
  {
    if gap == [] {
      assert gap + rest == rest;
    } else {
      assert (gap + rest)[1..] == gap[1..] + rest;
      DropSpacesOf(gap[1..], rest);
    }
  }

  lemma {:induction false} TrimEndOf(s: string, gap: string, keep: nat)
    requires AllSpace(gap) && keep <= |s| && (|s| > keep ==> !IsSpace(s[|s| - 1]))
    ensures TrimEnd(s + gap, keep) == s
    decreases |gap|
  {
    if gap == [] {
      assert s + gap == s;
    } else {
      assert (s + gap)[..|s + gap| - 1] == s + gap[..|gap| - 1];
      TrimEndOf(s, gap[..|gap| - 1], keep);
    }
  }

  lemma {:induction false} BeforeLastOf(s: string, gap: string, c: char)
    requires c !in gap
    ensures BeforeLast(s + [c] + gap, c) == s
    decreases |gap|
  {
    var t := s + [c] + gap;
    assert t[|s|] == c;
    if gap == [] {
      assert t == s + [c] && t[..|t| - 1] == s;
    } else {
      assert t[..|t| - 1] == s + [c] + gap[..|gap| - 1];
      assert t[|t| - 1] == gap[|gap| - 1];
      BeforeLastOf(s, gap[..|gap| - 1], c);
    }
  }

  lemma ElementOfWriting(w: Writing)
    requires WritingOk(w)
    ensures Element(WritingText(w)) == w.elem
  {
    if w.quoted {
      var inside := w.elem + ['"'] + w.after;
      assert WritingText(w) == w.before + (['"'] + inside);
      DropSpacesOf(w.before, ['"'] + inside);
      assert (['"'] + inside)[1..] == inside;
      assert !IsSpace('"') && '"' !in w.after;
      BeforeLastOf(w.elem, w.after, '"');
    } else {
      assert WritingText(w) == w.before + (w.elem + w.after);
      DropSpacesOf(w.before, w.elem + w.after);
      TrimEndOf(w.elem, w.after, 1);
    }
  }

  function WritingTexts(ws: seq<Writing>): (r: seq<string>)
    ensures |r| == |ws| && forall i :: 0 <= i < |r| ==> r[i] == WritingText(ws[i])
  {
    seq(|ws|, i requires 0 <= i < |ws| => WritingText(ws[i]))
  }

  /** A list, its elements quoted or spaced in any way, is read back element by element. Quotes do
      not protect a comma, so no element may hold one. */
  lemma ListsReadBack(ws: seq<Writing>)
    requires forall i :: 0 <= i < |ws| ==> WritingOk(ws[i])
    ensures (var r := ElementsOf(Tokens(Join(WritingTexts(ws), ','), ','));
             |r| == |ws| && forall i :: 0 <= i < |ws| ==> r[i] == ws[i].elem)
  {
    var texts := WritingTexts(ws);
    forall i | 0 <= i < |ws| ensures texts[i] != [] && ',' !in texts[i] && Element(texts[i]) == ws[i].elem {
      ElementOfWriting(ws[i]);
      assert ',' !in ws[i].before && ',' !in ws[i].after;
    }
    TokensOfJoin(texts, ',');
  }

  predicate KeptAsIs(e: string) {
    e != [] && !IsSpace(e[0]) && e[0] != '"' && !IsSpace(e[|e| - 1])
  }

  /** Exactly when the plain join of a list of non-empty elements without commas is read back: no
      element has outer space or opens with a quote. */
  lemma PlainListsReadBackIff(es: seq<string>)
    requires Splittable(es, ',')
    ensures ElementsOf(Tokens(Join(es, ','), ',')) == es <==> forall i :: 0 <= i < |es| ==> KeptAsIs(es[i])
  {
    TokensOfJoin(es, ',');
    forall i | 0 <= i < |es| ensures Element(es[i]) == es[i] <==> KeptAsIs(es[i]) {
      PlainElementIff(es[i]);
    }
  }

  lemma {:induction false} PlainElementIff(e: string)
    requires e != []
    ensures Element(e) == e <==> KeptAsIs(e)
  {
    var t := DropSpaces(e);
    if IsSpace(e[0]) {
      assert |t| < |e|;
      BeforeLastShrinks(if t != [] then t[1..] else t, '"');
    } else if e[0] == '"' {
      BeforeLastShrinks(e[1..], '"');
    } else if |e| > 1 && IsSpace(e[|e| - 1]) {
      assert TrimEnd(e, 1) <= e[..|e| - 1];
    }
  }

  lemma {:induction false} BeforeLastShrinks(s: string, c: char)
    ensures |BeforeLast(s, c)| <= |s|
    decreases |s|
  {
    if c in s && s[|s| - 1] != c {
      BeforeLastShrinks(s[..|s| - 1], c);
    }
  }
}
