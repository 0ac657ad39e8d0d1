/** Two patterns that the schema guide gives as examples, as the compiler model reads them. The guide
    says that `user@example.com` and `#FF5733` pass; the emitted matchers turn both away. */
module RegexExamples {
  import opened RegexSyntax
  import opened RegexGreedy
  import opened RegexTheorems

  lemma RenderFront(it: Item, rest: seq<Item>, text: string)
    requires RenderItems(rest) == text
    ensures RenderItems([it] + rest) == RenderAtom(it.atom) + RenderQuantifier(it.quant) + text
  {
    assert ([it] + rest)[1..] == rest;
  }

  lemma MatchFront(it: Item, rest: seq<Item>, u: string, v: string)
    requires ItemMatches(it, u) && ItemsMatch(rest, v)
    ensures ItemsMatch([it] + rest, u + v)
  {
    MatchOne(it, u);
    MatchAppend([it], rest, u, v);
  }

  lemma StuckFront(it: Item, rest: seq<Item>, s: string, p: nat)
    requires p <= |s|
    requires p < |s| && AtomHas(it.atom, s[p]) ==>
               Greedy(rest, s, if Loops(it) then Span(it.atom, s, p + 1) else p + 1) == Stuck
    ensures Greedy([it] + rest, s, p) == Stuck
  {
    assert ([it] + rest)[1..] == rest;
  }

  // ----- "^[^@]+@[^@]+\\.[^@]+$" -----

  const NOT_AT := Class(true, [Single(ClassChar('@', false))])
  const SOME_NOT_AT := Item(NOT_AT, Plus)
  const AT := Item(Literal('@', false), Once)
  const DOT := Item(Literal('.', true), Once)

  const DOMAIN := [SOME_NOT_AT] + ([DOT] + [SOME_NOT_AT])
  const EMAIL := Pattern(true, [SOME_NOT_AT] + ([AT] + DOMAIN), true)

  lemma NotAt(c: char)
    ensures AtomHas(NOT_AT, c) <==> c != '\0' && c != '@'
  {
    assert MemberHas(NOT_AT.members[0], c) <==> c == '@';
  }

  lemma NotAtText()
    ensures RenderAtom(NOT_AT) == "[^@]"
  {
    assert RenderMembers(NOT_AT.members[1..]) == "";
  }

  lemma DomainText()
    ensures RenderItems(DOMAIN) == "[^@]+\\.[^@]+"
  {
    NotAtText();
    RenderFront(SOME_NOT_AT, [], "");
    assert [SOME_NOT_AT] + [] == [SOME_NOT_AT];
    RenderFront(DOT, [SOME_NOT_AT], "[^@]+");
    RenderFront(SOME_NOT_AT, [DOT] + [SOME_NOT_AT], "\\.[^@]+");
  }

  lemma EmailText()
    ensures Render(EMAIL) == "^[^@]+@[^@]+\\.[^@]+$"
  {
    NotAtText();
    DomainText();
    RenderFront(AT, DOMAIN, "[^@]+\\.[^@]+");
    RenderFront(SOME_NOT_AT, [AT] + DOMAIN, "@[^@]+\\.[^@]+");
  }

  lemma SomeNotAtMatches(u: string)
    requires NulFree(u) && u != "" && '@' !in u
    ensures ItemMatches(SOME_NOT_AT, u)
  {
    forall i | 0 <= i < |u| ensures AtomHas(NOT_AT, u[i]) {
      NotAt(u[i]);
    }
  }

  lemma DomainMatches(v: string, w: string)
    requires NulFree(v) && NulFree(w) && v != "" && w != "" && '@' !in v && '@' !in w
    ensures ItemsMatch(DOMAIN, v + ("." + w))
  {
    SomeNotAtMatches(v);
    SomeNotAtMatches(w);
    MatchOne(SOME_NOT_AT, w);
    MatchFront(DOT, [SOME_NOT_AT], ".", w);
    MatchFront(SOME_NOT_AT, [DOT] + [SOME_NOT_AT], v, "." + w);
  }

  /** The second class takes the dot and all that follows it, up to the next `@` or the end;
      what stands there is not the dot the next item wants. */
  lemma {:induction false} EmailIsStuck(s: string)
    requires NulFree(s)
    ensures Greedy(EMAIL.items, s, 0) == Stuck
  {
    forall p | 0 <= p <= |s| ensures Greedy(DOMAIN, s, p) == Stuck {
      if p < |s| {
        var q := Span(NOT_AT, s, p + 1);
        if q < |s| {
          NotAt(s[q]);
        }
        StuckFront(DOT, [SOME_NOT_AT], s, q);
      }
      StuckFront(SOME_NOT_AT, [DOT] + [SOME_NOT_AT], s, p);
    }
    forall p | 0 <= p <= |s| ensures Greedy([AT] + DOMAIN, s, p) == Stuck {
      StuckFront(AT, DOMAIN, s, p);
    }
    StuckFront(SOME_NOT_AT, [AT] + DOMAIN, s, 0);
  }

  /** The guide's e-mail pattern denotes every `u@v.w`, and its matcher accepts no string at all. */
  lemma {:induction false} DocumentedEmailAcceptsNothing(s: string, u: string, v: string, w: string)
    requires NulFree(s) && NulFree(u) && NulFree(v) && NulFree(w)
    requires u != "" && v != "" && w != "" && '@' !in u && '@' !in v && '@' !in w
    ensures WellFormed(EMAIL) && Render(EMAIL) == "^[^@]+@[^@]+\\.[^@]+$"
    ensures InLanguage(EMAIL, u + ("@" + (v + ("." + w))))
    ensures !Accepts(EMAIL, s)
  {
    EmailText();
    SomeNotAtMatches(u);
    DomainMatches(v, w);
    MatchFront(AT, DOMAIN, "@", v + ("." + w));
    MatchFront(SOME_NOT_AT, [AT] + DOMAIN, u, "@" + (v + ("." + w)));
    WholeMatchIsInLanguage(EMAIL, u + ("@" + (v + ("." + w))));
    EmailIsStuck(s);
    NoStartRejects(EMAIL, s);
  }

  // ----- "^#[0-9A-Fa-f]{6}$" -----

  const HEX := Item(Class(false, [
    Range(ClassChar('0', false), ClassChar('9', false)),
    Range(ClassChar('A', false), ClassChar('F', false)),
    Range(ClassChar('a', false), ClassChar('f', false))]), Once)
  const HASH := Item(Literal('#', false), Once)
  const OPEN := Item(Literal('{', false), Once)
  const SIX := Item(Literal('6', false), Once)
  const CLOSE := Item(Literal('}', false), Once)

  const BRACES := [OPEN] + ([SIX] + [CLOSE])
  const HEX_COLOR := Pattern(true, [HASH] + ([HEX] + BRACES), true)

  lemma HexText()
    ensures RenderAtom(HEX.atom) == "[0-9A-Fa-f]" && WellFormedAtom(HEX.atom)
  {
    var ms := HEX.atom.members;
    assert RenderMembers(ms[3..]) == "" && WellFormedMembers(ms[3..]);
    assert ms[2..][1..] == ms[3..] && ms[1..][1..] == ms[2..];
    assert RenderMembers(ms[2..]) == "a-f";
    assert RenderMembers(ms[1..]) == "A-Fa-f";
    assert WellFormedMembers(ms[2..]) && WellFormedMembers(ms[1..]);
  }

  lemma BracesText()
    ensures RenderItems(BRACES) == "{6}"
  {
    RenderFront(CLOSE, [], "");
    assert [CLOSE] + [] == [CLOSE];
    RenderFront(SIX, [CLOSE], "}");
    RenderFront(OPEN, [SIX] + [CLOSE], "6}");
  }

  lemma HexColorText()
    ensures Render(HEX_COLOR) == "^#[0-9A-Fa-f]{6}$"
  {
    HexText();
    BracesText();
    RenderFront(HEX, BRACES, "{6}");
    RenderFront(HASH, [HEX] + BRACES, "[0-9A-Fa-f]{6}");
  }

  lemma BracesStick(s: string, p: nat)
    requires NulFree(s) && '{' !in s && p <= |s|
    ensures Greedy(BRACES, s, p) == Stuck
  {
    StuckFront(OPEN, [SIX] + [CLOSE], s, p);
  }

  lemma HexBracesStick(s: string, p: nat)
    requires NulFree(s) && '{' !in s && p <= |s|
    ensures Greedy([HEX] + BRACES, s, p) == Stuck
  {
    forall q | 0 <= q <= |s| ensures Greedy(BRACES, s, q) == Stuck {
      BracesStick(s, q);
    }
    StuckFront(HEX, BRACES, s, p);
  }

  lemma WithoutBraceNoColor(s: string)
    requires NulFree(s) && '{' !in s && WellFormed(HEX_COLOR)
    ensures !Accepts(HEX_COLOR, s)
  {
    forall p | 0 <= p <= |s| ensures Greedy([HEX] + BRACES, s, p) == Stuck {
      HexBracesStick(s, p);
    }
    StuckFront(HASH, [HEX] + BRACES, s, 0);
    NoStartRejects(HEX_COLOR, s);
  }

  lemma HexColorIsWellFormed()
    ensures WellFormed(HEX_COLOR)
  {
    HexText();
  }

  /** Braces are ordinary characters: no string without a brace is accepted as a colour. */
  lemma {:induction false} DocumentedHexColorWantsBraces(s: string)
    requires NulFree(s) && '{' !in s
    ensures WellFormed(HEX_COLOR) && Render(HEX_COLOR) == "^#[0-9A-Fa-f]{6}$"
    ensures !Accepts(HEX_COLOR, s)
  {
    HexColorIsWellFormed();
    HexColorText();
    WithoutBraceNoColor(s);
  }
}
