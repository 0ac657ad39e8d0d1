/** A well-formed pattern is determined by its text. */
module RegexUnique {
  import opened RegexSyntax

  // ----- Characters and members of a class -----

  lemma SameChar(x: ClassChar, y: ClassChar, u: string, v: string)
    requires WellFormedChar(x) && WellFormedChar(y) && RenderChar(x) + u == RenderChar(y) + v
    ensures x == y && u == v
  {
    var a, b := RenderChar(x) + u, RenderChar(y) + v;
    assert a[0] == (if x.escaped then '\\' else x.c) && b[0] == (if y.escaped then '\\' else y.c);
    assert x.escaped == y.escaped;
    if x.escaped {
      assert a[1] == x.c && b[1] == y.c;
    }
    assert a[|RenderChar(x)|..] == u && b[|RenderChar(y)|..] == v;
  }

  function HeadChar(m: ClassMember): ClassChar {
    if m.Single? then m.x else m.lo
  }

  /** What follows the first character of the members. */
  function AfterHead(ms: seq<ClassMember>): string
    requires ms != []
  {
    (if ms[0].Single? then "" else "-" + RenderChar(ms[0].hi)) + RenderMembers(ms[1..])
  }

  lemma MembersSplit(ms: seq<ClassMember>)
    requires ms != []
    ensures RenderMembers(ms) == RenderChar(HeadChar(ms[0])) + AfterHead(ms)
  {
  }

  lemma DashStarts(ms: seq<ClassMember>)
    requires ms != [] && WellFormedMembers(ms)
    ensures RenderMembers(ms)[0] == '-' <==> StartsWithDash(ms[0])
  {
    MembersSplit(ms);
  }

  /** A single character is not taken for the lower end of a range. */
  lemma SingleIsNoRange(ms: seq<ClassMember>, ns: seq<ClassMember>)
    requires ms != [] && ns != [] && WellFormedMembers(ms) && WellFormedMembers(ns)
    requires ms[0].Single? && ns[0].Range?
    ensures AfterHead(ms) != AfterHead(ns)
  {
    var a, b := AfterHead(ms), AfterHead(ns);
    assert b[0] == '-' && |b| > 1;
    if a != [] && a[0] == '-' {
      DashStarts(ms[1..]);
      assert ms[1..][1..] == [];
      assert a == RenderMember(ms[1]) + [] == "-";
    }
  }

  lemma {:induction false} SameMembers(ms: seq<ClassMember>, ns: seq<ClassMember>)
    requires WellFormedMembers(ms) && WellFormedMembers(ns) && RenderMembers(ms) == RenderMembers(ns)
    ensures ms == ns
    decreases |ms|
  {
    if ms != [] && ns != [] {
      MembersSplit(ms);
      MembersSplit(ns);
      SameChar(HeadChar(ms[0]), HeadChar(ns[0]), AfterHead(ms), AfterHead(ns));
      if ms[0].Single? != ns[0].Single? {
        if ms[0].Single? {
          SingleIsNoRange(ms, ns);
        } else {
          SingleIsNoRange(ns, ms);
        }
      }
      SameTail(ms, ns);
      SameMembers(ms[1..], ns[1..]);
    }
  }

  lemma AfterDash(ms: seq<ClassMember>)
    requires ms != [] && ms[0].Range?
    ensures AfterHead(ms) != "" && AfterHead(ms)[1..] == RenderChar(ms[0].hi) + RenderMembers(ms[1..])
  {
    var hi, rest := RenderChar(ms[0].hi), RenderMembers(ms[1..]);
    assert ("-" + hi + rest)[1..] == hi + rest;
  }

  lemma SameTail(ms: seq<ClassMember>, ns: seq<ClassMember>)
    requires ms != [] && ns != [] && WellFormedMembers(ms) && WellFormedMembers(ns)
    requires ms[0].Single? == ns[0].Single? && HeadChar(ms[0]) == HeadChar(ns[0]) && AfterHead(ms) == AfterHead(ns)
    ensures ms[0] == ns[0] && RenderMembers(ms[1..]) == RenderMembers(ns[1..])
  {
    var u, v := RenderMembers(ms[1..]), RenderMembers(ns[1..]);
    if ms[0].Range? {
      var x, y := ms[0].hi, ns[0].hi;
      AfterDash(ms);
      AfterDash(ns);
      SameChar(x, y, u, v);
    } else {
      assert AfterHead(ms) == "" + u && AfterHead(ns) == "" + v;
      assert "" + u == u && "" + v == v;
    }
  }

  // ----- Atoms -----

  lemma {:induction false} NoBracketInside(ms: seq<ClassMember>)
    requires WellFormedMembers(ms)
    ensures ']' !in RenderMembers(ms)
    decreases |ms|
  {
    if ms != [] {
      NoBracketInside(ms[1..]);
    }
  }

  /** The first `c` splits a text in one way. */
  lemma {:induction false} SameSplit(s: string, t: string, c: char, u: string, v: string)
    requires c !in s && c !in t && s + [c] + u == t + [c] + v
    ensures s == t && u == v
    decreases |s|
  {
    var a, b := s + [c] + u, t + [c] + v;
    assert a[|s|] == c && b[|t|] == c;
    assert forall i :: 0 <= i < |s| ==> a[i] == s[i];
    assert forall i :: 0 <= i < |t| ==> b[i] == t[i];
    assert |s| == |t|;
    assert a[..|s|] == s && b[..|t|] == t && a[|s| + 1..] == u && b[|t| + 1..] == v;
  }

  function ClassText(a: Atom): string
    requires a.Class?
  {
    (if a.negated then "^" else "") + RenderMembers(a.members)
  }

  lemma SameClass(a: Atom, b: Atom)
    requires a.Class? && b.Class? && WellFormedAtom(a) && WellFormedAtom(b) && ClassText(a) == ClassText(b)
    ensures a == b
  {
    MembersSplit(a.members);
    MembersSplit(b.members);
    assert ClassText(a)[0] == '^' <==> a.negated;
    assert ClassText(b)[0] == '^' <==> b.negated;
    if a.negated {
      assert ClassText(a)[1..] == RenderMembers(a.members) && ClassText(b)[1..] == RenderMembers(b.members);
    } else {
      assert ClassText(a) == RenderMembers(a.members) && ClassText(b) == RenderMembers(b.members);
    }
    SameMembers(a.members, b.members);
  }

  /** What no item starts with, as it stands for something else. */
  predicate IsMark(c: char) {
    c == '*' || c == '+' || c == '?' || c == '^' || c == '$'
  }

  lemma SpecialsListed(c: char)
    ensures c in ".[*+?\\^$" <==> c == '.' || c == '[' || c == '\\' || IsMark(c)
  {
    var all := ".[*+?\\^$";
    assert all[0] == '.' && all[1] == '[' && all[2] == '*' && all[3] == '+' && all[4] == '?';
    assert all[5] == '\\' && all[6] == '^' && all[7] == '$' && |all| == 8;
  }

  lemma AtomStart(a: Atom)
    requires WellFormedAtom(a)
    ensures RenderAtom(a) != ""
    ensures var c := RenderAtom(a)[0];
            (a.Dot? <==> c == '.') && (a.Class? <==> c == '[') && (a.Literal? && a.escaped <==> c == '\\') && !IsMark(c)
  {
    if a.Literal? {
      SpecialsListed(a.c);
    }
  }

  lemma AtomText(a: Atom, u: string)
    requires WellFormedAtom(a)
    ensures RenderAtom(a) != "" && (RenderAtom(a) + u)[0] == RenderAtom(a)[0]
    ensures var c := RenderAtom(a)[0];
            (a.Dot? <==> c == '.') && (a.Class? <==> c == '[') && (a.Literal? && a.escaped <==> c == '\\') && !IsMark(c)
    ensures a.Class? ==> (RenderAtom(a) + u)[1..] == ClassText(a) + "]" + u
  {
    AtomStart(a);
    if a.Class? {
      BracketsAround(RenderAtom(a), if a.negated then "^" else "", RenderMembers(a.members), u);
    }
  }

  lemma BracketsAround(s: string, head: string, members: string, u: string)
    requires s == "[" + head + members + "]"
    ensures (s + u)[1..] == head + members + "]" + u
  {
  }

  lemma SameAtom(a: Atom, b: Atom, u: string, v: string)
    requires WellFormedAtom(a) && WellFormedAtom(b) && RenderAtom(a) + u == RenderAtom(b) + v
    ensures a == b && u == v
  {
    AtomText(a, u);
    AtomText(b, v);
    var s, t := RenderAtom(a) + u, RenderAtom(b) + v;
    if a.Class? {
      NoBracketInside(a.members);
      NoBracketInside(b.members);
      SameSplit(ClassText(a), ClassText(b), ']', u, v);
      SameClass(a, b);
    } else {
      assert |RenderAtom(a)| == |RenderAtom(b)|;
      assert s[|RenderAtom(a)|..] == u && t[|RenderAtom(b)|..] == v;
      if a.Literal? {
        assert s[|RenderAtom(a)| - 1] == a.c && t[|RenderAtom(b)| - 1] == b.c;
      }
    }
  }

  // ----- Items -----

  predicate IsEnd(s: string) {
    s == "" || s == "$"
  }

  lemma ItemsText(items: seq<Item>, end: string)
    requires WellFormedItems(items) && IsEnd(end)
    ensures items == [] ==> RenderItems(items) + end == end
    ensures items != [] ==> RenderItems(items) + end != "" && !IsMark((RenderItems(items) + end)[0])
    ensures items != [] ==>
              RenderItems(items) + end
              == RenderAtom(items[0].atom) + (RenderQuantifier(items[0].quant) + (RenderItems(items[1..]) + end))
  {
    if items != [] {
      var a, q, rest := RenderAtom(items[0].atom), RenderQuantifier(items[0].quant), RenderItems(items[1..]);
      AtomText(items[0].atom, q + (rest + end));
      assert RenderItems(items) == a + q + rest;
      assert a + q + rest + end == a + (q + (rest + end));
    }
  }

  predicate IsQuantifier(c: char) {
    c == '*' || c == '+' || c == '?'
  }

  lemma SameQuantifier(p: Quantifier, q: Quantifier, u: string, v: string)
    requires RenderQuantifier(p) + u == RenderQuantifier(q) + v
    requires (u != "" ==> !IsQuantifier(u[0])) && (v != "" ==> !IsQuantifier(v[0]))
    ensures p == q && u == v
  {
    var a, b := RenderQuantifier(p) + u, RenderQuantifier(q) + v;
    assert p == Once <==> (a == "" || !IsQuantifier(a[0]));
    assert q == Once <==> (b == "" || !IsQuantifier(b[0]));
    assert a[|RenderQuantifier(p)|..] == u && b[|RenderQuantifier(q)|..] == v;
  }

  lemma {:induction false} SameItems(xs: seq<Item>, ys: seq<Item>, end: string, end': string)
    requires WellFormedItems(xs) && WellFormedItems(ys) && IsEnd(end) && IsEnd(end')
    requires RenderItems(xs) + end == RenderItems(ys) + end'
    ensures xs == ys && end == end'
    decreases |xs|
  {
    ItemsText(xs, end);
    ItemsText(ys, end');
    if xs != [] && ys != [] {
      var u, v := RenderItems(xs[1..]) + end, RenderItems(ys[1..]) + end';
      SameAtom(xs[0].atom, ys[0].atom, RenderQuantifier(xs[0].quant) + u, RenderQuantifier(ys[0].quant) + v);
      ItemsText(xs[1..], end);
      ItemsText(ys[1..], end');
      SameQuantifier(xs[0].quant, ys[0].quant, u, v);
      SameItems(xs[1..], ys[1..], end, end');
      assert xs == [xs[0]] + xs[1..] && ys == [ys[0]] + ys[1..];
    }
  }

  lemma StartOf(p: Pattern, s: string)
    requires WellFormed(p) && s == RenderItems(p.items) + if p.anchoredEnd then "$" else ""
    ensures Render(p) == (if p.anchoredStart then "^" else "") + s
    ensures p.anchoredStart <==> Render(p) != "" && Render(p)[0] == '^'
    ensures p.anchoredStart ==> Render(p)[1..] == s
    ensures !p.anchoredStart ==> Render(p) == s
  {
    ItemsText(p.items, if p.anchoredEnd then "$" else "");
    var head, end := if p.anchoredStart then "^" else "", if p.anchoredEnd then "$" else "";
    assert head + RenderItems(p.items) + end == head + (RenderItems(p.items) + end);
  }

  /** No text can be read as two patterns. */
  lemma RenderIsInjective(p: Pattern, q: Pattern)
    requires WellFormed(p) && WellFormed(q) && Render(p) == Render(q)
    ensures p == q
  {
    var e, e' := if p.anchoredEnd then "$" else "", if q.anchoredEnd then "$" else "";
    StartOf(p, RenderItems(p.items) + e);
    StartOf(q, RenderItems(q.items) + e');
    SameItems(p.items, q.items, e, e');
  }
}
