/** The emitted matcher against the language of the pattern: always sound, and exact under a
    condition on the pattern that is both sufficient and necessary. */
module RegexTheorems {
  import opened RegexSyntax
  import opened RegexCompiler
  import opened RegexMatcher
  import opened RegexGreedy

  /** The matcher compiled from the text of `p` accepts `s`. */
  predicate Accepts(p: Pattern, s: string) {
    Match(Emit(Render(p)), s) == Accept
  }

  // ----- Concatenation -----

  /** How to match a list: the first item takes `k` characters, the others the rest. */
  lemma MatchFirst(items: seq<Item>, w: string, k: nat)
    requires items != [] && k <= |w| && ItemMatches(items[0], w[..k]) && ItemsMatch(items[1..], w[k..])
    ensures ItemsMatch(items, w)
  {
  }

  lemma MatchFirstBetween(items: seq<Item>, s: string, i: nat, k: nat, j: nat)
    requires i <= k <= j <= |s| && items != []
    requires ItemMatches(items[0], s[i..k]) && ItemsMatch(items[1..], s[k..j])
    ensures ItemsMatch(items, s[i..j])
  {
    assert s[i..j][..k - i] == s[i..k] && s[i..j][k - i..] == s[k..j];
    MatchFirst(items, s[i..j], k - i);
  }

  lemma {:induction false} MatchAppend(a: seq<Item>, b: seq<Item>, u: string, v: string)
    requires ItemsMatch(a, u) && ItemsMatch(b, v)
    ensures ItemsMatch(a + b, u + v)
    decreases |a|
  {
    if a == [] {
      assert a + b == b && u + v == v;
    } else {
      var k :| 0 <= k <= |u| && ItemMatches(a[0], u[..k]) && ItemsMatch(a[1..], u[k..]);
      MatchAppend(a[1..], b, u[k..], v);
      assert (a + b)[0] == a[0] && (a + b)[1..] == a[1..] + b;
      assert (u + v)[..k] == u[..k] && (u + v)[k..] == u[k..] + v;
      MatchFirst(a + b, u + v, k);
    }
  }

  lemma {:induction false} MatchSplit(a: seq<Item>, b: seq<Item>, w: string) returns (k: nat)
    requires ItemsMatch(a + b, w)
    ensures k <= |w| && ItemsMatch(a, w[..k]) && ItemsMatch(b, w[k..])
    decreases |a|
  {
    if a == [] {
      assert a + b == b && w[0..] == w;
      return 0;
    }
    assert (a + b)[0] == a[0] && (a + b)[1..] == a[1..] + b;
    var h :| 0 <= h <= |w| && ItemMatches(a[0], w[..h]) && ItemsMatch(a[1..] + b, w[h..]);
    var t := MatchSplit(a[1..], b, w[h..]);
    k := h + t;
    assert w[..k][..h] == w[..h] && w[..k][h..] == w[h..][..t] && w[h..][t..] == w[k..];
  }

  lemma MatchOne(it: Item, w: string)
    requires ItemMatches(it, w)
    ensures ItemsMatch([it], w)
  {
    assert w[..|w|] == w && w[|w|..] == "" && [it][1..] == [];
  }

  lemma {:induction false} GreedyAppend(a: seq<Item>, b: seq<Item>, s: string, p: nat)
    requires p <= |s|
    ensures Greedy(a + b, s, p) == var r := Greedy(a, s, p); if r.To? then Greedy(b, s, r.q) else Stuck
    decreases |a|
  {
    if a == [] {
      assert a + b == b;
    } else {
      assert (a + b)[0] == a[0] && (a + b)[1..] == a[1..] + b;
      if p < |s| && AtomHas(a[0].atom, s[p]) {
        GreedyAppend(a[1..], b, s, if Loops(a[0]) then Span(a[0].atom, s, p + 1) else p + 1);
      }
    }
  }

  // ----- Soundness -----

  lemma {:induction false} GreedyIsAMatch(items: seq<Item>, s: string, p: nat)
    requires p <= |s| && Greedy(items, s, p).To?
    ensures ItemsMatch(items, s[p..Greedy(items, s, p).q])
    decreases |items|
  {
    var q := Greedy(items, s, p).q;
    if items != [] {
      var next := if Loops(items[0]) then Span(items[0].atom, s, p + 1) else p + 1;
      GreedyIsAMatch(items[1..], s, next);
      MatchFirstBetween(items, s, p, next, q);
    }
  }

  lemma {:induction false} GreedyFromIsInLanguage(p: Pattern, s: string, start: nat)
    requires GreedyFrom(p, s, start) && (p.anchoredStart ==> start == 0)
    ensures InLanguage(p, s)
  {
    GreedyIsAMatch(p.items, s, start);
    assert MatchesBetween(p, s, start, Greedy(p.items, s, start).q);
  }

  /** Soundness, for the whole documented syntax: what the matcher accepts is in the language,
      and on no string does the cursor leave the text and its terminator. */
  lemma {:induction false} MatcherIsSound(p: Pattern, s: string)
    requires WellFormed(p) && NulFree(s)
    ensures Match(Emit(Render(p)), s) != Crash
    ensures Accepts(p, s) ==> InLanguage(p, s)
  {
    MatcherIsGreedy(p, s);
    if Accepts(p, s) {
      var start :| 0 <= start <= |s| && GreedyFrom(p, s, start) && (p.anchoredStart ==> start == 0);
      GreedyFromIsInLanguage(p, s, start);
    }
  }

  // ----- When the matcher is exact: a condition that can be executed, as characters are finitely many -----

  predicate Inhabited(a: Atom) {
    exists c :: AtomHas(a, c)
  }

  predicate Universal(a: Atom) {
    forall c :: c != '\0' ==> AtomHas(a, c)
  }

  predicate Overlap(a: Atom, b: Atom) {
    exists c :: AtomHas(a, c) && AtomHas(b, c)
  }

  predicate Mandatory(it: Item) {
    it.quant == Once || it.quant == Plus
  }

  /** Some item needs a character that no character can be: nothing matches. */
  predicate Dead(items: seq<Item>) {
    exists i :: 0 <= i < |items| && Mandatory(items[i]) && !Inhabited(items[i].atom)
  }

  predicate AllMandatory(items: seq<Item>) {
    forall i :: 0 <= i < |items| ==> Mandatory(items[i])
  }

  /** The class of a looping item shares no character with the next item's class. */
  predicate Separated(items: seq<Item>) {
    forall i :: 0 <= i < |items| - 1 && Loops(items[i]) ==> !Overlap(items[i].atom, items[i + 1].atom)
  }

  /** `.+`, which is emitted as a plain dot. */
  predicate IsDotPlus(it: Item) {
    it.atom.Dot? && it.quant == Plus
  }

  predicate AllUniversal(items: seq<Item>) {
    forall i :: 0 <= i < |items| ==> Universal(items[i].atom)
  }

  /** Further characters of item `i` can be left in front of the match. */
  predicate HeadFree(p: Pattern, i: nat)
    requires i < |p.items|
  {
    !p.anchoredStart && AllUniversal(p.items[..i])
  }

  /** Further characters of item `i` can be left behind the match, or to a last looping item. */
  predicate TailFree(p: Pattern, i: nat)
    requires i < |p.items|
  {
    && AllUniversal(p.items[i + 1..])
    && (p.anchoredEnd ==> i < |p.items| - 1 && Loops(p.items[|p.items| - 1]))
  }

  predicate DotPlusHarmless(p: Pattern) {
    forall i :: 0 <= i < |p.items| && IsDotPlus(p.items[i]) ==> HeadFree(p, i) || TailFree(p, i)
  }

  predicate ExactPattern(p: Pattern) {
    || Dead(p.items)
    || (&& (p.items != [] || p.anchoredStart)
        && (EndAnchored(p) ==> p.anchoredEnd)
        && AllMandatory(p.items)
        && Separated(p.items)
        && DotPlusHarmless(p))
  }

  // ----- Necessity: a string on which the matcher and the language disagree -----

  ghost predicate Disagree(p: Pattern, s: string) {
    NulFree(s) && InLanguage(p, s) && !Accepts(p, s)
  }

  lemma WholeMatchIsInLanguage(p: Pattern, s: string)
    requires ItemsMatch(p.items, s)
    ensures InLanguage(p, s)
  {
    assert s[0..|s|] == s;
    assert MatchesBetween(p, s, 0, |s|);
  }

  lemma {:induction false} NoStartRejects(p: Pattern, s: string)
    requires WellFormed(p) && NulFree(s)
    requires !GreedyFrom(p, s, 0)
    requires !p.anchoredStart ==> forall start :: 1 <= start < |s| ==> !GreedyFrom(p, s, start)
    ensures !Accepts(p, s)
  {
    MatcherIsGreedy(p, s);
  }

  /** Every item takes at least one character, so a late start leaves too few. */
  lemma ShortStringRejects(p: Pattern, s: string)
    requires WellFormed(p) && NulFree(s) && |s| < |p.items|
    ensures !Accepts(p, s)
  {
    NoStartRejects(p, s);
  }

  lemma {:induction false} ShortestWord(items: seq<Item>) returns (w: string)
    requires !Dead(items)
    ensures NulFree(w) && ItemsMatch(items, w)
    ensures |w| <= |items| && (|w| == |items| ==> AllMandatory(items))
    ensures AllMandatory(items) ==> |w| == |items| && forall i :: 0 <= i < |items| ==> AtomHas(items[i].atom, w[i])
    decreases |items|
  {
    if items == [] {
      return "";
    }
    assert forall i :: 0 <= i < |items[1..]| ==> items[1..][i] == items[i + 1];
    var rest := ShortestWord(items[1..]);
    if Mandatory(items[0]) {
      var c :| AtomHas(items[0].atom, c);
      w := [c] + rest;
      assert w[..1] == [c] && w[1..] == rest;
      assert ItemMatches(items[0], w[..1]);
      if AllMandatory(items) {
        forall i | 0 <= i < |items| ensures AtomHas(items[i].atom, w[i]) {
          if i > 0 { assert items[i] == items[1..][i - 1]; }
        }
      } else {
        assert !AllMandatory(items[1..]) by {
          var i :| 0 <= i < |items| && !Mandatory(items[i]);
          assert items[1..][i - 1] == items[i];
        }
      }
    } else {
      w := rest;
      assert w[..0] == "" && w[0..] == rest;
      assert ItemMatches(items[0], w[..0]);
    }
  }

  lemma EmptyPatternDisagrees(p: Pattern)
    requires WellFormed(p) && p.items == [] && !p.anchoredStart
    ensures Disagree(p, "")
  {
    WholeMatchIsInLanguage(p, "");
    MatcherIsGreedy(p, "");
  }

  /** `x*` and `x?` are emitted as if one `x` were required. */
  lemma OptionalDisagrees(p: Pattern) returns (s: string)
    requires WellFormed(p) && !Dead(p.items) && !AllMandatory(p.items)
    ensures Disagree(p, s)
  {
    s := ShortestWord(p.items);
    WholeMatchIsInLanguage(p, s);
    ShortStringRejects(p, s);
  }

  lemma {:induction false} LastCharacterTaken(items: seq<Item>, s: string, p: nat)
    requires items != [] && p <= |s| && Greedy(items, s, p).To?
    requires !Loops(items[|items| - 1])
    ensures AtomHas(items[|items| - 1].atom, s[Greedy(items, s, p).q - 1])
  {
    var n := |items| - 1;
    assert items == items[..n] + [items[n]];
    GreedyAppend(items[..n], [items[n]], s, p);
    assert [items[n]][1..] == [];
  }

  /** A final `\$` makes the emitter anchor the end. */
  lemma WrittenDollarDisagrees(p: Pattern) returns (s: string)
    requires WellFormed(p) && !Dead(p.items) && EndAnchored(p) && !p.anchoredEnd
    ensures Disagree(p, s)
  {
    var w := ShortestWord(p.items);
    s := w + "a";
    assert s[0..|w|] == w;
    assert MatchesBetween(p, s, 0, |w|);
    forall start | 0 <= start <= |s|
      ensures !GreedyFrom(p, s, start)
    {
      if GreedyFrom(p, s, start) {
        LastCharacterTaken(p.items, s, start);
      }
    }
    NoStartRejects(p, s);
  }

  /** The looping item also takes the character meant for its successor. */
  lemma {:induction false} OverlapDisagrees(p: Pattern, i: nat) returns (s: string)
    requires WellFormed(p) && !Dead(p.items) && AllMandatory(p.items)
    requires i < |p.items| - 1 && Loops(p.items[i]) && Overlap(p.items[i].atom, p.items[i + 1].atom)
    ensures Disagree(p, s)
  {
    var items, n := p.items, |p.items|;
    var w := ShortestWord(items);
    var c :| AtomHas(items[i].atom, c) && AtomHas(items[i + 1].atom, c);
    s := w[i := c][i + 1 := c];
    PointwiseMatch(items, s);
    WholeMatchIsInLanguage(p, s);
    assert items[i..][0] == items[i] && items[i..][1..] == items[i + 1..];
    assert Span(items[i].atom, s, i + 1) >= i + 2;
    assert Greedy(items[i..], s, i) == Stuck;
    TightStart(items, s, 0, i);
    NoStartRejects(p, s);
  }

  lemma {:induction false} PointwiseMatch(items: seq<Item>, w: string)
    requires |w| == |items| && AllMandatory(items)
    requires forall i :: 0 <= i < |items| ==> AtomHas(items[i].atom, w[i])
    ensures ItemsMatch(items, w)
    decreases |items|
  {
    if items != [] {
      assert w[..1] == [w[0]];
      assert forall i :: 0 <= i < |items[1..]| ==> items[1..][i] == items[i + 1] && w[1..][i] == w[i + 1];
      PointwiseMatch(items[1..], w[1..]);
      assert ItemMatches(items[0], w[..1]);
    }
  }

  /** With as many characters left as items, the first `i` items take exactly `i` of them. */
  lemma {:induction false} TightStart(items: seq<Item>, s: string, start: nat, i: nat)
    requires i <= |items| && start + |items| == |s|
    ensures Greedy(items, s, start).To? ==> Greedy(items[i..], s, start + i).To?
  {
    assert items == items[..i] + items[i..];
    GreedyAppend(items[..i], items[i..], s, start);
    var r := Greedy(items[..i], s, start);
    if r.To? && r.q > start + i {
      assert Greedy(items[i..], s, r.q) == Stuck;
    }
  }

  /** Items that each meet one character they have, and whose loops stop there, take one each. */
  lemma {:induction false} PrefixTakesOneEach(items: seq<Item>, s: string, k: nat)
    requires k <= |items| && k <= |s|
    requires forall i :: 0 <= i < k ==> AtomHas(items[i].atom, s[i])
    requires forall i :: 0 <= i < k && Loops(items[i]) ==> i + 1 < |s| && !AtomHas(items[i].atom, s[i + 1])
    ensures Greedy(items[..k], s, 0) == To(k)
    decreases k
  {
    if k > 0 {
      PrefixTakesOneEach(items, s, k - 1);
      assert items[..k] == items[..k - 1] + [items[k - 1]];
      GreedyAppend(items[..k - 1], [items[k - 1]], s, 0);
      assert [items[k - 1]][1..] == [];
    }
  }

  lemma {:induction false} LastNonUniversal(items: seq<Item>) returns (h: nat)
    requires !AllUniversal(items)
    ensures h < |items| && !Universal(items[h].atom) && AllUniversal(items[h + 1..])
    decreases |items|
  {
    var n := |items| - 1;
    if Universal(items[n].atom) {
      assert items == items[..n] + [items[n]];
      h := LastNonUniversal(items[..n]);
      assert items[h + 1..] == items[..n][h + 1..] + [items[n]];
    } else {
      h := n;
    }
  }

  lemma {:induction false} FirstNonUniversal(items: seq<Item>) returns (j: nat)
    requires !AllUniversal(items)
    ensures j < |items| && !Universal(items[j].atom) && AllUniversal(items[..j])
    decreases |items|
  {
    if Universal(items[0].atom) {
      assert items == [items[0]] + items[1..];
      j := FirstNonUniversal(items[1..]);
      assert items[..j + 1] == [items[0]] + items[1..][..j];
      j := j + 1;
    } else {
      j := 0;
    }
  }

  /** The character string on which a harmful `.+` shows: item `i` owns two characters of it. */
  ghost predicate DoubledWord(items: seq<Item>, i: nat, s: string) {
    && i < |items| && |s| == |items| + 1 && NulFree(s)
    && (forall k :: 0 <= k <= i ==> AtomHas(items[k].atom, s[k]))
    && (forall k :: i < k < |items| ==> AtomHas(items[k].atom, s[k + 1]))
  }

  lemma {:induction false} DoubledWordMatches(items: seq<Item>, i: nat, s: string)
    requires DoubledWord(items, i, s) && AllMandatory(items) && IsDotPlus(items[i])
    ensures ItemsMatch(items, s)
  {
    var head, tail := items[..i], items[i + 1..];
    assert items == head + ([items[i]] + tail);
    assert s == s[..i] + (s[i..i + 2] + s[i + 2..]);
    PointwiseMatch(head, s[..i]);
    MatchOne(items[i], s[i..i + 2]);
    PointwiseMatch(tail, s[i + 2..]);
    MatchAppend([items[i]], tail, s[i..i + 2], s[i + 2..]);
    MatchAppend(head, [items[i]] + tail, s[..i], s[i..i + 2] + s[i + 2..]);
  }

  /** Where the attempt from the first position fails: at item `j`, or at the end anchor. */
  ghost predicate StopsAt(p: Pattern, i: nat, j: nat, s: string) {
    var n := |p.items|;
    && i < j <= n == |s| - 1
    && (j < n ==> !AtomHas(p.items[j].atom, s[j]))
    && (j == n ==> p.anchoredEnd && !Loops(p.items[n - 1]))
    && AllUniversal(p.items[i + 1..j])
  }

  lemma {:induction false} FirstStartFails(p: Pattern, i: nat, j: nat, s: string)
    requires WellFormed(p) && Separated(p.items)
    requires DoubledWord(p.items, i, s) && IsDotPlus(p.items[i]) && StopsAt(p, i, j, s)
    ensures !GreedyFrom(p, s, 0)
  {
    var items, n := p.items, |p.items|;
    forall k | 0 <= k < i && Loops(items[k]) ensures !AtomHas(items[k].atom, s[k + 1]) {
      assert AtomHas(items[k + 1].atom, s[k + 1]);
    }
    forall k | i < k < j ensures Universal(items[k].atom) {
      assert items[i + 1..j][k - i - 1] == items[k];
    }
    forall k | i <= k < j ensures !Loops(items[k]) {
      if k < n - 1 && k > i {
        assert AtomHas(items[k + 1].atom, s[k + 2]) && AtomHas(items[k].atom, s[k + 2]);
      }
    }
    PrefixTakesOneEach(items, s, j);
    assert items == items[..j] + items[j..];
    GreedyAppend(items[..j], items[j..], s, 0);
  }

  lemma {:induction false} SecondStartFails(p: Pattern, h: nat, s: string)
    requires h < |p.items| && |s| == |p.items| + 1
    requires !AtomHas(p.items[h].atom, s[h + 1])
    ensures !GreedyFrom(p, s, 1)
  {
    TightStart(p.items, s, 1, h);
    assert p.items[h..][0] == p.items[h];
  }

  /** Put `z` where only universal items look. */
  lemma {:induction false} DoubledWordUpdate(items: seq<Item>, i: nat, s: string, at: nat, z: char)
    requires DoubledWord(items, i, s) && at < |s| && z != '\0'
    requires at <= i ==> Universal(items[at].atom)
    requires at > i + 1 ==> Universal(items[at - 1].atom)
    ensures DoubledWord(items, i, s[at := z])
  {
  }

  /** Spoil the start at the second position, at the last picky item before item `i`. */
  lemma {:induction false} BlockSecondStart(items: seq<Item>, i: nat, s: string) returns (h: nat, s': string)
    requires DoubledWord(items, i, s) && IsDotPlus(items[i]) && !AllUniversal(items[..i])
    ensures DoubledWord(items, i, s') && h < i && !AtomHas(items[h].atom, s'[h + 1])
  {
    h := LastNonUniversal(items[..i]);
    var z :| z != '\0' && !AtomHas(items[h].atom, z);
    if h + 1 < i {
      assert items[..i][h + 1..][0] == items[h + 1];
    }
    s' := s[h + 1 := z];
    DoubledWordUpdate(items, i, s, h + 1, z);
  }

  /** Spoil the start at the first position, at the first picky item after item `i`. */
  lemma {:induction false} BlockFirstStart(p: Pattern, i: nat, s: string) returns (j: nat, s': string)
    requires DoubledWord(p.items, i, s) && !TailFree(p, i) && IsDotPlus(p.items[i])
    ensures DoubledWord(p.items, i, s') && s'[..i + 1] == s[..i + 1]
    ensures StopsAt(p, i, j, s')
  {
    var items, n := p.items, |p.items|;
    if AllUniversal(items[i + 1..]) {
      assert items[i + 1..n] == items[i + 1..];
      return n, s;
    }
    var t := FirstNonUniversal(items[i + 1..]);
    j := i + 1 + t;
    var z :| z != '\0' && !AtomHas(items[j].atom, z);
    assert items[i + 1..j] == items[i + 1..][..t];
    if t > 0 {
      assert items[i + 1..j][t - 1] == items[j - 1];
    }
    s' := s[j := z];
    DoubledWordUpdate(items, i, s, j, z);
  }

  lemma {:induction false} SomeDoubledWord(items: seq<Item>, i: nat) returns (s: string)
    requires !Dead(items) && AllMandatory(items) && i < |items|
    ensures DoubledWord(items, i, s)
  {
    var m := ShortestWord(items);
    s := m[..i + 1] + "a" + m[i + 1..];
  }

  lemma {:induction false} SpoiltWord(p: Pattern, i: nat) returns (s: string)
    requires WellFormed(p) && !Dead(p.items) && AllMandatory(p.items) && Separated(p.items)
    requires i < |p.items| && IsDotPlus(p.items[i]) && !HeadFree(p, i) && !TailFree(p, i)
    ensures DoubledWord(p.items, i, s) && !GreedyFrom(p, s, 0)
    ensures !p.anchoredStart ==> !GreedyFrom(p, s, 1)
  {
    var w := SomeDoubledWord(p.items, i);
    if p.anchoredStart {
      var j, v := BlockFirstStart(p, i, w);
      FirstStartFails(p, i, j, v);
      return v;
    }
    var h, u := BlockSecondStart(p.items, i, w);
    var j, v := BlockFirstStart(p, i, u);
    assert v[..i + 1][h + 1] == u[..i + 1][h + 1];
    FirstStartFails(p, i, j, v);
    SecondStartFails(p, h, v);
    s := v;
  }

  /** A `.+` in the middle: the emitted dot takes one character where the language allows two. */
  lemma {:induction false} DotPlusDisagrees(p: Pattern, i: nat) returns (s: string)
    requires WellFormed(p) && !Dead(p.items) && AllMandatory(p.items) && Separated(p.items)
    requires i < |p.items| && IsDotPlus(p.items[i]) && !HeadFree(p, i) && !TailFree(p, i)
    ensures Disagree(p, s)
  {
    s := SpoiltWord(p, i);
    DoubledWordMatches(p.items, i, s);
    WholeMatchIsInLanguage(p, s);
    NoStartRejects(p, s);
  }

  // ----- Sufficiency -----

  lemma {:induction false} SpanIs(a: Atom, s: string, p: nat, q: nat)
    requires p <= q <= |s| && AllHave(a, s[p..q])
    ensures Span(a, s, p) >= q
    ensures q < |s| && !AtomHas(a, s[q]) ==> Span(a, s, p) == q
    decreases q - p
  {
    if p < q {
      assert AtomHas(a, s[p..q][0]);
      assert s[p + 1..q] == s[p..q][1..];
      SpanIs(a, s, p + 1, q);
    }
  }

  lemma FirstCharacter(items: seq<Item>, w: string)
    requires items != [] && Mandatory(items[0]) && ItemsMatch(items, w)
    ensures w != "" && AtomHas(items[0].atom, w[0])
  {
    var k :| 0 <= k <= |w| && ItemMatches(items[0], w[..k]) && ItemsMatch(items[1..], w[k..]);
    assert w[..k][0] == w[0];
  }

  lemma FirstPart(items: seq<Item>, s: string, p: nat, j: nat) returns (k: nat)
    requires p <= j <= |s| && items != [] && ItemsMatch(items, s[p..j])
    ensures p <= k <= j && ItemMatches(items[0], s[p..k]) && ItemsMatch(items[1..], s[k..j])
  {
    var w := s[p..j];
    var h :| 0 <= h <= |w| && ItemMatches(items[0], w[..h]) && ItemsMatch(items[1..], w[h..]);
    k := p + h;
    assert w[..h] == s[p..k] && w[h..] == s[k..j];
  }

  lemma FirstPartIsTaken(it: Item, s: string, p: nat, k: nat)
    requires p <= k <= |s| && Mandatory(it) && !IsDotPlus(it) && ItemMatches(it, s[p..k])
    ensures p < k && AtomHas(it.atom, s[p])
    ensures if Loops(it) then k <= Span(it.atom, s, p + 1) else k == p + 1
    ensures Loops(it) && (k == |s| || !AtomHas(it.atom, s[k])) ==> Span(it.atom, s, p + 1) == k
  {
    assert s[p..k][0] == s[p];
    assert s[p + 1..k] == s[p..k][1..];
    SpanIs(it.atom, s, p + 1, k);
  }

  /** With separated loops, taking all one can is the only way to match. */
  lemma {:induction false} GreedyFindsTheMatch(items: seq<Item>, s: string, p: nat, j: nat)
    requires p <= j <= |s| && ItemsMatch(items, s[p..j])
    requires AllMandatory(items) && Separated(items)
    requires forall i :: 0 <= i < |items| ==> !IsDotPlus(items[i])
    ensures Greedy(items, s, p).To? && Greedy(items, s, p).q >= j
    decreases |items|
  {
    if items != [] {
      var rest := items[1..];
      var k := FirstPart(items, s, p, j);
      FirstPartIsTaken(items[0], s, p, k);
      assert forall i :: 0 <= i < |rest| ==> rest[i] == items[i + 1];
      if rest != [] {
        FirstCharacter(rest, s[k..j]);
        assert s[k..j][0] == s[k];
        GreedyFindsTheMatch(rest, s, k, j);
      }
    }
  }

  /** The items as the emitter sees them: `.+` is a dot. */
  function Erase(items: seq<Item>): (r: seq<Item>)
    ensures |r| == |items|
    ensures forall i :: 0 <= i < |items| ==> r[i] == if IsDotPlus(items[i]) then Item(Dot, Once) else items[i]
  {
    seq(|items|, i requires 0 <= i < |items| => if IsDotPlus(items[i]) then Item(Dot, Once) else items[i])
  }

  lemma EraseAppend(a: seq<Item>, b: seq<Item>)
    ensures Erase(a + b) == Erase(a) + Erase(b)
  {
  }

  lemma {:induction false} GreedyOfErased(items: seq<Item>, s: string, p: nat)
    requires p <= |s|
    ensures Greedy(Erase(items), s, p) == Greedy(items, s, p)
    decreases |items|
  {
    if items != [] {
      assert Erase(items)[1..] == Erase(items[1..]);
      if p < |s| && AtomHas(items[0].atom, s[p]) {
        GreedyOfErased(items[1..], s, if Loops(items[0]) then Span(items[0].atom, s, p + 1) else p + 1);
      }
    }
  }

  lemma {:induction false} MatchLength(items: seq<Item>, w: string)
    requires AllMandatory(items) && ItemsMatch(items, w)
    ensures |w| >= |items|
    decreases |items|
  {
    if items != [] {
      var k :| 0 <= k <= |w| && ItemMatches(items[0], w[..k]) && ItemsMatch(items[1..], w[k..]);
      assert forall i :: 0 <= i < |items[1..]| ==> items[1..][i] == items[i + 1];
      MatchLength(items[1..], w[k..]);
    }
  }

  /** Universal items in front of an unanchored match need only its last characters. */
  lemma {:induction false} HeadShrinks(a: seq<Item>, s: string, i: nat, k: nat)
    requires AllMandatory(a) && AllUniversal(a) && NulFree(s)
    requires i <= k <= |s| && ItemsMatch(a, s[i..k])
    ensures i <= k - |a| && ItemsMatch(Erase(a), s[k - |a|..k])
  {
    MatchLength(a, s[i..k]);
    PointwiseMatch(Erase(a), s[k - |a|..k]);
  }

  /** Universal items behind give their spare characters away, or to a last looping item. */
  lemma {:induction false} TailShrinks(c: seq<Item>, s: string, k: nat, anchoredEnd: bool) returns (j: nat)
    requires c != [] && AllMandatory(c) && AllUniversal(c) && NulFree(s)
    requires anchoredEnd ==> Loops(c[|c| - 1])
    requires k + |c| <= |s|
    ensures k <= j <= |s| && (anchoredEnd ==> j == |s|) && ItemsMatch(Erase(c), s[k..j])
  {
    var e, n := Erase(c), |c| - 1;
    if !anchoredEnd {
      PointwiseMatch(e, s[k..k + n + 1]);
      return k + n + 1;
    }
    PointwiseMatch(e[..n], s[k..k + n]);
    MatchOne(e[n], s[k + n..]);
    MatchAppend(e[..n], [e[n]], s[k..k + n], s[k + n..]);
    assert e == e[..n] + [e[n]] && s[k..|s|] == s[k..k + n] + s[k + n..];
    j := |s|;
  }

  /** The harmless `.+` items: first those free at the head, then those free at the tail. */
  lemma {:induction false} CutPoints(p: Pattern) returns (c1: nat, c2: nat)
    requires DotPlusHarmless(p)
    ensures c1 <= c2 <= |p.items|
    ensures c1 > 0 ==> !p.anchoredStart && AllUniversal(p.items[..c1])
    ensures forall k :: c1 <= k < c2 ==> !IsDotPlus(p.items[k])
    ensures c2 < |p.items| ==> IsDotPlus(p.items[c2]) && TailFree(p, c2)
  {
    var items, n := p.items, |p.items|;
    c1 := n;
    while c1 > 0 && !(IsDotPlus(items[c1 - 1]) && HeadFree(p, c1 - 1))
      invariant c1 <= n
      invariant forall k :: c1 <= k < n && IsDotPlus(items[k]) ==> !HeadFree(p, k)
    {
      c1 := c1 - 1;
    }
    if c1 > 0 {
      assert items[..c1] == items[..c1 - 1] + [items[c1 - 1]];
    }
    c2 := c1;
    while c2 < n && !IsDotPlus(items[c2])
      invariant c1 <= c2 <= n
      invariant forall k :: c1 <= k < c2 ==> !IsDotPlus(items[k])
    {
      c2 := c2 + 1;
    }
  }

  lemma SplitWithin(a: seq<Item>, b: seq<Item>, s: string, i: nat, j: nat) returns (k: nat)
    requires i <= j <= |s| && ItemsMatch(a + b, s[i..j])
    ensures i <= k <= j && ItemsMatch(a, s[i..k]) && ItemsMatch(b, s[k..j])
  {
    var x := MatchSplit(a, b, s[i..j]);
    k := i + x;
    assert s[i..j][..x] == s[i..k] && s[i..j][x..] == s[k..j];
  }

  lemma {:induction false} ErasedHead(p: Pattern, c1: nat, s: string, i: nat, k: nat) returns (i': nat)
    requires NulFree(s) && AllMandatory(p.items) && c1 <= |p.items|
    requires c1 > 0 ==> !p.anchoredStart && AllUniversal(p.items[..c1])
    requires i <= k <= |s| && (p.anchoredStart ==> i == 0) && ItemsMatch(p.items[..c1], s[i..k])
    ensures i' <= k && (p.anchoredStart ==> i' == 0) && ItemsMatch(Erase(p.items[..c1]), s[i'..k])
  {
    i' := i;
    if c1 > 0 {
      HeadShrinks(p.items[..c1], s, i, k);
      i' := k - c1;
    }
  }

  lemma {:induction false} ErasedTail(p: Pattern, c2: nat, s: string, l: nat, j: nat) returns (j': nat)
    requires NulFree(s) && AllMandatory(p.items) && c2 <= |p.items|
    requires c2 < |p.items| ==> IsDotPlus(p.items[c2]) && TailFree(p, c2)
    requires l <= j <= |s| && (p.anchoredEnd ==> j == |s|) && ItemsMatch(p.items[c2..], s[l..j])
    ensures l <= j' <= |s| && (p.anchoredEnd ==> j' == |s|) && ItemsMatch(Erase(p.items[c2..]), s[l..j'])
  {
    var c := p.items[c2..];
    j' := j;
    if c != [] {
      MatchLength(c, s[l..j]);
      assert c == [p.items[c2]] + p.items[c2 + 1..];
      j' := TailShrinks(c, s, l, p.anchoredEnd);
    }
  }

  /** Under the condition, a match of the pattern gives a match of what the emitter sees. */
  lemma {:induction false} ErasedMatch(p: Pattern, s: string, i: nat, j: nat) returns (i': nat, j': nat)
    requires NulFree(s) && MatchesBetween(p, s, i, j)
    requires AllMandatory(p.items) && DotPlusHarmless(p)
    ensures i' <= j' <= |s| && (p.anchoredStart ==> i' == 0) && (p.anchoredEnd ==> j' == |s|)
    ensures ItemsMatch(Erase(p.items), s[i'..j'])
  {
    var c1, c2 := CutPoints(p);
    var a, b, c := p.items[..c1], p.items[c1..c2], p.items[c2..];
    assert p.items == a + (b + c);
    var k := SplitWithin(a, b + c, s, i, j);
    var l := SplitWithin(b, c, s, k, j);
    i' := ErasedHead(p, c1, s, i, k);
    j' := ErasedTail(p, c2, s, l, j);
    assert Erase(b) == b;
    ErasedThree(a, b, c, s, i', k, l, j');
  }

  lemma ErasedThree(a: seq<Item>, b: seq<Item>, c: seq<Item>, s: string, i: nat, k: nat, l: nat, j: nat)
    requires i <= k <= l <= j <= |s| && Erase(b) == b
    requires ItemsMatch(Erase(a), s[i..k]) && ItemsMatch(b, s[k..l]) && ItemsMatch(Erase(c), s[l..j])
    ensures ItemsMatch(Erase(a + (b + c)), s[i..j])
  {
    JoinThree(Erase(a), b, Erase(c), s, i, k, l, j);
    EraseAppend(b, c);
    EraseAppend(a, b + c);
  }

  lemma JoinTwo(a: seq<Item>, b: seq<Item>, s: string, i: nat, k: nat, j: nat)
    requires i <= k <= j <= |s| && ItemsMatch(a, s[i..k]) && ItemsMatch(b, s[k..j])
    ensures ItemsMatch(a + b, s[i..j])
  {
    MatchAppend(a, b, s[i..k], s[k..j]);
    assert s[i..k] + s[k..j] == s[i..j];
  }

  lemma JoinThree(a: seq<Item>, b: seq<Item>, c: seq<Item>, s: string, i: nat, k: nat, l: nat, j: nat)
    requires i <= k <= l <= j <= |s|
    requires ItemsMatch(a, s[i..k]) && ItemsMatch(b, s[k..l]) && ItemsMatch(c, s[l..j])
    ensures ItemsMatch(a + (b + c), s[i..j])
  {
    JoinTwo(b, c, s, k, l, j);
    JoinTwo(a, b + c, s, i, k, j);
  }

  lemma {:induction false} LanguageIsAccepted(p: Pattern, s: string)
    requires WellFormed(p) && NulFree(s) && InLanguage(p, s)
    requires p.items != [] || p.anchoredStart
    requires EndAnchored(p) ==> p.anchoredEnd
    requires AllMandatory(p.items) && Separated(p.items) && DotPlusHarmless(p)
    ensures Accepts(p, s)
  {
    var i, j :| MatchesBetween(p, s, i, j);
    var i', j' := ErasedMatch(p, s, i, j);
    var e := Erase(p.items);
    MatchLength(e, s[i'..j']);
    GreedyFindsTheMatch(e, s, i', j');
    GreedyOfErased(p.items, s, i');
    assert GreedyFrom(p, s, i');
    MatcherIsGreedy(p, s);
  }

  lemma DeadItemMatchesNothing(it: Item, w: string)
    requires Mandatory(it) && !Inhabited(it.atom)
    ensures !ItemMatches(it, w)
  {
    if w != "" {
      assert !AtomHas(it.atom, w[0]);
    }
  }

  lemma {:induction false} DeadMatchesNothing(items: seq<Item>, w: string)
    requires Dead(items)
    ensures !ItemsMatch(items, w)
    decreases |items|
  {
    var i :| 0 <= i < |items| && Mandatory(items[i]) && !Inhabited(items[i].atom);
    forall k | 0 <= k <= |w|
      ensures !(ItemMatches(items[0], w[..k]) && ItemsMatch(items[1..], w[k..]))
    {
      if i == 0 {
        DeadItemMatchesNothing(items[0], w[..k]);
      } else {
        assert items[1..][i - 1] == items[i];
        DeadMatchesNothing(items[1..], w[k..]);
      }
    }
  }

  /** Exactness. For every well-formed pattern and all four combinations of anchors, the
      emitted matcher decides the language of the pattern on every string if and only if the
      pattern meets the condition. */
  lemma {:induction false} MatcherIsExactIff(p: Pattern)
    requires WellFormed(p)
    ensures (forall s :: NulFree(s) ==> (Accepts(p, s) <==> InLanguage(p, s))) <==> ExactPattern(p)
  {
    forall s | NulFree(s) && ExactPattern(p)
      ensures Accepts(p, s) <==> InLanguage(p, s)
    {
      MatcherIsSound(p, s);
      if Dead(p.items) {
        forall i: nat, j: nat ensures !MatchesBetween(p, s, i, j) {
          if i <= j <= |s| {
            DeadMatchesNothing(p.items, s[i..j]);
          }
        }
      } else if InLanguage(p, s) {
        LanguageIsAccepted(p, s);
      }
    }
    if !ExactPattern(p) {
      var s := ADisagreement(p);
    }
  }

  /** Outside the condition, a string of the language that the matcher turns away. */
  lemma {:induction false} ADisagreement(p: Pattern) returns (s: string)
    requires WellFormed(p) && !ExactPattern(p)
    ensures Disagree(p, s)
  {
    if p.items == [] && !p.anchoredStart {
      EmptyPatternDisagrees(p);
      s := "";
    } else if EndAnchored(p) && !p.anchoredEnd {
      s := WrittenDollarDisagrees(p);
    } else if !AllMandatory(p.items) {
      s := OptionalDisagrees(p);
    } else if !Separated(p.items) {
      var i :| 0 <= i < |p.items| - 1 && Loops(p.items[i]) && Overlap(p.items[i].atom, p.items[i + 1].atom);
      s := OverlapDisagrees(p, i);
    } else {
      var i :| 0 <= i < |p.items| && IsDotPlus(p.items[i]) && !HeadFree(p, i) && !TailFree(p, i);
      s := DotPlusDisagrees(p, i);
    }
  }
}
