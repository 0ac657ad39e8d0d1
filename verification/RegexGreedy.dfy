/** The emitted matcher, read off the syntax tree: each item takes one character and, when it
    is emitted with a loop, every further character its atom has. */
module RegexGreedy {
  import opened RegexSyntax
  import opened RegexCompiler
  import opened RegexMatcher

  // ----- The code of an item -----

  function MemberTest(m: ClassMember, negated: bool): Test {
    match m
    case Single(x) => if negated then Ne(x.c) else Eq(x.c)
    case Range(lo, hi) => if negated then Outside(lo.c, hi.c) else Within(lo.c, hi.c)
  }

  function MemberTests(ms: seq<ClassMember>, negated: bool): (r: seq<Test>)
    ensures |r| == |ms|
    ensures forall i :: 0 <= i < |ms| ==> r[i] == MemberTest(ms[i], negated)
  {
    seq(|ms|, i requires 0 <= i < |ms| => MemberTest(ms[i], negated))
  }

  function ItemCode(it: Item): seq<Instr> {
    match it.atom
    case Dot => [NeedAny, Advance]
    case Literal(c, _) =>
      [NeedChar(c), Advance] +
      (if it.quant == Plus then [WhileChar(c)] else if it.quant == Star then [Retreat, WhileChar(c)] else [])
    case Class(negated, ms) =>
      var cond := Condition(negated, MemberTests(ms, negated));
      [NeedClass(cond), Advance] +
      (if it.quant == Plus then [WhileClass(cond)] else if it.quant == Star then [Retreat, WhileClass(cond)] else [])
  }

  function ItemsCode(items: seq<Item>): seq<Instr> {
    if items == [] then [] else ItemCode(items[0]) + ItemsCode(items[1..])
  }

  /** The pattern text ends in `\$`: the emitter takes its dollar for the end anchor. */
  predicate EndsWithWrittenDollar(items: seq<Item>) {
    items != [] && items[|items| - 1].atom.Literal? && items[|items| - 1].atom.c == '$' && items[|items| - 1].quant == Once
  }

  predicate EndAnchored(p: Pattern) {
    p.anchoredEnd || EndsWithWrittenDollar(p.items)
  }

  function Compile(p: Pattern): Matcher {
    Matcher(p.anchoredStart, ItemsCode(p.items), EndAnchored(p))
  }

  // ----- Reading a rendered class -----

  lemma RangeText(lo: ClassChar, hi: ClassChar, rest: string)
    requires WellFormedMember(Range(lo, hi))
    ensures Unescape(RenderMember(Range(lo, hi)) + rest)
         == (if hi.escaped then [lo.c, '-', '\\', hi.c] else [lo.c, '-', hi.c]) + rest
  {
    assert RenderMember(Range(lo, hi)) + rest == RenderChar(lo) + ("-" + RenderChar(hi) + rest);
  }

  lemma {:induction false} RenderedMemberIsRead(m: ClassMember, rest: string, negated: bool)
    requires WellFormedMember(m)
    requires rest != "" && (m.Single? && rest[0] == '-' ==> Peek(rest, 1) == ']')
    ensures var p := RenderMember(m) + rest;
            p[0] != ']' &&
            TestAt(Unescape(p), negated) == MemberTest(m, negated) && AfterTest(Unescape(p)) == rest
  {
    var p := RenderMember(m) + rest;
    var q := Unescape(p);
    match m {
      case Single(x) =>
        assert p == RenderChar(x) + rest;
        assert q == [x.c] + rest;
      case Range(lo, hi) =>
        RangeText(lo, hi, rest);
        assert Peek(q, 1) == '-';
    }
  }

  /** The first character of a rendered class body. */
  lemma RenderedFirst(ms: seq<ClassMember>, rest: string)
    requires WellFormedMembers(ms)
    ensures var p := RenderMembers(ms) + "]" + rest;
            && (p[0] == '-' ==> ms != [] && StartsWithDash(ms[0]))
            && (p[0] == '^' ==> ms != [] && StartsWithCaret(ms[0]))
  {
    if ms != [] {
      assert RenderMember(ms[0]) <= RenderMembers(ms) + "]" + rest;
    }
  }

  /** After a single character, a plain dash is always the last member. */
  lemma RenderedDashIsLast(ms: seq<ClassMember>, rest: string)
    requires ms != [] && WellFormedMembers(ms)
    ensures var tail := RenderMembers(ms[1..]) + "]" + rest;
            tail != "" && (ms[0].Single? && tail[0] == '-' ==> Peek(tail, 1) == ']')
  {
    var tail := RenderMembers(ms[1..]) + "]" + rest;
    RenderedFirst(ms[1..], rest);
    if ms[0].Single? && tail[0] == '-' {
      assert ms[1..] == [ms[1]] && RenderMembers([ms[1]]) == RenderMember(ms[1]) + "";
      assert tail == "-]" + rest;
    }
  }

  lemma MembersText(ms: seq<ClassMember>, rest: string)
    requires ms != []
    ensures RenderMembers(ms) + "]" + rest == RenderMember(ms[0]) + (RenderMembers(ms[1..]) + "]" + rest)
  {
  }

  lemma OneTestRead(p: string, negated: bool, test: Test, tail: string)
    requires p != "" && p[0] != ']' && TestAt(Unescape(p), negated) == test && AfterTest(Unescape(p)) == tail
    ensures ClassTests(p, negated) == [test] + ClassTests(tail, negated) && AfterTests(p) == AfterTests(tail)
  {
  }

  lemma {:induction false} RenderedMembersAreRead(ms: seq<ClassMember>, rest: string, negated: bool)
    requires WellFormedMembers(ms)
    ensures ClassTests(RenderMembers(ms) + "]" + rest, negated) == MemberTests(ms, negated)
    ensures AfterTests(RenderMembers(ms) + "]" + rest) == "]" + rest
  {
    var p := RenderMembers(ms) + "]" + rest;
    if ms == [] {
      assert p == "]" + rest;
    } else {
      var tail := RenderMembers(ms[1..]) + "]" + rest;
      MembersText(ms, rest);
      RenderedMembersAreRead(ms[1..], rest, negated);
      RenderedDashIsLast(ms, rest);
      RenderedMemberIsRead(ms[0], tail, negated);
      OneTestRead(p, negated, MemberTest(ms[0], negated), tail);
      assert MemberTests(ms, negated) == [MemberTest(ms[0], negated)] + MemberTests(ms[1..], negated);
    }
  }

  lemma ClassTextIsSplit(negated: bool, ms: seq<ClassMember>, rest: string)
    requires WellFormedAtom(Class(negated, ms))
    ensures var p := (if negated then "^" else "") + RenderMembers(ms) + "]" + rest;
            p != "" && IsNegatedClass(p) == negated && ClassBody(p) == RenderMembers(ms) + "]" + rest
  {
    var body := RenderMembers(ms) + "]" + rest;
    BodyStart(negated, ms, rest);
    assert (if negated then "^" else "") + RenderMembers(ms) + "]" + rest == if negated then "^" + body else body;
    BodyIsSplit(negated, body);
  }

  lemma BodyStart(negated: bool, ms: seq<ClassMember>, rest: string)
    requires WellFormedAtom(Class(negated, ms))
    ensures (var body := RenderMembers(ms) + "]" + rest; body != "" && (!negated ==> body[0] != '^'))
  {
    RenderedFirst(ms, rest);
  }

  lemma BodyIsSplit(negated: bool, body: string)
    requires body != "" && (!negated ==> body[0] != '^')
    ensures (var p := if negated then "^" + body else body; IsNegatedClass(p) == negated && ClassBody(p) == body)
  {
    assert ("^" + body)[1..] == body;
  }

  lemma {:induction false} RenderedClassIsRead(negated: bool, ms: seq<ClassMember>, rest: string)
    requires WellFormedAtom(Class(negated, ms))
    ensures var p := (if negated then "^" else "") + RenderMembers(ms) + "]" + rest;
            ClassCondition(p) == Condition(negated, MemberTests(ms, negated)) && AfterClass(p) == rest
  {
    var p := (if negated then "^" else "") + RenderMembers(ms) + "]" + rest;
    var body := RenderMembers(ms) + "]" + rest;
    RenderedMembersAreRead(ms, rest, negated);
    ClassTextIsSplit(negated, ms, rest);
    assert ("]" + rest)[1..] == rest;
  }

  // ----- Emitting a rendered pattern -----

  /** What may follow an item in the text: nothing that reads as a quantifier. */
  lemma RenderedItemsStart(items: seq<Item>, end: string)
    requires WellFormedItems(items)
    requires end == "" || end == "$"
    ensures Peek(RenderItems(items) + end, 0) !in "*+?"
  {
    if items != [] {
      assert RenderAtom(items[0].atom) <= RenderItems(items) + end;
    }
  }

  lemma {:induction false} RenderedLiteralIsRead(it: Item, rest: string)
    requires it.atom.Literal? && WellFormedAtom(it.atom)
    requires Peek(rest, 0) !in "*+?"
    ensures var p := RenderAtom(it.atom) + RenderQuantifier(it.quant) + rest;
            && p != ""
            && ConstructAt(p) == ItemCode(it)
            && AfterConstruct(p) == (if Skipped(it) then RenderQuantifier(it.quant) else "") + rest
  {
    var tail := RenderQuantifier(it.quant) + rest;
    var c := it.atom.c;
    var q := [c] + tail;
    var p := RenderAtom(it.atom) + RenderQuantifier(it.quant) + rest;
    if it.atom.escaped {
      assert p == ['\\', c] + tail && p[1..] == q;
    } else {
      assert p == q;
    }
    assert Peek(q, 1) == Peek(tail, 0);
    assert q[1..] == tail;
    if Peek(tail, 0) == '+' || Peek(tail, 0) == '*' {
      assert q[2..] == rest;
    }
  }

  lemma BracketConstruct(body: string, cond: Condition, tail: string)
    requires ClassCondition(body) == cond && AfterClass(body) == tail
    ensures ConstructAt("[" + body) == [NeedClass(cond), Advance] +
              (if Peek(tail, 0) == '+' then [WhileClass(cond)]
               else if Peek(tail, 0) == '*' then [Retreat, WhileClass(cond)] else [])
    ensures AfterConstruct("[" + body)
         == if Peek(tail, 0) == '+' || Peek(tail, 0) == '*' then tail[1..] else tail
  {
    assert ("[" + body)[1..] == body;
  }

  lemma BracketText(it: Item, rest: string)
    requires it.atom.Class?
    ensures RenderAtom(it.atom) + RenderQuantifier(it.quant) + rest
         == "[" + ((if it.atom.negated then "^" else "") + RenderMembers(it.atom.members) + "]"
                   + (RenderQuantifier(it.quant) + rest))
  {
  }

  lemma {:induction false} RenderedBracketIsRead(it: Item, rest: string)
    requires it.atom.Class? && WellFormedAtom(it.atom)
    requires Peek(rest, 0) !in "*+?"
    ensures var p := RenderAtom(it.atom) + RenderQuantifier(it.quant) + rest;
            && p != ""
            && ConstructAt(p) == ItemCode(it)
            && AfterConstruct(p) == (if Skipped(it) then RenderQuantifier(it.quant) else "") + rest
  {
    var tail := RenderQuantifier(it.quant) + rest;
    var body := (if it.atom.negated then "^" else "") + RenderMembers(it.atom.members) + "]" + tail;
    BracketText(it, rest);
    RenderedClassIsRead(it.atom.negated, it.atom.members, tail);
    BracketConstruct(body, Condition(it.atom.negated, MemberTests(it.atom.members, it.atom.negated)), tail);
    if tail != rest {
      assert tail[1..] == rest;
    }
  }

  lemma {:induction false} RenderedAtomIsRead(it: Item, rest: string)
    requires WellFormedAtom(it.atom)
    requires Peek(rest, 0) !in "*+?"
    ensures var p := RenderAtom(it.atom) + RenderQuantifier(it.quant) + rest;
            && p != ""
            && ConstructAt(p) == ItemCode(it)
            && AfterConstruct(p) == (if Skipped(it) then RenderQuantifier(it.quant) else "") + rest
  {
    match it.atom {
      case Dot =>
        var p := RenderAtom(it.atom) + RenderQuantifier(it.quant) + rest;
        assert p[1..] == RenderQuantifier(it.quant) + rest;
      case Literal(_, _) => RenderedLiteralIsRead(it, rest);
      case Class(_, _) => RenderedBracketIsRead(it, rest);
    }
  }

  /** A quantifier that the emitter steps over without emitting anything. */
  predicate Skipped(it: Item) {
    it.quant == Optional || (it.atom.Dot? && it.quant != Once)
  }

  lemma SkippedQuantifierEmitsNothing(q: Quantifier, rest: string, anchored: bool)
    requires q != Once
    requires anchored ==> rest != ""
    ensures EmitBody(RenderQuantifier(q) + rest, anchored) == EmitBody(rest, anchored)
  {
    var p := RenderQuantifier(q) + rest;
    assert p[1..] == rest;
    assert EmitBody(p, anchored) == ConstructAt(p) + EmitBody(AfterConstruct(p), anchored);
  }

  /** Two characters remain in front of every item while the end anchor is on. */
  lemma RenderedLength(items: seq<Item>, end: string)
    requires items != [] && WellFormedItems(items)
    ensures |RenderItems(items)| >= 1
    ensures EndsWithWrittenDollar(items) ==> |RenderItems(items)| >= 2
  {
    if EndsWithWrittenDollar(items) && |items| > 1 {
      RenderedLength(items[1..], end);
    }
  }

  lemma ItemsText(items: seq<Item>, end: string)
    requires items != []
    ensures RenderItems(items) + end
         == RenderAtom(items[0].atom) + RenderQuantifier(items[0].quant) + (RenderItems(items[1..]) + end)
  {
  }

  lemma EmitOne(text: string, anchored: bool)
    requires text != "" && !(anchored && |text| == 1)
    ensures EmitBody(text, anchored) == ConstructAt(text) + EmitBody(AfterConstruct(text), anchored)
  {
  }

  lemma DollarIsInTail(items: seq<Item>)
    requires items != [] && Skipped(items[0]) && EndsWithWrittenDollar(items)
    ensures EndsWithWrittenDollar(items[1..])
  {
    assert |items| > 1 ==> items[1..][|items| - 2] == items[|items| - 1];
  }

  lemma {:induction false} RenderedItemsAreEmitted(items: seq<Item>, end: string, anchored: bool)
    requires WellFormedItems(items)
    requires end == "" || (end == "$" && anchored)
    requires anchored ==> end == "$" || items == [] || EndsWithWrittenDollar(items)
    ensures EmitBody(RenderItems(items) + end, anchored) == ItemsCode(items)
  {
    var text := RenderItems(items) + end;
    if items == [] {
      assert text == end;
    } else {
      var it := items[0];
      var rest := RenderItems(items[1..]) + end;
      ItemsText(items, end);
      RenderedItemsStart(items[1..], end);
      RenderedAtomIsRead(it, rest);
      RenderedLength(items, end);
      EmitOne(text, anchored);
      if Skipped(it) {
        if anchored && end == "" {
          DollarIsInTail(items);
          RenderedLength(items[1..], end);
        }
        SkippedQuantifierEmitsNothing(it.quant, rest, anchored);
      } else {
        assert "" + rest == rest;
      }
      RenderedItemsAreEmitted(items[1..], end, anchored);
    }
  }

  lemma LastItemEnd(items: seq<Item>)
    requires WellFormedItems(items) && |items| == 1
    ensures var text := RenderItems(items);
            text != "" && (text[|text| - 1] == '$' <==> EndsWithWrittenDollar(items))
  {
    var it := items[0];
    var own := RenderAtom(it.atom) + RenderQuantifier(it.quant);
    assert RenderItems(items[1..]) == "";
    assert RenderItems(items) == own;
    if it.quant == Once && it.atom.Class? {
      assert own[|own| - 1] == ']';
    }
  }

  lemma {:induction false} RenderedEnd(items: seq<Item>)
    requires WellFormedItems(items) && items != []
    ensures var text := RenderItems(items);
            text != "" && (text[|text| - 1] == '$' <==> EndsWithWrittenDollar(items))
  {
    var text := RenderItems(items);
    var it := items[0];
    var own := RenderAtom(it.atom) + RenderQuantifier(it.quant);
    if |items| == 1 {
      LastItemEnd(items);
    } else {
      RenderedEnd(items[1..]);
      assert items[1..][|items| - 2] == items[|items| - 1];
      assert text == own + RenderItems(items[1..]);
    }
  }

  lemma RenderedItemsCaret(items: seq<Item>, end: string)
    requires WellFormedItems(items)
    requires end == "" || end == "$"
    ensures Peek(RenderItems(items) + end, 0) != '^'
  {
    if items != [] {
      assert RenderAtom(items[0].atom) <= RenderItems(items) + end;
    }
  }

  lemma {:induction false} RenderedAnchors(p: Pattern)
    requires WellFormed(p)
    ensures var re := Render(p);
            && (Peek(re, 0) == '^' <==> p.anchoredStart)
            && (re != "" && re[|re| - 1] == '$' <==> EndAnchored(p))
  {
    var end := if p.anchoredEnd then "$" else "";
    var text := RenderItems(p.items) + end;
    assert Render(p) == (if p.anchoredStart then "^" else "") + text;
    RenderedItemsCaret(p.items, end);
    if p.items != [] {
      RenderedEnd(p.items);
    }
  }

  lemma EmitWithAnchors(re: string, text: string, anchoredStart: bool, anchoredEnd: bool)
    requires re == (if anchoredStart then "^" else "") + text
    requires Peek(re, 0) == '^' <==> anchoredStart
    requires re != "" && re[|re| - 1] == '$' <==> anchoredEnd
    ensures Emit(re) == Matcher(anchoredStart, EmitBody(text, anchoredEnd), anchoredEnd)
  {
    assert (if anchoredStart then re[1..] else re) == text;
  }

  /** The compiler reads back every well-formed pattern: the emitted matcher is the one its
      syntax tree stands for. */
  lemma {:induction false} EmitsWhatIsWritten(p: Pattern)
    requires WellFormed(p)
    ensures Emit(Render(p)) == Compile(p)
  {
    var end := if p.anchoredEnd then "$" else "";
    RenderedAnchors(p);
    assert Render(p) == (if p.anchoredStart then "^" else "") + (RenderItems(p.items) + end);
    EmitWithAnchors(Render(p), RenderItems(p.items) + end, p.anchoredStart, EndAnchored(p));
    RenderedItemsAreEmitted(p.items, end, EndAnchored(p));
  }

  // ----- Running the code of the items -----

  /** The first position from `p` on whose character the atom lacks. */
  function Span(a: Atom, s: string, p: nat): (q: nat)
    requires p <= |s|
    ensures p <= q <= |s|
    ensures forall i :: p <= i < q ==> AtomHas(a, s[i])
    ensures q < |s| ==> !AtomHas(a, s[q])
    decreases |s| - p
  {
    if p < |s| && AtomHas(a, s[p]) then Span(a, s, p + 1) else p
  }

  /** The item is emitted with a loop. */
  predicate Loops(it: Item) {
    !it.atom.Dot? && (it.quant == Plus || it.quant == Star)
  }

  datatype Reach = To(q: nat) | Stuck

  /** How far the items get from `p` when each takes all it can and never gives back. */
  function Greedy(items: seq<Item>, s: string, p: nat): (r: Reach)
    requires p <= |s|
    ensures r.To? ==> p + |items| <= r.q <= |s|
  {
    if items == [] then To(p)
    else if p < |s| && AtomHas(items[0].atom, s[p]) then
      Greedy(items[1..], s, if Loops(items[0]) then Span(items[0].atom, s, p + 1) else p + 1)
    else Stuck
  }

  /** The emitted boolean condition, positive or negated, decides membership in the class. */
  lemma {:induction false} ConditionDecidesMembership(negated: bool, ms: seq<ClassMember>, c: char)
    requires c != '\0'
    ensures ConditionHolds(Condition(negated, MemberTests(ms, negated)), c) <==> AtomHas(Class(negated, ms), c)
  {
    var tests := MemberTests(ms, negated);
    forall i | 0 <= i < |ms|
      ensures TestHolds(tests[i], c) <==> negated != MemberHas(ms[i], c)
    {
    }
    if SomeMemberHas(ms, c) {
      var i :| 0 <= i < |ms| && MemberHas(ms[i], c);
      assert TestHolds(tests[i], c) <==> !negated;
    }
  }

  lemma {:induction false} SkipClassIsSpan(negated: bool, ms: seq<ClassMember>, s: string, p: nat)
    requires p <= |s| && NulFree(s)
    ensures SkipClass(Condition(negated, MemberTests(ms, negated)), s, p) == Span(Class(negated, ms), s, p)
    decreases |s| - p
  {
    if p < |s| {
      ConditionDecidesMembership(negated, ms, s[p]);
      SkipClassIsSpan(negated, ms, s, p + 1);
    }
  }

  lemma {:induction false} SkipCharIsSpan(a: Atom, s: string, p: nat)
    requires a.Literal? && a.c != '\0'
    requires p <= |s| && NulFree(s)
    ensures SkipChar(a.c, s, p) == Span(a, s, p)
    decreases |s| - p
  {
    if p < |s| {
      SkipCharIsSpan(a, s, p + 1);
    }
  }

  /** Running two pieces of code one after the other. */
  lemma {:induction false} RunAppend(a: seq<Instr>, b: seq<Instr>, s: string, p: int)
    ensures Run(a + b, s, p) == var o := Run(a, s, p); if o.Cursor? then Run(b, s, o.p) else o
  {
    if a == [] {
      assert a + b == b;
    } else {
      assert (a + b)[0] == a[0] && (a + b)[1..] == a[1..] + b;
      var o := Step(a[0], s, p);
      if o.Cursor? {
        RunAppend(a[1..], b, s, o.p);
      }
    }
  }

  lemma RunTwo(a: Instr, b: Instr, s: string, p: int)
    ensures Run([a, b], s, p) == var o := Step(a, s, p); if o.Cursor? then Step(b, s, o.p) else o
  {
    assert [a, b][1..] == [b] && [b][1..] == [];
    var o := Step(a, s, p);
    if o.Cursor? {
      assert Run([b], s, o.p) == Step(b, s, o.p);
    }
  }

  /** One item: a required character, then the loop; `p--` before a `*` loop changes nothing. */
  lemma {:induction false} RunItem(it: Item, s: string, p: nat)
    requires WellFormedAtom(it.atom) && NulFree(s) && p <= |s|
    ensures Run(ItemCode(it), s, p)
         == if p < |s| && AtomHas(it.atom, s[p])
            then Cursor(if Loops(it) then Span(it.atom, s, p + 1) else p + 1)
            else Fail
  {
    var code := ItemCode(it);
    var head, tail := code[..2], code[2..];
    assert code == head + tail;
    RunAppend(head, tail, s, p);
    assert head == [code[0], code[1]];
    RunTwo(code[0], Advance, s, p);
    if it.atom.Class? && p < |s| {
      ConditionDecidesMembership(it.atom.negated, it.atom.members, s[p]);
    }
    if p < |s| && AtomHas(it.atom, s[p]) {
      RunItemLoop(it, s, p);
    }
  }

  lemma {:induction false} RunItemLoop(it: Item, s: string, p: nat)
    requires WellFormedAtom(it.atom) && NulFree(s) && p < |s| && AtomHas(it.atom, s[p])
    ensures Run(ItemCode(it)[2..], s, p + 1) == Cursor(if Loops(it) then Span(it.atom, s, p + 1) else p + 1)
  {
    var tail := ItemCode(it)[2..];
    if it.atom.Dot? || it.quant == Once || it.quant == Optional {
      assert tail == [];
    } else {
      var again := if it.atom.Class?
        then WhileClass(Condition(it.atom.negated, MemberTests(it.atom.members, it.atom.negated)))
        else WhileChar(it.atom.c);
      if it.atom.Class? {
        SkipClassIsSpan(it.atom.negated, it.atom.members, s, p + 1);
        SkipClassIsSpan(it.atom.negated, it.atom.members, s, p);
      } else {
        SkipCharIsSpan(it.atom, s, p + 1);
        SkipCharIsSpan(it.atom, s, p);
      }
      assert Span(it.atom, s, p) == Span(it.atom, s, p + 1);
      assert Step(again, s, p + 1) == Step(again, s, p) == Cursor(Span(it.atom, s, p + 1));
      if it.quant == Star {
        assert tail == [Retreat, again];
        RunTwo(Retreat, again, s, p + 1);
      } else {
        assert tail == [again] && [again][1..] == [];
      }
    }
  }

  /** The emitted body runs exactly as the greedy reading, and never reads outside the string. */
  lemma {:induction false} RunIsGreedy(items: seq<Item>, s: string, p: nat)
    requires WellFormedItems(items) && NulFree(s) && p <= |s|
    ensures Run(ItemsCode(items), s, p)
         == match Greedy(items, s, p) case To(q) => Cursor(q) case Stuck => Fail
    decreases |items|
  {
    if items != [] {
      var it := items[0];
      RunAppend(ItemCode(it), ItemsCode(items[1..]), s, p);
      RunItem(it, s, p);
      if p < |s| && AtomHas(it.atom, s[p]) {
        RunIsGreedy(items[1..], s, if Loops(it) then Span(it.atom, s, p + 1) else p + 1);
      }
    }
  }

  /** What the emitted matcher accepts, in terms of the greedy reading. */
  ghost predicate GreedyFrom(p: Pattern, s: string, start: nat) {
    start <= |s| &&
    var r := Greedy(p.items, s, start);
    r.To? && (EndAnchored(p) ==> r.q == |s|)
  }

  lemma AttemptIsGreedy(p: Pattern, s: string, from: nat)
    requires WellFormed(p) && NulFree(s) && from < |s|
    ensures Attempt(Compile(p), s, from) == if GreedyFrom(p, s, from) then Accept else Reject
  {
    RunIsGreedy(p.items, s, from);
  }

  lemma {:induction false} SearchIsGreedy(p: Pattern, s: string, from: nat)
    requires WellFormed(p) && NulFree(s) && from <= |s|
    ensures var v := Search(Compile(p), s, from);
            v != Crash && (v == Accept <==> exists start :: from <= start < |s| && GreedyFrom(p, s, start))
    decreases |s| - from
  {
    if from < |s| {
      AttemptIsGreedy(p, s, from);
      SearchIsGreedy(p, s, from + 1);
    }
  }

  /** The emitted matcher never reads outside the string, and accepts exactly when some
      permitted start lets every item take its characters greedily. An unanchored matcher
      never tries the empty suffix. */
  lemma {:induction false} MatcherIsGreedy(p: Pattern, s: string)
    requires WellFormed(p) && NulFree(s)
    ensures Match(Emit(Render(p)), s) != Crash
    ensures Match(Emit(Render(p)), s) == Accept
       <==> if p.anchoredStart then GreedyFrom(p, s, 0)
            else exists start :: 0 <= start < |s| && GreedyFrom(p, s, start)
  {
    EmitsWhatIsWritten(p);
    RunIsGreedy(p.items, s, 0);
    SearchIsGreedy(p, s, 0);
  }
}
