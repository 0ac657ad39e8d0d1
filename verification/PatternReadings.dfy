/** What the generated validator says about the languages of the declared patterns. Its own matchers may
    turn texts of a language away, but never take one from outside. */
module PatternReadings {
  import opened Schema
  import opened Expansion
  import opened Dispatch
  import opened Validator
  import opened ValidatorEmitter
  import V = ValidatorTheorems
  import RegexSyntax
  import RegexTheorems
  import RegexUnique

  // ----- The language of a written pattern -----

  ghost predicate IsText(p: RegexSyntax.Pattern, pattern: string) {
    RegexSyntax.WellFormed(p) && RegexSyntax.Render(p) == pattern
  }

  /** The text is in the language of the pattern; a text that is no pattern demands nothing. */
  ghost predicate Means(pattern: string, text: string) {
    forall p :: IsText(p, pattern) ==> RegexSyntax.InLanguage(p, text)
  }

  /** As the schema says. */
  ghost function Declared(w: World): Reading {
    Reading(w, (pattern, text) => Means(pattern, text))
  }

  /** The text of a pattern that the compiler gets exactly right. */
  ghost predicate IsExactText(pattern: string) {
    exists p :: IsText(p, pattern) && RegexTheorems.ExactPattern(p)
  }

  /** A text is read as one pattern at most, so this is the language of that pattern. */
  lemma MeansItsLanguage(p: RegexSyntax.Pattern, text: string)
    requires RegexSyntax.WellFormed(p)
    ensures Means(RegexSyntax.Render(p), text) <==> RegexSyntax.InLanguage(p, text)
    ensures IsExactText(RegexSyntax.Render(p)) <==> RegexTheorems.ExactPattern(p)
  {
    forall q | IsText(q, RegexSyntax.Render(p)) ensures q == p {
      RegexUnique.RenderIsInjective(p, q);
    }
    assert IsText(p, RegexSyntax.Render(p));
  }

  /** Whatever a matcher accepts is in the language. */
  lemma AcceptedIsMeant(w: World, pattern: string, text: string)
    requires RegexSyntax.NulFree(text)
    ensures Emitted(w).matches(pattern, text) ==> Means(pattern, text)
  {
    forall p | IsText(p, pattern) && Emitted(w).matches(pattern, text) ensures RegexSyntax.InLanguage(p, text) {
      RegexTheorems.MatcherIsSound(p, text);
    }
  }

  lemma ExactTextIsDecided(w: World, pattern: string, text: string)
    requires RegexSyntax.NulFree(text) && IsExactText(pattern)
    ensures Emitted(w).matches(pattern, text) <==> Means(pattern, text)
  {
    AcceptedIsMeant(w, pattern, text);
    var p :| IsText(p, pattern) && RegexTheorems.ExactPattern(p);
    RegexTheorems.MatcherIsExactIff(p);
  }

  /** Of the written patterns, exactly those that meet the condition are read alike by their matchers and by
      the schema. */
  lemma PatternIsDecidedIff(w: World, p: RegexSyntax.Pattern)
    requires RegexSyntax.WellFormed(p)
    ensures (forall text :: RegexSyntax.NulFree(text) ==>
               (Emitted(w).matches(RegexSyntax.Render(p), text) <==> Declared(w).matches(RegexSyntax.Render(p), text)))
            <==> IsExactText(RegexSyntax.Render(p))
  {
    forall text
      ensures Declared(w).matches(RegexSyntax.Render(p), text) <==> RegexSyntax.InLanguage(p, text)
      ensures Emitted(w).matches(RegexSyntax.Render(p), text) <==> RegexTheorems.Accepts(p, text)
    {
      MeansItsLanguage(p, text);
    }
    MeansItsLanguage(p, "");
    RegexTheorems.MatcherIsExactIff(p);
  }

  /** The test that is emitted for a written pattern fires on exactly the texts outside the language, if and
      only if the pattern meets the condition of its compiler. */
  lemma PatternTestDecidesIff(o: Output, p: RegexSyntax.Pattern, block: Data)
    requires RegexSyntax.WellFormed(p) && RegexSyntax.Render(p) in o.table
    ensures (forall s :: RegexSyntax.NulFree(s) ==>
               (TestHolds(o.table, o.w, Unmatched(RegexIndex(o.table, RegexSyntax.Render(p))), TextValue(Some(s)), block)
                <==> !RegexSyntax.InLanguage(p, s)))
            <==> RegexTheorems.ExactPattern(p)
  {
    var test := Unmatched(RegexIndex(o.table, RegexSyntax.Render(p)));
    forall s ensures TestHolds(o.table, o.w, test, TextValue(Some(s)), block) <==> !RegexTheorems.Accepts(p, s) {
    }
    RegexTheorems.MatcherIsExactIff(p);
  }

  // ----- Texts of C -----

  /** No text of a field holds a terminator. */
  predicate TextsNulFree(v: Data)
    decreases v
  {
    match v
    case TextValue(t) => t.Some? ==> RegexSyntax.NulFree(t.value)
    case StructValue(fs) => forall i :: 0 <= i < |fs| ==> TextsNulFree(fs[i].value)
    case ListValue(es) => forall i :: 0 <= i < |es| && es[i].StructValue? ==> TextsNulFree(es[i])
    case _ => true
  }

  lemma FieldIsNulFree(v: Data, n: string)
    requires TextsNulFree(v) && FieldOf(v, n).Some?
    ensures TextsNulFree(FieldOf(v, n).value)
  {
    var i := FieldIndex(v.fields, n).value;
    assert TextsNulFree(v.fields[i].value);
  }

  // ----- Comparing two readings -----

  /** The second reading is never stricter about patterns. */
  ghost predicate Laxer(a: Reading, b: Reading) {
    a.world == b.world &&
    forall pattern, text :: RegexSyntax.NulFree(text) && a.matches(pattern, text) ==> b.matches(pattern, text)
  }

  /** All of the second list is in the first, and what is not is a pattern mismatch. */
  ghost predicate Within(va: seq<Violation>, vb: seq<Violation>) {
    && (forall x :: x in vb ==> x in va)
    && (forall x :: x in va && !x.what.PatternMismatch? ==> x in vb)
  }

  lemma WithinAppend(a1: seq<Violation>, b1: seq<Violation>, a2: seq<Violation>, b2: seq<Violation>)
    requires Within(a1, b1) && Within(a2, b2)
    ensures Within(a1 + a2, b1 + b2)
  {
  }

  lemma {:induction false} PropertiesWithin(a: Reading, b: Reading, it: Item, props: seq<Property>, v: Data, block: Data)
    requires Laxer(a, b) && TextsNulFree(v)
    ensures Within(PropertyViolations(a, it, props, v, block), PropertyViolations(b, it, props, v, block))
    decreases |props|
  {
    if props != [] {
      var p := props[0];
      PropertiesWithin(a, b, it, props[1..], v, block);
      PropertyWithin(a, b, it, p, v, block);
      WithinAppend(Own(a, it, p, v, block), Own(b, it, p, v, block),
                   PropertyViolations(a, it, props[1..], v, block), PropertyViolations(b, it, props[1..], v, block));
    }
  }

  /** The violation of one property, if it is violated. */
  function Own(how: Reading, it: Item, p: Property, v: Data, block: Data): seq<Violation> {
    if Satisfied(how, p, v, block) then [] else [Validator.Report(it, p)]
  }

  lemma PropertyWithin(a: Reading, b: Reading, it: Item, p: Property, v: Data, block: Data)
    requires Laxer(a, b) && TextsNulFree(v)
    ensures Within(Own(a, it, p, v, block), Own(b, it, p, v, block))
  {
    if p.name != "pattern" {
      assert Satisfied(a, p, v, block) <==> Satisfied(b, p, v, block);
    }
  }

  lemma {:induction false} BlockWithin(u: Unit, a: Reading, b: Reading, items: seq<Item>, r: nat, v: Data)
    requires Ready(u) && Below(u, items, r) && Laxer(a, b) && TextsNulFree(v)
    ensures Within(Violations(u, a, items, r, v), Violations(u, b, items, r, v))
    decreases r, items, 2
  {
    if items != [] {
      BelowTail(u, items, r);
      ItemWithin(u, a, b, items, r, v);
      BlockWithin(u, a, b, items[1..], r, v);
      WithinAppend(ItemViolations(u, a, items, r, v), ItemViolations(u, b, items, r, v),
                   Violations(u, a, items[1..], r, v), Violations(u, b, items[1..], r, v));
    }
  }

  lemma {:induction false} ItemWithin(u: Unit, a: Reading, b: Reading, items: seq<Item>, r: nat, v: Data)
    requires Ready(u) && Below(u, items, r) && items != [] && Laxer(a, b) && TextsNulFree(v)
    ensures Within(ItemViolations(u, a, items, r, v), ItemViolations(u, b, items, r, v))
    decreases r, items, 1
  {
    BelowTail(u, items, r);
    var it := items[0];
    var f := FieldOf(v, it.name);
    if f.Some? {
      var x := f.value;
      FieldIsNulFree(v, it.name);
      if it.Section? {
        BlockWithin(u, a, b, it.items, r, x);
      } else {
        PropertiesWithin(a, b, it, it.props, x, v);
        FieldWithin(u, a, b, items, r, x);
        WithinAppend(PropertyViolations(a, it, it.props, x, v), PropertyViolations(b, it, it.props, x, v),
                     Deeper(u, a, it, x), Deeper(u, b, it, x));
      }
    }
  }

  /** The violations below a field. */
  function Deeper(u: Unit, how: Reading, it: Item, x: Data): seq<Violation>
    requires Ready(u) && it.Field?
  {
    match ShapeOf(u, it.typ)
    case Scalar => []
    case Struct(sn) =>
      BodyIsBelow(u, sn);
      Violations(u, how, Body(u, sn), Rank(u, sn), x)
    case StructArray(sn) => if x.ListValue? then ElementViolations(u, how, sn, x.elems) else []
  }

  lemma {:induction false} FieldWithin(u: Unit, a: Reading, b: Reading, items: seq<Item>, r: nat, x: Data)
    requires Ready(u) && Below(u, items, r) && items != [] && items[0].Field? && Laxer(a, b) && TextsNulFree(x)
    ensures Within(Deeper(u, a, items[0], x), Deeper(u, b, items[0], x))
    decreases r, items, 0
  {
    BelowTail(u, items, r);
    match ShapeOf(u, items[0].typ)
    case Scalar =>
    case Struct(sn) =>
      BodyIsBelow(u, sn);
      BlockWithin(u, a, b, Body(u, sn), Rank(u, sn), x);
    case StructArray(sn) =>
      if x.ListValue? {
        ElementsWithin(u, a, b, sn, x.elems);
      }
  }

  lemma {:induction false} ElementsWithin(u: Unit, a: Reading, b: Reading, sn: string, elems: seq<Data>)
    requires Ready(u) && IsDeclared(u.prog, sn) && Laxer(a, b)
    requires forall i :: 0 <= i < |elems| && elems[i].StructValue? ==> TextsNulFree(elems[i])
    ensures Within(ElementViolations(u, a, sn, elems), ElementViolations(u, b, sn, elems))
    decreases Rank(u, sn), Body(u, sn), 4, elems
  {
    if elems != [] {
      BodyIsBelow(u, sn);
      var rest := elems[1..];
      assert forall i :: 0 <= i < |rest| ==> rest[i] == elems[i + 1];
      ElementsWithin(u, a, b, sn, rest);
      var ra, rb := ElementViolations(u, a, sn, rest), ElementViolations(u, b, sn, rest);
      if elems[0].StructValue? {
        BlockWithin(u, a, b, Body(u, sn), Rank(u, sn), elems[0]);
        WithinAppend(Violations(u, a, Body(u, sn), Rank(u, sn), elems[0]),
                     Violations(u, b, Body(u, sn), Rank(u, sn), elems[0]), ra, rb);
      } else {
        WithinAppend([Violation(sn, NoStruct)], [Violation(sn, NoStruct)], ra, rb);
      }
    }
  }

  // ----- Patterns that the compiler gets right -----

  ghost predicate SamePattern(a: Reading, b: Reading, p: Property) {
    p.name == "pattern" && p.value.Plain? && p.value.lit.StringLit? ==>
      forall text :: RegexSyntax.NulFree(text) ==> (a.matches(p.value.lit.text, text) <==> b.matches(p.value.lit.text, text))
  }

  /** The readings agree on every pattern of the block. */
  ghost predicate SamePatterns(a: Reading, b: Reading, items: seq<Item>)
    decreases items
  {
    forall i :: 0 <= i < |items| ==>
      match items[i]
      case Field(_, _, props) => forall k :: 0 <= k < |props| ==> SamePattern(a, b, props[k])
      case Section(_, inner) => SamePatterns(a, b, inner)
  }

  ghost predicate SameReading(u: Unit, a: Reading, b: Reading) {
    Ready(u) && a.world == b.world && forall n :: IsDeclared(u.prog, n) ==> SamePatterns(a, b, Body(u, n))
  }

  lemma {:induction false} SameProperties(a: Reading, b: Reading, it: Item, props: seq<Property>, v: Data, block: Data)
    requires a.world == b.world && TextsNulFree(v) && forall k :: 0 <= k < |props| ==> SamePattern(a, b, props[k])
    ensures PropertyViolations(a, it, props, v, block) == PropertyViolations(b, it, props, v, block)
    decreases |props|
  {
    if props != [] {
      assert SamePattern(a, b, props[0]);
      SameProperties(a, b, it, props[1..], v, block);
    }
  }

  lemma {:induction false} SameBlock(u: Unit, a: Reading, b: Reading, items: seq<Item>, r: nat, v: Data)
    requires SameReading(u, a, b) && Below(u, items, r) && SamePatterns(a, b, items) && TextsNulFree(v)
    ensures Violations(u, a, items, r, v) == Violations(u, b, items, r, v)
    decreases r, items, 1
  {
    if items != [] {
      BelowTail(u, items, r);
      var rest := items[1..];
      assert forall i :: 0 <= i < |rest| ==> rest[i] == items[i + 1];
      SameItem(u, a, b, items, r, v);
      SameBlock(u, a, b, rest, r, v);
    }
  }

  lemma {:induction false} SameItem(u: Unit, a: Reading, b: Reading, items: seq<Item>, r: nat, v: Data)
    requires SameReading(u, a, b) && Below(u, items, r) && items != [] && SamePatterns(a, b, items) && TextsNulFree(v)
    ensures ItemViolations(u, a, items, r, v) == ItemViolations(u, b, items, r, v)
    decreases r, items, 0
  {
    BelowTail(u, items, r);
    var it := items[0];
    var f := FieldOf(v, it.name);
    if f.Some? {
      var x := f.value;
      FieldIsNulFree(v, it.name);
      if it.Section? {
        SameBlock(u, a, b, it.items, r, x);
      } else {
        SameProperties(a, b, it, it.props, x, v);
        match ShapeOf(u, it.typ) {
          case Scalar =>
          case Struct(sn) =>
            BodyIsBelow(u, sn);
            SameBlock(u, a, b, Body(u, sn), Rank(u, sn), x);
          case StructArray(sn) =>
            if x.ListValue? {
              SameElements(u, a, b, sn, x.elems);
            }
        }
      }
    }
  }

  lemma {:induction false} SameElements(u: Unit, a: Reading, b: Reading, sn: string, elems: seq<Data>)
    requires SameReading(u, a, b) && IsDeclared(u.prog, sn)
    requires forall i :: 0 <= i < |elems| && elems[i].StructValue? ==> TextsNulFree(elems[i])
    ensures ElementViolations(u, a, sn, elems) == ElementViolations(u, b, sn, elems)
    decreases Rank(u, sn), Body(u, sn), 2, elems
  {
    if elems != [] {
      BodyIsBelow(u, sn);
      var rest := elems[1..];
      assert forall i :: 0 <= i < |rest| ==> rest[i] == elems[i + 1];
      if elems[0].StructValue? {
        SameBlock(u, a, b, Body(u, sn), Rank(u, sn), elems[0]);
      }
      SameElements(u, a, b, sn, rest);
    }
  }

  ghost predicate PatternIsExact(p: Property) {
    p.name == "pattern" && p.value.Plain? && p.value.lit.StringLit? ==> IsExactText(p.value.lit.text)
  }

  /** Every pattern of the block is one that the compiler gets exactly right. */
  ghost predicate PatternsAreExact(items: seq<Item>)
    decreases items
  {
    forall i :: 0 <= i < |items| ==>
      match items[i]
      case Field(_, _, props) => forall k :: 0 <= k < |props| ==> PatternIsExact(props[k])
      case Section(_, inner) => PatternsAreExact(inner)
  }

  ghost predicate ProgramIsExact(prog: Program) {
    forall i :: 0 <= i < |prog| ==> PatternsAreExact(prog[i].items)
  }

  lemma {:induction false} ExactPatternsAgree(w: World, items: seq<Item>)
    requires PatternsAreExact(items)
    ensures SamePatterns(Emitted(w), Declared(w), items)
    decreases items
  {
    forall i | 0 <= i < |items|
      ensures match items[i]
              case Field(_, _, props) => forall k :: 0 <= k < |props| ==> SamePattern(Emitted(w), Declared(w), props[k])
              case Section(_, inner) => SamePatterns(Emitted(w), Declared(w), inner)
    {
      match items[i] {
        case Section(_, inner) => ExactPatternsAgree(w, inner);
        case Field(_, _, props) =>
          forall k | 0 <= k < |props| ensures SamePattern(Emitted(w), Declared(w), props[k]) {
            ExactPatternAgrees(w, props[k]);
          }
      }
    }
  }

  lemma ExactPatternAgrees(w: World, p: Property)
    requires PatternIsExact(p)
    ensures SamePattern(Emitted(w), Declared(w), p)
  {
    if p.name == "pattern" && p.value.Plain? && p.value.lit.StringLit? {
      forall text | RegexSyntax.NulFree(text)
        ensures Emitted(w).matches(p.value.lit.text, text) <==> Declared(w).matches(p.value.lit.text, text)
      {
        ExactTextIsDecided(w, p.value.lit.text, text);
      }
    }
  }

  // ----- The validator against the declared languages -----

  lemma EmittedIsStricter(w: World)
    ensures Laxer(Emitted(w), Declared(w))
  {
    forall pattern, text | RegexSyntax.NulFree(text) && Emitted(w).matches(pattern, text)
      ensures Declared(w).matches(pattern, text)
    {
      AcceptedIsMeant(w, pattern, text);
    }
  }

  /** The validator is sound: when it returns true, nothing that the schema declares is violated, patterns
      read by their languages, but conditions on a text; and what it reports, unless it is a pattern
      mismatch, is a declared violation. */
  lemma ValidatorIsSound(u: Unit, w: World, root: string, v: Data)
    requires Ready(u) && DistinctFns(AllFns(u.prog)) && IsDeclared(u.prog, root)
    requires V.Builds(u.prog) && V.SchemaConforms(u, root, v) && TextsNulFree(v)
    ensures var vs, r := V.SchemaViolations(u, Declared(w), root, v), RunFn(V.Generated(u, w), root, v);
            && (r == None ==> forall x :: x in vs ==> V.OfTextCondition(x))
            && (r.Some? && !r.value.what.PatternMismatch? ==> r.value in vs)
  {
    BodyIsBelow(u, root);
    V.ValidatorReportsFirst(u, w, root, v);
    EmittedIsStricter(w);
    BlockWithin(u, Emitted(w), Declared(w), Body(u, root), Rank(u, root), v);
    WithoutTextIsPart(V.SchemaViolations(u, Emitted(w), root, v));
  }

  lemma {:induction false} WithoutTextIsPart(vs: seq<Violation>)
    ensures forall x :: x in V.WithoutText(vs) <==> x in vs && !V.OfTextCondition(x)
    decreases |vs|
  {
    if vs != [] {
      WithoutTextIsPart(vs[1..]);
    }
  }

  lemma ExactProgramReadsTheSame(u: Unit, w: World, root: string, v: Data)
    requires Ready(u) && IsDeclared(u.prog, root) && ProgramIsExact(u.prog) && TextsNulFree(v)
    ensures V.SchemaViolations(u, Emitted(w), root, v) == V.SchemaViolations(u, Declared(w), root, v)
  {
    forall n | IsDeclared(u.prog, n) ensures SamePatterns(Emitted(w), Declared(w), Body(u, n)) {
      var i := FindSchemaIndex(u.prog, n);
      ExactPatternsAgree(w, Body(u, n));
    }
    BodyIsBelow(u, root);
    SameBlock(u, Emitted(w), Declared(w), Body(u, root), Rank(u, root), v);
  }

  /** Where every pattern meets the condition of its compiler, the validator decides the schema itself: it
      gives the first declared violation, or true, if and only if that first one is not of a condition on a
      text, and returns true if and only if every violation is such a one. */
  lemma ValidatorDecides(u: Unit, w: World, root: string, v: Data)
    requires Ready(u) && DistinctFns(AllFns(u.prog)) && IsDeclared(u.prog, root)
    requires V.Builds(u.prog) && V.SchemaConforms(u, root, v) && TextsNulFree(v) && ProgramIsExact(u.prog)
    ensures var vs, r := V.SchemaViolations(u, Declared(w), root, v), RunFn(V.Generated(u, w), root, v);
            && r == V.FirstReported(vs)
            && (r == V.First(vs) <==> !(vs != [] && V.OfTextCondition(vs[0])))
            && (r == None <==> forall x :: x in vs ==> V.OfTextCondition(x))
  {
    V.ValidatorReportsFirst(u, w, root, v);
    V.ValidatorIsExactIff(u, w, root, v);
    ExactProgramReadsTheSame(u, w, root, v);
    WithoutTextIsPart(V.SchemaViolations(u, Declared(w), root, v));
  }

  // ----- One text -----

  predicate IsPattern(p: Property, pattern: string) {
    p.name == "pattern" && p.value == Plain(StringLit(pattern))
  }

  lemma {:induction false} MismatchIsListed(how: Reading, it: Item, props: seq<Property>, k: nat, pattern: string,
                                            text: string, block: Data)
    requires k < |props| && IsPattern(props[k], pattern) && !how.matches(pattern, text)
    ensures Violation(it.name, PatternMismatch) in PropertyViolations(how, it, props, TextValue(Some(text)), block)
    decreases k
  {
    if k > 0 {
      MismatchIsListed(how, it, props[1..], k - 1, pattern, text, block);
    } else {
      assert !Satisfied(how, props[0], TextValue(Some(text)), block);
      assert Validator.Report(it, props[0]) == Violation(it.name, PatternMismatch);
    }
  }

  /** A text that does not match at some leaf is among the violations. */
  lemma {:induction false} LeafMismatchIsListed(u: Unit, how: Reading, items: seq<Item>, r: nat, path: seq<string>, parent: string,
                                                l: Leaf, k: nat, pattern: string, text: string, v: Data)
    requires Ready(u) && Below(u, items, r) && l in Leaves(u, items, r, path, parent)
    requires l.field.Field? && k < |l.field.props| && IsPattern(l.field.props[k], pattern) && !how.matches(pattern, text)
    requires |l.path| > |path| && DataAt(v, l.path[|path|..]) == Some(TextValue(Some(text)))
    ensures Violation(l.field.name, PatternMismatch) in Violations(u, how, items, r, v)
    decreases r, items
  {
    BelowTail(u, items, r);
    LeavesExtendPath(u, items, r, path, parent);
    var n, it := |path|, items[0];
    if l !in ItemLeaves(u, items, r, path, parent) {
      LeafMismatchIsListed(u, how, items[1..], r, path, parent, l, k, pattern, text, v);
    } else {
      ItemLeavesExtendPath(u, items, r, path, parent);
      var x := FieldOf(v, it.name).value;
      assert l.path[n..][0] == it.name && l.path[n..][1..] == l.path[n + 1..];
      var path' := path + [it.name];
      if it.Section? {
        LeavesExtendPath(u, it.items, r, path', it.name);
        LeafMismatchIsListed(u, how, it.items, r, path', it.name, l, k, pattern, text, x);
      } else {
        var s := ShapeOf(u, it.typ);
        if s.Struct? {
          BodyIsBelow(u, s.schema);
          LeavesExtendPath(u, Body(u, s.schema), Rank(u, s.schema), path', s.schema);
          LeafMismatchIsListed(u, how, Body(u, s.schema), Rank(u, s.schema), path', s.schema, l, k, pattern, text, x);
        } else {
          assert l == Leaf(path', it, parent);
          assert l.path[n + 1..] == [];
          MismatchIsListed(how, it, it.props, k, pattern, text, v);
        }
      }
    }
  }

  lemma RootMismatchIsListed(u: Unit, how: Reading, root: string, l: Leaf, k: nat, pattern: string, text: string, v: Data)
    requires Ready(u) && IsDeclared(u.prog, root) && l in RootLeaves(u, root) && l.field.Field?
    requires k < |l.field.props| && IsPattern(l.field.props[k], pattern) && DataAt(v, l.path) == Some(TextValue(Some(text)))
    ensures how.matches(pattern, text) || Violation(l.field.name, PatternMismatch) in V.SchemaViolations(u, how, root, v)
  {
    BodyIsBelow(u, root);
    LeavesExtendPath(u, Body(u, root), Rank(u, root), [], root);
    assert l.path[0..] == l.path;
    if !how.matches(pattern, text) {
      LeafMismatchIsListed(u, how, Body(u, root), Rank(u, root), [], root, l, k, pattern, text, v);
    }
  }

  /** A configuration that passes has, at every leaf with a pattern, no text or one of the language. */
  lemma AcceptedTextsAreInLanguage(u: Unit, w: World, root: string, l: Leaf, k: nat, p: RegexSyntax.Pattern, text: string, v: Data)
    requires Ready(u) && DistinctFns(AllFns(u.prog)) && IsDeclared(u.prog, root)
    requires V.Builds(u.prog) && V.SchemaConforms(u, root, v) && TextsNulFree(v)
    requires l in RootLeaves(u, root) && l.field.Field? && k < |l.field.props| && RegexSyntax.WellFormed(p)
    requires IsPattern(l.field.props[k], RegexSyntax.Render(p)) && DataAt(v, l.path) == Some(TextValue(Some(text)))
    requires RunFn(V.Generated(u, w), root, v) == None
    ensures RegexSyntax.InLanguage(p, text)
  {
    ValidatorIsSound(u, w, root, v);
    MeansItsLanguage(p, text);
    RootMismatchIsListed(u, Declared(w), root, l, k, RegexSyntax.Render(p), text, v);
    assert !V.OfTextCondition(Violation(l.field.name, PatternMismatch));
  }
}
