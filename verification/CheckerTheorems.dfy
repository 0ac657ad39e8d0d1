/** What the states of the checker say about the program: soundness on every run, and exactness where
    no name is hidden or captured. */
module CheckerTheorems {
  import opened Schema
  import opened Types
  import opened Properties
  import opened SchemaGraph
  import opened Checking

  // ----- Conditions -----

  /** The scope that a block has when all its symbols are defined; the first definition stands. */
  function ScopeOf(prog: Program, items: seq<Item>): Scope {
    WithItems(prog, map[], items)
  }

  function WithItems(prog: Program, scope: Scope, items: seq<Item>): Scope
    decreases |items|
  {
    if items == [] then scope
    else WithItems(prog, if items[0].name in scope then scope else scope[items[0].name := SymbolOf(prog, items[0])], items[1..])
  }

  function SymbolOf(prog: Program, it: Item): (s: Symbol)
    ensures !s.SchemaSymbol?
  {
    match it
    case Field(_, t, _) => FieldSymbol(TypeOf(prog, t))
    case Section(n, _) => SectionSymbol(n)
  }

  /** What is asked of the conditions of a program. `Fits`: each names a field or section of its own
      schema whose type has the literal. `FitsOrElsewhere`: where its own schema does not have the name,
      some item of the program does. `FoundOrNowhere`: its own schema has the name, or no item has it. */
  datatype Demand = Fits | FitsOrElsewhere | FoundOrNowhere

  predicate ConditionMeets(prog: Program, demand: Demand, scopes: seq<Scope>, left: string, right: Literal) {
    var s := Lookup(scopes, left);
    match demand
    case Fits => s.Some? && OwnLiteral(TypeOfSymbol(s.value), right)
    case FitsOrElsewhere => if s.Some? then OwnLiteral(TypeOfSymbol(s.value), right) else IsItemName(prog, left)
    case FoundOrNowhere => s.Some? || !IsItemName(prog, left)
  }

  predicate PropertiesMeet(prog: Program, demand: Demand, scopes: seq<Scope>, props: seq<Property>) {
    forall k :: 0 <= k < |props| && IsCondition(props[k]) ==>
                  ConditionMeets(prog, demand, scopes, props[k].value.left, props[k].value.right)
  }

  /** `scopes` are those of the enclosing blocks of the same schema. */
  predicate BlockMeets(prog: Program, demand: Demand, scopes: seq<Scope>, items: seq<Item>)
    decreases items, 1
  {
    var inner := scopes + [ScopeOf(prog, items)];
    forall i :: 0 <= i < |items| ==> ItemMeets(prog, demand, inner, items[i])
  }

  predicate ItemMeets(prog: Program, demand: Demand, scopes: seq<Scope>, it: Item)
    decreases it, 0
  {
    match it
    case Field(_, _, props) => PropertiesMeet(prog, demand, scopes, props)
    case Section(_, items) => BlockMeets(prog, demand, scopes, items)
  }

  predicate ProgramMeets(prog: Program, demand: Demand) {
    forall i :: 0 <= i < |prog| ==> BlockMeets(prog, demand, [], prog[i].items)
  }

  // ----- The invariant -----

  /** Nothing recorded that could excuse a skipped reference: no circle, and no name that could not be
      resolved, unless it cannot have been a hidden one. */
  ghost predicate Clean(prog: Program, errors: seq<ErrorKind>) {
    CircularDependency !in errors && (UnknownType !in errors || NoShadowing(prog))
  }

  /** Unless an error excuses it, every schema among the names has been finished. */
  ghost predicate Followed(prog: Program, st: State, names: set<string>) {
    Clean(prog, st.errors) ==> forall n :: n in names && IsTarget(prog, n) ==> n in st.resolved
  }

  /** The inner scopes hold items of the program, the global one every schema. */
  ghost predicate ScopesNamed(prog: Program, scopes: seq<Scope>) {
    && ScopesOk(prog, scopes)
    && (forall n :: IsDeclared(prog, n) ==> n in scopes[0])
    && (forall l, n :: 1 <= l < |scopes| && n in scopes[l] ==> IsItemName(prog, n))
  }

  ghost predicate StackOk(prog: Program, resolving: seq<string>, resolved: seq<string>) {
    && Distinct(resolved) && Distinct(resolving)
    && (forall n :: n in resolving ==> n !in resolved)
    && (forall n :: n in resolved ==> IsDeclared(prog, n))
    && (forall n :: n in resolving ==> IsDeclared(prog, n))
    && Walk(prog, resolving)
  }

  ghost predicate BlockOk(prog: Program, scopes: seq<Scope>, items: seq<Item>) {
    ItemsAccepted(prog, items) && BlockMeets(prog, FitsOrElsewhere, scopes, items)
  }

  ghost predicate ItemOk(prog: Program, scopes: seq<Scope>, it: Item) {
    ItemAccepted(prog, it) && ItemMeets(prog, FitsOrElsewhere, scopes, it)
  }

  ghost predicate BodyOk(prog: Program, n: string) {
    var d := FindSchema(prog, n);
    d.Some? && BlockOk(prog, [], d.value.items)
  }

  ghost predicate ResultsOk(prog: Program, errors: seq<ErrorKind>, resolved: seq<string>) {
    && (CircularDependency in errors ==> HasCycle(prog))
    && (Clean(prog, errors) ==> Closed(prog, resolved))
    && (errors == [] ==> forall n :: n in resolved ==> BodyOk(prog, n))
  }

  ghost predicate Inv(prog: Program, st: State) {
    // as one fact, not clause by clause
    true == (ScopesNamed(prog, st.scopes) && StackOk(prog, st.resolving, st.resolved) && ResultsOk(prog, st.errors, st.resolved))
  }

  /** The names are references of the schema on top of the stack. */
  ghost predicate Inside(prog: Program, st: State, names: set<string>) {
    && st.resolving != []
    && FindSchema(prog, Last(st.resolving)).Some?
    && names <= Refs(FindSchema(prog, Last(st.resolving)).value.items)
  }

  function Last(s: seq<string>): string
    requires s != []
  {
    s[|s| - 1]
  }

  lemma InsideIsReferenced(prog: Program, st: State, n: string)
    requires Inside(prog, st, {n})
    ensures IsTarget(prog, n) ==> IsReferenced(prog, n)
  {
    assert n in {n};
    assert IsTarget(prog, n) ==> Edge(prog, Last(st.resolving), n);
  }

  ghost predicate AreItemNames(prog: Program, names: set<string>) {
    forall n :: n in names ==> IsItemName(prog, n)
  }

  /** The innermost scopes are these. */
  predicate EndsWith(scopes: seq<Scope>, inner: seq<Scope>) {
    |inner| < |scopes| && scopes[|scopes| - |inner|..] == inner
  }

  lemma FollowedIsKept(prog: Program, a: State, b: State, names: set<string>)
    requires a.errors <= b.errors && a.resolved <= b.resolved
    requires Followed(prog, a, names)
    ensures Followed(prog, b, names)
  {
  }

  // ----- What is found through the scopes -----

  lemma LookupIsRight(prog: Program, scopes: seq<Scope>, n: string)
    requires ScopesNamed(prog, scopes)
    ensures SchemaIn(scopes, n).Some? ==> LevelOf(scopes, n) == Some(0) && FindSchema(prog, n) == SchemaIn(scopes, n)
    ensures SchemaIn(scopes, n).None? && NoShadowing(prog) ==> !IsReferenced(prog, n)
    ensures LevelOf(scopes, n).Some? && LevelOf(scopes, n) != Some(0) ==> IsItemName(prog, n)
  {
    SchemaInIsDeclared(prog, scopes, n);
  }

  /** What the innermost scopes know is what the whole chain finds. */
  lemma {:induction false} LookupInside(scopes: seq<Scope>, inner: seq<Scope>, n: string)
    requires EndsWith(scopes, inner) && Lookup(inner, n).Some?
    ensures Lookup(scopes, n) == Lookup(inner, n)
    decreases |inner|
  {
    if inner != [] {
      var s, i := scopes[..|scopes| - 1], inner[..|inner| - 1];
      assert scopes[|scopes| - 1] == scopes[|scopes| - |inner|..][|inner| - 1] == inner[|inner| - 1];
      assert s[|s| - |i|..] == i;
      if n !in inner[|inner| - 1] {
        LookupInside(s, i, n);
      }
    }
  }

  // ----- Steps of a traversal -----

  lemma ReportKeepsInv(prog: Program, st: State, more: seq<ErrorKind>)
    requires Inv(prog, st) && (CircularDependency in more ==> HasCycle(prog))
    ensures Inv(prog, Reported(st, more))
  {
  }

  /** A name met again on the stack closes a cycle. */
  lemma {:induction false} StackGivesCycle(prog: Program, resolving: seq<string>, i: nat)
    requires Walk(prog, resolving) && i < |resolving|
    requires Edge(prog, Last(resolving), resolving[i])
    ensures HasCycle(prog)
  {
    WalkSuffix(prog, resolving, i);
    var path := resolving[i..] + [resolving[i]];
    assert path[..|path| - 1] == resolving[i..];
    assert Walk(prog, path);
  }

  lemma MetAgain(prog: Program, resolving: seq<string>, n: string)
    requires Walk(prog, resolving) && (resolving != [] ==> Edge(prog, Last(resolving), n))
    ensures n in resolving ==> HasCycle(prog)
  {
    if n in resolving {
      var i :| 0 <= i < |resolving| && resolving[i] == n;
      StackGivesCycle(prog, resolving, i);
    }
  }

  lemma {:induction false} WalkSuffix(prog: Program, path: seq<string>, i: nat)
    requires Walk(prog, path) && i < |path|
    ensures Walk(prog, path[i..])
    decreases |path|
  {
    if i < |path| - 1 {
      WalkSuffix(prog, path[..|path| - 1], i);
      assert path[i..][..|path| - i - 1] == path[..|path| - 1][i..];
    }
  }

  lemma {:induction false} EnteringKeepsStack(prog: Program, resolving: seq<string>, resolved: seq<string>, n: string)
    requires StackOk(prog, resolving, resolved) && IsDeclared(prog, n)
    requires n !in resolved && n !in resolving
    requires resolving != [] ==> Edge(prog, Last(resolving), n)
    ensures StackOk(prog, resolving + [n], resolved)
  {
    assert (resolving + [n])[..|resolving|] == resolving;
  }

  lemma {:induction false} LeavingKeepsStack(prog: Program, resolving: seq<string>, resolved: seq<string>, n: string)
    requires StackOk(prog, resolving + [n], resolved)
    ensures StackOk(prog, resolving, resolved + [n])
  {
    var stack, longer := resolving + [n], resolved + [n];
    assert stack[..|resolving|] == resolving && stack[|resolving|] == n;
    assert longer[..|resolved|] == resolved && longer[|resolved|] == n;
    forall m | m in resolving ensures m in stack && m !in longer {
      var i :| 0 <= i < |resolving| && resolving[i] == m;
      assert stack[i] == m;
    }
  }

  /** Leaving a body that has been followed keeps the order closed. */
  lemma {:induction false} LeavingKeepsResults(prog: Program, st: State, n: string)
    requires ResultsOk(prog, st.errors, st.resolved) && FindSchema(prog, n).Some?
    requires Followed(prog, st, Refs(FindSchema(prog, n).value.items))
    requires st.errors == [] ==> BodyOk(prog, n)
    ensures ResultsOk(prog, st.errors, st.resolved + [n])
  {
    var longer := st.resolved + [n];
    if Clean(prog, st.errors) {
      forall i, t | 0 <= i < |longer| && Edge(prog, longer[i], t)
        ensures t in longer[..i]
      {
        if i < |st.resolved| {
          assert Edge(prog, st.resolved[i], t) && longer[..i] == st.resolved[..i];
        } else {
          assert longer[..i] == st.resolved;
        }
      }
    }
  }

  /** With the flag set and the name off the stack. */
  function Finished(st: State, below: seq<string>, n: string): State {
    st.(resolved := st.resolved + [n], resolving := below)
  }

  lemma LeftIsFinished(st: State, below: seq<string>, d: SchemaDecl)
    requires st.resolving == below + [d.name]
    ensures Left(st, Some(SchemaSymbol(d))) == Finished(st, below, d.name)
  {
  }

  lemma LeavingKeepsInv(prog: Program, st: State, below: seq<string>, d: SchemaDecl)
    requires Inv(prog, st) && st.resolving == below + [d.name] && FindSchema(prog, d.name) == Some(d)
    requires Followed(prog, st, Refs(d.items))
    requires st.errors == [] ==> BlockOk(prog, [], d.items)
    ensures Inv(prog, Finished(st, below, d.name))
  {
    LeavingKeepsStack(prog, below, st.resolved, d.name);
    LeavingKeepsResults(prog, st, d.name);
  }

  // ----- References of a block -----

  /** The references that the first pass follows. */
  function FieldRefs(items: seq<Item>): set<string> {
    if items == [] then {}
    else (if items[0].Field? then ItemRefs(items[0]) else {}) + FieldRefs(items[1..])
  }

  /** The references that the second pass follows. */
  function SectionRefs(items: seq<Item>): set<string> {
    if items == [] then {}
    else (if items[0].Section? then ItemRefs(items[0]) else {}) + SectionRefs(items[1..])
  }

  lemma {:induction false} RefsOfBothPasses(items: seq<Item>)
    ensures Refs(items) == FieldRefs(items) + SectionRefs(items)
    decreases |items|
  {
    if items != [] {
      RefsOfBothPasses(items[1..]);
    }
  }

  lemma {:induction false} BodyNames(prog: Program, n: string)
    requires FindSchema(prog, n).Some?
    ensures AreItemNames(prog, BlockNames(FindSchema(prog, n).value.items))
  {
    var i := FindSchemaIndex(prog, n);
  }

  // ----- What the first pass defines -----

  /** The items are new to the scope, have different names and known types. */
  ghost predicate Fresh(prog: Program, scope: Scope, items: seq<Item>) {
    && (forall i, j :: 0 <= i < j < |items| ==> items[i].name != items[j].name)
    && (forall i :: 0 <= i < |items| ==> items[i].name !in scope)
    && (forall i :: 0 <= i < |items| && items[i].Field? ==> TypeKnown(prog, items[i].typ))
  }

  lemma FreshCons(prog: Program, scope: Scope, items: seq<Item>)
    requires items != [] && items[0].name !in scope
    requires items[0].Field? ==> TypeKnown(prog, items[0].typ)
    requires Fresh(prog, scope[items[0].name := SymbolOf(prog, items[0])], items[1..])
    ensures Fresh(prog, scope, items)
  {
    var rest := items[1..];
    forall i | 0 < i < |items|
      ensures items[i].name !in scope && items[i].name != items[0].name
      ensures items[i].Field? ==> TypeKnown(prog, items[i].typ)
    {
      assert items[i] == rest[i - 1];
    }
    forall i, j | 0 < i < j < |items| ensures items[i].name != items[j].name {
      assert items[i] == rest[i - 1] && items[j] == rest[j - 1];
    }
  }

  /** The scope holds the symbols of the items. */
  ghost predicate Holds(prog: Program, scope: Scope, items: seq<Item>) {
    forall i :: 0 <= i < |items| ==> items[i].name in scope && scope[items[i].name] == SymbolOf(prog, items[i])
  }

  lemma {:induction false} WithItemsKeeps(prog: Program, scope: Scope, items: seq<Item>, n: string)
    requires n in scope
    ensures n in WithItems(prog, scope, items) && WithItems(prog, scope, items)[n] == scope[n]
    decreases |items|
  {
    if items != [] {
      WithItemsKeeps(prog, if items[0].name in scope then scope else scope[items[0].name := SymbolOf(prog, items[0])], items[1..], n);
    }
  }

  lemma {:induction false} WithItemsHolds(prog: Program, scope: Scope, items: seq<Item>)
    requires Fresh(prog, scope, items)
    ensures Holds(prog, WithItems(prog, scope, items), items)
    decreases |items|
  {
    if items != [] {
      var more := scope[items[0].name := SymbolOf(prog, items[0])];
      WithItemsKeeps(prog, more, items[1..], items[0].name);
      WithItemsHolds(prog, more, items[1..]);
      var all := WithItems(prog, scope, items);
      forall i | 0 < i < |items| ensures items[i].name in all && all[items[i].name] == SymbolOf(prog, items[i]) {
        assert items[1..][i - 1] == items[i];
      }
    }
  }

  // ----- Soundness of the traversal -----

  lemma {:induction false} TypeSound(prog: Program, st: State, t: TypeExpr)
    requires Inv(prog, st) && Inside(prog, st, TypeRefs(t))
    ensures var r := AfterType(prog, st, t);
            && Inv(prog, r) && Followed(prog, r, TypeRefs(t))
            && (r.errors == [] ==> TypeKnown(prog, t) && TypeIn(st.scopes, t) == TypeOf(prog, t))
    decreases Remaining(prog, st.resolving), TypeSize(t), 0
  {
    match t
    case Named(n) => NameSound(prog, st, n);
    case ArrayOf(e) => TypeSound(prog, st, e);
    case EnumOf(_) =>
  }

  lemma {:induction false} NameSound(prog: Program, st: State, n: string)
    requires Inv(prog, st) && Inside(prog, st, {n})
    ensures var r := AfterType(prog, st, Named(n));
            && Inv(prog, r) && Followed(prog, r, {n})
            && (r.errors == [] ==> TypeKnown(prog, Named(n)) && TypeIn(st.scopes, Named(n)) == TypeOf(prog, Named(n)))
    decreases Remaining(prog, st.resolving), 0, 2
  {
    var d := SchemaIn(st.scopes, n);
    LookupIsRight(prog, st.scopes, n);
    if PrimitiveNamed(n).None? {
      if d.Some? {
        SchemaSound(prog, st, d.value);
      } else {
        InsideIsReferenced(prog, st, n);
        ReportKeepsInv(prog, st, [UnknownType]);
        assert Reported(st, [UnknownType]).errors[|st.errors|] == UnknownType;
      }
    }
  }

  lemma {:induction false} SchemaSound(prog: Program, st: State, d: SchemaDecl)
    requires Inv(prog, st) && IsDeclared(prog, d.name) && SchemaIn(st.scopes, d.name).Some?
    requires d.name in st.resolved || FindSchema(prog, d.name) == Some(d)
    requires st.resolving != [] ==> Edge(prog, Last(st.resolving), d.name)
    ensures var r := AfterSchema(prog, st, d);
            && Inv(prog, r)
            && (Clean(prog, r.errors) || st.resolving == [] ==> d.name in r.resolved)
    decreases Remaining(prog, st.resolving), 0, 1
  {
    LookupIsRight(prog, st.scopes, d.name);
    if d.name !in st.resolved {
      if d.name in st.resolving {
        MetAgain(prog, st.resolving, d.name);
        ReportKeepsInv(prog, st, [CircularDependency]);
        assert Reported(st, [CircularDependency]).errors[|st.errors|] == CircularDependency;
      } else {
        BodySound(prog, st, d);
        var after := AfterBlock(prog, Entered(st, d.name), d.items);
        LeftIsFinished(after, st.resolving, d);
        assert (after.resolved + [d.name])[|after.resolved|] == d.name;
      }
    }
  }

  lemma {:induction false} EnteringKeepsInv(prog: Program, st: State, d: SchemaDecl)
    requires Inv(prog, st) && FindSchema(prog, d.name) == Some(d)
    requires d.name !in st.resolved && d.name !in st.resolving
    requires st.resolving != [] ==> Edge(prog, Last(st.resolving), d.name)
    ensures Inv(prog, Entered(st, d.name)) && Inside(prog, Entered(st, d.name), Refs(d.items))
    ensures AreItemNames(prog, BlockNames(d.items))
    ensures Remaining(prog, Entered(st, d.name).resolving) < Remaining(prog, st.resolving)
  {
    RemainingShrinks(prog, st.resolving, d.name);
    EnteringKeepsStack(prog, st.resolving, st.resolved, d.name);
    BodyNames(prog, d.name);
  }

  lemma {:induction false} BodySound(prog: Program, st: State, d: SchemaDecl)
    requires Inv(prog, st) && FindSchema(prog, d.name) == Some(d)
    requires d.name !in st.resolved && d.name !in st.resolving
    requires st.resolving != [] ==> Edge(prog, Last(st.resolving), d.name)
    ensures Inv(prog, Finished(AfterBlock(prog, Entered(st, d.name), d.items), st.resolving, d.name))
    decreases Remaining(prog, st.resolving), 0, 0
  {
    EnteringKeepsInv(prog, st, d);
    var entered := Entered(st, d.name);
    BlockSound(prog, entered, [], d.items);
    LeavingKeepsInv(prog, AfterBlock(prog, entered, d.items), st.resolving, d);
  }

  lemma DefinedSound(prog: Program, st: State, n: string, s: Symbol)
    requires Inv(prog, st) && |st.scopes| >= 2 && !s.SchemaSymbol? && IsItemName(prog, n)
    ensures var r := Defined(st, n, s);
            && Inv(prog, r) && r.resolved == st.resolved
            && (r.errors == [] ==> n !in Top(st.scopes) && Top(r.scopes) == Top(st.scopes)[n := s])
  {
    var last := |st.scopes| - 1;
    if n in Top(st.scopes) {
      ReportKeepsInv(prog, st, [Redeclaration]);
    } else {
      DefinedScopes(prog, st, n, s);
      var r := Defined(st, n, s);
      assert r.scopes[0] == st.scopes[0];
    }
  }

  lemma {:induction false} DefiningSound(prog: Program, st: State, it: Item)
    requires Inv(prog, st) && |st.scopes| >= 2 && Inside(prog, st, ItemRefs(it)) && IsItemName(prog, it.name)
    ensures var r := AfterDefining(prog, st, it);
            && Inv(prog, r) && (it.Field? ==> Followed(prog, r, ItemRefs(it)))
            && (r.errors == [] ==>
                  && it.name !in Top(st.scopes) && Top(r.scopes) == Top(st.scopes)[it.name := SymbolOf(prog, it)]
                  && (it.Field? ==> TypeKnown(prog, it.typ)))
    decreases Remaining(prog, st.resolving), ItemSize(it), 1
  {
    if it.Field? {
      TypeSound(prog, st, it.typ);
    }
    var resolved := if it.Field? then AfterType(prog, st, it.typ) else st;
    DefinedSound(prog, resolved, it.name, SymbolIn(st.scopes, it));
  }

  lemma {:induction false} DefiningAllSound(prog: Program, st: State, items: seq<Item>)
    requires Inv(prog, st) && |st.scopes| >= 2 && Inside(prog, st, Refs(items))
    requires AreItemNames(prog, BlockNames(items))
    ensures var r := AfterDefiningAll(prog, st, items);
            && Inv(prog, r) && Followed(prog, r, FieldRefs(items))
            && (r.errors == [] ==>
                  Fresh(prog, Top(st.scopes), items) && Top(r.scopes) == WithItems(prog, Top(st.scopes), items))
    decreases Remaining(prog, st.resolving), ItemsSize(items), 2
  {
    if items != [] {
      assert items[0].name in BlockNames(items);
      DefiningSound(prog, st, items[0]);
      var next := AfterDefining(prog, st, items[0]);
      DefiningAllSound(prog, next, items[1..]);
      var r := AfterDefiningAll(prog, next, items[1..]);
      if items[0].Field? {
        FollowedIsKept(prog, next, r, ItemRefs(items[0]));
      }
      if r.errors == [] {
        FreshCons(prog, Top(st.scopes), items);
      }
    }
  }

  /** A condition that the checker accepts fits its own schema, or names an item of another scope. */
  lemma ConditionSound(prog: Program, scopes: seq<Scope>, inner: seq<Scope>, left: string, right: Literal)
    requires ScopesNamed(prog, scopes) && EndsWith(scopes, inner)
    requires ConditionErrors(scopes, left, right) == []
    ensures ConditionMeets(prog, FitsOrElsewhere, inner, left, right)
  {
    LookupIsRight(prog, scopes, left);
    if Lookup(inner, left).Some? {
      LookupInside(scopes, inner, left);
    }
  }

  lemma PropertiesSound(prog: Program, scopes: seq<Scope>, inner: seq<Scope>, t: Type, props: seq<Property>)
    requires ScopesNamed(prog, scopes) && EndsWith(scopes, inner)
    requires PropertiesErrors(scopes, t, props, 0) == []
    ensures PropertiesAccepted(t, props) && PropertiesMeet(prog, FitsOrElsewhere, inner, props)
  {
    NoErrorsIff(scopes, t, props);
    forall k | 0 <= k < |props| && IsCondition(props[k])
      ensures ConditionMeets(prog, FitsOrElsewhere, inner, props[k].value.left, props[k].value.right)
    {
      ConditionSound(prog, scopes, inner, props[k].value.left, props[k].value.right);
    }
  }

  lemma {:induction false} CheckingSound(prog: Program, st: State, inner: seq<Scope>, it: Item)
    requires Inv(prog, st) && |st.scopes| >= 2 && Inside(prog, st, ItemRefs(it)) && AreItemNames(prog, ItemNames(it))
    requires st.errors == [] ==> EndsWith(st.scopes, inner) && Holds(prog, Top(st.scopes), [it])
    requires st.errors == [] && it.Field? ==> TypeKnown(prog, it.typ)
    ensures var r := AfterChecking(prog, st, it);
            && Inv(prog, r) && (it.Section? ==> Followed(prog, r, ItemRefs(it)))
            && (r.errors == [] ==> ItemOk(prog, inner, it))
    decreases Remaining(prog, st.resolving), ItemSize(it), 1
  {
    assert [it][0] == it;
    match it
    case Field(n, t, props) =>
      if n in Top(st.scopes) {
        var more := PropertiesErrors(st.scopes, TypeOfSymbol(Top(st.scopes)[n]), props, 0);
        ReportKeepsInv(prog, st, more);
        if st.errors + more == [] {
          PropertiesSound(prog, st.scopes, inner, TypeOf(prog, t), props);
        }
      }
    case Section(_, items) => BlockSound(prog, st, inner, items);
  }

  ghost predicate AllOk(prog: Program, scopes: seq<Scope>, items: seq<Item>) {
    forall i :: 0 <= i < |items| ==> ItemOk(prog, scopes, items[i])
  }

  lemma AllOkCons(prog: Program, scopes: seq<Scope>, items: seq<Item>)
    requires items != [] && ItemOk(prog, scopes, items[0]) && AllOk(prog, scopes, items[1..])
    ensures AllOk(prog, scopes, items)
  {
    assert forall i :: 0 < i < |items| ==> items[i] == items[1..][i - 1];
  }

  lemma {:induction false} CheckingAllSound(prog: Program, st: State, inner: seq<Scope>, items: seq<Item>)
    requires Inv(prog, st) && |st.scopes| >= 2 && Inside(prog, st, Refs(items)) && AreItemNames(prog, BlockNames(items))
    requires st.errors == [] ==> EndsWith(st.scopes, inner) && Holds(prog, Top(st.scopes), items)
    requires st.errors == [] ==> forall i :: 0 <= i < |items| && items[i].Field? ==> TypeKnown(prog, items[i].typ)
    ensures var r := AfterCheckingAll(prog, st, items);
            && Inv(prog, r) && Followed(prog, r, SectionRefs(items))
            && (r.errors == [] ==> AllOk(prog, inner, items))
    decreases Remaining(prog, st.resolving), ItemsSize(items), 2
  {
    if items != [] {
      var it, rest := items[0], items[1..];
      assert st.errors == [] ==> Holds(prog, Top(st.scopes), [it]);
      CheckingSound(prog, st, inner, it);
      var next := AfterChecking(prog, st, it);
      assert forall i :: 0 <= i < |rest| ==> rest[i] == items[i + 1];
      CheckingAllSound(prog, next, inner, rest);
      var r := AfterCheckingAll(prog, next, rest);
      if it.Section? {
        FollowedIsKept(prog, next, r, ItemRefs(it));
      }
      if r.errors == [] {
        AllOkCons(prog, inner, items);
      }
    }
  }

  lemma PushingKeepsInv(prog: Program, st: State)
    requires Inv(prog, st)
    ensures Inv(prog, Pushed(st))
  {
  }

  lemma PoppingKeepsInv(prog: Program, st: State)
    requires Inv(prog, st) && |st.scopes| >= 2
    ensures Inv(prog, Popped(st))
  {
  }

  /** Between the passes of a block without errors, the innermost scopes are those of its schema. */
  lemma BlockScopes(prog: Program, st: State, between: State, scopes: seq<Scope>, items: seq<Item>)
    requires EndsWith(st.scopes, scopes) && ExtendsInside(Pushed(st), between)
    requires Fresh(prog, map[], items) && Top(between.scopes) == ScopeOf(prog, items)
    ensures EndsWith(between.scopes, scopes + [ScopeOf(prog, items)])
    ensures Holds(prog, Top(between.scopes), items)
  {
    WithItemsHolds(prog, map[], items);
    assert Pushed(st).scopes[..|st.scopes|] == st.scopes;
    assert between.scopes == st.scopes + [ScopeOf(prog, items)];
    var k := |st.scopes| - |scopes|;
    assert between.scopes[k..] == st.scopes[k..] + [ScopeOf(prog, items)];
  }

  lemma {:induction false} BlockSound(prog: Program, st: State, scopes: seq<Scope>, items: seq<Item>)
    requires Inv(prog, st) && Inside(prog, st, Refs(items)) && AreItemNames(prog, BlockNames(items))
    requires st.errors == [] ==> EndsWith(st.scopes, scopes)
    ensures var r := AfterBlock(prog, st, items);
            && Inv(prog, r) && Followed(prog, r, Refs(items))
            && (r.errors == [] ==> BlockOk(prog, scopes, items))
    decreases Remaining(prog, st.resolving), ItemsSize(items), 3
  {
    RefsOfBothPasses(items);
    var pushed, inner := Pushed(st), scopes + [ScopeOf(prog, items)];
    PushingKeepsInv(prog, st);
    DefiningAllSound(prog, pushed, items);
    var between := AfterDefiningAll(prog, pushed, items);
    if between.errors == [] {
      BlockScopes(prog, st, between, scopes, items);
    }
    CheckingAllSound(prog, between, inner, items);
    var after := AfterCheckingAll(prog, between, items);
    FollowedIsKept(prog, between, after, FieldRefs(items));
    PoppingKeepsInv(prog, after);
  }

  // ----- Completeness of the traversal -----

  /** What a program must meet to pass: nothing hidden, every block accepted, no cycle, and conditions
      that fit their own schema. */
  ghost predicate Good(prog: Program) {
    NoShadowing(prog) && ProgramAccepted(prog) && !HasCycle(prog) && ProgramMeets(prog, Fits)
  }

  ghost predicate Passing(prog: Program, st: State) {
    // as one fact, not clause by clause
    true == (Good(prog) && Inv(prog, st) && st.errors == [])
  }

  lemma {:induction false} TypePasses(prog: Program, st: State, t: TypeExpr)
    requires Passing(prog, st) && Inside(prog, st, TypeRefs(t)) && TypeKnown(prog, t)
    ensures Passing(prog, AfterType(prog, st, t))
    decreases Remaining(prog, st.resolving), TypeSize(t), 0
  {
    TypeSound(prog, st, t);
    match t
    case Named(n) => NamePasses(prog, st, n);
    case ArrayOf(e) => TypePasses(prog, st, e);
    case EnumOf(_) =>
  }

  lemma {:induction false} NamePasses(prog: Program, st: State, n: string)
    requires Passing(prog, st) && Inside(prog, st, {n}) && TypeKnown(prog, Named(n))
    ensures Passing(prog, AfterType(prog, st, Named(n)))
    decreases Remaining(prog, st.resolving), 0, 2
  {
    LookupIsRight(prog, st.scopes, n);
    InsideIsReferenced(prog, st, n);
    if PrimitiveNamed(n).None? {
      assert Edge(prog, Last(st.resolving), n);
      SchemaPasses(prog, st, SchemaIn(st.scopes, n).value);
    }
  }

  lemma {:induction false} SchemaPasses(prog: Program, st: State, d: SchemaDecl)
    requires Passing(prog, st) && FindSchema(prog, d.name) == Some(d) && SchemaIn(st.scopes, d.name).Some?
    requires st.resolving != [] ==> Edge(prog, Last(st.resolving), d.name)
    ensures Passing(prog, AfterSchema(prog, st, d))
    decreases Remaining(prog, st.resolving), 0, 1
  {
    SchemaSound(prog, st, d);
    LookupIsRight(prog, st.scopes, d.name);
    MetAgain(prog, st.resolving, d.name);
    if d.name !in st.resolved {
      BodyPasses(prog, st, d);
    }
  }

  lemma GoodBody(prog: Program, d: SchemaDecl)
    requires Good(prog) && FindSchema(prog, d.name) == Some(d)
    ensures ItemsAccepted(prog, d.items) && BlockMeets(prog, Fits, [], d.items)
  {
    var i := FindSchemaIndex(prog, d.name);
    assert ItemsAccepted(prog, prog[i].items) && BlockMeets(prog, Fits, [], prog[i].items);
  }

  /** A block that may pass inside these scopes of its schema. */
  ghost predicate BlockMayPass(prog: Program, st: State, scopes: seq<Scope>, items: seq<Item>) {
    // as one fact, not clause by clause
    true == (&& Passing(prog, st) && Inside(prog, st, Refs(items)) && AreItemNames(prog, BlockNames(items))
             && EndsWith(st.scopes, scopes) && ItemsAccepted(prog, items) && BlockMeets(prog, Fits, scopes, items))
  }

  lemma {:induction false} EnteringPasses(prog: Program, st: State, d: SchemaDecl)
    requires Passing(prog, st) && FindSchema(prog, d.name) == Some(d)
    requires d.name !in st.resolved && d.name !in st.resolving
    requires st.resolving != [] ==> Edge(prog, Last(st.resolving), d.name)
    ensures BlockMayPass(prog, Entered(st, d.name), [], d.items)
    ensures Remaining(prog, Entered(st, d.name).resolving) < Remaining(prog, st.resolving)
  {
    EnteringKeepsInv(prog, st, d);
    GoodBody(prog, d);
  }

  lemma {:induction false} BodyPasses(prog: Program, st: State, d: SchemaDecl)
    requires Passing(prog, st) && FindSchema(prog, d.name) == Some(d)
    requires d.name !in st.resolved && d.name !in st.resolving
    requires st.resolving != [] ==> Edge(prog, Last(st.resolving), d.name)
    ensures AfterBlock(prog, Entered(st, d.name), d.items).errors == []
    decreases Remaining(prog, st.resolving), 0, 0
  {
    EnteringPasses(prog, st, d);
    BlockPasses(prog, Entered(st, d.name), [], d.items);
  }

  lemma {:induction false} DefiningPasses(prog: Program, st: State, it: Item)
    requires Passing(prog, st) && |st.scopes| >= 2 && Inside(prog, st, ItemRefs(it)) && IsItemName(prog, it.name)
    requires it.name !in Top(st.scopes) && (it.Field? ==> TypeKnown(prog, it.typ))
    ensures Passing(prog, AfterDefining(prog, st, it))
    decreases Remaining(prog, st.resolving), ItemSize(it), 1
  {
    DefiningSound(prog, st, it);
    if it.Field? {
      TypePasses(prog, st, it.typ);
    }
  }

  lemma FreshTail(prog: Program, scope: Scope, items: seq<Item>)
    requires items != [] && Fresh(prog, scope, items)
    ensures Fresh(prog, scope[items[0].name := SymbolOf(prog, items[0])], items[1..])
  {
    assert forall i :: 0 <= i < |items| - 1 ==> items[1..][i] == items[i + 1];
  }

  lemma {:induction false} DefiningAllPasses(prog: Program, st: State, items: seq<Item>)
    requires Passing(prog, st) && |st.scopes| >= 2 && Inside(prog, st, Refs(items))
    requires AreItemNames(prog, BlockNames(items)) && Fresh(prog, Top(st.scopes), items)
    ensures Passing(prog, AfterDefiningAll(prog, st, items))
    decreases Remaining(prog, st.resolving), ItemsSize(items), 2
  {
    if items != [] {
      assert items[0].name in BlockNames(items);
      FreshTail(prog, Top(st.scopes), items);
      DefiningPasses(prog, st, items[0]);
      DefiningSound(prog, st, items[0]);
      DefiningAllPasses(prog, AfterDefining(prog, st, items[0]), items[1..]);
    }
  }

  lemma PropertiesPass(prog: Program, scopes: seq<Scope>, inner: seq<Scope>, t: Type, props: seq<Property>)
    requires EndsWith(scopes, inner)
    requires PropertiesAccepted(t, props) && PropertiesMeet(prog, Fits, inner, props)
    ensures PropertiesErrors(scopes, t, props, 0) == []
  {
    NoErrorsIff(scopes, t, props);
    forall k | 0 <= k < |props| && IsCondition(props[k])
      ensures ConditionErrors(scopes, props[k].value.left, props[k].value.right) == []
    {
      LookupInside(scopes, inner, props[k].value.left);
    }
  }

  /** An item that may pass the second pass inside these scopes of its schema. */
  ghost predicate MayPass(prog: Program, inner: seq<Scope>, it: Item) {
    ItemAccepted(prog, it) && ItemMeets(prog, Fits, inner, it)
  }

  lemma {:induction false} CheckingPasses(prog: Program, st: State, inner: seq<Scope>, it: Item)
    requires Passing(prog, st) && |st.scopes| >= 2 && Inside(prog, st, ItemRefs(it)) && AreItemNames(prog, ItemNames(it))
    requires EndsWith(st.scopes, inner) && Holds(prog, Top(st.scopes), [it])
    requires MayPass(prog, inner, it)
    ensures Passing(prog, AfterChecking(prog, st, it))
    decreases Remaining(prog, st.resolving), ItemSize(it), 1
  {
    assert [it][0] == it;
    CheckingSound(prog, st, inner, it);
    match it
    case Field(_, t, props) => PropertiesPass(prog, st.scopes, inner, TypeOf(prog, t), props);
    case Section(_, items) => BlockPasses(prog, st, inner, items);
  }

  lemma {:induction false} CheckingAllPasses(prog: Program, st: State, inner: seq<Scope>, items: seq<Item>)
    requires Passing(prog, st) && |st.scopes| >= 2 && Inside(prog, st, Refs(items)) && AreItemNames(prog, BlockNames(items))
    requires EndsWith(st.scopes, inner) && Holds(prog, Top(st.scopes), items)
    requires forall i :: 0 <= i < |items| ==> MayPass(prog, inner, items[i])
    ensures Passing(prog, AfterCheckingAll(prog, st, items))
    decreases Remaining(prog, st.resolving), ItemsSize(items), 2
  {
    if items != [] {
      var it, rest := items[0], items[1..];
      CheckingPasses(prog, st, inner, it);
      assert forall i :: 0 <= i < |rest| ==> rest[i] == items[i + 1];
      CheckingAllPasses(prog, AfterChecking(prog, st, it), inner, rest);
    }
  }

  lemma {:induction false} BlockPasses(prog: Program, st: State, scopes: seq<Scope>, items: seq<Item>)
    requires BlockMayPass(prog, st, scopes, items)
    ensures Passing(prog, AfterBlock(prog, st, items))
    decreases Remaining(prog, st.resolving), ItemsSize(items), 3
  {
    var pushed := Pushed(st);
    PushingKeepsInv(prog, st);
    assert forall i :: 0 <= i < |items| ==> ItemAccepted(prog, items[i]);
    DefiningAllSound(prog, pushed, items);
    DefiningAllPasses(prog, pushed, items);
    var between := AfterDefiningAll(prog, pushed, items);
    BlockScopes(prog, st, between, scopes, items);
    CheckingAllPasses(prog, between, scopes + [ScopeOf(prog, items)], items);
    PoppingKeepsInv(prog, AfterCheckingAll(prog, between, items));
  }

  // ----- Programs -----

  lemma DeclaredInv(prog: Program)
    ensures Inv(prog, DeclaredUpTo(prog, |prog|))
    ensures DistinctNames(prog) ==> DeclaredUpTo(prog, |prog|).errors == []
  {
    DeclaredScopes(prog, |prog|);
    var r := DeclaredUpTo(prog, |prog|);
    forall n | IsDeclared(prog, n) ensures n in r.scopes[0] {
      var i := FindSchemaIndex(prog, n);
    }
    NothingOnTheStack(prog, r.errors);
    assert ScopesNamed(prog, r.scopes);
  }

  lemma NothingOnTheStack(prog: Program, errors: seq<ErrorKind>)
    requires CircularDependency !in errors
    ensures StackOk(prog, [], []) && ResultsOk(prog, errors, [])
  {
    var none: seq<string> := [];
    assert forall n :: n !in none;
    assert Distinct(none) && Walk(prog, none) && Closed(prog, none);
  }

  ghost predicate FinishedUpTo(prog: Program, resolved: seq<string>, k: nat) {
    forall i :: 0 <= i < k <= |prog| ==> prog[i].name in resolved
  }

  /** Of two schemas of one name the first stands, and is finished when the second is met. */
  lemma FirstOrFinished(prog: Program, scopes: seq<Scope>, resolved: seq<string>, k: nat)
    requires k < |prog| && FinishedUpTo(prog, resolved, k) && ScopesNamed(prog, scopes) && |scopes| == 1
    ensures IsDeclared(prog, prog[k].name) && SchemaIn(scopes, prog[k].name).Some?
    ensures prog[k].name in resolved || FindSchema(prog, prog[k].name) == Some(prog[k])
  {
    FindSchemaOf(prog, k);
    assert prog[k].name in scopes[0];
    if forall j :: 0 <= j < k ==> prog[j].name != prog[k].name {
      FindSchemaFirst(prog, k);
    }
  }

  lemma {:induction false} CheckedTurn(prog: Program, st: State, k: nat)
    requires k < |prog| && Inv(prog, st) && |st.scopes| == 1 && st.resolving == []
    requires FinishedUpTo(prog, st.resolved, k) && IsDeclared(prog, prog[k].name)
    ensures var r := AfterSchema(prog, st, prog[k]);
            && Inv(prog, r) && FinishedUpTo(prog, r.resolved, k + 1)
            && (Passing(prog, st) ==> Passing(prog, r))
  {
    FirstOrFinished(prog, st.scopes, st.resolved, k);
    SchemaSound(prog, st, prog[k]);
    if Passing(prog, st) {
      FindSchemaOf(prog, k);
      SchemaPasses(prog, st, prog[k]);
    }
  }

  lemma {:induction false} AfterSchemasSound(prog: Program, st: State, k: nat)
    requires k <= |prog| && Inv(prog, st) && |st.scopes| == 1 && st.resolving == []
    requires FinishedUpTo(prog, st.resolved, k)
    ensures var r := AfterSchemas(prog, st, k);
            && Inv(prog, r) && FinishedUpTo(prog, r.resolved, |prog|)
            && (Passing(prog, st) ==> Passing(prog, r))
    decreases |prog| - k
  {
    if k < |prog| {
      DeclaredSchema(prog, k);
      CheckedTurn(prog, st, k);
      AfterSchemasSound(prog, AfterSchema(prog, st, prog[k]), k + 1);
    }
  }

  lemma CheckedSound(prog: Program)
    ensures Inv(prog, Checked(prog)) && FinishedUpTo(prog, Checked(prog).resolved, |prog|)
    ensures Checked(prog).resolving == [] && (Good(prog) ==> Checked(prog).errors == [])
  {
    DeclaredInv(prog);
    AfterSchemasSound(prog, DeclaredUpTo(prog, |prog|), 0);
  }

  /** Every schema is traversed exactly once; without errors the order of traversal ranks the schemas; and a
      circular dependency is only reported when there is one. The verdict on circles is exact unless a type was
      reported as unknown while an item carries the name of a schema that is used as a type: a circle that is
      missed leaves that error behind. */
  lemma CheckerIsSound(prog: Program)
    ensures var r := Checked(prog);
            && Distinct(r.resolved) && (forall n :: n in r.resolved <==> IsDeclared(prog, n))
            && (CircularDependency in r.errors ==> HasCycle(prog))
            && (NoShadowing(prog) || UnknownType !in r.errors ==> (CircularDependency in r.errors <==> HasCycle(prog)))
            && (r.errors == [] ==>
                  ProgramAccepted(prog) && Ranked(prog, r.resolved) && !HasCycle(prog) && ProgramMeets(prog, FitsOrElsewhere))
  {
    CheckedSound(prog);
    var r := Checked(prog);
    forall n | IsDeclared(prog, n) ensures n in r.resolved {
      var i := FindSchemaIndex(prog, n);
    }
    if Clean(prog, r.errors) {
      RankedHasNoCycle(prog, r.resolved);
    }
    if r.errors == [] {
      DeclaredScopes(prog, |prog|);
      forall i | 0 <= i < |prog| ensures BlockOk(prog, [], prog[i].items) {
        FindSchemaOf(prog, i);
        assert BodyOk(prog, prog[i].name);
      }
    }
  }

  /** Where no name hides a schema, a program is passed if its blocks are accepted, its references have no
      cycle, and its conditions fit their own schemas. */
  lemma CheckerIsComplete(prog: Program)
    requires NoShadowing(prog) && ProgramAccepted(prog) && !HasCycle(prog) && ProgramMeets(prog, Fits)
    ensures Checked(prog).errors == []
  {
    CheckedSound(prog);
  }

  // ----- Exactness -----

  lemma {:induction false} BlockMeetsBoth(prog: Program, scopes: seq<Scope>, items: seq<Item>)
    requires BlockMeets(prog, FitsOrElsewhere, scopes, items) && BlockMeets(prog, FoundOrNowhere, scopes, items)
    ensures BlockMeets(prog, Fits, scopes, items)
    decreases items, 1
  {
    var inner := scopes + [ScopeOf(prog, items)];
    forall i | 0 <= i < |items| ensures ItemMeets(prog, Fits, inner, items[i]) {
      ItemMeetsBoth(prog, inner, items[i]);
    }
  }

  lemma {:induction false} ItemMeetsBoth(prog: Program, scopes: seq<Scope>, it: Item)
    requires ItemMeets(prog, FitsOrElsewhere, scopes, it) && ItemMeets(prog, FoundOrNowhere, scopes, it)
    ensures ItemMeets(prog, Fits, scopes, it)
    decreases it, 0
  {
    match it
    case Field(_, _, props) =>
      forall k | 0 <= k < |props| && IsCondition(props[k])
        ensures ConditionMeets(prog, Fits, scopes, props[k].value.left, props[k].value.right)
      {
        assert ConditionMeets(prog, FitsOrElsewhere, scopes, props[k].value.left, props[k].value.right);
        assert ConditionMeets(prog, FoundOrNowhere, scopes, props[k].value.left, props[k].value.right);
      }
    case Section(_, items) => BlockMeetsBoth(prog, scopes, items);
  }

  /** Where no name hides a schema, and no condition uses a name that only other scopes have, the checker
      finds no error exactly in the programs whose blocks are accepted, whose references have no cycle,
      and whose conditions fit. */
  lemma CheckerIsExact(prog: Program)
    requires NoShadowing(prog) && ProgramMeets(prog, FoundOrNowhere)
    ensures Checked(prog).errors == [] <==> ProgramAccepted(prog) && !HasCycle(prog) && ProgramMeets(prog, Fits)
  {
    CheckerIsSound(prog);
    if Checked(prog).errors == [] {
      forall i | 0 <= i < |prog| ensures BlockMeets(prog, Fits, [], prog[i].items) {
        BlockMeetsBoth(prog, [], prog[i].items);
      }
    } else if Good(prog) {
      CheckerIsComplete(prog);
    }
  }
}
