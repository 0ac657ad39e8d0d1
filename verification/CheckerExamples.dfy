/** Two programs in which a name is hidden or captured. */
module CheckerExamples {
  import opened Schema
  import opened Types
  import opened Properties
  import opened SchemaGraph
  import opened Checking

  // ----- Traversing small blocks -----

  lemma DefiningTwo(prog: Program, st: State, a: Item, b: Item)
    requires ScopesOk(prog, st.scopes) && |st.scopes| >= 2
    ensures AfterDefiningAll(prog, st, [a, b]) == AfterDefining(prog, AfterDefining(prog, st, a), b)
  {
    var next := AfterDefining(prog, st, a);
    assert [a, b][1..] == [b] && [b][1..] == [];
    assert AfterDefiningAll(prog, next, [b]) == AfterDefiningAll(prog, AfterDefining(prog, next, b), []);
  }

  lemma DefiningOne(prog: Program, st: State, a: Item)
    requires ScopesOk(prog, st.scopes) && |st.scopes| >= 2
    ensures AfterDefiningAll(prog, st, [a]) == AfterDefining(prog, st, a)
  {
    assert [a][1..] == [];
  }

  lemma CheckingOne(prog: Program, st: State, a: Item)
    requires ScopesOk(prog, st.scopes) && |st.scopes| >= 2
    ensures AfterCheckingAll(prog, st, [a]) == AfterChecking(prog, st, a)
  {
    assert [a][1..] == [];
  }

  /** Fields without properties pass the second phase. */
  lemma {:induction false} CheckingPlain(prog: Program, st: State, items: seq<Item>)
    requires ScopesOk(prog, st.scopes) && |st.scopes| >= 2
    requires forall i :: 0 <= i < |items| ==> items[i].Field? && items[i].props == []
    ensures AfterCheckingAll(prog, st, items) == st
    decreases |items|
  {
    if items != [] {
      assert AfterChecking(prog, st, items[0]) == Reported(st, []) || AfterChecking(prog, st, items[0]) == st;
      assert Reported(st, []) == st;
      CheckingPlain(prog, st, items[1..]);
    }
  }

  /** Inside a block, with its first field defined. */
  function Half(st: State, n: string, p: Primitive): State {
    st.(scopes := st.scopes + [map[n := FieldSymbol(PrimitiveType(p))]])
  }

  lemma HalfDefined(prog: Program, st: State, a: Item, p: Primitive)
    requires ScopesOk(prog, st.scopes) && a.Field? && a.typ.Named? && PrimitiveNamed(a.typ.name) == Some(p)
    ensures AfterDefining(prog, Pushed(st), a) == Half(st, a.name, p)
  {
  }

  lemma TwoDefined(prog: Program, st: State, a: Item, p: Primitive, b: Item)
    requires ScopesOk(prog, st.scopes) && a.Field? && b.Field? && a.typ.Named? && PrimitiveNamed(a.typ.name) == Some(p)
    ensures var half := Half(st, a.name, p);
            && ScopesOk(prog, half.scopes)
            && AfterDefiningAll(prog, Pushed(st), [a, b])
            == Defined(AfterType(prog, half, b.typ), b.name, SymbolIn(half.scopes, b))
  {
    DefiningTwo(prog, Pushed(st), a, b);
    HalfDefined(prog, st, a, p);
  }

  /** A block of two plain fields, the first of a primitive type. */
  lemma TwoFields(prog: Program, st: State, a: Item, p: Primitive, b: Item)
    requires ScopesOk(prog, st.scopes) && a.Field? && b.Field? && a.typ.Named? && PrimitiveNamed(a.typ.name) == Some(p)
    requires a.name != b.name && a.props == [] && b.props == []
    ensures ScopesOk(prog, Half(st, a.name, p).scopes)
    ensures AfterBlock(prog, st, [a, b]) == AfterType(prog, Half(st, a.name, p), b.typ).(scopes := st.scopes)
  {
    TwoDefined(prog, st, a, p, b);
    var two := AfterDefiningAll(prog, Pushed(st), [a, b]);
    CheckingPlain(prog, two, [a, b]);
    assert two.scopes[..|st.scopes|] == st.scopes;
  }

  const A_HIDING: SchemaDecl := SchemaDecl("A", [Field("B", Named("int"), []), Field("b", Named("B"), [])])
  const B_OF_A: SchemaDecl := SchemaDecl("B", [Field("a", Named("A"), [])])
  const SHADOWED: Program := [A_HIDING, B_OF_A]

  /** The state between the passes over two schemas. */
  function Start(a: SchemaDecl, b: SchemaDecl): State {
    State([map[a.name := SchemaSymbol(a), b.name := SchemaSymbol(b)]], [], [], [])
  }

  lemma TwoDeclared(a: SchemaDecl, b: SchemaDecl)
    requires a.name != b.name
    ensures DeclaredUpTo([a, b], 2) == Start(a, b) && ScopesOk([a, b], Start(a, b).scopes)
    ensures FindSchema([a, b], a.name) == Some(a) && FindSchema([a, b], b.name) == Some(b)
    ensures Lookup(Start(a, b).scopes, a.name) == Some(SchemaSymbol(a))
    ensures Lookup(Start(a, b).scopes, b.name) == Some(SchemaSymbol(b))
  {
    var prog := [a, b];
    DeclaredScopes(prog, 2);
    assert DeclaredUpTo(prog, 1).scopes == [map[a.name := SchemaSymbol(a)]];
    assert prog[1..] == [b];
  }

  lemma CheckedTwo(a: SchemaDecl, b: SchemaDecl)
    requires a.name != b.name
    ensures ScopesOk([a, b], Start(a, b).scopes) && IsDeclared([a, b], a.name) && IsDeclared([a, b], b.name)
    ensures Checked([a, b]) == AfterSchema([a, b], AfterSchema([a, b], Start(a, b), a), b)
  {
    var prog := [a, b];
    TwoDeclared(a, b);
    var st := Start(a, b);
    var next := AfterSchema(prog, st, a);
    assert AfterSchemas(prog, st, 0) == AfterSchemas(prog, next, 1);
    assert AfterSchemas(prog, next, 1) == AfterSchemas(prog, AfterSchema(prog, next, b), 2);
  }

  /** A schema that is neither finished nor on the stack is traversed. */
  lemma Traversed(prog: Program, st: State, d: SchemaDecl)
    requires ScopesOk(prog, st.scopes) && IsDeclared(prog, d.name) && Lookup(st.scopes, d.name) == Some(SchemaSymbol(d))
    requires d.name !in st.resolved && d.name !in st.resolving
    ensures var after := AfterBlock(prog, Entered(st, d.name), d.items);
            AfterSchema(prog, st, d) == State(st.scopes, after.resolved + [d.name], st.resolving, after.errors)
  {
  }

  lemma Skipped(prog: Program, st: State, d: SchemaDecl)
    requires ScopesOk(prog, st.scopes) && IsDeclared(prog, d.name) && Lookup(st.scopes, d.name) == Some(SchemaSymbol(d))
    requires d.name in st.resolved
    ensures AfterSchema(prog, st, d) == st
  {
  }

  /** A name that the innermost scope does not have is looked up outside. */
  lemma LookupOutside(scopes: seq<Scope>, inner: Scope, n: string)
    ensures Lookup(scopes + [inner], n) == if n in inner then Some(inner[n]) else Lookup(scopes, n)
  {
    assert (scopes + [inner])[..|scopes|] == scopes;
  }

  lemma HidingBlock(st: State)
    requires ScopesOk(SHADOWED, st.scopes)
    ensures AfterBlock(SHADOWED, st, A_HIDING.items) == Reported(st, [UnknownType])
  {
    assert PrimitiveNamed("int") == Some(Int) && PrimitiveNamed("B").None? && "b"[0] != "B"[0];
    TwoFields(SHADOWED, st, A_HIDING.items[0], Int, A_HIDING.items[1]);
    var half := Half(st, "B", Int);
    LookupOutside(st.scopes, map["B" := FieldSymbol(PrimitiveType(Int))], "B");
    assert AfterType(SHADOWED, half, Named("B")) == Reported(half, [UnknownType]);
  }

  /** A block of one plain field whose type needs no traversal. */
  lemma OneField(prog: Program, st: State, a: Item)
    requires ScopesOk(prog, st.scopes) && a.Field? && a.props == []
    requires ScopesOk(prog, Pushed(st).scopes) && AfterType(prog, Pushed(st), a.typ) == Pushed(st)
    ensures AfterBlock(prog, st, [a]) == st
  {
    DefiningOne(prog, Pushed(st), a);
    var one := AfterDefiningAll(prog, Pushed(st), [a]);
    CheckingPlain(prog, one, [a]);
    assert one.scopes[..|st.scopes|] == st.scopes;
  }

  lemma HiddenBlock(st: State)
    requires ScopesOk(SHADOWED, st.scopes) && Lookup(st.scopes, "A") == Some(SchemaSymbol(A_HIDING)) && "A" in st.resolved
    ensures AfterBlock(SHADOWED, st, B_OF_A.items) == st
  {
    assert PrimitiveNamed("A").None?;
    LookupOutside(st.scopes, map[], "A");
    SchemaInIsDeclared(SHADOWED, Pushed(st).scopes, "A");
    Skipped(SHADOWED, Pushed(st), A_HIDING);
    OneField(SHADOWED, st, B_OF_A.items[0]);
  }

  lemma HiddenCycle()
    ensures HasCycle(SHADOWED)
  {
    TwoDeclared(A_HIDING, B_OF_A);
    assert "A"[0] != "B"[0] && PrimitiveNamed("A").None? && PrimitiveNamed("B").None?;
    var a, b := A_HIDING.items, B_OF_A.items;
    assert a[1..] == [a[1]] && [a[1]][1..] == [] && Refs([a[1]]) == {"B"} && Refs(a) == {"int", "B"};
    assert b[1..] == [] && Refs(b) == {"A"};
    assert Edge(SHADOWED, "A", "B") && Edge(SHADOWED, "B", "A");
    var path := ["A", "B", "A"];
    var two, one := path[..2], path[..1];
    assert two[..1] == one && Walk(SHADOWED, one);
    assert two[0] == "A" && two[1] == "B" && Walk(SHADOWED, two);
    assert Walk(SHADOWED, path);
  }

  /** A field that carries the name of a schema hides it: the circle between these two is reported as an
      unknown type, and as nothing else. */
  lemma HiddenCycleIsUnknownType()
    ensures HasCycle(SHADOWED) && Checked(SHADOWED).errors == [UnknownType]
  {
    assert "A"[0] != "B"[0];
    HiddenCycle();
    CheckedTwo(A_HIDING, B_OF_A);
    TwoDeclared(A_HIDING, B_OF_A);
    var st := Start(A_HIDING, B_OF_A);
    HidingBlock(Entered(st, "A"));
    Traversed(SHADOWED, st, A_HIDING);
    var next := State(st.scopes, ["A"], [], [UnknownType]);
    assert AfterSchema(SHADOWED, st, A_HIDING) == next;
    HiddenBlock(Entered(next, "B"));
    Traversed(SHADOWED, next, B_OF_A);
  }

  const OUTER: SchemaDecl := SchemaDecl("A", [Field("x", Named("bool"), []), Field("b", Named("B"), [])])
  const CONDITION: Property := Property("required_if", Condition("x", BoolLit(true)))
  const INNER: SchemaDecl := SchemaDecl("B", [Field("y", Named("int"), [CONDITION])])

  const Y_ALONE: Scope := map["y" := FieldSymbol(PrimitiveType(Int))]

  lemma ConditionAlone(scopes: seq<Scope>)
    ensures PropertiesErrors(scopes, PrimitiveType(Int), [CONDITION], 0) == ConditionErrors(scopes, "x", BoolLit(true))
  {
    assert [CONDITION][..0] == [];
    assert PropertyDef(PrimitiveType(Int), "required_if") == Some(Cond);
    assert PropertiesErrors(scopes, PrimitiveType(Int), [CONDITION], 1) == [];
  }

  lemma InnerBlock(prog: Program, st: State)
    requires ScopesOk(prog, st.scopes)
    ensures AfterBlock(prog, st, INNER.items)
         == Reported(st, ConditionErrors(st.scopes + [Y_ALONE], "x", BoolLit(true)))
  {
    var items, one := INNER.items, Half(st, "y", Int);
    InnerDefined(prog, st);
    assert one.scopes == st.scopes + [Y_ALONE];
    InnerChecked(prog, one);
    PoppedReport(st, one, ConditionErrors(one.scopes, "x", BoolLit(true)));
  }

  lemma InnerDefined(prog: Program, st: State)
    requires ScopesOk(prog, st.scopes)
    ensures AfterDefiningAll(prog, Pushed(st), INNER.items) == Half(st, "y", Int)
  {
    assert PrimitiveNamed("int") == Some(Int);
    HalfDefined(prog, st, INNER.items[0], Int);
    DefiningOne(prog, Pushed(st), INNER.items[0]);
  }

  lemma InnerChecked(prog: Program, one: State)
    requires ScopesOk(prog, one.scopes) && |one.scopes| >= 2 && "y" in Top(one.scopes)
    requires Top(one.scopes)["y"] == FieldSymbol(PrimitiveType(Int))
    ensures AfterCheckingAll(prog, one, INNER.items) == Reported(one, ConditionErrors(one.scopes, "x", BoolLit(true)))
  {
    CheckingOne(prog, one, INNER.items[0]);
    ConditionAlone(one.scopes);
  }

  lemma PoppedReport(st: State, one: State, more: seq<ErrorKind>)
    requires one == Half(st, "y", Int)
    ensures Popped(Reported(one, more)) == Reported(st, more)
  {
    assert one.scopes[..|st.scopes|] == st.scopes;
  }

  lemma OuterBlock(prog: Program, st: State)
    requires ScopesOk(prog, st.scopes) && Lookup(st.scopes, "B") == Some(SchemaSymbol(INNER))
    ensures var half := Half(st, "x", Bool);
            && ScopesOk(prog, half.scopes) && IsDeclared(prog, "B") && Lookup(half.scopes, "B") == Some(SchemaSymbol(INNER))
            && AfterBlock(prog, st, OUTER.items) == AfterSchema(prog, half, INNER).(scopes := st.scopes)
  {
    assert PrimitiveNamed("bool") == Some(Bool) && PrimitiveNamed("B").None? && "b"[0] != "x"[0] && "B"[0] != "x"[0];
    TwoFields(prog, st, OUTER.items[0], Bool, OUTER.items[1]);
    var half := Half(st, "x", Bool);
    LookupOutside(st.scopes, map["x" := FieldSymbol(PrimitiveType(Bool))], "B");
    SchemaInIsDeclared(prog, half.scopes, "B");
    assert AfterType(prog, half, Named("B")) == AfterSchema(prog, half, INNER);
  }

  /** Where a truth value `x` is in sight, the condition finds it. */
  lemma Captured(prog: Program, st: State)
    requires ScopesOk(prog, st.scopes) && IsDeclared(prog, "B") && Lookup(st.scopes, "B") == Some(SchemaSymbol(INNER))
    requires "B" !in st.resolved && "B" !in st.resolving
    requires Lookup(st.scopes, "x") == Some(FieldSymbol(PrimitiveType(Bool)))
    ensures AfterSchema(prog, st, INNER) == st.(resolved := st.resolved + ["B"])
  {
    assert "x"[0] != "y"[0];
    LookupOutside(st.scopes, Y_ALONE, "x");
    InnerBlock(prog, Entered(st, "B"));
    Traversed(prog, st, INNER);
  }

  lemma InsideOuter()
    ensures Checked([OUTER, INNER]).errors == []
  {
    assert "A"[0] != "B"[0];
    var prog := [OUTER, INNER];
    CheckedTwo(OUTER, INNER);
    TwoDeclared(OUTER, INNER);
    var st := Start(OUTER, INNER);
    var entered := Entered(st, "A");
    OuterBlock(prog, entered);
    LookupOutside(st.scopes, map["x" := FieldSymbol(PrimitiveType(Bool))], "x");
    Captured(prog, Half(entered, "x", Bool));
    Traversed(prog, st, OUTER);
    var next := State(st.scopes, ["B", "A"], [], []);
    assert AfterSchema(prog, st, OUTER) == next;
    Skipped(prog, next, INNER);
  }

  lemma OutsideOuter()
    ensures Checked([INNER, OUTER]).errors == [Undeclared]
  {
    assert "A"[0] != "B"[0] && "A"[0] != "x"[0] && "B"[0] != "x"[0] && "y"[0] != "x"[0];
    var prog := [INNER, OUTER];
    CheckedTwo(INNER, OUTER);
    TwoDeclared(INNER, OUTER);
    var st := Start(INNER, OUTER);
    LookupOutside(st.scopes, Y_ALONE, "x");
    assert Lookup(st.scopes, "x") == None;
    InnerBlock(prog, Entered(st, "B"));
    Traversed(prog, st, INNER);
    var next := State(st.scopes, ["B"], [], [Undeclared]);
    assert AfterSchema(prog, st, INNER) == next;
    OuterBlock(prog, Entered(next, "A"));
    Skipped(prog, Half(Entered(next, "A"), "x", Bool), INNER);
    Traversed(prog, next, OUTER);
  }

  /** A body is traversed inside the scopes of the schema that refers to it first, so a condition may
      find a field there. Whether the checker passes these two depends on their order. */
  lemma CaptureDependsOnTheOrder()
    ensures Checked([OUTER, INNER]).errors == [] && Checked([INNER, OUTER]).errors == [Undeclared]
  {
    InsideOuter();
    OutsideOuter();
  }
}
