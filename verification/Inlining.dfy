/** The graph along which the emitters inline schemas into each other. They look a type name up among
    the schemas before they ask whether it is a primitive's, the checker the other way round, so this
    graph can have cycles that the checker does not see. */
module Inlining {
  import opened Schema
  import opened Types
  import opened SchemaGraph

  /** `is_schema_name`: it does not ask whether the name is also a primitive's. */
  predicate IsSchemaName(prog: Program, n: string) {
    n != "unknown" && IsDeclared(prog, n)
  }

  /** The names that the emitters look up: the type of a field, or of the elements of an array. */
  function InlineRefs(items: seq<Item>): set<string> {
    if items == [] then {} else InlineItemRefs(items[0]) + InlineRefs(items[1..])
  }

  function InlineItemRefs(it: Item): set<string> {
    match it
    case Field(_, Named(n), _) => {n}
    case Field(_, ArrayOf(Named(n)), _) => {n}
    case Field(_, _, _) => {}
    case Section(_, inner) => InlineRefs(inner)
  }

  predicate InlineEdge(prog: Program, a: string, b: string) {
    var s := FindSchema(prog, a);
    s.Some? && b in InlineRefs(s.value.items) && IsSchemaName(prog, b)
  }

  predicate InlineWalk(prog: Program, path: seq<string>) {
    |path| >= 2 ==> InlineEdge(prog, path[|path| - 2], path[|path| - 1]) && InlineWalk(prog, path[..|path| - 1])
  }

  predicate IsInlineCycle(prog: Program, path: seq<string>) {
    |path| >= 2 && path[0] == path[|path| - 1] && InlineWalk(prog, path)
  }

  ghost predicate HasInlineCycle(prog: Program) {
    exists path :: IsInlineCycle(prog, path)
  }

  /** Along every edge that leaves the order it points back. */
  ghost predicate InlineClosed(prog: Program, order: seq<string>) {
    forall k, t :: 0 <= k < |order| && InlineEdge(prog, order[k], t) ==> t in order[..k]
  }

  /** A rank that falls along the edges: an order of all schemas in which every inlining points back. */
  ghost predicate InlineRanked(prog: Program, order: seq<string>) {
    && Distinct(order)
    && (forall n :: IsDeclared(prog, n) ==> n in order)
    && InlineClosed(prog, order)
  }

  lemma {:induction false} InlineLowersPosition(prog: Program, order: seq<string>, a: string, b: string)
    requires InlineRanked(prog, order) && InlineEdge(prog, a, b)
    ensures a in order && b in order && Position(order, b) < Position(order, a)
  {
    var k := Position(order, a);
    assert InlineEdge(prog, order[k], b);
    PositionIsFirst(order, b, k);
  }

  lemma {:induction false} InlineWalkLowersPosition(prog: Program, order: seq<string>, path: seq<string>)
    requires InlineRanked(prog, order) && InlineWalk(prog, path) && |path| >= 2
    ensures path[0] in order && path[|path| - 1] in order
    ensures Position(order, path[|path| - 1]) < Position(order, path[0])
    decreases |path|
  {
    var n := |path|;
    InlineLowersPosition(prog, order, path[n - 2], path[n - 1]);
    if n > 2 {
      InlineWalkLowersPosition(prog, order, path[..n - 1]);
    }
  }

  // ----- No cycle: an order exists -----

  lemma {:induction false} InlineWalkSuffix(prog: Program, path: seq<string>, i: nat)
    requires InlineWalk(prog, path) && i < |path|
    ensures InlineWalk(prog, path[i..])
    decreases |path|
  {
    if i < |path| - 1 {
      InlineWalkSuffix(prog, path[..|path| - 1], i);
      assert path[i..][..|path| - i - 1] == path[..|path| - 1][i..];
    }
  }

  lemma {:induction false} ReturnIsCycle(prog: Program, path: seq<string>, i: nat)
    requires InlineWalk(prog, path) && i < |path|
    requires InlineEdge(prog, path[|path| - 1], path[i])
    ensures HasInlineCycle(prog)
  {
    InlineWalkSuffix(prog, path, i);
    var cycle := path[i..] + [path[i]];
    assert cycle[..|cycle| - 1] == path[i..];
    assert IsInlineCycle(prog, cycle);
  }

  function DeclaredNames(prog: Program): set<string> {
    set i | 0 <= i < |prog| :: prog[i].name
  }

  /** How many schemas are not in a list. */
  ghost function Left(prog: Program, names: seq<string>): nat {
    |DeclaredNames(prog) - (set i | 0 <= i < |names| :: names[i])|
  }

  lemma LeftFalls(prog: Program, names: seq<string>, n: string)
    requires IsDeclared(prog, n) && n !in names
    ensures Left(prog, names + [n]) < Left(prog, names)
  {
    var i := FindSchemaIndex(prog, n);
    var longer := names + [n];
    var before, after := (set i | 0 <= i < |names| :: names[i]), (set i | 0 <= i < |longer| :: longer[i]);
    assert after == before + {n} by {
      assert longer[|names|] == n;
      assert forall i :: 0 <= i < |names| ==> longer[i] == names[i];
    }
    assert n in DeclaredNames(prog) - before;
    assert DeclaredNames(prog) - after == DeclaredNames(prog) - before - {n};
  }

  /** From a walk outside what is placed, on to a schema all of whose inlinings are placed. */
  lemma {:induction false} FindSink(prog: Program, placed: seq<string>, path: seq<string>) returns (n: string)
    requires !HasInlineCycle(prog) && path != [] && InlineWalk(prog, path)
    requires forall i :: 0 <= i < |path| ==> IsDeclared(prog, path[i]) && path[i] !in placed
    ensures IsDeclared(prog, n) && n !in placed
    ensures forall t :: InlineEdge(prog, n, t) ==> t in placed
    decreases Left(prog, path)
  {
    var last := path[|path| - 1];
    if t :| InlineEdge(prog, last, t) && t !in placed {
      if t in path {
        var i :| 0 <= i < |path| && path[i] == t;
        ReturnIsCycle(prog, path, i);
      }
      var longer := path + [t];
      assert longer[..|path|] == path;
      LeftFalls(prog, path, t);
      n := FindSink(prog, placed, longer);
    } else {
      n := last;
    }
  }

  lemma OrderGrows(prog: Program, placed: seq<string>, n: string)
    requires Distinct(placed) && InlineClosed(prog, placed) && n !in placed
    requires forall t :: InlineEdge(prog, n, t) ==> t in placed
    ensures Distinct(placed + [n]) && InlineClosed(prog, placed + [n])
  {
    var more := placed + [n];
    assert more[..|placed|] == placed;
    forall k, t | 0 <= k < |more| && InlineEdge(prog, more[k], t) ensures t in more[..k] {
      assert k < |placed| ==> more[..k] == placed[..k] && InlineEdge(prog, placed[k], t);
    }
  }

  lemma StillDeclared(prog: Program, placed: seq<string>, n: string)
    requires IsDeclared(prog, n) && forall i :: 0 <= i < |placed| ==> IsDeclared(prog, placed[i])
    ensures forall i :: 0 <= i < |placed + [n]| ==> IsDeclared(prog, (placed + [n])[i])
  {
  }

  lemma {:induction false} PlaceAll(prog: Program, placed: seq<string>) returns (order: seq<string>)
    requires !HasInlineCycle(prog) && Distinct(placed) && InlineClosed(prog, placed)
    requires forall i :: 0 <= i < |placed| ==> IsDeclared(prog, placed[i])
    ensures InlineRanked(prog, order)
    decreases Left(prog, placed)
  {
    if m :| IsDeclared(prog, m) && m !in placed {
      var n := FindSink(prog, placed, [m]);
      LeftFalls(prog, placed, n);
      OrderGrows(prog, placed, n);
      StillDeclared(prog, placed, n);
      order := PlaceAll(prog, placed + [n]);
    } else {
      order := placed;
    }
  }

  /** The exact condition for the unguarded recursion of the emitters to end: a rank that falls along
      their edges exists if and only if the edges have no cycle. */
  lemma RankExistsIffAcyclic(prog: Program)
    ensures (exists order :: InlineRanked(prog, order)) <==> !HasInlineCycle(prog)
  {
    if !HasInlineCycle(prog) {
      var order := PlaceAll(prog, []);
    }
    forall order, path | InlineRanked(prog, order) && IsInlineCycle(prog, path) ensures false {
      InlineWalkLowersPosition(prog, order, path);
    }
  }

  // ----- What the checker's order says about it -----

  lemma {:induction false} InlineRefsAreRefs(items: seq<Item>)
    ensures InlineRefs(items) <= Refs(items)
    decreases items, 1
  {
    if items != [] {
      InlineItemRefsAreRefs(items[0]);
      InlineRefsAreRefs(items[1..]);
    }
  }

  lemma {:induction false} InlineItemRefsAreRefs(it: Item)
    ensures InlineItemRefs(it) <= ItemRefs(it)
    decreases it, 0
  {
    match it
    case Field(_, Named(n), _) =>
    case Field(_, ArrayOf(Named(n)), _) => assert TypeRefs(ArrayOf(Named(n))) == TypeRefs(Named(n)) == {n};
    case Field(_, _, _) =>
    case Section(_, inner) => InlineRefsAreRefs(inner);
  }

  /** Where no schema is named like a primitive, the emitters' edges are among the checker's. */
  lemma InlineEdgeIsEdge(prog: Program, a: string, b: string)
    requires InlineEdge(prog, a, b) && PrimitiveNamed(b).None?
    ensures Edge(prog, a, b)
  {
    InlineRefsAreRefs(FindSchema(prog, a).value.items);
  }

  lemma {:induction false} InlineWalkIsWalk(prog: Program, path: seq<string>)
    requires InlineWalk(prog, path) && forall i :: 0 <= i < |path| ==> PrimitiveNamed(path[i]).None?
    ensures Walk(prog, path)
    decreases |path|
  {
    if |path| >= 2 {
      InlineEdgeIsEdge(prog, path[|path| - 2], path[|path| - 1]);
      InlineWalkIsWalk(prog, path[..|path| - 1]);
    }
  }

  /** In a program that the checker ranks, every cycle of the emitters passes through a schema that is
      named like a primitive. */
  lemma CyclesPassThroughPrimitives(prog: Program, order: seq<string>, path: seq<string>)
    requires Ranked(prog, order) && IsInlineCycle(prog, path)
    ensures exists i :: 0 <= i < |path| && PrimitiveNamed(path[i]).Some?
  {
    if forall i :: 0 <= i < |path| ==> PrimitiveNamed(path[i]).None? {
      InlineWalkIsWalk(prog, path);
      WalkLowersPosition(prog, order, path);
    }
  }

  /** Without such a schema the checker's own order serves the emitters. */
  lemma CheckerOrderServes(prog: Program, order: seq<string>)
    requires Ranked(prog, order) && forall n :: IsDeclared(prog, n) ==> PrimitiveNamed(n).None?
    ensures InlineRanked(prog, order)
  {
    forall k, t | 0 <= k < |order| && InlineEdge(prog, order[k], t) ensures t in order[..k] {
      InlineEdgeIsEdge(prog, order[k], t);
    }
  }

  // ----- Two programs with a schema named like a primitive -----

  const SELF_NAMED: Program := [SchemaDecl("int", [Field("x", Named("int"), [])])]

  /** `schema int { x: int }` meets every demand of the checker, which takes the field for a primitive,
      while the emitters would inline it into itself: no rank makes that end. */
  lemma PrimitiveNameEscapesTheChecker(order: seq<string>)
    ensures ProgramAccepted(SELF_NAMED) && Ranked(SELF_NAMED, ["int"]) && NoShadowing(SELF_NAMED)
    ensures HasInlineCycle(SELF_NAMED) && !InlineRanked(SELF_NAMED, order)
  {
    var items := SELF_NAMED[0].items;
    assert FindSchema(SELF_NAMED, "int") == Some(SELF_NAMED[0]);
    assert ItemAccepted(SELF_NAMED, items[0]);
    assert PrimitiveNamed("int").Some?;
    assert SELF_NAMED[1..] == [] && FindSchema([], "x") == None;
    assert !IsDeclared(SELF_NAMED, "x");
    forall n | IsDeclared(SELF_NAMED, n) ensures n in ["int"] {
      var i := FindSchemaIndex(SELF_NAMED, n);
    }
    assert items[1..] == [] && InlineItemRefs(items[0]) == {"int"} && InlineRefs(items) == {"int"};
    assert InlineEdge(SELF_NAMED, "int", "int");
    var cycle := ["int", "int"];
    assert cycle[..1] == ["int"] && InlineWalk(SELF_NAMED, ["int"]);
    assert IsInlineCycle(SELF_NAMED, cycle);
    RankExistsIffAcyclic(SELF_NAMED);
  }

  const HARMLESS: Program :=
    [SchemaDecl("int", [Field("s", Named("string"), [])]), SchemaDecl("A", [Field("x", Named("int"), [])])]

  /** The name alone does no harm to the recursion: only a cycle does. */
  lemma PrimitiveNameMayBeRanked()
    ensures InlineRanked(HARMLESS, ["int", "A"])
  {
    var a, b := HARMLESS[0], HARMLESS[1];
    assert HARMLESS[1..] == [b] && [b][1..] == [];
    assert "int"[0] != "A"[0] && "string"[0] != "A"[0] && "string"[0] != "int"[0];
    assert FindSchema(HARMLESS, "int") == Some(a);
    assert FindSchema([b], "A") == Some(b);
    assert FindSchema(HARMLESS, "A") == FindSchema([b], "A");
    assert FindSchema([], "string") == None;
    assert FindSchema([b], "string") == None;
    assert FindSchema(HARMLESS, "string") == None;
    forall n | IsDeclared(HARMLESS, n) ensures n in ["int", "A"] {
      var i := FindSchemaIndex(HARMLESS, n);
    }
    assert a.items[1..] == [] && InlineItemRefs(a.items[0]) == {"string"} && InlineRefs(a.items) == {"string"};
    assert b.items[1..] == [] && InlineItemRefs(b.items[0]) == {"int"} && InlineRefs(b.items) == {"int"};
    var order := ["int", "A"];
    assert order[..1] == ["int"] && order[..0] == [];
  }
}
