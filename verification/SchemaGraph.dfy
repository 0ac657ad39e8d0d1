/** The reference graph between schemas: through fields, array elements and fields of nested
    sections. */
module SchemaGraph {
  import opened Schema
  import opened Types
  import opened Properties

  function TypeRefs(t: TypeExpr): set<string> {
    match t
    case Named(n) => {n}
    case ArrayOf(e) => TypeRefs(e)
    case EnumOf(_) => {}
  }

  function ItemRefs(it: Item): set<string> {
    match it
    case Field(_, t, _) => TypeRefs(t)
    case Section(_, items) => Refs(items)
  }

  function Refs(items: seq<Item>): set<string> {
    if items == [] then {} else ItemRefs(items[0]) + Refs(items[1..])
  }

  lemma {:induction false} RefsAt(items: seq<Item>, i: nat)
    requires i < |items|
    ensures ItemRefs(items[i]) <= Refs(items)
    decreases |items|
  {
    if i > 0 {
      RefsAt(items[1..], i - 1);
    }
  }

  lemma {:induction false} RefsFrom(items: seq<Item>, n: string) returns (i: nat)
    requires n in Refs(items)
    ensures i < |items| && n in ItemRefs(items[i])
    decreases |items|
  {
    if n in ItemRefs(items[0]) {
      i := 0;
    } else {
      i := RefsFrom(items[1..], n);
      i := i + 1;
    }
  }

  /** A name that the checker follows: primitives take precedence over schemas. */
  predicate IsTarget(prog: Program, n: string) {
    IsDeclared(prog, n) && PrimitiveNamed(n).None?
  }

  predicate Edge(prog: Program, a: string, b: string) {
    var s := FindSchema(prog, a);
    s.Some? && b in Refs(s.value.items) && IsTarget(prog, b)
  }

  predicate Walk(prog: Program, path: seq<string>) {
    |path| >= 2 ==> Edge(prog, path[|path| - 2], path[|path| - 1]) && Walk(prog, path[..|path| - 1])
  }

  ghost predicate HasCycle(prog: Program) {
    exists path: seq<string> :: |path| >= 2 && path[0] == path[|path| - 1] && Walk(prog, path)
  }

  /** Every edge leads to an earlier name. */
  ghost predicate Closed(prog: Program, order: seq<string>) {
    forall k, t :: 0 <= k < |order| && Edge(prog, order[k], t) ==> t in order[..k]
  }

  /** An order of all schemas in which every reference points back. */
  ghost predicate Ranked(prog: Program, order: seq<string>) {
    && Distinct(order)
    && (forall n :: IsDeclared(prog, n) ==> n in order)
    && Closed(prog, order)
  }

  function Position(order: seq<string>, n: string): (k: nat)
    requires n in order
    ensures k < |order| && order[k] == n
  {
    if order[0] == n then 0 else 1 + Position(order[1..], n)
  }

  lemma {:induction false} EdgeLowersPosition(prog: Program, order: seq<string>, a: string, b: string)
    requires Ranked(prog, order) && Edge(prog, a, b)
    ensures a in order && b in order && Position(order, b) < Position(order, a)
  {
    var k := Position(order, a);
    assert Edge(prog, order[k], b);
    PositionIsFirst(order, b, k);
  }

  lemma {:induction false} PositionIsFirst(order: seq<string>, n: string, k: nat)
    requires k <= |order| && n in order[..k]
    ensures n in order && Position(order, n) < k
    decreases |order|
  {
    var j :| 0 <= j < k && order[..k][j] == n;
    assert order[j] == n;
    if order[0] != n {
      assert order[1..][..k - 1] == order[..k][1..] && order[..k][1..][j - 1] == n;
      PositionIsFirst(order[1..], n, k - 1);
    }
  }

  lemma {:induction false} WalkLowersPosition(prog: Program, order: seq<string>, path: seq<string>)
    requires Ranked(prog, order) && Walk(prog, path) && |path| >= 2
    ensures path[0] in order && path[|path| - 1] in order
    ensures Position(order, path[|path| - 1]) < Position(order, path[0])
    decreases |path|
  {
    var n := |path|;
    EdgeLowersPosition(prog, order, path[n - 2], path[n - 1]);
    if n > 2 {
      WalkLowersPosition(prog, order, path[..n - 1]);
    }
  }

  /** A ranking rules out cycles. */
  lemma {:induction false} RankedHasNoCycle(prog: Program, order: seq<string>)
    requires Ranked(prog, order)
    ensures !HasCycle(prog)
  {
    forall path: seq<string> | |path| >= 2 && Walk(prog, path)
      ensures path[0] != path[|path| - 1]
    {
      WalkLowersPosition(prog, order, path);
    }
  }

  // ----- What acceptance promises about declarations -----

  /** In each block the names are distinct, the types known and the properties accepted. */
  predicate ItemsAccepted(prog: Program, items: seq<Item>)
    decreases items
  {
    && (forall i, j :: 0 <= i < j < |items| ==> items[i].name != items[j].name)
    && (forall i :: 0 <= i < |items| ==> ItemAccepted(prog, items[i]))
  }

  predicate ItemAccepted(prog: Program, it: Item)
    decreases it
  {
    match it
    case Field(_, t, props) => TypeKnown(prog, t) && PropertiesAccepted(TypeOf(prog, t), props)
    case Section(_, inner) => ItemsAccepted(prog, inner)
  }

  predicate ProgramAccepted(prog: Program) {
    DistinctNames(prog) && forall i :: 0 <= i < |prog| ==> ItemsAccepted(prog, prog[i].items)
  }

  /** The names that a block declares, at any depth. */
  function BlockNames(items: seq<Item>): set<string> {
    if items == [] then {} else ItemNames(items[0]) + BlockNames(items[1..])
  }

  function ItemNames(it: Item): set<string> {
    match it
    case Field(n, _, _) => {n}
    case Section(n, inner) => {n} + BlockNames(inner)
  }

  predicate IsItemName(prog: Program, n: string) {
    exists i :: 0 <= i < |prog| && n in BlockNames(prog[i].items)
  }

  ghost predicate IsReferenced(prog: Program, n: string) {
    exists a :: Edge(prog, a, n)
  }

  /** No field or section carries the name of a schema that some type refers to. */
  ghost predicate NoShadowing(prog: Program) {
    forall n :: IsItemName(prog, n) ==> !IsReferenced(prog, n)
  }
}
