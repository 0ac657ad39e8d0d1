/** The emitters inline schemas into each other without a guard. This module gives the walk
    that all of them share, over a ranking that makes it end. */
module Expansion {
  import opened Schema
  import opened SchemaGraph
  import opened Inlining

  /** A program with an order of its schemas. */
  datatype Unit = Unit(prog: Program, order: seq<string>)

  /** What the emitters rely on: acceptance, and that inlining ends. The order exists if and only if
      the emitters' graph has no cycle. */
  ghost predicate Ready(u: Unit) {
    ProgramAccepted(u.prog) && InlineRanked(u.prog, u.order)
  }

  function Body(u: Unit, n: string): seq<Item>
    requires IsDeclared(u.prog, n)
  {
    FindSchema(u.prog, n).value.items
  }

  function Rank(u: Unit, n: string): nat {
    if n in u.order then Position(u.order, n) else 0
  }

  /** Every schema that is inlined into the items ranks below `r`. */
  ghost predicate Below(u: Unit, items: seq<Item>, r: nat) {
    forall n :: n in InlineRefs(items) && IsSchemaName(u.prog, n) ==> Rank(u, n) < r
  }

  /** How the emitters see a field. */
  datatype Shape = Struct(schema: string) | StructArray(schema: string) | Scalar

  function ShapeOf(u: Unit, t: TypeExpr): (r: Shape)
    ensures r.Struct? ==> t == Named(r.schema) && IsDeclared(u.prog, r.schema)
    ensures r.StructArray? ==> t == ArrayOf(Named(r.schema)) && IsDeclared(u.prog, r.schema)
  {
    match t
    case Named(n) => if IsSchemaName(u.prog, n) then Struct(n) else Scalar
    case ArrayOf(e) => if e.Named? && IsSchemaName(u.prog, e.name) then StructArray(e.name) else Scalar
    case EnumOf(_) => Scalar
  }

  lemma BodyIsBelow(u: Unit, n: string)
    requires Ready(u) && IsDeclared(u.prog, n)
    ensures Below(u, Body(u, n), Rank(u, n))
    ensures ItemsAccepted(u.prog, Body(u, n))
  {
    forall m | m in InlineRefs(Body(u, n)) && IsSchemaName(u.prog, m) ensures Rank(u, m) < Rank(u, n) {
      InlineLowersPosition(u.prog, u.order, n, m);
    }
    var i := FindSchemaIndex(u.prog, n);
  }

  lemma BelowTail(u: Unit, items: seq<Item>, r: nat)
    requires items != [] && Below(u, items, r)
    ensures Below(u, items[1..], r)
    ensures items[0].Section? ==> Below(u, items[0].items, r)
    ensures items[0].Field? ==>
              var s := ShapeOf(u, items[0].typ);
              !s.Scalar? ==> Rank(u, s.schema) < r
  {
    assert InlineItemRefs(items[0]) <= InlineRefs(items);
    if items[0].Field? {
      var s := ShapeOf(u, items[0].typ);
      if !s.Scalar? {
        assert s.schema in InlineItemRefs(items[0]);
      }
    }
  }

  lemma {:induction false} BelowFrom(u: Unit, items: seq<Item>, r: nat, i: nat)
    requires i <= |items| && Below(u, items, r)
    ensures Below(u, items[i..], r)
    decreases i
  {
    if i > 0 {
      BelowFrom(u, items, r, i - 1);
      assert items[i - 1..][1..] == items[i..];
      BelowTail(u, items[i - 1..], r);
    }
  }

  lemma AcceptedTail(prog: Program, items: seq<Item>)
    requires items != [] && ItemsAccepted(prog, items)
    ensures ItemsAccepted(prog, items[1..]) && ItemAccepted(prog, items[0])
    ensures forall i :: 0 <= i < |items[1..]| ==> items[1..][i].name != items[0].name
  {
    assert forall i :: 0 <= i < |items[1..]| ==> items[1..][i] == items[i + 1];
  }

  // ----- The leaves of the expanded tree -----

  /** A leaf: the names that lead to it, its declaration, and the name its enum constants carry. */
  datatype Leaf = Leaf(path: seq<string>, field: Item, parent: string)

  /** The leaves below a block, in declaration order. Arrays of schemas are leaves. */
  function Leaves(u: Unit, items: seq<Item>, r: nat, path: seq<string>, parent: string): seq<Leaf>
    requires Ready(u) && Below(u, items, r)
    decreases r, items
  {
    if items == [] then []
    else
      BelowTail(u, items, r);
      ItemLeaves(u, items, r, path, parent) + Leaves(u, items[1..], r, path, parent)
  }

  function ItemLeaves(u: Unit, items: seq<Item>, r: nat, path: seq<string>, parent: string): seq<Leaf>
    requires Ready(u) && Below(u, items, r) && items != []
    decreases r, items, 0
  {
    BelowTail(u, items, r);
    var it := items[0];
    match it
    case Section(n, inner) => Leaves(u, inner, r, path + [n], n)
    case Field(n, t, _) =>
      var s := ShapeOf(u, t);
      if s.Struct? then
        BodyIsBelow(u, s.schema);
        Leaves(u, Body(u, s.schema), Rank(u, s.schema), path + [n], s.schema)
      else [Leaf(path + [n], it, parent)]
  }

  predicate StartsWith(path: seq<string>, prefix: seq<string>) {
    |prefix| <= |path| && path[..|prefix|] == prefix
  }

  lemma {:induction false} LeavesExtendPath(u: Unit, items: seq<Item>, r: nat, path: seq<string>, parent: string)
    requires Ready(u) && Below(u, items, r)
    ensures forall l :: l in Leaves(u, items, r, path, parent) ==>
              |l.path| > |path| && StartsWith(l.path, path) &&
              exists i :: 0 <= i < |items| && items[i].name == l.path[|path|]
    decreases r, items
  {
    if items != [] {
      BelowTail(u, items, r);
      LeavesExtendPath(u, items[1..], r, path, parent);
      ItemLeavesExtendPath(u, items, r, path, parent);
      forall l | l in Leaves(u, items, r, path, parent)
        ensures |l.path| > |path| && StartsWith(l.path, path)
        ensures exists i :: 0 <= i < |items| && items[i].name == l.path[|path|]
      {
        if l in ItemLeaves(u, items, r, path, parent) {
          assert items[0].name == l.path[|path|];
        } else {
          assert l in Leaves(u, items[1..], r, path, parent);
          var i :| 0 <= i < |items[1..]| && items[1..][i].name == l.path[|path|];
          assert items[i + 1].name == l.path[|path|];
        }
      }
    }
  }

  lemma {:induction false} ItemLeavesExtendPath(u: Unit, items: seq<Item>, r: nat, path: seq<string>, parent: string)
    requires Ready(u) && Below(u, items, r) && items != []
    ensures forall l :: l in ItemLeaves(u, items, r, path, parent) ==>
              |l.path| > |path| && StartsWith(l.path, path) && l.path[|path|] == items[0].name
    decreases r, items, 0
  {
    BelowTail(u, items, r);
    var it := items[0];
    var deeper := path + [it.name];
    if it.Section? {
      LeavesExtendPath(u, it.items, r, deeper, it.name);
    } else {
      var s := ShapeOf(u, it.typ);
      if s.Struct? {
        BodyIsBelow(u, s.schema);
        LeavesExtendPath(u, Body(u, s.schema), Rank(u, s.schema), deeper, s.schema);
      }
    }
    forall l | l in ItemLeaves(u, items, r, path, parent)
      ensures |l.path| > |path| && StartsWith(l.path, path) && l.path[|path|] == items[0].name
    {
      assert StartsWith(l.path, deeper);
      assert l.path[..|deeper|][|path|] == it.name;
      assert l.path[..|path|] == l.path[..|deeper|][..|path|];
    }
  }

  predicate DistinctPaths(ls: seq<Leaf>) {
    forall i, j :: 0 <= i < j < |ls| ==> ls[i].path != ls[j].path
  }

  /** No path is met twice. */
  lemma {:induction false} LeavesAreDistinct(u: Unit, items: seq<Item>, r: nat, path: seq<string>, parent: string)
    requires Ready(u) && Below(u, items, r) && ItemsAccepted(u.prog, items)
    ensures DistinctPaths(Leaves(u, items, r, path, parent))
    decreases r, items
  {
    if items != [] {
      BelowTail(u, items, r);
      AcceptedTail(u.prog, items);
      var own, rest := ItemLeaves(u, items, r, path, parent), Leaves(u, items[1..], r, path, parent);
      LeavesAreDistinct(u, items[1..], r, path, parent);
      LeavesExtendPath(u, items[1..], r, path, parent);
      ItemLeavesExtendPath(u, items, r, path, parent);
      var it := items[0];
      if it.Section? {
        LeavesAreDistinct(u, it.items, r, path + [it.name], it.name);
      } else {
        var s := ShapeOf(u, it.typ);
        if s.Struct? {
          BodyIsBelow(u, s.schema);
          LeavesAreDistinct(u, Body(u, s.schema), Rank(u, s.schema), path + [it.name], s.schema);
        }
      }
      assert DistinctPaths(own);
      forall i, j | 0 <= i < |own| && 0 <= j < |rest| ensures own[i].path != rest[j].path {
        assert own[i] in own && rest[j] in rest;
      }
    }
  }
}
