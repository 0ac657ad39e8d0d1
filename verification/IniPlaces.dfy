/** The converse of reaching every leaf: what the INI handler writes is a leaf of the expanded tree, or a
    leaf of the last element of an array of schemas. The INI walk adds only such paths to the walks of
    the defaults, the environment and the command line. */
module IniPlaces {
  import opened Schema
  import opened Types
  import opened Expansion
  import opened Runtime
  import opened IniEmitter
  import opened Dispatch
  import opened ArrayRuns

  /** A trail of leaves: each but the last is an array of schemas, and the next one is a leaf of the
      schema of its elements. The place is that of the last, in the last element of each array. */
  ghost predicate Leads(u: Unit, items: seq<Item>, r: nat, path: seq<string>, parent: string, m: Mem, p: Place,
                        trail: seq<Leaf>, place: Place)
    requires Ready(u) && Below(u, items, r)
    decreases |trail|
  {
    trail != [] && trail[0] in Leaves(u, items, r, path, parent) && |trail[0].path| > |path| &&
    var q := p + Names(trail[0].path[|path|..]);
    if |trail| == 1 then place == q
    else
      IsArrayLeaf(u, trail[0]) && Count(m, q) > 0 &&
      var sn := ElementSchema(u, trail[0]);
      (BodyIsBelow(u, sn);
       Leads(u, Body(u, sn), Rank(u, sn), [], sn, m, q + [Elem(Count(m, q) - 1)], trail[1..], place))
  }

  /** The last leaf of the trail is what the target says. */
  ghost predicate Ends(u: Unit, trail: seq<Leaf>, t: Target) {
    trail != [] &&
    var l := trail[|trail| - 1];
    l.field.Field? &&
    (t.FieldAt? ==> IniConversion(u, l.field, l.parent) == Some(t.conv)) &&
    (t.NewElement? ==> IsArrayLeaf(u, l) && ElementSchema(u, l) == t.schema)
  }

  ghost predicate LeadsTo(u: Unit, items: seq<Item>, r: nat, path: seq<string>, parent: string, m: Mem, p: Place,
                          trail: seq<Leaf>, t: Target)
    requires Ready(u) && Below(u, items, r)
  {
    (t.FieldAt? || t.NewElement?) && Ends(u, trail, t) && Leads(u, items, r, path, parent, m, p, trail, t.place)
  }

  ghost predicate NoPrimitiveSchemas(prog: Program) {
    forall n :: IsDeclared(prog, n) ==> PrimitiveNamed(n).None?
  }

  lemma LeadsFromTail(u: Unit, items: seq<Item>, r: nat, path: seq<string>, parent: string, m: Mem, p: Place,
                      trail: seq<Leaf>, place: Place)
    requires Ready(u) && Below(u, items, r) && items != [] && Below(u, items[1..], r)
    requires Leads(u, items[1..], r, path, parent, m, p, trail, place)
    ensures Leads(u, items, r, path, parent, m, p, trail, place)
  {
    assert trail[0] in ItemLeaves(u, items, r, path, parent) + Leaves(u, items[1..], r, path, parent);
  }

  /** A trail below a section or an inlined schema is a trail from outside. */
  lemma LeadsFromInside(u: Unit, items: seq<Item>, r: nat, path: seq<string>, parent: string, m: Mem, p: Place,
                        inner: seq<Item>, r': nat, parent': string, trail: seq<Leaf>, place: Place)
    requires Ready(u) && Below(u, items, r) && items != [] && Below(u, inner, r')
    requires ItemLeaves(u, items, r, path, parent) == Leaves(u, inner, r', path + [items[0].name], parent')
    requires Leads(u, inner, r', path + [items[0].name], parent', m, p + [Dot(items[0].name)], trail, place)
    ensures Leads(u, items, r, path, parent, m, p, trail, place)
  {
    var l, n := trail[0], items[0].name;
    assert l in ItemLeaves(u, items, r, path, parent) + Leaves(u, items[1..], r, path, parent) by {
      BelowTail(u, items, r);
    }
    ItemLeavesExtendPath(u, items, r, path, parent);
    NamesCons(l.path, |path|);
    assert p + [Dot(n)] + Names(l.path[|path| + 1..]) == p + Names(l.path[|path|..]);
  }

  /** Whatever the walk addresses has a trail. */
  lemma {:induction false} WalkHasTrail(u: Unit, items: seq<Item>, r: nat, path: seq<string>, parent: string,
                                        parts: seq<string>, e: Event, m: Mem, p: Place) returns (trail: seq<Leaf>)
    requires Ready(u) && Below(u, items, r) && NoPrimitiveSchemas(u.prog)
    requires (var t := WalkPath(u, items, r, parts, e, m, p, parent); t.FieldAt? || t.NewElement?)
    ensures LeadsTo(u, items, r, path, parent, m, p, trail, WalkPath(u, items, r, parts, e, m, p, parent))
    decreases r, items, 2
  {
    BelowTail(u, items, r);
    var t := WalkPath(u, items, r, parts, e, m, p, parent);
    if parts == [] {
      FieldNamedPlace(u, items, e.key, p, parent);
      trail := KeyHasTrail(u, items, r, path, parent, e.key, m, p);
    } else if items[0].name == parts[0] {
      assert t == WalkInto(u, items, r, parts, e, m, p) == WalkItem(u, items, r, parts, e, m, p);
      trail := WalkItemHasTrail(u, items, r, path, parent, parts, e, m, p);
    } else {
      assert t == WalkInto(u, items, r, parts, e, m, p) == WalkInto(u, items[1..], r, parts, e, m, p)
          == WalkPath(u, items[1..], r, parts, e, m, p, parent);
      trail := WalkHasTrail(u, items[1..], r, path, parent, parts, e, m, p);
      LeadsFromTail(u, items, r, path, parent, m, p, trail, t.place);
    }
  }

  lemma {:induction false} KeyHasTrail(u: Unit, items: seq<Item>, r: nat, path: seq<string>, parent: string,
                                       key: string, m: Mem, p: Place) returns (trail: seq<Leaf>)
    requires Ready(u) && Below(u, items, r) && NoPrimitiveSchemas(u.prog)
    requires FieldNamed(u, items, key, p, parent).FieldAt?
    ensures LeadsTo(u, items, r, path, parent, m, p, trail, FieldNamed(u, items, key, p, parent))
    decreases |items|
  {
    BelowTail(u, items, r);
    var it, t := items[0], FieldNamed(u, items, key, p, parent);
    if it.Field? && it.name == key {
      var l := Leaf(path + [key], it, parent);
      assert ItemLeaves(u, items, r, path, parent) == [l];
      assert l in [l] + Leaves(u, items[1..], r, path, parent);
      assert l.path[|path|..] == [key] && Names([key]) == [Dot(key)];
      trail := [l];
    } else {
      trail := KeyHasTrail(u, items[1..], r, path, parent, key, m, p);
      LeadsFromTail(u, items, r, path, parent, m, p, trail, t.place);
    }
  }

  lemma {:induction false} WalkItemHasTrail(u: Unit, items: seq<Item>, r: nat, path: seq<string>, parent: string,
                                            parts: seq<string>, e: Event, m: Mem, p: Place) returns (trail: seq<Leaf>)
    requires Ready(u) && Below(u, items, r) && NoPrimitiveSchemas(u.prog) && items != [] && parts != []
    requires (var t := WalkItem(u, items, r, parts, e, m, p); t.FieldAt? || t.NewElement?)
    ensures LeadsTo(u, items, r, path, parent, m, p, trail, WalkItem(u, items, r, parts, e, m, p))
    decreases r, items, 1
  {
    BelowTail(u, items, r);
    var it, t := items[0], WalkItem(u, items, r, parts, e, m, p);
    var path', p' := path + [it.name], p + [Dot(it.name)];
    if it.Section? {
      trail := WalkHasTrail(u, it.items, r, path', it.name, parts[1..], e, m, p');
      LeadsFromInside(u, items, r, path, parent, m, p, it.items, r, it.name, trail, t.place);
    } else {
      var s := ShapeOf(u, it.typ);
      BodyIsBelow(u, s.schema);
      if s.Struct? {
        trail := WalkHasTrail(u, Body(u, s.schema), Rank(u, s.schema), path', s.schema, parts[1..], e, m, p');
        LeadsFromInside(u, items, r, path, parent, m, p, Body(u, s.schema), Rank(u, s.schema), s.schema, trail, t.place);
      } else {
        trail := ArrayHasTrail(u, items, r, path, parent, parts, e, m, p);
      }
    }
  }

  lemma {:induction false} ArrayHasTrail(u: Unit, items: seq<Item>, r: nat, path: seq<string>, parent: string,
                                         parts: seq<string>, e: Event, m: Mem, p: Place) returns (trail: seq<Leaf>)
    requires Ready(u) && Below(u, items, r) && NoPrimitiveSchemas(u.prog) && items != [] && parts != []
    requires items[0].Field? && ShapeOf(u, items[0].typ).StructArray?
    requires (var t := WalkItem(u, items, r, parts, e, m, p); t.FieldAt? || t.NewElement?)
    ensures LeadsTo(u, items, r, path, parent, m, p, trail, WalkItem(u, items, r, parts, e, m, p))
    decreases r, items, 0
  {
    BelowTail(u, items, r);
    var it, t := items[0], WalkItem(u, items, r, parts, e, m, p);
    var a, p' := Leaf(path + [it.name], it, parent), p + [Dot(it.name)];
    assert a in [a] + Leaves(u, items[1..], r, path, parent);
    assert a.path[|path|..] == [it.name] && Names([it.name]) == [Dot(it.name)];
    if e.Header? {
      trail := [a];
    } else {
      var sn := ElementSchema(u, a);
      BodyIsBelow(u, sn);
      var q := p' + [Elem(Count(m, p') - 1)];
      var deeper := WalkHasTrail(u, Body(u, sn), Rank(u, sn), [], sn, parts[1..], e, m, q);
      trail := [a] + deeper;
      assert trail[1..] == deeper;
    }
  }

  /** Every write of the generated handler, for any section text, key, value and memory: it goes to a
      leaf of the root schema with that leaf's conversion, or through arrays of schemas to such a leaf
      of their last elements; and a header appends to an array of schemas that is reached so. */
  lemma HandlerWritesLeaves(u: Unit, root: string, section: string, e: Event, m: Mem) returns (trail: seq<Leaf>)
    requires Ready(u) && IsDeclared(u.prog, root) && NoPrimitiveSchemas(u.prog)
    requires (var t := IniWalk(u, root, section, e, m); t.FieldAt? || t.NewElement?)
    ensures (BodyIsBelow(u, root);
             LeadsTo(u, Body(u, root), Rank(u, root), [], root, m, [], trail, IniWalk(u, root, section, e, m)))
  {
    BodyIsBelow(u, root);
    trail := WalkHasTrail(u, Body(u, root), Rank(u, root), [], root, HandlerParts(section)[1..], e, m, []);
  }
}
