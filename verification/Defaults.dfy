/** The emitted default initialisers and environment overrides. */
module Defaults {
  import opened Schema
  import opened Expansion
  import opened Runtime

  function FindProperty(props: seq<Property>, name: string): Option<Property> {
    if props == [] then None
    else if props[0].name == name then Some(props[0])
    else FindProperty(props[1..], name)
  }

  /** `emit_default_initialization` for one field. */
  function DefaultValue(it: Item, parent: string): Option<InitialValue>
    requires it.Field?
  {
    var d := FindProperty(it.props, "default");
    if d.Some? then
      if !d.value.value.Plain? then None
      else
        match d.value.value.lit
        case StringLit(t) => if it.typ == Named("ipv4") then Some(ParseIpv4(t)) else Some(SetTo(TextOf(t)))
        case IntLit(v) => Some(SetTo(Integer(v)))
        case FloatLit(v) => Some(SetTo(Number(v)))
        case BoolLit(b) => Some(SetTo(Truth(b)))
        case NameLit(n) => Some(SetTo(EnumConstant(parent, it.name, n)))
    else if it.typ == Named("int") || it.typ == Named("float") then Some(SetTo(Integer(0)))
    else if it.typ == Named("bool") then Some(SetTo(Truth(false)))
    else None
  }

  function DefaultInits(u: Unit, items: seq<Item>, r: nat, path: seq<string>, parent: string): seq<Init>
    requires Ready(u) && Below(u, items, r)
    decreases r, items, 1
  {
    if items == [] then []
    else
      BelowTail(u, items, r);
      DefaultItem(u, items, r, path, parent) + DefaultInits(u, items[1..], r, path, parent)
  }

  function DefaultItem(u: Unit, items: seq<Item>, r: nat, path: seq<string>, parent: string): seq<Init>
    requires Ready(u) && Below(u, items, r) && items != []
    decreases r, items, 0
  {
    BelowTail(u, items, r);
    var it := items[0];
    match it
    case Section(n, inner) => DefaultInits(u, inner, r, path + [n], n)
    case Field(n, t, _) =>
      var s := ShapeOf(u, t);
      if s.Struct? then
        BodyIsBelow(u, s.schema);
        DefaultInits(u, Body(u, s.schema), Rank(u, s.schema), path + [n], s.schema)
      else
        var d := DefaultValue(it, parent);
        if d.Some? then [Init(path + [n], d.value)] else []
  }

  /** The initialisers of one struct of a schema. */
  function SchemaInits(u: Unit, sn: string): seq<Init>
    requires Ready(u) && IsDeclared(u.prog, sn)
  {
    BodyIsBelow(u, sn);
    DefaultInits(u, Body(u, sn), Rank(u, sn), [], sn)
  }

  /** The emitter, a loop over the items that descends into sections and schemas. */
  method EmitDefaultInitialization(u: Unit, items: seq<Item>, r: nat, path: seq<string>, parent: string)
    returns (out: seq<Init>)
    requires Ready(u) && Below(u, items, r)
    ensures out == DefaultInits(u, items, r, path, parent)
    decreases r, items, 1
  {
    out := [];
    var i := 0;
    assert items[0..] == items;
    while i < |items|
      invariant 0 <= i <= |items| && Below(u, items[i..], r)
      invariant out + DefaultInits(u, items[i..], r, path, parent) == DefaultInits(u, items, r, path, parent)
    {
      assert items[i..][0] == items[i] && items[i..][1..] == items[i + 1..];
      BelowTail(u, items[i..], r);
      var code := EmitDefaultItem(u, items[i..], r, path, parent, items);
      out := out + code;
      i := i + 1;
    }
  }

  method EmitDefaultItem(u: Unit, items: seq<Item>, r: nat, path: seq<string>, parent: string, ghost all: seq<Item>)
    returns (out: seq<Init>)
    requires Ready(u) && Below(u, items, r) && items != [] && items[0] in all
    ensures out == DefaultItem(u, items, r, path, parent)
    decreases r, all, 0
  {
    BelowTail(u, items, r);
    var it := items[0];
    if it.Section? {
      out := EmitDefaultInitialization(u, it.items, r, path + [it.name], it.name);
      return;
    }
    var s := ShapeOf(u, it.typ);
    if s.Struct? {
      BodyIsBelow(u, s.schema);
      out := EmitDefaultInitialization(u, Body(u, s.schema), Rank(u, s.schema), path + [it.name], s.schema);
    } else {
      var d := DefaultValue(it, parent);
      out := if d.Some? then [Init(path + [it.name], d.value)] else [];
    }
  }

  // ----- Defaults and environment overrides follow the leaves -----

  /** The initialiser of one leaf, if it has one. */
  function LeafInit(l: Leaf): seq<Init> {
    if l.field.Section? then []
    else
      var d := DefaultValue(l.field, l.parent);
      if d.Some? then [Init(l.path, d.value)] else []
  }

  function LeafInits(ls: seq<Leaf>): seq<Init> {
    if ls == [] then [] else LeafInit(ls[0]) + LeafInits(ls[1..])
  }

  lemma {:induction false} LeafInitsAppend(a: seq<Leaf>, b: seq<Leaf>)
    ensures LeafInits(a + b) == LeafInits(a) + LeafInits(b)
    decreases |a|
  {
    if a == [] {
      assert a + b == b;
    } else {
      assert (a + b)[0] == a[0] && (a + b)[1..] == a[1..] + b;
      LeafInitsAppend(a[1..], b);
    }
  }

  /** The default walk initialises the leaves, each at most once, in declaration order. */
  lemma {:induction false} DefaultsFollowLeaves(u: Unit, items: seq<Item>, r: nat, path: seq<string>, parent: string)
    requires Ready(u) && Below(u, items, r)
    ensures DefaultInits(u, items, r, path, parent) == LeafInits(Leaves(u, items, r, path, parent))
    decreases r, items
  {
    if items != [] {
      BelowTail(u, items, r);
      var it := items[0];
      DefaultsFollowLeaves(u, items[1..], r, path, parent);
      LeafInitsAppend(ItemLeaves(u, items, r, path, parent), Leaves(u, items[1..], r, path, parent));
      if it.Section? {
        DefaultsFollowLeaves(u, it.items, r, path + [it.name], it.name);
      } else {
        var s := ShapeOf(u, it.typ);
        if s.Struct? {
          BodyIsBelow(u, s.schema);
          DefaultsFollowLeaves(u, Body(u, s.schema), Rank(u, s.schema), path + [it.name], s.schema);
        } else {
          var l := Leaf(path + [it.name], it, parent);
          assert [l][1..] == [];
          assert LeafInits([l]) == LeafInit(l);
        }
      }
    }
  }

  // ----- Environment overrides -----

  /** `{ const char *e = getenv("…"); if (e) { assignment } }` */
  datatype Override = Override(path: seq<string>, variable: string, conv: Option<Conversion>)

  /** `emit_env_overrides` for one field. The conversion is missing for types it does not know. */
  function LeafOverride(l: Leaf): seq<Override> {
    if l.field.Section? then []
    else
      var e := FindProperty(l.field.props, "env");
      if e.Some? && e.value.value.Plain? && e.value.value.lit.StringLit? then
        [Override(l.path, e.value.value.lit.text,
                  if l.field.typ.Named? then PrimitiveConversion(l.field.typ.name) else None)]
      else []
  }

  function LeafOverrides(ls: seq<Leaf>): seq<Override> {
    if ls == [] then [] else LeafOverride(ls[0]) + LeafOverrides(ls[1..])
  }

  lemma {:induction false} LeafOverridesAppend(a: seq<Leaf>, b: seq<Leaf>)
    ensures LeafOverrides(a + b) == LeafOverrides(a) + LeafOverrides(b)
    decreases |a|
  {
    if a == [] {
      assert a + b == b;
    } else {
      assert (a + b)[0] == a[0] && (a + b)[1..] == a[1..] + b;
      LeafOverridesAppend(a[1..], b);
    }
  }

  function EnvOverrides(u: Unit, items: seq<Item>, r: nat, path: seq<string>): seq<Override>
    requires Ready(u) && Below(u, items, r)
    decreases r, items, 1
  {
    if items == [] then []
    else
      BelowTail(u, items, r);
      EnvItem(u, items, r, path) + EnvOverrides(u, items[1..], r, path)
  }

  function EnvItem(u: Unit, items: seq<Item>, r: nat, path: seq<string>): seq<Override>
    requires Ready(u) && Below(u, items, r) && items != []
    decreases r, items, 0
  {
    BelowTail(u, items, r);
    var it := items[0];
    match it
    case Section(n, inner) => EnvOverrides(u, inner, r, path + [n])
    case Field(n, t, _) =>
      var s := ShapeOf(u, t);
      if s.Struct? then
        BodyIsBelow(u, s.schema);
        EnvOverrides(u, Body(u, s.schema), Rank(u, s.schema), path + [n])
      else LeafOverride(Leaf(path + [n], it, ""))
  }

  /** The emitter: the same walk again. */
  method EmitEnvOverrides(u: Unit, items: seq<Item>, r: nat, path: seq<string>) returns (out: seq<Override>)
    requires Ready(u) && Below(u, items, r)
    ensures out == EnvOverrides(u, items, r, path)
    decreases r, items, 1
  {
    out := [];
    var i := 0;
    assert items[0..] == items;
    while i < |items|
      invariant 0 <= i <= |items| && Below(u, items[i..], r)
      invariant out + EnvOverrides(u, items[i..], r, path) == EnvOverrides(u, items, r, path)
    {
      assert items[i..][0] == items[i] && items[i..][1..] == items[i + 1..];
      BelowTail(u, items[i..], r);
      var code := EmitEnvItem(u, items[i..], r, path, items);
      out := out + code;
      i := i + 1;
    }
  }

  method EmitEnvItem(u: Unit, items: seq<Item>, r: nat, path: seq<string>, ghost all: seq<Item>)
    returns (out: seq<Override>)
    requires Ready(u) && Below(u, items, r) && items != [] && items[0] in all
    ensures out == EnvItem(u, items, r, path)
    decreases r, all, 0
  {
    BelowTail(u, items, r);
    var it := items[0];
    if it.Section? {
      out := EmitEnvOverrides(u, it.items, r, path + [it.name]);
      return;
    }
    var s := ShapeOf(u, it.typ);
    if s.Struct? {
      BodyIsBelow(u, s.schema);
      out := EmitEnvOverrides(u, Body(u, s.schema), Rank(u, s.schema), path + [it.name]);
    } else {
      out := LeafOverride(Leaf(path + [it.name], it, ""));
    }
  }

  /** The environment walk overrides the leaves, each at most once, in declaration order. */
  lemma {:induction false} OverridesFollowLeaves(u: Unit, items: seq<Item>, r: nat, path: seq<string>, parent: string)
    requires Ready(u) && Below(u, items, r)
    ensures EnvOverrides(u, items, r, path) == LeafOverrides(Leaves(u, items, r, path, parent))
    decreases r, items
  {
    if items != [] {
      BelowTail(u, items, r);
      var it := items[0];
      OverridesFollowLeaves(u, items[1..], r, path, parent);
      LeafOverridesAppend(ItemLeaves(u, items, r, path, parent), Leaves(u, items[1..], r, path, parent));
      if it.Section? {
        OverridesFollowLeaves(u, it.items, r, path + [it.name], it.name);
      } else {
        var s := ShapeOf(u, it.typ);
        if s.Struct? {
          BodyIsBelow(u, s.schema);
          OverridesFollowLeaves(u, Body(u, s.schema), Rank(u, s.schema), path + [it.name], s.schema);
        } else {
          var l := Leaf(path + [it.name], it, parent);
          assert [l][1..] == [];
          assert LeafOverrides([l]) == LeafOverride(l);
        }
      }
    }
  }
}
