/** `X_load` as a whole: the file, the layers, and the validator over the configuration they leave. */
module Loading {
  import opened Schema
  import opened Types
  import opened SchemaGraph
  import opened Text
  import opened ArrayText
  import opened Expansion
  import opened Runtime
  import opened CliEmitter
  import opened Dispatch
  import opened Lifecycle
  import opened ArrayRuns
  import opened ArrayFlags
  import opened IniEmitter
  import opened IniPlaces
  import IniFile
  import opened Validator
  import opened ValidatorEmitter
  import opened PatternReadings

  // ----- What the validator sees in the memory -----

  /** The library's conversions of numbers. */
  datatype Library = Library(toInt: string -> int, toFloat: string -> real)

  /** The value of a field that is no struct and no array of structs. */
  function FieldData(lib: Library, t: TypeExpr, v: Val): (x: Data)
    ensures V.Fits(t, x)
  {
    match t
    case Named(n) =>
      if n == "int" then IntValue(if v.Integer? then v.value else if v.IntOf? then lib.toInt(v.text) else 0)
      else if n == "float" then
        RealValue(if v.Number? then v.number
                  else if v.Integer? then v.value as real
                  else if v.FloatOf? then lib.toFloat(v.text) else 0.0)
      else if n == "bool" then BoolValue(v.Truth? && v.on)
      else if n == "string" || n == "path" then TextValue(if v.TextOf? then Some(v.text) else None)
      else OtherValue
    case EnumOf(ms) =>
      // zero is the first constant
      EnumValue(if v.EnumConstant? then v.member else if ms != [] then ms[0] else "")
    case ArrayOf(e) =>
      ListValue(if v.IntArrayOf? || v.TextArrayOf? then ArrayData(lib, e, Tokens(v.text, ',')) else [])
  }

  function ArrayData(lib: Library, e: TypeExpr, tokens: seq<string>): seq<Data> {
    seq(|tokens|, i requires 0 <= i < |tokens| =>
      if e == Named("int") then IntValue(lib.toInt(tokens[i]))
      else if e == Named("string") || e == Named("path") then TextValue(Some(Element(tokens[i])))
      else OtherValue)
  }

  function BlockData(u: Unit, lib: Library, items: seq<Item>, r: nat, m: Mem, p: Place): (bs: seq<Binding>)
    requires Ready(u) && Below(u, items, r)
    ensures |bs| == |items| && forall i :: 0 <= i < |bs| ==> bs[i].name == items[i].name
    decreases r, items, 1
  {
    if items == [] then []
    else
      BelowTail(u, items, r);
      [Binding(items[0].name, ItemData(u, lib, items, r, m, p))] + BlockData(u, lib, items[1..], r, m, p)
  }

  function ItemData(u: Unit, lib: Library, items: seq<Item>, r: nat, m: Mem, p: Place): Data
    requires Ready(u) && Below(u, items, r) && items != []
    decreases r, items, 0
  {
    BelowTail(u, items, r);
    var q := p + [Dot(items[0].name)];
    match items[0]
    case Section(_, inner) => StructValue(BlockData(u, lib, inner, r, m, q))
    case Field(_, t, _) =>
      match ShapeOf(u, t)
      case Scalar => FieldData(lib, t, Get(m, q))
      case Struct(sn) => SchemaData(u, lib, sn, m, q)
      case StructArray(sn) =>
        // a flag may have put texts where the elements were
        if IsList(Get(m, q)) then FieldData(lib, t, Get(m, q)) else ListValue(ElementsData(u, lib, sn, m, q, 0))
  }

  /** One struct of a schema. */
  function SchemaData(u: Unit, lib: Library, sn: string, m: Mem, p: Place): Data
    requires Ready(u) && IsDeclared(u.prog, sn)
    decreases Rank(u, sn), Body(u, sn), 2, 0
  {
    BodyIsBelow(u, sn);
    StructValue(BlockData(u, lib, Body(u, sn), Rank(u, sn), m, p))
  }

  /** The elements from index `i` on. */
  function ElementsData(u: Unit, lib: Library, sn: string, m: Mem, p: Place, i: nat): seq<Data>
    requires Ready(u) && IsDeclared(u.prog, sn)
    decreases Rank(u, sn), Body(u, sn), 3, Count(m, p) - i
  {
    if i >= Count(m, p) then []
    else [SchemaData(u, lib, sn, m, p + [Elem(i)])] + ElementsData(u, lib, sn, m, p, i + 1)
  }

  // ----- It has the shape of the generated structs -----

  /** A struct has every binding of the list. */
  ghost predicate Has(v: Data, bs: seq<Binding>) {
    forall i :: 0 <= i < |bs| ==> FieldOf(v, bs[i].name) == Some(bs[i].value)
  }

  lemma {:induction false} IndexOfBinding(bs: seq<Binding>, i: nat)
    requires i < |bs| && forall j, k :: 0 <= j < k < |bs| ==> bs[j].name != bs[k].name
    ensures FieldIndex(bs, bs[i].name) == Some(i)
    decreases |bs|
  {
    if i > 0 {
      assert bs[1..][i - 1] == bs[i];
      IndexOfBinding(bs[1..], i - 1);
    }
  }

  lemma HasItself(bs: seq<Binding>)
    requires forall j, k :: 0 <= j < k < |bs| ==> bs[j].name != bs[k].name
    ensures Has(StructValue(bs), bs)
  {
    forall i | 0 <= i < |bs| ensures FieldOf(StructValue(bs), bs[i].name) == Some(bs[i].value) {
      IndexOfBinding(bs, i);
    }
  }

  lemma HasTail(v: Data, bs: seq<Binding>)
    requires bs != [] && Has(v, bs)
    ensures Has(v, bs[1..]) && FieldOf(v, bs[0].name) == Some(bs[0].value)
  {
    assert forall i :: 0 <= i < |bs| - 1 ==> bs[1..][i] == bs[i + 1];
  }

  lemma {:induction false} BlockConforms(u: Unit, lib: Library, items: seq<Item>, r: nat, m: Mem, p: Place, v: Data)
    requires Ready(u) && Below(u, items, r) && NoPrimitiveSchemas(u.prog) && ItemsAccepted(u.prog, items)
    requires v.StructValue? && Has(v, BlockData(u, lib, items, r, m, p))
    ensures V.Conforms(u, items, r, v)
    decreases r, items, 1
  {
    if items != [] {
      BelowTail(u, items, r);
      AcceptedTail(u.prog, items);
      var bs := BlockData(u, lib, items, r, m, p);
      HasTail(v, bs);
      assert bs[1..] == BlockData(u, lib, items[1..], r, m, p);
      BlockConforms(u, lib, items[1..], r, m, p, v);
      ItemDataConforms(u, lib, items, r, m, p, v);
    }
  }

  lemma {:induction false} ItemDataConforms(u: Unit, lib: Library, items: seq<Item>, r: nat, m: Mem, p: Place, v: Data)
    requires Ready(u) && Below(u, items, r) && NoPrimitiveSchemas(u.prog) && items != [] && ItemsAccepted(u.prog, items)
    requires FieldOf(v, items[0].name) == Some(ItemData(u, lib, items, r, m, p))
    ensures V.ItemConforms(u, items, r, v)
    decreases r, items, 0
  {
    BelowTail(u, items, r);
    AcceptedTail(u.prog, items);
    var q := p + [Dot(items[0].name)];
    match items[0]
    case Section(_, inner) =>
      var bs := BlockData(u, lib, inner, r, m, q);
      HasItself(bs);
      BlockConforms(u, lib, inner, r, m, q, StructValue(bs));
    case Field(_, t, _) =>
      match ShapeOf(u, t)
      case Scalar =>
      case Struct(sn) =>
        assert PrimitiveNamed(sn).None? && PrimitiveNamed("string").Some? && PrimitiveNamed("path").Some?;
        SchemaDataConforms(u, lib, sn, m, q);
      case StructArray(sn) =>
        if IsList(Get(m, q)) {
          TextsConform(u, sn, FieldData(lib, t, Get(m, q)).elems);
        } else {
          ElementsDataConform(u, lib, sn, m, q, 0);
        }
  }

  lemma {:induction false} TextsConform(u: Unit, sn: string, elems: seq<Data>)
    requires Ready(u) && IsDeclared(u.prog, sn) && forall i :: 0 <= i < |elems| ==> !elems[i].StructValue?
    ensures V.ElementsConform(u, sn, elems)
    decreases |elems|
  {
    if elems != [] {
      BodyIsBelow(u, sn);
      assert forall i :: 0 <= i < |elems| - 1 ==> elems[1..][i] == elems[i + 1];
      TextsConform(u, sn, elems[1..]);
    }
  }

  lemma {:induction false} SchemaDataConforms(u: Unit, lib: Library, sn: string, m: Mem, p: Place)
    requires Ready(u) && IsDeclared(u.prog, sn) && NoPrimitiveSchemas(u.prog)
    ensures V.SchemaConforms(u, sn, SchemaData(u, lib, sn, m, p))
    decreases Rank(u, sn), Body(u, sn), 2, 0
  {
    BodyIsBelow(u, sn);
    var bs := BlockData(u, lib, Body(u, sn), Rank(u, sn), m, p);
    HasItself(bs);
    BlockConforms(u, lib, Body(u, sn), Rank(u, sn), m, p, StructValue(bs));
  }

  lemma {:induction false} ElementsDataConform(u: Unit, lib: Library, sn: string, m: Mem, p: Place, i: nat)
    requires Ready(u) && IsDeclared(u.prog, sn) && NoPrimitiveSchemas(u.prog)
    ensures V.ElementsConform(u, sn, ElementsData(u, lib, sn, m, p, i))
    decreases Rank(u, sn), Body(u, sn), 3, Count(m, p) - i
  {
    if i < Count(m, p) {
      BodyIsBelow(u, sn);
      SchemaDataConforms(u, lib, sn, m, p + [Elem(i)]);
      ElementsDataConform(u, lib, sn, m, p, i + 1);
      var rest := ElementsData(u, lib, sn, m, p, i + 1);
      assert ElementsData(u, lib, sn, m, p, i)[1..] == rest;
    }
  }

  // ----- Where it does not have structs -----

  /** Some element is met that is no struct. */
  predicate Marked(vs: seq<Violation>) {
    exists i :: 0 <= i < |vs| && vs[i].what.NoStruct?
  }

  lemma MarkedAppend(a: seq<Violation>, b: seq<Violation>)
    ensures Marked(a + b) <==> Marked(a) || Marked(b)
  {
    if Marked(a) {
      var i :| 0 <= i < |a| && a[i].what.NoStruct?;
      assert (a + b)[i] == a[i];
    }
    if Marked(b) {
      var i :| 0 <= i < |b| && b[i].what.NoStruct?;
      assert (a + b)[|a| + i] == b[i];
    }
  }

  lemma {:induction false} PropertiesAreUnmarked(how: Reading, it: Item, props: seq<Property>, v: Data, block: Data)
    ensures !Marked(PropertyViolations(how, it, props, v, block))
    decreases |props|
  {
    if props != [] {
      PropertiesAreUnmarked(how, it, props[1..], v, block);
      var own := if Satisfied(how, props[0], v, block) then [] else [Validator.Report(it, props[0])];
      MarkedAppend(own, PropertyViolations(how, it, props[1..], v, block));
    }
  }

  lemma {:induction false} BlockMarkedIff(u: Unit, how: Reading, lib: Library, items: seq<Item>, r: nat, m: Mem, p: Place, v: Data)
    requires Ready(u) && Below(u, items, r) && ItemsAccepted(u.prog, items)
    requires Has(v, BlockData(u, lib, items, r, m, p))
    ensures Marked(Violations(u, how, items, r, v)) <==> !Intact(u, items, r, m, p)
    decreases r, items, 1
  {
    if items != [] {
      BelowTail(u, items, r);
      AcceptedTail(u.prog, items);
      var bs := BlockData(u, lib, items, r, m, p);
      HasTail(v, bs);
      assert bs[1..] == BlockData(u, lib, items[1..], r, m, p);
      BlockMarkedIff(u, how, lib, items[1..], r, m, p, v);
      ItemMarkedIff(u, how, lib, items, r, m, p, v);
      MarkedAppend(ItemViolations(u, how, items, r, v), Violations(u, how, items[1..], r, v));
    }
  }

  lemma {:induction false} ItemMarkedIff(u: Unit, how: Reading, lib: Library, items: seq<Item>, r: nat, m: Mem, p: Place, v: Data)
    requires Ready(u) && Below(u, items, r) && items != [] && ItemsAccepted(u.prog, items)
    requires FieldOf(v, items[0].name) == Some(ItemData(u, lib, items, r, m, p))
    ensures Marked(ItemViolations(u, how, items, r, v)) <==> !ItemIntact(u, items, r, m, p)
    decreases r, items, 0
  {
    BelowTail(u, items, r);
    AcceptedTail(u.prog, items);
    var q, x := p + [Dot(items[0].name)], ItemData(u, lib, items, r, m, p);
    match items[0]
    case Section(_, inner) =>
      var bs := BlockData(u, lib, inner, r, m, q);
      HasItself(bs);
      BlockMarkedIff(u, how, lib, inner, r, m, q, StructValue(bs));
    case Field(_, t, props) =>
      PropertiesAreUnmarked(how, items[0], props, x, v);
      MarkedAppend(PropertyViolations(how, items[0], props, x, v), Deeper(u, how, items[0], x));
      match ShapeOf(u, t)
      case Scalar =>
      case Struct(sn) => SchemaMarkedIff(u, how, lib, sn, m, q);
      case StructArray(sn) =>
        if IsList(Get(m, q)) {
          TextsAreMarked(u, how, sn, FieldData(lib, t, Get(m, q)).elems);
        } else {
          ElementsMarkedIff(u, how, lib, sn, m, q, 0);
        }
  }

  /** Pointers to texts are no structs. */
  lemma TextsAreMarked(u: Unit, how: Reading, sn: string, elems: seq<Data>)
    requires Ready(u) && IsDeclared(u.prog, sn) && forall i :: 0 <= i < |elems| ==> !elems[i].StructValue?
    ensures Marked(ElementViolations(u, how, sn, elems)) <==> elems != []
  {
    if elems != [] {
      BodyIsBelow(u, sn);
      assert ElementViolations(u, how, sn, elems)[0] == Violation(sn, NoStruct);
    }
  }

  lemma {:induction false} SchemaMarkedIff(u: Unit, how: Reading, lib: Library, sn: string, m: Mem, p: Place)
    requires Ready(u) && IsDeclared(u.prog, sn)
    ensures Marked(V.SchemaViolations(u, how, sn, SchemaData(u, lib, sn, m, p))) <==> !SchemaIntact(u, sn, m, p)
    decreases Rank(u, sn), Body(u, sn), 2, 0
  {
    BodyIsBelow(u, sn);
    var bs := BlockData(u, lib, Body(u, sn), Rank(u, sn), m, p);
    HasItself(bs);
    BlockMarkedIff(u, how, lib, Body(u, sn), Rank(u, sn), m, p, StructValue(bs));
  }

  lemma {:induction false} ElementsMarkedIff(u: Unit, how: Reading, lib: Library, sn: string, m: Mem, p: Place, i: nat)
    requires Ready(u) && IsDeclared(u.prog, sn)
    ensures Marked(ElementViolations(u, how, sn, ElementsData(u, lib, sn, m, p, i))) <==> !ElementsIntact(u, sn, m, p, i)
    decreases Rank(u, sn), Body(u, sn), 3, Count(m, p) - i
  {
    if i < Count(m, p) {
      BodyIsBelow(u, sn);
      var x, rest := SchemaData(u, lib, sn, m, p + [Elem(i)]), ElementsData(u, lib, sn, m, p, i + 1);
      SchemaMarkedIff(u, how, lib, sn, m, p + [Elem(i)]);
      ElementsMarkedIff(u, how, lib, sn, m, p, i + 1);
      assert ElementsData(u, lib, sn, m, p, i) == [x] + rest && ([x] + rest)[1..] == rest;
      MarkedAppend(V.SchemaViolations(u, how, sn, x), ElementViolations(u, how, sn, rest));
    }
  }

  // ----- The validator sees the layered values -----

  /** What stands at a leaf. */
  function LeafData(u: Unit, lib: Library, t: TypeExpr, m: Mem, q: Place): Data
    requires Ready(u) && !ShapeOf(u, t).Struct?
  {
    match ShapeOf(u, t)
    case StructArray(sn) =>
      if IsList(Get(m, q)) then FieldData(lib, t, Get(m, q)) else ListValue(ElementsData(u, lib, sn, m, q, 0))
    case _ => FieldData(lib, t, Get(m, q))
  }

  lemma {:induction false} LeafInBlock(u: Unit, lib: Library, items: seq<Item>, r: nat, path: seq<string>, parent: string,
                                       l: Leaf, m: Mem, p: Place, v: Data)
    requires Ready(u) && Below(u, items, r) && ItemsAccepted(u.prog, items)
    requires l in Leaves(u, items, r, path, parent) && l.field.Field? && !ShapeOf(u, l.field.typ).Struct?
    requires v.StructValue? && Has(v, BlockData(u, lib, items, r, m, p))
    ensures |l.path| > |path|
    ensures DataAt(v, l.path[|path|..]) == Some(LeafData(u, lib, l.field.typ, m, p + Names(l.path[|path|..])))
    decreases r, items, 1
  {
    BelowTail(u, items, r);
    AcceptedTail(u.prog, items);
    LeavesExtendPath(u, items, r, path, parent);
    var n, it, bs := |path|, items[0], BlockData(u, lib, items, r, m, p);
    HasTail(v, bs);
    if l !in ItemLeaves(u, items, r, path, parent) {
      assert bs[1..] == BlockData(u, lib, items[1..], r, m, p);
      LeafInBlock(u, lib, items[1..], r, path, parent, l, m, p, v);
    } else {
      ItemLeavesExtendPath(u, items, r, path, parent);
      NamesCons(l.path, n);
      var q, path' := p + [Dot(it.name)], path + [it.name];
      assert p + Names(l.path[n..]) == q + Names(l.path[n + 1..]);
      assert l.path[n..][1..] == l.path[n + 1..] && l.path[n..][0] == it.name;
      var x := ItemData(u, lib, items, r, m, p);
      assert DataAt(v, l.path[n..]) == DataAt(x, l.path[n + 1..]);
      if it.Section? {
        var inner := BlockData(u, lib, it.items, r, m, q);
        HasItself(inner);
        LeafInBlock(u, lib, it.items, r, path', it.name, l, m, q, x);
      } else {
        LeafInField(u, lib, items, r, path, parent, l, m, p);
      }
    }
  }

  lemma {:induction false} LeafInField(u: Unit, lib: Library, items: seq<Item>, r: nat, path: seq<string>, parent: string,
                                       l: Leaf, m: Mem, p: Place)
    requires Ready(u) && Below(u, items, r) && items != [] && items[0].Field?
    requires l in ItemLeaves(u, items, r, path, parent) && l.field.Field? && !ShapeOf(u, l.field.typ).Struct?
    ensures |l.path| > |path|
    ensures DataAt(ItemData(u, lib, items, r, m, p), l.path[|path| + 1..])
         == Some(LeafData(u, lib, l.field.typ, m, p + [Dot(items[0].name)] + Names(l.path[|path| + 1..])))
    decreases r, items, 0
  {
    BelowTail(u, items, r);
    ItemLeavesExtendPath(u, items, r, path, parent);
    var it, n := items[0], |path|;
    var q, path' := p + [Dot(it.name)], path + [it.name];
    var s := ShapeOf(u, it.typ);
    if s.Struct? {
      BodyIsBelow(u, s.schema);
      LeafInStruct(u, lib, s.schema, r, path', l, m, q);
    } else {
      assert l == Leaf(path', it, parent);
      assert l.path[n + 1..] == [] && q + Names([]) == q;
    }
  }

  lemma {:induction false} LeafInStruct(u: Unit, lib: Library, sn: string, r: nat, path: seq<string>, l: Leaf, m: Mem, p: Place)
    requires Ready(u) && IsDeclared(u.prog, sn) && Rank(u, sn) < r && Below(u, Body(u, sn), Rank(u, sn))
    requires l in Leaves(u, Body(u, sn), Rank(u, sn), path, sn) && l.field.Field? && !ShapeOf(u, l.field.typ).Struct?
    ensures |l.path| > |path|
    ensures DataAt(SchemaData(u, lib, sn, m, p), l.path[|path|..])
         == Some(LeafData(u, lib, l.field.typ, m, p + Names(l.path[|path|..])))
    decreases Rank(u, sn), Body(u, sn), 2
  {
    BodyIsBelow(u, sn);
    var bs := BlockData(u, lib, Body(u, sn), Rank(u, sn), m, p);
    HasItself(bs);
    LeafInBlock(u, lib, Body(u, sn), Rank(u, sn), path, sn, l, m, p, StructValue(bs));
  }

  lemma {:induction false} LeafInSchema(u: Unit, lib: Library, sn: string, l: Leaf, m: Mem, p: Place)
    requires Ready(u) && IsDeclared(u.prog, sn) && l in RootLeaves(u, sn)
    requires l.field.Field? && !ShapeOf(u, l.field.typ).Struct?
    ensures DataAt(SchemaData(u, lib, sn, m, p), l.path) == Some(LeafData(u, lib, l.field.typ, m, p + Names(l.path)))
  {
    BodyIsBelow(u, sn);
    LeafInStruct(u, lib, sn, Rank(u, sn) + 1, [], l, m, p);
    assert l.path[0..] == l.path;
  }

  /** In the configuration that a load hands to the validator, a leaf has the value of its layers. */
  lemma {:induction false} ValidatorSeesTheLayers(u: Unit, lib: Library, root: string, l: Leaf, events: seq<IniEvent>,
                                                  env: map<string, string>, args: seq<string>)
    requires Ready(u) && IsDeclared(u.prog, root) && l in RootLeaves(u, root)
    requires l.field.Field? && ShapeOf(u, l.field.typ).Scalar?
    requires Load(u, root, events, env, args).Some?
    ensures DataAt(SchemaData(u, lib, root, Load(u, root, events, env, args).value, []), l.path)
         == Some(FieldData(lib, l.field.typ,
                           CliLayer(Names(l.path), ParseFrom(RootFlags(u, root), args, 1),
                             EnvLayer(l, env, IniLayer(u, root, l, events, DefaultLayer(l, Zero))))))
  {
    LeafInSchema(u, lib, root, l, Load(u, root, events, env, args).value, []);
    LoadIsLayered(u, root, l, events, env, args);
    assert [] + Names(l.path) == Names(l.path);
  }

  lemma {:induction false} ElementAt(u: Unit, lib: Library, sn: string, m: Mem, p: Place, i: nat, k: nat)
    requires Ready(u) && IsDeclared(u.prog, sn) && i <= k && i <= Count(m, p)
    ensures |ElementsData(u, lib, sn, m, p, i)| == Count(m, p) - i
    ensures k < Count(m, p) ==> ElementsData(u, lib, sn, m, p, i)[k - i] == SchemaData(u, lib, sn, m, p + [Elem(k)])
    decreases Count(m, p) - i
  {
    if i < Count(m, p) {
      var tail := ElementsData(u, lib, sn, m, p, i + 1);
      if i < k {
        ElementAt(u, lib, sn, m, p, i + 1, k);
      } else {
        ElementAt(u, lib, sn, m, p, i + 1, i + 1);
      }
      assert ElementsData(u, lib, sn, m, p, i) == [SchemaData(u, lib, sn, m, p + [Elem(i)])] + tail;
    }
  }

  lemma ElementLeafIsSeen(u: Unit, lib: Library, a: Leaf, l: Leaf, i: nat, m: Mem)
    requires Ready(u) && IsArrayLeaf(u, a) && l in ElementLeaves(u, a)
    requires l.field.Field? && ShapeOf(u, l.field.typ).Scalar?
    ensures var p, sn := ArrayPlace(a), ElementSchema(u, a);
            && |ElementsData(u, lib, sn, m, p, 0)| == Count(m, p)
            && (i < Count(m, p) ==>
                  DataAt(ElementsData(u, lib, sn, m, p, 0)[i], l.path)
                  == Some(FieldData(lib, l.field.typ, Get(m, ElementPlace(a, i, l)))))
  {
    ElementAt(u, lib, ElementSchema(u, a), m, ArrayPlace(a), 0, i);
    LeafInSchema(u, lib, ElementSchema(u, a), l, m, ArrayPlace(a) + [Elem(i)]);
  }

  /** It has an element for each header of an array, and a leaf of that element has its default, overridden
      by the lines between that header and the next; unless a flag has replaced them by texts. */
  lemma {:induction false} ValidatorSeesTheElements(u: Unit, lib: Library, root: string, a: Leaf, l: Leaf, i: nat,
                                                    events: seq<IniEvent>, env: map<string, string>, args: seq<string>)
    requires Ready(u) && NoPrimitiveSchemas(u.prog) && IsDeclared(u.prog, root) && a in RootLeaves(u, root) && IsArrayLeaf(u, a)
    requires l in ElementLeaves(u, a) && l.field.Field? && ShapeOf(u, l.field.typ).Scalar?
    requires Load(u, root, events, env, args).Some?
    ensures var list := DataAt(SchemaData(u, lib, root, Load(u, root, events, env, args).value, []), a.path);
            var given := GivenText(u, root, a, args);
            && list.Some? && list.value.ListValue?
            && |list.value.elems| == (if given.Some? then |Tokens(given.value, ',')| else HeaderCount(root, a, events))
            && (given.None? && i < HeaderCount(root, a, events) ==>
                  DataAt(list.value.elems[i], l.path)
                  == Some(FieldData(lib, l.field.typ,
                                    ConvertAll(IniConversion(u, l.field, l.parent), DefaultLayer(l, Zero),
                                               LinesOfElement(root, a, l, events, 0, i)))))
  {
    var m := Load(u, root, events, env, args).value;
    LeafInSchema(u, lib, root, a, m, []);
    assert [] + Names(a.path) == ArrayPlace(a);
    ArrayAfterLoad(u, root, a, events, env, args);
    if GivenText(u, root, a, args).None? {
      NoTextNoWrite(u, root, a, args);
      ElementsAfterLoad(u, root, a, l, i, events, env, args);
      ElementLeafIsSeen(u, lib, a, l, i, m);
    }
  }

  // ----- The load -----

  /** The file name may be missing, and the file may not open. */
  datatype File = NoFile | Unreadable | Contents(text: string)

  datatype Status = Success(cfg: Mem) | OpenFailed | SyntaxError | Invalid(violation: Violation)

  function LinesOf(file: File): seq<string> {
    if file.Contents? then IniFile.Lines(file.text) else []
  }

  function EventsIn(file: File): seq<IniEvent> {
    IniFile.EventsOf("", LinesOf(file))
  }

  /** The violations of a loaded configuration. */
  function ViolationsOf(u: Unit, how: Reading, lib: Library, root: string, m: Mem): seq<Violation>
    requires Ready(u) && IsDeclared(u.prog, root)
  {
    V.SchemaViolations(u, how, root, SchemaData(u, lib, root, m, []))
  }

  /** How a load ends. `None`: the behaviour is undefined, at the latest when the validator reads a struct where
      a flag has put a pointer to a text. */
  function LoadStatus(u: Unit, w: World, lib: Library, root: string, file: File, env: map<string, string>, args: seq<string>)
    : Option<Status>
    requires Ready(u) && IsDeclared(u.prog, root)
  {
    var cfg := Load(u, root, EventsIn(file), env, args);
    if file == Unreadable then Some(OpenFailed)
    else if cfg.None? then None
    else if IniFile.AnyError(LinesOf(file)) then Some(SyntaxError)
    else StatusOf(cfg.value, V.FirstReported(ViolationsOf(u, Emitted(w), lib, root, cfg.value)))
  }

  function StatusOf(m: Mem, first: Option<Violation>): Option<Status> {
    if first.None? then Some(Success(m))
    else if first.value.what.NoStruct? then None
    else Some(Invalid(first.value))
  }

  /** A loaded configuration is met with an element that is no struct if and only if the last text that the
      arguments give for some array of schemas is not an empty list. */
  lemma ViolationsAreMarkedIff(u: Unit, how: Reading, lib: Library, root: string, events: seq<IniEvent>,
                               env: map<string, string>, args: seq<string>)
    requires Ready(u) && IsDeclared(u.prog, root) && NoPrimitiveSchemas(u.prog) && Load(u, root, events, env, args).Some?
    ensures Marked(ViolationsOf(u, how, lib, root, Load(u, root, events, env, args).value)) <==> GivesElements(u, root, args)
  {
    SchemaMarkedIff(u, how, lib, root, Load(u, root, events, env, args).value, []);
    LoadIsIntactIff(u, root, events, env, args);
  }

  /** The behaviour is undefined if and only if a header makes it so, or the arguments put texts into an array of
      schemas and the validator reports nothing before it comes to one of them. */
  lemma StatusIsUndefinedIff(u: Unit, w: World, lib: Library, root: string, file: File, env: map<string, string>,
                             args: seq<string>)
    requires Ready(u) && IsDeclared(u.prog, root) && NoPrimitiveSchemas(u.prog)
    ensures var cfg := Load(u, root, EventsIn(file), env, args);
            LoadStatus(u, w, lib, root, file, env, args) == None <==>
              && file != Unreadable
              && (cfg.None?
                  || (&& !IniFile.AnyError(LinesOf(file)) && GivesElements(u, root, args)
                      && MarkedFirst(ViolationsOf(u, Emitted(w), lib, root, cfg.value))))
  {
    var cfg := Load(u, root, EventsIn(file), env, args);
    if cfg.Some? {
      ViolationsAreMarkedIff(u, Emitted(w), lib, root, EventsIn(file), env, args);
      MarkedFirstIff(ViolationsOf(u, Emitted(w), lib, root, cfg.value));
    }
  }

  /** Some element that is no struct comes after conditions on texts only. */
  predicate MarkedFirst(vs: seq<Violation>) {
    exists i :: 0 <= i < |vs| && vs[i].what.NoStruct? && forall j :: 0 <= j < i ==> V.OfTextCondition(vs[j])
  }

  lemma {:induction false} MarkedFirstIff(vs: seq<Violation>)
    ensures MarkedFirst(vs) <==> V.FirstReported(vs).Some? && V.FirstReported(vs).value.what.NoStruct?
    ensures MarkedFirst(vs) ==> Marked(vs)
    decreases |vs|
  {
    if vs != [] {
      var rest := vs[1..];
      MarkedFirstIff(rest);
      if V.OfTextCondition(vs[0]) {
        if MarkedFirst(rest) {
          var i :| 0 <= i < |rest| && rest[i].what.NoStruct? && forall j :: 0 <= j < i ==> V.OfTextCondition(rest[j]);
          assert vs[i + 1] == rest[i] && forall j :: 0 < j < i + 1 ==> vs[j] == rest[j - 1];
        }
        if MarkedFirst(vs) {
          var i :| 0 <= i < |vs| && vs[i].what.NoStruct? && forall j :: 0 <= j < i ==> V.OfTextCondition(vs[j]);
          assert rest[i - 1] == vs[i] && forall j :: 0 <= j < i - 1 ==> rest[j] == vs[j + 1];
        }
      }
    }
  }

  /** A load succeeds if and only if the file can be opened, no line is malformed, no argument puts texts into an
      array of schemas, and the layered configuration violates nothing but conditions on texts, patterns read as
      their matchers do; its result is that configuration. */
  lemma LoadSucceedsIff(u: Unit, w: World, lib: Library, root: string, file: File, env: map<string, string>,
                        args: seq<string>, m: Mem)
    requires Ready(u) && IsDeclared(u.prog, root) && NoPrimitiveSchemas(u.prog)
    ensures LoadStatus(u, w, lib, root, file, env, args) == Some(Success(m)) <==>
            && file != Unreadable && !IniFile.AnyError(LinesOf(file)) && !GivesElements(u, root, args)
            && Load(u, root, EventsIn(file), env, args) == Some(m)
            && forall x :: x in ViolationsOf(u, Emitted(w), lib, root, m) ==> V.OfTextCondition(x)
  {
    StatusIsSuccessIff(u, w, lib, root, file, env, args, m);
    NothingReportedIff(ViolationsOf(u, Emitted(w), lib, root, m));
    if Load(u, root, EventsIn(file), env, args) == Some(m) {
      ViolationsAreMarkedIff(u, Emitted(w), lib, root, EventsIn(file), env, args);
      MarkedIsReported(ViolationsOf(u, Emitted(w), lib, root, m));
    }
  }

  lemma StatusIsSuccessIff(u: Unit, w: World, lib: Library, root: string, file: File, env: map<string, string>,
                           args: seq<string>, m: Mem)
    requires Ready(u) && IsDeclared(u.prog, root)
    ensures LoadStatus(u, w, lib, root, file, env, args) == Some(Success(m)) <==>
            && file != Unreadable && !IniFile.AnyError(LinesOf(file))
            && Load(u, root, EventsIn(file), env, args) == Some(m)
            && V.FirstReported(ViolationsOf(u, Emitted(w), lib, root, m)).None?
  {
  }

  lemma MarkedIsReported(vs: seq<Violation>)
    ensures Marked(vs) ==> V.FirstReported(vs).Some?
  {
    NothingReportedIff(vs);
    if Marked(vs) {
      var i :| 0 <= i < |vs| && vs[i].what.NoStruct?;
      assert vs[i] in vs;
    }
  }

  lemma NothingReportedIff(vs: seq<Violation>)
    ensures V.FirstReported(vs).None? <==> forall x :: x in vs ==> V.OfTextCondition(x)
  {
    WithoutTextIsPart(vs);
    assert V.WithoutText(vs) != [] ==> V.WithoutText(vs)[0] in V.WithoutText(vs);
  }

  /** The generated function, up to what becomes of the memory of a refused configuration. */
  method LoadAndValidate(u: Unit, w: World, lib: Library, root: string, file: File, env: map<string, string>, args: seq<string>)
    returns (status: Option<Status>)
    requires Ready(u) && IsDeclared(u.prog, root) && NoPrimitiveSchemas(u.prog)
    requires DistinctFns(AllFns(u.prog)) && V.Builds(u.prog)
    ensures status == LoadStatus(u, w, lib, root, file, env, args)
  {
    var m := StartConfig(u, root);
    var events, good := [], true;
    match file {
      case Unreadable => return Some(OpenFailed);
      case NoFile =>
      case Contents(text) => events, good := IniFile.ParseIni(text);
    }
    var read := HandleEvents(u, root, events, m);
    if read.None? {
      return None;
    }
    if !good {
      return Some(SyntaxError);
    }
    m := OverrideConfig(u, root, read.value, env, args);
    var v := SchemaData(u, lib, root, m, []);
    SchemaDataConforms(u, lib, root, m, []);
    V.ValidatorReportsFirst(u, w, root, v);
    var first := RunFn(V.Generated(u, w), root, v);
    status := StatusOf(m, first);
  }
}
