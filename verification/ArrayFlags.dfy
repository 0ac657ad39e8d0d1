/** What the command line does to arrays of schemas: the flag of such an array is emitted as that of an array
    of texts, and replaces its data and its count. */
module ArrayFlags {
  import opened Schema
  import opened Types
  import opened Properties
  import opened SchemaGraph
  import opened Expansion
  import opened Runtime
  import opened Defaults
  import opened Text
  import opened IniEmitter
  import opened CliEmitter
  import opened Dispatch
  import opened Lifecycle
  import opened ArrayRuns
  import opened LastWriter
  import opened IniPlaces

  predicate IsList(v: Val) {
    v.IntArrayOf? || v.TextArrayOf?
  }

  predicate IsListConversion(c: Conversion) {
    c.ToIntArray? || c.ToTextArray?
  }

  // ----- Which names lead to an array of schemas -----

  predicate IsStructArray(u: Unit, items: seq<Item>, r: nat, names: seq<string>)
    requires Ready(u) && Below(u, items, r)
    decreases r, items
  {
    if names == [] || items == [] then false
    else
      BelowTail(u, items, r);
      if items[0].name != names[0] then IsStructArray(u, items[1..], r, names)
      else
        match items[0]
        case Section(_, inner) => IsStructArray(u, inner, r, names[1..])
        case Field(_, t, _) =>
          match ShapeOf(u, t)
          case Scalar => false
          case Struct(sn) =>
            BodyIsBelow(u, sn);
            IsStructArray(u, Body(u, sn), Rank(u, sn), names[1..])
          case StructArray(sn) =>
            BodyIsBelow(u, sn);
            |names| == 1 || IsStructArray(u, Body(u, sn), Rank(u, sn), names[1..])
  }

  lemma {:induction false} DotsConcat(a: Place, b: Place)
    ensures Dots(a + b) == Dots(a) + Dots(b)
    decreases |b|
  {
    if b == [] {
      assert a + b == a;
    } else {
      var c := b[..|b| - 1];
      assert (a + b)[..|a + b| - 1] == a + c;
      DotsConcat(a, c);
    }
  }

  // ----- The INI walk never reads a list into one -----

  lemma {:induction false} KeyIsNoStructArray(u: Unit, items: seq<Item>, r: nat, key: string, p: Place, parent: string)
    requires Ready(u) && NoPrimitiveSchemas(u.prog) && Below(u, items, r) && ItemsAccepted(u.prog, items)
    ensures var t := FieldNamed(u, items, key, p, parent);
            t.FieldAt? && IsListConversion(t.conv) ==> !IsStructArray(u, items, r, [key])
    decreases |items|
  {
    if items != [] {
      BelowTail(u, items, r);
      AcceptedTail(u.prog, items);
      KeyIsNoStructArray(u, items[1..], r, key, p, parent);
      assert [key][1..] == [];
      if items[0].name == key {
        NotAmong(u, items[1..], key, p, parent);
        assert PrimitiveNamed("int").Some? && PrimitiveNamed("string").Some? && PrimitiveNamed("path").Some?;
      }
    }
  }

  lemma {:induction false} NotAmong(u: Unit, items: seq<Item>, key: string, p: Place, parent: string)
    requires forall i :: 0 <= i < |items| ==> items[i].name != key
    ensures FieldNamed(u, items, key, p, parent) == Nowhere
    decreases |items|
  {
    if items != [] {
      assert forall i :: 0 <= i < |items| - 1 ==> items[1..][i] == items[i + 1];
      NotAmong(u, items[1..], key, p, parent);
    }
  }

  lemma {:induction false} WalkWritesNoStructArray(u: Unit, items: seq<Item>, r: nat, parts: seq<string>, e: Event,
                                                   m: Mem, p: Place, parent: string)
    requires Ready(u) && NoPrimitiveSchemas(u.prog) && Below(u, items, r) && ItemsAccepted(u.prog, items) && e.Line?
    ensures var t := WalkPath(u, items, r, parts, e, m, p, parent);
            t.FieldAt? && IsListConversion(t.conv) ==> !IsStructArray(u, items, r, parts + [e.key])
    decreases r, items, 1
  {
    if parts == [] {
      KeyIsNoStructArray(u, items, r, e.key, p, parent);
      assert parts + [e.key] == [e.key];
    } else if items != [] {
      BelowTail(u, items, r);
      AcceptedTail(u.prog, items);
      assert (parts + [e.key])[0] == parts[0] && (parts + [e.key])[1..] == parts[1..] + [e.key];
      if items[0].name == parts[0] {
        ItemWritesNoStructArray(u, items, r, parts, e, m, p);
        assert WalkPath(u, items, r, parts, e, m, p, parent) == WalkInto(u, items, r, parts, e, m, p)
            == WalkItem(u, items, r, parts, e, m, p);
      } else {
        WalkWritesNoStructArray(u, items[1..], r, parts, e, m, p, parent);
        assert WalkPath(u, items, r, parts, e, m, p, parent) == WalkInto(u, items, r, parts, e, m, p)
            == WalkInto(u, items[1..], r, parts, e, m, p) == WalkPath(u, items[1..], r, parts, e, m, p, parent);
      }
    }
  }

  lemma {:induction false} ItemWritesNoStructArray(u: Unit, items: seq<Item>, r: nat, parts: seq<string>, e: Event,
                                                   m: Mem, p: Place)
    requires Ready(u) && NoPrimitiveSchemas(u.prog) && Below(u, items, r) && ItemsAccepted(u.prog, items) && e.Line?
    requires parts != [] && items != [] && items[0].name == parts[0]
    ensures var t := WalkItem(u, items, r, parts, e, m, p);
            t.FieldAt? && IsListConversion(t.conv) ==> !IsStructArray(u, items, r, parts + [e.key])
    decreases r, items, 0
  {
    BelowTail(u, items, r);
    AcceptedTail(u.prog, items);
    var it := items[0];
    var p' := p + [Dot(it.name)];
    assert (parts + [e.key])[0] == parts[0] && (parts + [e.key])[1..] == parts[1..] + [e.key];
    match it
    case Section(n, inner) => WalkWritesNoStructArray(u, inner, r, parts[1..], e, m, p', n);
    case Field(_, t, _) =>
      match ShapeOf(u, t)
      case Scalar =>
      case Struct(sn) =>
        BodyIsBelow(u, sn);
        WalkWritesNoStructArray(u, Body(u, sn), Rank(u, sn), parts[1..], e, m, p', sn);
      case StructArray(sn) =>
        BodyIsBelow(u, sn);
        if Count(m, p') > 0 {
          WalkWritesNoStructArray(u, Body(u, sn), Rank(u, sn), parts[1..], e, m, p' + [Elem(Count(m, p') - 1)], sn);
        }
  }

  // ----- Memories in which no element holds a list for an array of schemas -----

  predicate HasElem(q: Place) {
    exists i :: 0 <= i < |q| && q[i].Elem?
  }

  /** Below a place, inside elements of arrays, lists stand only where the type is an array of scalars. */
  ghost predicate Tidy(u: Unit, items: seq<Item>, r: nat, m: Mem, base: Place)
    requires Ready(u) && Below(u, items, r)
  {
    forall q :: q in m.vals && IsUnder(q, base) && HasElem(q) && IsList(m.vals[q]) ==>
                  !IsStructArray(u, items, r, Dots(q[|base|..]))
  }

  ghost predicate RootTidy(u: Unit, root: string, m: Mem)
    requires Ready(u) && IsDeclared(u.prog, root)
  {
    BodyIsBelow(u, root);
    Tidy(u, Body(u, root), Rank(u, root), m, [])
  }

  lemma {:induction false} InitsKeepLists(m: Mem, base: Place, ls: seq<Leaf>, q: Place)
    ensures var m' := RunInits(m, base, LeafInits(ls));
            q in m'.vals && IsList(m'.vals[q]) ==> q in m.vals && m'.vals[q] == m.vals[q]
    decreases |ls|
  {
    if ls != [] {
      var own := LeafInit(ls[0]);
      InitsTurn(m, base, ls);
      InitsKeepLists(if own == [] then m else RunInit(m, base, own[0]), base, ls[1..], q);
    }
  }

  lemma {:induction false} AppendKeepsLists(u: Unit, m: Mem, p: Place, sn: string, q: Place)
    requires Ready(u) && IsDeclared(u.prog, sn)
    ensures var m' := Runtime.Append(m, p, SchemaInits(u, sn));
            q in m'.vals && IsList(m'.vals[q]) ==> q in m.vals && m'.vals[q] == m.vals[q]
  {
    BodyIsBelow(u, sn);
    var e := p + [Elem(Count(m, p))];
    var cleared := Clear(m, e);
    DefaultsFollowLeaves(u, Body(u, sn), Rank(u, sn), [], sn);
    InitsKeepLists(cleared.(counts := cleared.counts[p := Count(m, p) + 1]), e, RootLeaves(u, sn), q);
  }

  lemma {:induction false} EventKeepsTidy(u: Unit, root: string, e: IniEvent, m: Mem)
    requires Ready(u) && NoPrimitiveSchemas(u.prog) && IsDeclared(u.prog, root) && RootTidy(u, root, m)
    ensures var o := IniHandler(u, root, e.section, e.event, m); !o.Undefined? ==> RootTidy(u, root, o.m)
  {
    BodyIsBelow(u, root);
    HandlerIsAWalk(u, root, e.section, e.event, m);
    var t, parts, body, rank := IniWalk(u, root, e.section, e.event, m), HandlerParts(e.section), Body(u, root), Rank(u, root);
    if t.FieldAt? {
      WalkKeepsNames(u, body, rank, parts[1..], e.event, m, [], root);
      assert Dots([]) == [] && Dots([]) + parts[1..] == parts[1..];
      WalkWritesNoStructArray(u, body, rank, parts[1..], e.event, m, [], root);
      assert t.place[0..] == t.place;
    } else if t.NewElement? {
      var m' := Runtime.Append(m, t.place, SchemaInits(u, t.schema));
      forall q | q in m'.vals && IsList(m'.vals[q]) ensures q in m.vals && m'.vals[q] == m.vals[q] {
        AppendKeepsLists(u, m, t.place, t.schema, q);
      }
    }
  }

  lemma {:induction false} EventsKeepTidy(u: Unit, root: string, events: seq<IniEvent>, m: Mem)
    requires Ready(u) && NoPrimitiveSchemas(u.prog) && IsDeclared(u.prog, root) && RootTidy(u, root, m)
    requires RunEvents(u, root, events, m).Some?
    ensures RootTidy(u, root, RunEvents(u, root, events, m).value)
    decreases |events|
  {
    if events != [] {
      EventKeepsTidy(u, root, events[0], m);
      EventsKeepTidy(u, root, events[1..], IniHandler(u, root, events[0].section, events[0].event, m).m);
    }
  }

  lemma {:induction false} NamesHaveNoElem(path: seq<string>)
    ensures !HasElem(Names(path))
  {
  }

  lemma {:induction false} OverridesKeepTidy(u: Unit, root: string, os: seq<Override>, env: map<string, string>, m: Mem)
    requires Ready(u) && IsDeclared(u.prog, root) && RootTidy(u, root, m)
    ensures RootTidy(u, root, RunOverrides(m, os, env))
    decreases |os|
  {
    if os != [] {
      NamesHaveNoElem(os[0].path);
      OverridesKeepTidy(u, root, os[1..], env, RunOverride(m, os[0], env));
    }
  }

  lemma {:induction false} WritesKeepTidy(u: Unit, root: string, ws: seq<Write>, m: Mem)
    requires Ready(u) && IsDeclared(u.prog, root) && RootTidy(u, root, m)
    requires forall k :: 0 <= k < |ws| ==> !HasElem(ws[k].target)
    ensures RootTidy(u, root, PerformAll(m, ws))
    decreases |ws|
  {
    if ws != [] {
      assert !HasElem(ws[0].target);
      WritesKeepTidy(u, root, ws[1..], Perform(m, ws[0]));
    }
  }

  /** The tests of the leaves write outside elements. */
  lemma {:induction false} FlagsHaveNoElem(root: string, ls: seq<Leaf>)
    ensures forall f :: f in AllFlags(root, ls) ==> !HasElem(f.target)
    decreases |ls|
  {
    if ls != [] {
      NamesHaveNoElem(ls[0].path);
      FlagsHaveNoElem(root, ls[1..]);
    }
  }

  lemma {:induction false} ActionHasNoElem(chain: seq<FlagTest>, args: seq<string>, i: nat)
    requires i < |args| && forall f :: f in chain ==> !HasElem(f.target)
    ensures var w := ParseArg(chain, args, i).write; w.Some? ==> !HasElem(w.value.target)
    decreases |chain|
  {
    if chain != [] {
      ActionHasNoElem(chain[1..], args, i);
    }
  }

  lemma {:induction false} WritesHaveNoElem(chain: seq<FlagTest>, args: seq<string>, i: nat)
    requires forall f :: f in chain ==> !HasElem(f.target)
    ensures forall k :: 0 <= k < |ParseFrom(chain, args, i)| ==> !HasElem(ParseFrom(chain, args, i)[k].target)
    decreases |args| - i
  {
    if i < |args| {
      if args[i] == "" || args[i][0] != '-' {
        WritesHaveNoElem(chain, args, i + 1);
      } else {
        ActionHasNoElem(chain, args, i);
        WritesHaveNoElem(chain, args, ParseArg(chain, args, i).i + 1);
      }
    }
  }

  /** After every load the elements of arrays of schemas are tidy. */
  lemma LoadIsTidy(u: Unit, root: string, events: seq<IniEvent>, env: map<string, string>, args: seq<string>)
    requires Ready(u) && NoPrimitiveSchemas(u.prog) && IsDeclared(u.prog, root) && Load(u, root, events, env, args).Some?
    ensures RootTidy(u, root, Load(u, root, events, env, args).value)
  {
    BodyIsBelow(u, root);
    var start := RunInits(EMPTY, [], SchemaInits(u, root));
    DefaultsFollowLeaves(u, Body(u, root), Rank(u, root), [], root);
    forall q | q in start.vals && IsList(start.vals[q]) ensures q in EMPTY.vals {
      InitsKeepLists(EMPTY, [], RootLeaves(u, root), q);
    }
    EventsKeepTidy(u, root, events, start);
    var m1 := RunEvents(u, root, events, start).value;
    OverridesKeepTidy(u, root, RootOverrides(u, root), env, m1);
    assert [root] + [] == [root];
    FlagsFollowLeaves(u, Body(u, root), Rank(u, root), root, [], root, root);
    FlagsHaveNoElem(root, RootLeaves(u, root));
    WritesHaveNoElem(RootFlags(u, root), args, 1);
    WritesKeepTidy(u, root, ParseFrom(RootFlags(u, root), args, 1), RunOverrides(m1, RootOverrides(u, root), env));
  }

  // ----- What the place of an array of schemas holds -----

  /** The text of the last argument for a place. */
  function LastText(ws: seq<Write>, p: Place): Option<string> {
    if ws == [] then None
    else
      var later := LastText(ws[1..], p);
      if later.Some? then later
      else if ws[0].target == p && ws[0].FromText? then Some(ws[0].text) else None
  }

  /** The text that the command line gives for a leaf. */
  function GivenText(u: Unit, root: string, a: Leaf, args: seq<string>): Option<string>
    requires Ready(u) && IsDeclared(u.prog, root)
  {
    LastText(ParseFrom(RootFlags(u, root), args, 1), Names(a.path))
  }

  lemma {:induction false} LastListStays(ws: seq<Write>, l: Leaf, v: Val)
    requires l.field.Field? && l.field.typ.ArrayOf? && l.field.typ.elem != Named("int")
    requires forall w :: w in ws ==> IsLeafWrite(l, w)
    ensures CliLayer(Names(l.path), ws, v)
         == if LastText(ws, Names(l.path)).Some? then TextArrayOf(LastText(ws, Names(l.path)).value) else v
    decreases |ws|
  {
    if ws != [] {
      assert IsLeafWrite(l, ws[0]);
      LastListStays(ws[1..], l, PerformOn(v, Names(l.path), ws[0]));
    }
  }

  lemma {:induction false} LeavesAreAccepted(u: Unit, items: seq<Item>, r: nat, path: seq<string>, parent: string, l: Leaf)
    requires Ready(u) && Below(u, items, r) && ItemsAccepted(u.prog, items) && l in Leaves(u, items, r, path, parent)
    ensures ItemAccepted(u.prog, l.field)
    decreases r, items
  {
    BelowTail(u, items, r);
    AcceptedTail(u.prog, items);
    var it := items[0];
    if l !in ItemLeaves(u, items, r, path, parent) {
      LeavesAreAccepted(u, items[1..], r, path, parent, l);
    } else if it.Section? {
      LeavesAreAccepted(u, it.items, r, path + [it.name], it.name, l);
    } else {
      var s := ShapeOf(u, it.typ);
      if s.Struct? {
        BodyIsBelow(u, s.schema);
        LeavesAreAccepted(u, Body(u, s.schema), Rank(u, s.schema), path + [it.name], s.schema, l);
      }
    }
  }

  /** After a load, an array of schemas holds the text that the arguments gave last for it, if any. */
  lemma ArrayAfterLoad(u: Unit, root: string, a: Leaf, events: seq<IniEvent>, env: map<string, string>, args: seq<string>)
    requires Ready(u) && NoPrimitiveSchemas(u.prog) && IsDeclared(u.prog, root) && a in RootLeaves(u, root) && IsArrayLeaf(u, a)
    requires Load(u, root, events, env, args).Some?
    ensures Get(Load(u, root, events, env, args).value, ArrayPlace(a))
         == if GivenText(u, root, a, args).Some? then TextArrayOf(GivenText(u, root, a, args).value) else Zero
  {
    BodyIsBelow(u, root);
    LoadIsLayered(u, root, a, events, env, args);
    LeavesAreAccepted(u, Body(u, root), Rank(u, root), [], root, a);
    NoLowerLayers(u, root, a, events, env);
    RootWritesOfLeaf(u, root, a, args);
    assert PrimitiveNamed("int").Some?;
    LastListStays(ParseFrom(RootFlags(u, root), args, 1), a, Zero);
  }

  lemma {:induction false} NoDefault(t: Type, props: seq<Property>)
    requires t.ArrayType? && forall k :: 0 <= k < |props| ==> PropertyAccepted(t, props[k])
    ensures Defaults.FindProperty(props, "default") == None
    decreases |props|
  {
    if props != [] {
      assert PropertyAccepted(t, props[0]);
      assert forall k :: 0 <= k < |props| - 1 ==> props[1..][k] == props[k + 1];
      NoDefault(t, props[1..]);
    }
  }

  lemma {:induction false} ConvertNothing(v: Val, texts: seq<string>)
    ensures ConvertAll(None, v, texts) == v
  {
  }

  lemma NoLowerLayers(u: Unit, root: string, a: Leaf, events: seq<IniEvent>, env: map<string, string>)
    requires IsArrayLeaf(u, a) && ItemAccepted(u.prog, a.field) && NoPrimitiveSchemas(u.prog)
    ensures EnvLayer(a, env, IniLayer(u, root, a, events, DefaultLayer(a, Zero))) == Zero
  {
    NoDefault(TypeOf(u.prog, a.field.typ), a.field.props);
    assert PrimitiveNamed("int").Some? && PrimitiveNamed("string").Some? && PrimitiveNamed("path").Some?;
    assert IniConversion(u, a.field, a.parent) == None;
    ConvertNothing(Zero, IniTexts(root, a, events));
  }

  lemma NoTextNoWrite(u: Unit, root: string, a: Leaf, args: seq<string>)
    requires Ready(u) && IsDeclared(u.prog, root) && a in RootLeaves(u, root) && IsArrayLeaf(u, a)
    requires GivenText(u, root, a, args).None?
    ensures FlagNotGiven(u, root, a, args)
  {
    RootWritesOfLeaf(u, root, a, args);
    var ws := ParseFrom(RootFlags(u, root), args, 1);
    NoLastText(ws, a);
  }

  lemma {:induction false} NoLastText(ws: seq<Write>, a: Leaf)
    requires a.field.Field? && a.field.typ.ArrayOf? && (forall w :: w in ws ==> IsLeafWrite(a, w))
    requires LastText(ws, Names(a.path)).None?
    ensures forall k :: 0 <= k < |ws| ==> ws[k].target != Names(a.path)
    decreases |ws|
  {
    if ws != [] {
      assert IsLeafWrite(a, ws[0]);
      NoLastText(ws[1..], a);
    }
  }

  // ----- Whether the arrays still hold elements -----

  /** No array of schemas below a place holds texts. */
  predicate Intact(u: Unit, items: seq<Item>, r: nat, m: Mem, p: Place)
    requires Ready(u) && Below(u, items, r)
    decreases r, items, 1
  {
    items != [] ==>
      (BelowTail(u, items, r);
       ItemIntact(u, items, r, m, p) && Intact(u, items[1..], r, m, p))
  }

  predicate ItemIntact(u: Unit, items: seq<Item>, r: nat, m: Mem, p: Place)
    requires Ready(u) && Below(u, items, r) && items != []
    decreases r, items, 0
  {
    BelowTail(u, items, r);
    var q := p + [Dot(items[0].name)];
    match items[0]
    case Section(_, inner) => Intact(u, inner, r, m, q)
    case Field(_, t, _) =>
      match ShapeOf(u, t)
      case Scalar => true
      case Struct(sn) => SchemaIntact(u, sn, m, q)
      case StructArray(sn) =>
        if IsList(Get(m, q)) then Tokens(Get(m, q).text, ',') == [] else ElementsIntact(u, sn, m, q, 0)
  }

  predicate SchemaIntact(u: Unit, sn: string, m: Mem, p: Place)
    requires Ready(u) && IsDeclared(u.prog, sn)
    decreases Rank(u, sn), Body(u, sn), 2, 0
  {
    BodyIsBelow(u, sn);
    Intact(u, Body(u, sn), Rank(u, sn), m, p)
  }

  predicate ElementsIntact(u: Unit, sn: string, m: Mem, p: Place, i: nat)
    requires Ready(u) && IsDeclared(u.prog, sn)
    decreases Rank(u, sn), Body(u, sn), 3, Count(m, p) - i
  {
    i < Count(m, p) ==> SchemaIntact(u, sn, m, p + [Elem(i)]) && ElementsIntact(u, sn, m, p, i + 1)
  }

  lemma {:induction false} TidyIsIntact(u: Unit, items: seq<Item>, r: nat, m: Mem, p: Place)
    requires Ready(u) && Below(u, items, r) && ItemsAccepted(u.prog, items) && HasElem(p) && Tidy(u, items, r, m, p)
    ensures Intact(u, items, r, m, p)
    decreases r, items, 2
  {
    if items != [] {
      BelowTail(u, items, r);
      AcceptedTail(u.prog, items);
      TidyTail(u, items, r, m, p);
      TidyIsIntact(u, items[1..], r, m, p);
      TidyItemIsIntact(u, items, r, m, p);
    }
  }

  lemma {:induction false} NotInTail(u: Unit, items: seq<Item>, r: nat, names: seq<string>)
    requires Ready(u) && Below(u, items, r) && names != [] && forall i :: 0 <= i < |items| ==> items[i].name != names[0]
    ensures !IsStructArray(u, items, r, names)
    decreases |items|
  {
    if items != [] {
      BelowTail(u, items, r);
      assert forall i :: 0 <= i < |items| - 1 ==> items[1..][i] == items[i + 1];
      NotInTail(u, items[1..], r, names);
    }
  }

  lemma TidyTail(u: Unit, items: seq<Item>, r: nat, m: Mem, p: Place)
    requires Ready(u) && Below(u, items, r) && ItemsAccepted(u.prog, items) && items != [] && Tidy(u, items, r, m, p)
    ensures Below(u, items[1..], r) && Tidy(u, items[1..], r, m, p)
  {
    BelowTail(u, items, r);
    AcceptedTail(u.prog, items);
    forall q | q in m.vals && IsUnder(q, p) && HasElem(q) && IsList(m.vals[q])
      ensures !IsStructArray(u, items[1..], r, Dots(q[|p|..]))
    {
      var names := Dots(q[|p|..]);
      if names != [] && items[0].name == names[0] {
        NotInTail(u, items[1..], r, names);
      }
    }
  }

  /** The names below a place that extends another by one name, and perhaps an index. */
  lemma DotsBelow(q: Place, p: Place, n: string, more: Place)
    requires IsUnder(q, p + [Dot(n)] + more) && Dots(more) == []
    ensures IsUnder(q, p) && Dots(q[|p|..]) == [n] + Dots(q[|p + [Dot(n)] + more|..])
  {
    var long := p + [Dot(n)] + more;
    assert q == long + q[|long|..];
    assert q[..|p|] == q[..|long|][..|p|] == p;
    assert q[|p|..] == [Dot(n)] + (more + q[|long|..]);
    DotsConcat([Dot(n)], more + q[|long|..]);
    DotsConcat(more, q[|long|..]);
    DotsStep([], Dot(n));
    assert [] + [Dot(n)] == [Dot(n)] && Dots([]) == [];
  }

  lemma {:induction false} TidyItemIsIntact(u: Unit, items: seq<Item>, r: nat, m: Mem, p: Place)
    requires Ready(u) && Below(u, items, r) && ItemsAccepted(u.prog, items) && items != []
    requires HasElem(p) && Tidy(u, items, r, m, p)
    ensures ItemIntact(u, items, r, m, p)
    decreases r, items, 1
  {
    BelowTail(u, items, r);
    AcceptedTail(u.prog, items);
    var n := items[0].name;
    var q := p + [Dot(n)];
    StillHasElem(p, [Dot(n)]);
    match items[0]
    case Section(_, inner) =>
      TidyInside(u, items, r, m, p, inner, r, []);
      assert q + [] == q;
      TidyIsIntact(u, inner, r, m, q);
    case Field(_, t, _) =>
      match ShapeOf(u, t)
      case Scalar =>
      case Struct(sn) =>
        BodyIsBelow(u, sn);
        TidyInside(u, items, r, m, p, Body(u, sn), Rank(u, sn), []);
        assert q + [] == q;
        TidyIsIntact(u, Body(u, sn), Rank(u, sn), m, q);
      case StructArray(sn) =>
        BodyIsBelow(u, sn);
        NoListHere(u, items, r, m, p);
        TidyElements(u, items, r, m, p, sn, 0);
  }

  lemma StillHasElem(p: Place, more: Place)
    requires HasElem(p)
    ensures HasElem(p + more)
  {
    var i :| 0 <= i < |p| && p[i].Elem?;
    assert (p + more)[i].Elem?;
  }

  /** Tidiness carries over to what the first item holds. */
  lemma TidyInside(u: Unit, items: seq<Item>, r: nat, m: Mem, p: Place, inner: seq<Item>, r': nat, more: Place)
    requires Ready(u) && Below(u, items, r) && items != [] && Tidy(u, items, r, m, p) && Below(u, inner, r') && Dots(more) == []
    requires match items[0]
             case Section(_, own) => inner == own && r' == r
             case Field(_, t, _) =>
               match ShapeOf(u, t)
               case Scalar => false
               case Struct(sn) => inner == Body(u, sn) && r' == Rank(u, sn)
               case StructArray(sn) => inner == Body(u, sn) && r' == Rank(u, sn)
    ensures Tidy(u, inner, r', m, p + [Dot(items[0].name)] + more)
  {
    BelowTail(u, items, r);
    var base := p + [Dot(items[0].name)] + more;
    forall q | q in m.vals && IsUnder(q, base) && HasElem(q) && IsList(m.vals[q])
      ensures !IsStructArray(u, inner, r', Dots(q[|base|..]))
    {
      DotsBelow(q, p, items[0].name, more);
      var names := [items[0].name] + Dots(q[|base|..]);
      assert names[0] == items[0].name && names[1..] == Dots(q[|base|..]);
    }
  }

  lemma NoListHere(u: Unit, items: seq<Item>, r: nat, m: Mem, p: Place)
    requires Ready(u) && Below(u, items, r) && items != [] && Tidy(u, items, r, m, p) && HasElem(p)
    requires items[0].Field? && ShapeOf(u, items[0].typ).StructArray?
    ensures !IsList(Get(m, p + [Dot(items[0].name)]))
  {
    BelowTail(u, items, r);
    var n := items[0].name;
    var q := p + [Dot(n)];
    StillHasElem(p, [Dot(n)]);
    assert q + [] == q && q[|q|..] == [];
    DotsBelow(q, p, n, []);
    assert Dots(q[|p|..]) == [n] && [n][1..] == [];
    assert IsStructArray(u, items, r, [n]);
  }

  lemma TidyElement(u: Unit, items: seq<Item>, r: nat, m: Mem, p: Place, sn: string, i: nat)
    requires Ready(u) && Below(u, items, r) && items != [] && Tidy(u, items, r, m, p)
    requires items[0].Field? && ShapeOf(u, items[0].typ) == StructArray(sn) && Below(u, Body(u, sn), Rank(u, sn))
    ensures var e := p + [Dot(items[0].name)] + [Elem(i)]; HasElem(e) && Tidy(u, Body(u, sn), Rank(u, sn), m, e)
  {
    var q := p + [Dot(items[0].name)];
    assert (q + [Elem(i)])[|q|].Elem?;
    DotsStep([], Elem(i));
    assert [] + [Elem(i)] == [Elem(i)] && Dots([]) == [];
    TidyInside(u, items, r, m, p, Body(u, sn), Rank(u, sn), [Elem(i)]);
  }

  lemma {:induction false} TidyElements(u: Unit, items: seq<Item>, r: nat, m: Mem, p: Place, sn: string, i: nat)
    requires Ready(u) && Below(u, items, r) && items != [] && Tidy(u, items, r, m, p) && ItemsAccepted(u.prog, items)
    requires items[0].Field? && ShapeOf(u, items[0].typ) == StructArray(sn) && Rank(u, sn) < r
    ensures ElementsIntact(u, sn, m, p + [Dot(items[0].name)], i)
    decreases r, items, 0, Count(m, p + [Dot(items[0].name)]) - i
  {
    var q := p + [Dot(items[0].name)];
    if i < Count(m, q) {
      BodyIsBelow(u, sn);
      TidyElement(u, items, r, m, p, sn, i);
      TidyIsIntact(u, Body(u, sn), Rank(u, sn), m, q + [Elem(i)]);
      TidyElements(u, items, r, m, p, sn, i + 1);
    }
  }

  /** No flag has put texts into an array of schemas. */
  predicate LeafIntact(u: Unit, l: Leaf, m: Mem) {
    IsArrayLeaf(u, l) && IsList(Get(m, Names(l.path))) ==> Tokens(Get(m, Names(l.path)).text, ',') == []
  }

  lemma {:induction false} RootIsIntactIff(u: Unit, items: seq<Item>, r: nat, path: seq<string>, parent: string, m: Mem)
    requires Ready(u) && Below(u, items, r) && ItemsAccepted(u.prog, items) && Tidy(u, items, r, m, Names(path))
    ensures Intact(u, items, r, m, Names(path)) <==> forall l :: l in Leaves(u, items, r, path, parent) ==> LeafIntact(u, l, m)
    decreases r, items, 1
  {
    if items != [] {
      BelowTail(u, items, r);
      AcceptedTail(u.prog, items);
      TidyTail(u, items, r, m, Names(path));
      RootIsIntactIff(u, items[1..], r, path, parent, m);
      RootItemIsIntactIff(u, items, r, path, parent, m);
    }
  }

  lemma {:induction false} RootItemIsIntactIff(u: Unit, items: seq<Item>, r: nat, path: seq<string>, parent: string, m: Mem)
    requires Ready(u) && Below(u, items, r) && ItemsAccepted(u.prog, items) && Tidy(u, items, r, m, Names(path)) && items != []
    ensures ItemIntact(u, items, r, m, Names(path))
       <==> forall l :: l in ItemLeaves(u, items, r, path, parent) ==> LeafIntact(u, l, m)
    decreases r, items, 0
  {
    BelowTail(u, items, r);
    AcceptedTail(u.prog, items);
    var it, p := items[0], Names(path);
    var path' := path + [it.name];
    NamesAppend(path, it.name);
    assert Names(path') + [] == Names(path');
    match it
    case Section(n, inner) =>
      TidyInside(u, items, r, m, p, inner, r, []);
      RootIsIntactIff(u, inner, r, path', n, m);
    case Field(_, t, _) =>
      match ShapeOf(u, t)
      case Scalar => assert ItemLeaves(u, items, r, path, parent) == [Leaf(path', it, parent)];
      case Struct(sn) =>
        BodyIsBelow(u, sn);
        TidyInside(u, items, r, m, p, Body(u, sn), Rank(u, sn), []);
        RootIsIntactIff(u, Body(u, sn), Rank(u, sn), path', sn, m);
      case StructArray(sn) =>
        var a := Leaf(path', it, parent);
        assert ItemLeaves(u, items, r, path, parent) == [a] && IsArrayLeaf(u, a);
        assert [a][0] == a && a in [a];
        TidyElements(u, items, r, m, p, sn, 0);
  }

  /** The arguments leave some array of schemas with texts for elements. */
  predicate GivesElements(u: Unit, root: string, args: seq<string>)
    requires Ready(u) && IsDeclared(u.prog, root)
  {
    var ls := RootLeaves(u, root);
    exists k :: 0 <= k < |ls| && IsArrayLeaf(u, ls[k]) &&
                  var given := GivenText(u, root, ls[k], args);
                  given.Some? && Tokens(given.value, ',') != []
  }

  /** Only that breaks the arrays of schemas, at whatever depth they lie. */
  lemma LoadIsIntactIff(u: Unit, root: string, events: seq<IniEvent>, env: map<string, string>, args: seq<string>)
    requires Ready(u) && NoPrimitiveSchemas(u.prog) && IsDeclared(u.prog, root) && Load(u, root, events, env, args).Some?
    ensures SchemaIntact(u, root, Load(u, root, events, env, args).value, []) <==> !GivesElements(u, root, args)
  {
    BodyIsBelow(u, root);
    var m, ls := Load(u, root, events, env, args).value, RootLeaves(u, root);
    LoadIsTidy(u, root, events, env, args);
    assert Names([]) == [];
    RootIsIntactIff(u, Body(u, root), Rank(u, root), [], root, m);
    forall k | 0 <= k < |ls| && IsArrayLeaf(u, ls[k])
      ensures LeafIntact(u, ls[k], m) <==>
              !(var given := GivenText(u, root, ls[k], args); given.Some? && Tokens(given.value, ',') != [])
    {
      ArrayAfterLoad(u, root, ls[k], events, env, args);
    }
  }
}
