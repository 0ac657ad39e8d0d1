/** What a successful load says about the languages of the declared patterns. The texts of a program, of an
    environment and of arguments are C strings, so what is loaded holds no terminator. */
module LoadMeaning {
  import opened Schema
  import opened Expansion
  import opened Runtime
  import opened Defaults
  import opened CliEmitter
  import opened Dispatch
  import opened Lifecycle
  import opened ArrayFlags
  import opened IniPlaces
  import opened Validator
  import opened PatternReadings
  import opened Loading

  predicate IsC(s: string) {
    RegexSyntax.NulFree(s)
  }

  // ----- The texts of a program -----

  predicate PropsAreC(props: seq<Property>) {
    forall k :: 0 <= k < |props| && props[k].value.Plain? && props[k].value.lit.StringLit? ==> IsC(props[k].value.lit.text)
  }

  predicate ItemIsC(it: Item)
    decreases it
  {
    match it
    case Field(_, _, props) => PropsAreC(props)
    case Section(_, inner) => ItemsAreC(inner)
  }

  predicate ItemsAreC(items: seq<Item>)
    decreases items
  {
    forall i :: 0 <= i < |items| ==> ItemIsC(items[i])
  }

  predicate ProgramIsC(prog: Program) {
    forall i :: 0 <= i < |prog| ==> ItemsAreC(prog[i].items)
  }

  lemma BodyIsC(u: Unit, sn: string)
    requires ProgramIsC(u.prog) && IsDeclared(u.prog, sn)
    ensures ItemsAreC(Body(u, sn))
  {
    var i := FindSchemaIndex(u.prog, sn);
  }

  lemma {:induction false} LeavesAreC(u: Unit, items: seq<Item>, r: nat, path: seq<string>, parent: string)
    requires Ready(u) && Below(u, items, r) && ProgramIsC(u.prog) && ItemsAreC(items)
    ensures forall l :: l in Leaves(u, items, r, path, parent) ==> ItemIsC(l.field)
    decreases r, items
  {
    if items != [] {
      BelowTail(u, items, r);
      var it, rest := items[0], items[1..];
      assert ItemIsC(it) && forall i :: 0 <= i < |rest| ==> rest[i] == items[i + 1];
      LeavesAreC(u, rest, r, path, parent);
      if it.Section? {
        LeavesAreC(u, it.items, r, path + [it.name], it.name);
      } else {
        var s := ShapeOf(u, it.typ);
        if s.Struct? {
          BodyIsBelow(u, s.schema);
          BodyIsC(u, s.schema);
          LeavesAreC(u, Body(u, s.schema), Rank(u, s.schema), path + [it.name], s.schema);
        }
      }
    }
  }

  // ----- The texts in memory -----

  predicate ValIsC(v: Val) {
    v.TextOf? ==> IsC(v.text)
  }

  ghost predicate MemIsC(m: Mem) {
    forall q :: q in m.vals ==> ValIsC(m.vals[q])
  }

  lemma {:induction false} FoundInProps(props: seq<Property>, name: string)
    ensures FindProperty(props, name).Some? ==> FindProperty(props, name).value in props
    decreases |props|
  {
    if props != [] {
      FoundInProps(props[1..], name);
    }
  }

  lemma {:induction false} InitsAreC(m: Mem, base: Place, ls: seq<Leaf>)
    requires MemIsC(m) && forall l :: l in ls ==> ItemIsC(l.field)
    ensures MemIsC(RunInits(m, base, LeafInits(ls)))
    decreases |ls|
  {
    if ls != [] {
      var own := LeafInit(ls[0]);
      InitsTurn(m, base, ls);
      InitIsC(ls[0]);
      assert forall l :: l in ls[1..] ==> l in ls;
      InitsAreC(if own == [] then m else RunInit(m, base, own[0]), base, ls[1..]);
    }
  }

  lemma InitIsC(l: Leaf)
    requires ItemIsC(l.field)
    ensures var own := LeafInit(l); own != [] && own[0].value.SetTo? ==> ValIsC(own[0].value.v)
  {
    if l.field.Field? {
      FoundInProps(l.field.props, "default");
    }
  }

  lemma {:induction false} SchemaInitsAreC(u: Unit, m: Mem, base: Place, sn: string)
    requires Ready(u) && IsDeclared(u.prog, sn) && ProgramIsC(u.prog) && MemIsC(m)
    ensures MemIsC(RunInits(m, base, SchemaInits(u, sn)))
  {
    BodyIsBelow(u, sn);
    BodyIsC(u, sn);
    LeavesAreC(u, Body(u, sn), Rank(u, sn), [], sn);
    DefaultsFollowLeaves(u, Body(u, sn), Rank(u, sn), [], sn);
    InitsAreC(m, base, RootLeaves(u, sn));
  }

  lemma AssignIsC(m: Mem, p: Place, c: Conversion, text: string)
    requires MemIsC(m) && IsC(text)
    ensures MemIsC(Assign(m, p, c, text))
  {
  }

  ghost predicate EventsAreC(events: seq<IniEvent>) {
    forall k :: 0 <= k < |events| && events[k].event.Line? ==> IsC(events[k].event.val)
  }

  lemma {:induction false} EventIsC(u: Unit, root: string, e: IniEvent, m: Mem)
    requires Ready(u) && IsDeclared(u.prog, root) && ProgramIsC(u.prog) && MemIsC(m)
    requires e.event.Line? ==> IsC(e.event.val)
    ensures var o := IniHandler(u, root, e.section, e.event, m); !o.Undefined? ==> MemIsC(o.m)
  {
    HandlerIsAWalk(u, root, e.section, e.event, m);
    var t := IniWalk(u, root, e.section, e.event, m);
    if t.FieldAt? && e.event.Line? {
      AssignIsC(m, t.place, t.conv, e.event.val);
    } else if t.NewElement? && IsDeclared(u.prog, t.schema) {
      var n := Count(m, t.place);
      var cleared := Clear(m, t.place + [Elem(n)]);
      SchemaInitsAreC(u, cleared.(counts := cleared.counts[t.place := n + 1]), t.place + [Elem(n)], t.schema);
    }
  }

  lemma {:induction false} RunIsC(u: Unit, root: string, events: seq<IniEvent>, m: Mem)
    requires Ready(u) && IsDeclared(u.prog, root) && ProgramIsC(u.prog) && MemIsC(m)
    requires EventsAreC(events) && RunEvents(u, root, events, m).Some?
    ensures MemIsC(RunEvents(u, root, events, m).value)
    decreases |events|
  {
    if events != [] {
      EventIsC(u, root, events[0], m);
      RunIsC(u, root, events[1..], IniHandler(u, root, events[0].section, events[0].event, m).m);
    }
  }

  lemma {:induction false} OverridesAreC(m: Mem, os: seq<Override>, env: map<string, string>)
    requires MemIsC(m) && forall n :: n in env ==> IsC(env[n])
    ensures MemIsC(RunOverrides(m, os, env))
    decreases |os|
  {
    if os != [] {
      OverridesAreC(RunOverride(m, os[0], env), os[1..], env);
    }
  }

  predicate WriteIsC(w: Write) {
    w.FromText? ==> IsC(w.text)
  }

  lemma {:induction false} ActionIsC(chain: seq<FlagTest>, args: seq<string>, i: nat)
    requires i < |args| && forall k :: 0 <= k < |args| ==> IsC(args[k])
    ensures var w := ParseArg(chain, args, i).write; w.Some? ==> WriteIsC(w.value)
    decreases |chain|
  {
    if chain != [] {
      ActionIsC(chain[1..], args, i);
      assert IsC(args[i]);
    }
  }

  lemma {:induction false} WritesAreC(chain: seq<FlagTest>, args: seq<string>, i: nat)
    requires forall k :: 0 <= k < |args| ==> IsC(args[k])
    ensures forall k :: 0 <= k < |ParseFrom(chain, args, i)| ==> WriteIsC(ParseFrom(chain, args, i)[k])
    decreases |args| - i
  {
    if i < |args| {
      if args[i] == "" || args[i][0] != '-' {
        WritesAreC(chain, args, i + 1);
      } else {
        ActionIsC(chain, args, i);
        WritesAreC(chain, args, ParseArg(chain, args, i).i + 1);
      }
    }
  }

  lemma {:induction false} PerformedIsC(m: Mem, ws: seq<Write>)
    requires MemIsC(m) && forall k :: 0 <= k < |ws| ==> WriteIsC(ws[k])
    ensures MemIsC(PerformAll(m, ws))
    decreases |ws|
  {
    if ws != [] {
      assert WriteIsC(ws[0]);
      PerformedIsC(Perform(m, ws[0]), ws[1..]);
    }
  }

  /** The texts around a load are C strings. The file may hold anything. */
  ghost predicate AllC(u: Unit, env: map<string, string>, args: seq<string>) {
    ProgramIsC(u.prog) && (forall n :: n in env ==> IsC(env[n])) && forall k :: 0 <= k < |args| ==> IsC(args[k])
  }

  lemma FileIsC(file: File)
    ensures EventsAreC(EventsIn(file))
  {
    if file.Contents? {
      IniFile.AssignedTextsFitALine("", file.text);
    }
  }

  lemma LoadIsC(u: Unit, root: string, file: File, env: map<string, string>, args: seq<string>)
    requires Ready(u) && IsDeclared(u.prog, root) && AllC(u, env, args) && Load(u, root, EventsIn(file), env, args).Some?
    ensures MemIsC(Load(u, root, EventsIn(file), env, args).value)
  {
    SchemaInitsAreC(u, EMPTY, [], root);
    FileIsC(file);
    var start := RunInits(EMPTY, [], SchemaInits(u, root));
    RunIsC(u, root, EventsIn(file), start);
    var m1 := RunEvents(u, root, EventsIn(file), start).value;
    OverridesAreC(m1, RootOverrides(u, root), env);
    WritesAreC(RootFlags(u, root), args, 1);
    PerformedIsC(RunOverrides(m1, RootOverrides(u, root), env), ParseFrom(RootFlags(u, root), args, 1));
  }

  // ----- The texts that the validator sees -----

  ghost predicate BindingsAreC(bs: seq<Binding>) {
    forall b :: b in bs ==> TextsNulFree(b.value)
  }

  lemma BindingsCons(b: Binding, rest: seq<Binding>)
    requires TextsNulFree(b.value) && BindingsAreC(rest)
    ensures BindingsAreC([b] + rest)
  {
  }

  lemma {:induction false} BlockIsC(u: Unit, lib: Library, items: seq<Item>, r: nat, m: Mem, p: Place)
    requires Ready(u) && Below(u, items, r) && MemIsC(m)
    ensures BindingsAreC(BlockData(u, lib, items, r, m, p))
    decreases r, items, 1
  {
    if items != [] {
      BelowTail(u, items, r);
      ItemDataIsC(u, lib, items, r, m, p);
      BlockIsC(u, lib, items[1..], r, m, p);
      var rest := BlockData(u, lib, items[1..], r, m, p);
      var bs := BlockData(u, lib, items, r, m, p);
      assert bs == [Binding(items[0].name, ItemData(u, lib, items, r, m, p))] + rest;
      BindingsCons(bs[0], rest);
    }
  }

  lemma {:induction false} ItemDataIsC(u: Unit, lib: Library, items: seq<Item>, r: nat, m: Mem, p: Place)
    requires Ready(u) && Below(u, items, r) && items != [] && MemIsC(m)
    ensures TextsNulFree(ItemData(u, lib, items, r, m, p))
    decreases r, items, 0
  {
    BelowTail(u, items, r);
    var q := p + [Dot(items[0].name)];
    match items[0]
    case Section(_, inner) =>
      BlockIsC(u, lib, inner, r, m, q);
      StructIsC(BlockData(u, lib, inner, r, m, q));
    case Field(_, t, _) =>
      match ShapeOf(u, t)
      case Scalar => FieldIsC(lib, t, Get(m, q));
      case Struct(sn) => SchemaDataIsC(u, lib, sn, m, q);
      case StructArray(sn) =>
        FieldIsC(lib, t, Get(m, q));
        ElementsAreC(u, lib, sn, m, q, 0);
  }

  lemma FieldIsC(lib: Library, t: TypeExpr, v: Val)
    requires ValIsC(v)
    ensures TextsNulFree(FieldData(lib, t, v))
  {
  }

  lemma {:induction false} SchemaDataIsC(u: Unit, lib: Library, sn: string, m: Mem, p: Place)
    requires Ready(u) && IsDeclared(u.prog, sn) && MemIsC(m)
    ensures TextsNulFree(SchemaData(u, lib, sn, m, p))
    decreases Rank(u, sn), Body(u, sn), 2, 0
  {
    BodyIsBelow(u, sn);
    BlockIsC(u, lib, Body(u, sn), Rank(u, sn), m, p);
    StructIsC(BlockData(u, lib, Body(u, sn), Rank(u, sn), m, p));
  }

  lemma StructIsC(bs: seq<Binding>)
    requires BindingsAreC(bs)
    ensures TextsNulFree(StructValue(bs))
  {
    assert forall i :: 0 <= i < |bs| ==> bs[i] in bs;
  }

  lemma {:induction false} ElementsAreC(u: Unit, lib: Library, sn: string, m: Mem, p: Place, i: nat)
    requires Ready(u) && IsDeclared(u.prog, sn) && MemIsC(m)
    ensures forall k :: 0 <= k < |ElementsData(u, lib, sn, m, p, i)| ==> TextsNulFree(ElementsData(u, lib, sn, m, p, i)[k])
    decreases Rank(u, sn), Body(u, sn), 3, Count(m, p) - i
  {
    if i < Count(m, p) {
      SchemaDataIsC(u, lib, sn, m, p + [Elem(i)]);
      ElementsAreC(u, lib, sn, m, p, i + 1);
    }
  }

  // ----- What a load promises -----

  /** A load that succeeds leaves a configuration that violates nothing the schema declares but conditions on
      texts: every present text with a pattern is in the language of the pattern. */
  lemma SuccessMeetsTheSchema(u: Unit, w: World, lib: Library, root: string, file: File, env: map<string, string>,
                              args: seq<string>, m: Mem)
    requires Ready(u) && IsDeclared(u.prog, root) && NoPrimitiveSchemas(u.prog) && AllC(u, env, args)
    requires LoadStatus(u, w, lib, root, file, env, args) == Some(Success(m))
    ensures forall x :: x in ViolationsOf(u, Declared(w), lib, root, m) ==> V.OfTextCondition(x)
  {
    LoadSucceedsIff(u, w, lib, root, file, env, args, m);
    LoadIsC(u, root, file, env, args);
    SchemaDataIsC(u, lib, root, m, []);
    EmittedIsStricter(w);
    BodyIsBelow(u, root);
    BlockWithin(u, Emitted(w), Declared(w), Body(u, root), Rank(u, root), SchemaData(u, lib, root, m, []));
  }

  /** Where every pattern is one that the compiler gets exactly right, a load succeeds if and only if the file
      opens, no line is malformed, no argument puts texts into an array of schemas, and the layered
      configuration violates nothing that the schema declares but conditions on texts. */
  lemma ExactLoadSucceedsIff(u: Unit, w: World, lib: Library, root: string, file: File, env: map<string, string>,
                             args: seq<string>, m: Mem)
    requires Ready(u) && IsDeclared(u.prog, root) && NoPrimitiveSchemas(u.prog) && AllC(u, env, args) && ProgramIsExact(u.prog)
    ensures LoadStatus(u, w, lib, root, file, env, args) == Some(Success(m)) <==>
            && file != Unreadable && !IniFile.AnyError(LinesOf(file)) && !GivesElements(u, root, args)
            && Load(u, root, EventsIn(file), env, args) == Some(m)
            && forall x :: x in ViolationsOf(u, Declared(w), lib, root, m) ==> V.OfTextCondition(x)
  {
    LoadSucceedsIff(u, w, lib, root, file, env, args, m);
    if Load(u, root, EventsIn(file), env, args) == Some(m) {
      LoadIsC(u, root, file, env, args);
      SchemaDataIsC(u, lib, root, m, []);
      ExactProgramReadsTheSame(u, w, root, SchemaData(u, lib, root, m, []));
    }
  }

  /** One field of it: after a load that succeeds, the text that the layers give a field with a pattern is in
      the language of that pattern. */
  lemma LoadedTextIsInLanguage(u: Unit, w: World, lib: Library, root: string, file: File, env: map<string, string>,
                               args: seq<string>, m: Mem, l: Leaf, k: nat, p: RegexSyntax.Pattern, text: string)
    requires Ready(u) && IsDeclared(u.prog, root) && NoPrimitiveSchemas(u.prog) && AllC(u, env, args)
    requires LoadStatus(u, w, lib, root, file, env, args) == Some(Success(m))
    requires l in RootLeaves(u, root) && l.field.Field? && ShapeOf(u, l.field.typ).Scalar? && k < |l.field.props|
    requires RegexSyntax.WellFormed(p) && IsPattern(l.field.props[k], RegexSyntax.Render(p))
    requires FieldData(lib, l.field.typ,
                       CliLayer(Names(l.path), ParseFrom(RootFlags(u, root), args, 1),
                         EnvLayer(l, env, IniLayer(u, root, l, EventsIn(file), DefaultLayer(l, Zero)))))
          == TextValue(Some(text))
    ensures RegexSyntax.InLanguage(p, text)
  {
    SuccessMeetsTheSchema(u, w, lib, root, file, env, args, m);
    LoadSucceedsIff(u, w, lib, root, file, env, args, m);
    ValidatorSeesTheLayers(u, lib, root, l, EventsIn(file), env, args);
    MeansItsLanguage(p, text);
    RootMismatchIsListed(u, Declared(w), root, l, k, RegexSyntax.Render(p), text, SchemaData(u, lib, root, m, []));
    assert !V.OfTextCondition(Violation(l.field.name, PatternMismatch));
  }
}
