/** `X_load`: defaults, then the INI file, then the environment, then the command line. */
module Lifecycle {
  import opened Schema
  import opened Expansion
  import opened Runtime
  import opened Defaults
  import opened IniEmitter
  import opened CliEmitter
  import opened Dispatch

  /** A callback of the INI parser: the current section and what was read. */
  datatype IniEvent = IniEvent(section: string, event: Event)

  /** `None`: the behaviour is undefined. */
  function RunEvents(u: Unit, root: string, events: seq<IniEvent>, m: Mem): Option<Mem>
    requires Ready(u) && IsDeclared(u.prog, root)
    decreases events
  {
    if events == [] then Some(m)
    else
      match IniHandler(u, root, events[0].section, events[0].event, m)
      case Undefined => None
      case Running(m') => RunEvents(u, root, events[1..], m')
      case Returned(m') => RunEvents(u, root, events[1..], m')
  }

  function RunOverride(m: Mem, o: Override, env: map<string, string>): Mem {
    if o.variable in env && o.conv.Some? then Assign(m, Names(o.path), o.conv.value, env[o.variable]) else m
  }

  function RunOverrides(m: Mem, os: seq<Override>, env: map<string, string>): Mem
    decreases os
  {
    if os == [] then m else RunOverrides(RunOverride(m, os[0], env), os[1..], env)
  }

  function RootOverrides(u: Unit, root: string): seq<Override>
    requires Ready(u) && IsDeclared(u.prog, root)
  {
    BodyIsBelow(u, root);
    EnvOverrides(u, Body(u, root), Rank(u, root), [])
  }

  function Load(u: Unit, root: string, events: seq<IniEvent>, env: map<string, string>, args: seq<string>): Option<Mem>
    requires Ready(u) && IsDeclared(u.prog, root)
  {
    var afterIni := RunEvents(u, root, events, RunInits(EMPTY, [], SchemaInits(u, root)));
    if afterIni.None? then None
    else Some(ParseCli(RootFlags(u, root), args, RunOverrides(afterIni.value, RootOverrides(u, root), env)))
  }

  /** After `memset` and the initialisers. */
  method StartConfig(u: Unit, root: string) returns (cfg: Mem)
    requires Ready(u) && IsDeclared(u.prog, root)
    ensures cfg == RunInits(EMPTY, [], SchemaInits(u, root))
  {
    cfg := EMPTY;
    var inits := SchemaInits(u, root);
    var i := 0;
    while i < |inits|
      invariant 0 <= i <= |inits|
      invariant RunInits(cfg, [], inits[i..]) == RunInits(EMPTY, [], inits)
    {
      assert inits[i..][0] == inits[i] && inits[i..][1..] == inits[i + 1..];
      cfg := RunInit(cfg, [], inits[i]);
      i := i + 1;
    }
  }

  /** The callbacks of the INI parser, one after the other. */
  method HandleEvents(u: Unit, root: string, events: seq<IniEvent>, start: Mem) returns (cfg: Option<Mem>)
    requires Ready(u) && IsDeclared(u.prog, root)
    ensures cfg == RunEvents(u, root, events, start)
  {
    var m := start;
    var i := 0;
    while i < |events|
      invariant 0 <= i <= |events|
      invariant RunEvents(u, root, events[i..], m) == RunEvents(u, root, events, start)
    {
      assert events[i..][0] == events[i] && events[i..][1..] == events[i + 1..];
      var o := IniHandler(u, root, events[i].section, events[i].event, m);
      if o.Undefined? {
        return None;
      }
      m := o.m;
      i := i + 1;
    }
    cfg := Some(m);
  }

  /** The environment and the command line. */
  method OverrideConfig(u: Unit, root: string, start: Mem, env: map<string, string>, args: seq<string>) returns (cfg: Mem)
    requires Ready(u) && IsDeclared(u.prog, root)
    ensures cfg == ParseCli(RootFlags(u, root), args, RunOverrides(start, RootOverrides(u, root), env))
  {
    cfg := start;
    var overrides := RootOverrides(u, root);
    var i := 0;
    while i < |overrides|
      invariant 0 <= i <= |overrides|
      invariant RunOverrides(cfg, overrides[i..], env) == RunOverrides(start, overrides, env)
    {
      assert overrides[i..][0] == overrides[i] && overrides[i..][1..] == overrides[i + 1..];
      cfg := RunOverride(cfg, overrides[i], env);
      i := i + 1;
    }
    cfg := RunCli(RootFlags(u, root), args, cfg);
  }

  /** The generated loader: it keeps overwriting one configuration. */
  method LoadConfig(u: Unit, root: string, events: seq<IniEvent>, env: map<string, string>, args: seq<string>)
    returns (cfg: Option<Mem>)
    requires Ready(u) && IsDeclared(u.prog, root)
    ensures cfg == Load(u, root, events, env, args)
  {
    var m := StartConfig(u, root);
    cfg := HandleEvents(u, root, events, m);
    if cfg.Some? {
      m := OverrideConfig(u, root, cfg.value, env, args);
      cfg := Some(m);
    }
  }

  // ----- One leaf, layer by layer -----

  /** The default of a leaf, over what the memory held. */
  function DefaultLayer(l: Leaf, v: Val): Val {
    if l.field.Section? then v
    else
      var d := DefaultValue(l.field, l.parent);
      if d.None? then v
      else
        match d.value
        case SetTo(x) => x
        case ParseIpv4(t) => Ipv4Of(v, t)
  }

  /** The line is addressed to the leaf. */
  predicate Addressed(root: string, l: Leaf, e: IniEvent) {
    && l.path != [] && e.event.Line?
    && HandlerParts(e.section) == [root] + l.path[..|l.path| - 1]
    && e.event.key == l.path[|l.path| - 1]
  }

  /** The values of the lines addressed to the leaf, in order. */
  function IniTexts(root: string, l: Leaf, events: seq<IniEvent>): seq<string> {
    if events == [] then []
    else (if Addressed(root, l, events[0]) then [events[0].event.val] else []) + IniTexts(root, l, events[1..])
  }

  function ConvertAll(c: Option<Conversion>, v: Val, texts: seq<string>): Val
    decreases texts
  {
    if texts == [] || c.None? then v else ConvertAll(c, Convert(c.value, v, texts[0]), texts[1..])
  }

  function IniLayer(u: Unit, root: string, l: Leaf, events: seq<IniEvent>, v: Val): Val {
    if l.field.Section? then v
    else ConvertAll(IniConversion(u, l.field, l.parent), v, IniTexts(root, l, events))
  }

  function EnvLayer(l: Leaf, env: map<string, string>, v: Val): Val {
    var o := LeafOverride(l);
    if o != [] && o[0].variable in env && o[0].conv.Some? then Convert(o[0].conv.value, v, env[o[0].variable]) else v
  }

  function PerformOn(v: Val, p: Place, w: Write): Val {
    if w.target != p then v
    else
      match w
      case SetTrue(_) => Truth(true)
      case FromText(_, c, t) => if c.Some? then Convert(c.value, v, t) else v
  }

  function CliLayer(p: Place, ws: seq<Write>, v: Val): Val
    decreases ws
  {
    if ws == [] then v else CliLayer(p, ws[1..], PerformOn(v, p, ws[0]))
  }

  lemma {:induction false} CliOnPlace(m: Mem, ws: seq<Write>, p: Place)
    ensures Get(PerformAll(m, ws), p) == CliLayer(p, ws, Get(m, p))
    decreases |ws|
  {
    if ws != [] {
      CliOnPlace(Perform(m, ws[0]), ws[1..], p);
    }
  }

  // Environment

  lemma {:induction false} OverridesOnOther(m: Mem, ls: seq<Leaf>, env: map<string, string>, path: seq<string>)
    requires forall i :: 0 <= i < |ls| ==> ls[i].path != path
    ensures Get(RunOverrides(m, LeafOverrides(ls), env), Names(path)) == Get(m, Names(path))
    decreases |ls|
  {
    if ls != [] {
      var own := LeafOverride(ls[0]);
      if own == [] {
        assert own + LeafOverrides(ls[1..]) == LeafOverrides(ls[1..]);
        OverridesOnOther(m, ls[1..], env, path);
      } else {
        if Names(ls[0].path) == Names(path) {
          NamesInjective(ls[0].path, path);
        }
        assert LeafOverrides(ls)[1..] == LeafOverrides(ls[1..]);
        OverridesOnOther(RunOverride(m, own[0], env), ls[1..], env, path);
      }
    }
  }

  lemma {:induction false} OverridesOnLeaf(m: Mem, ls: seq<Leaf>, env: map<string, string>, k: nat)
    requires k < |ls| && DistinctPaths(ls)
    ensures Get(RunOverrides(m, LeafOverrides(ls), env), Names(ls[k].path)) == EnvLayer(ls[k], env, Get(m, Names(ls[k].path)))
    decreases |ls|
  {
    var own := LeafOverride(ls[0]);
    var m' := if own == [] then m else RunOverride(m, own[0], env);
    assert RunOverrides(m, LeafOverrides(ls), env) == RunOverrides(m', LeafOverrides(ls[1..]), env) by {
      if own == [] {
        assert own + LeafOverrides(ls[1..]) == LeafOverrides(ls[1..]);
      } else {
        assert LeafOverrides(ls)[1..] == LeafOverrides(ls[1..]);
      }
    }
    if k == 0 {
      OverridesOnOther(m', ls[1..], env, ls[0].path);
    } else {
      if Names(ls[0].path) == Names(ls[k].path) {
        NamesInjective(ls[0].path, ls[k].path);
      }
      OverridesOnLeaf(m', ls[1..], env, k - 1);
    }
  }

  // Defaults

  lemma {:induction false} InitsOnOther(m: Mem, base: Place, ls: seq<Leaf>, path: seq<string>)
    requires forall i :: 0 <= i < |ls| ==> ls[i].path != path
    ensures Get(RunInits(m, base, LeafInits(ls)), base + Names(path)) == Get(m, base + Names(path))
    decreases |ls|
  {
    if ls != [] {
      var own := LeafInit(ls[0]);
      if own == [] {
        assert own + LeafInits(ls[1..]) == LeafInits(ls[1..]);
        InitsOnOther(m, base, ls[1..], path);
      } else {
        BelowInjective(base, ls[0].path, path);
        assert LeafInits(ls)[1..] == LeafInits(ls[1..]);
        InitsOnOther(RunInit(m, base, own[0]), base, ls[1..], path);
      }
    }
  }

  lemma BelowInjective(base: Place, p: seq<string>, q: seq<string>)
    ensures base + Names(p) == base + Names(q) ==> p == q
  {
    if base + Names(p) == base + Names(q) {
      assert (base + Names(p))[|base|..] == Names(p) && (base + Names(q))[|base|..] == Names(q);
      NamesInjective(p, q);
    }
  }

  lemma InitsTurn(m: Mem, base: Place, ls: seq<Leaf>)
    requires ls != []
    ensures var own := LeafInit(ls[0]);
            (RunInits(m, base, LeafInits(ls))
              == RunInits(if own == [] then m else RunInit(m, base, own[0]), base, LeafInits(ls[1..])))
  {
    var own := LeafInit(ls[0]);
    if own == [] {
      assert own + LeafInits(ls[1..]) == LeafInits(ls[1..]);
    } else {
      assert LeafInits(ls)[1..] == LeafInits(ls[1..]);
    }
  }

  lemma {:induction false} InitsOnLeaf(m: Mem, base: Place, ls: seq<Leaf>, k: nat)
    requires k < |ls| && DistinctPaths(ls)
    ensures var p := base + Names(ls[k].path);
            Get(RunInits(m, base, LeafInits(ls)), p) == DefaultLayer(ls[k], Get(m, p))
    decreases |ls|
  {
    var own := LeafInit(ls[0]);
    var m' := if own == [] then m else RunInit(m, base, own[0]);
    InitsTurn(m, base, ls);
    if k == 0 {
      InitsOnOther(m', base, ls[1..], ls[0].path);
    } else {
      BelowInjective(base, ls[0].path, ls[k].path);
      InitsOnLeaf(m', base, ls[1..], k - 1);
    }
  }

  // INI

  lemma {:induction false} NamesNotUnderElement(path: seq<string>, a: Place, n: int)
    ensures !IsUnder(Names(path), a + [Elem(n)])
  {
    if |a| < |path| {
      assert Names(path)[..|a| + 1][|a|] == Dot(path[|a|]);
    }
  }

  lemma PathIsParts(path: seq<string>, parts: seq<string>, key: string)
    requires path == parts + [key]
    ensures path[..|path| - 1] == parts && path[|path| - 1] == key
  {
  }

  /** Only a line for the leaf is written to its place. */
  lemma {:induction false} WrittenLeafIsAddressed(u: Unit, root: string, l: Leaf, e: IniEvent, m: Mem)
    requires Ready(u) && IsDeclared(u.prog, root) && l.path != []
    ensures var t := IniWalk(u, root, e.section, e.event, m);
            t.FieldAt? && t.place == Names(l.path) ==> Addressed(root, l, e)
  {
    BodyIsBelow(u, root);
    var t, parts := IniWalk(u, root, e.section, e.event, m), HandlerParts(e.section);
    if t.FieldAt? && t.place == Names(l.path) {
      WalkKeepsNames(u, Body(u, root), Rank(u, root), parts[1..], e.event, m, [], root);
      DotsOfNames([], l.path);
      assert [] + Names(l.path) == Names(l.path);
      assert Dots([]) == [] && parts == [root] + parts[1..];
      assert Dots(t.place) == l.path == parts[1..] + [e.event.key];
      PathIsParts(l.path, parts[1..], e.event.key);
    }
  }

  /** Appending an element elsewhere leaves the leaf alone. */
  lemma AppendKeepsLeaf(u: Unit, l: Leaf, p: Place, sn: string, m: Mem)
    requires Ready(u) && IsDeclared(u.prog, sn)
    ensures Get(Runtime.Append(m, p, SchemaInits(u, sn)), Names(l.path)) == Get(m, Names(l.path))
  {
    NamesNotUnderElement(l.path, p, Count(m, p));
    AppendIsLocal(m, p, SchemaInits(u, sn), Names(l.path));
  }

  /** One event changes a leaf exactly when it is a line addressed to it. */
  lemma {:induction false} EventOnLeaf(u: Unit, root: string, l: Leaf, e: IniEvent, m: Mem)
    requires Ready(u) && IsDeclared(u.prog, root) && l in RootLeaves(u, root)
    ensures l.path != [] && l.field.Field?
    ensures var o := IniHandler(u, root, e.section, e.event, m);
            !o.Undefined? ==>
              Get(o.m, Names(l.path))
              == if Addressed(root, l, e)
                 then ConvertAll(IniConversion(u, l.field, l.parent), Get(m, Names(l.path)), [e.event.val])
                 else Get(m, Names(l.path))
  {
    BodyIsBelow(u, root);
    LeafIsReached(u, Body(u, root), Rank(u, root), [], root, l, "", m, []);
    var t := IniWalk(u, root, e.section, e.event, m);
    HandlerIsAWalk(u, root, e.section, e.event, m);
    WrittenLeafIsAddressed(u, root, l, e, m);
    if Addressed(root, l, e) {
      PartsReachLeaf(u, root, l, e.section, e.event.val, m);
      assert [] + Names(l.path[0..]) == Names(l.path);
      assert [e.event.val][1..] == [];
    } else if t.NewElement? {
      AppendKeepsLeaf(u, l, t.place, t.schema, m);
    }
  }

  lemma {:induction false} EventsOnLeaf(u: Unit, root: string, l: Leaf, events: seq<IniEvent>, m: Mem)
    requires Ready(u) && IsDeclared(u.prog, root) && l in RootLeaves(u, root)
    requires RunEvents(u, root, events, m).Some?
    ensures Get(RunEvents(u, root, events, m).value, Names(l.path))
         == IniLayer(u, root, l, events, Get(m, Names(l.path)))
    decreases |events|
  {
    if events != [] {
      var o := IniHandler(u, root, events[0].section, events[0].event, m);
      EventOnLeaf(u, root, l, events[0], m);
      EventsOnLeaf(u, root, l, events[1..], o.m);
      var texts := IniTexts(root, l, events[1..]);
      if Addressed(root, l, events[0]) {
        var t := events[0].event.val;
        assert ([t] + texts)[0] == t && ([t] + texts)[1..] == texts && [t][1..] == [];
      } else {
        assert [] + texts == texts;
      }
    }
  }

  /** Layered loading. After a load, a leaf holds its default, overridden by the INI lines
      addressed to it, then by its environment variable, then by its command line writes; no
      other line, header, variable or argument shows. */
  lemma {:induction false} LoadIsLayered(u: Unit, root: string, l: Leaf, events: seq<IniEvent>,
                                         env: map<string, string>, args: seq<string>)
    requires Ready(u) && IsDeclared(u.prog, root) && l in RootLeaves(u, root)
    requires Load(u, root, events, env, args).Some?
    ensures Get(Load(u, root, events, env, args).value, Names(l.path))
         == CliLayer(Names(l.path), ParseFrom(RootFlags(u, root), args, 1),
              EnvLayer(l, env, IniLayer(u, root, l, events, DefaultLayer(l, Zero))))
  {
    BodyIsBelow(u, root);
    var body, rank, ls := Body(u, root), Rank(u, root), RootLeaves(u, root);
    var k :| 0 <= k < |ls| && ls[k] == l;
    LeavesAreDistinct(u, body, rank, [], root);
    DefaultsFollowLeaves(u, body, rank, [], root);
    OverridesFollowLeaves(u, body, rank, [], root);
    var m0 := RunInits(EMPTY, [], DefaultInits(u, body, rank, [], root));
    InitsOnLeaf(EMPTY, [], ls, k);
    assert [] + Names(l.path) == Names(l.path);
    EventsOnLeaf(u, root, l, events, m0);
    var m1 := RunEvents(u, root, events, m0).value;
    OverridesOnLeaf(m1, ls, env, k);
    var m2 := RunOverrides(m1, EnvOverrides(u, body, rank, []), env);
    CliOnPlace(m2, ParseFrom(RootFlags(u, root), args, 1), Names(l.path));
  }
}
