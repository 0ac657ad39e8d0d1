/** Corollary of layered loading, for every leaf: the last write that has an effect is what the program
    sees, whichever layer it comes from; texts that do not write leave the layers below visible. */
module LastWriter {
  import opened Schema
  import opened Expansion
  import opened Runtime
  import opened Defaults
  import opened IniEmitter
  import opened CliEmitter
  import opened Dispatch
  import opened Lifecycle

  // ----- Writes with an effect -----

  /** A write with an effect: a flag without a value, or a converted text. */
  datatype Update = On | Given(conv: Conversion, text: string)

  /** An enum only takes its members; every other text writes something. */
  predicate Writes(c: Conversion, text: string) {
    c.ToEnum? ==> text in c.members
  }

  function UpdateOf(c: Option<Conversion>, text: string): seq<Update> {
    if c.Some? && Writes(c.value, text) then [Given(c.value, text)] else []
  }

  function UpdatesOf(c: Option<Conversion>, texts: seq<string>): seq<Update> {
    if texts == [] then [] else UpdateOf(c, texts[0]) + UpdatesOf(c, texts[1..])
  }

  function IniUpdates(u: Unit, root: string, l: Leaf, events: seq<IniEvent>): seq<Update>
    requires l.field.Field?
  {
    UpdatesOf(IniConversion(u, l.field, l.parent), IniTexts(root, l, events))
  }

  function EnvUpdates(l: Leaf, env: map<string, string>): seq<Update> {
    var o := LeafOverride(l);
    if o != [] && o[0].variable in env then UpdateOf(o[0].conv, env[o[0].variable]) else []
  }

  function WriteUpdate(p: Place, w: Write): seq<Update> {
    if w.target != p then []
    else
      match w
      case SetTrue(_) => [On]
      case FromText(_, c, t) => UpdateOf(c, t)
  }

  function CliUpdates(p: Place, ws: seq<Write>): seq<Update> {
    if ws == [] then [] else WriteUpdate(p, ws[0]) + CliUpdates(p, ws[1..])
  }

  function Result(x: Update, below: Val): Val {
    match x
    case On => Truth(true)
    case Given(c, t) => Convert(c, below, t)
  }

  /** One update after the other. */
  function Applied(xs: seq<Update>, below: Val): Val
    decreases xs
  {
    if xs == [] then below else Applied(xs[1..], Result(xs[0], below))
  }

  /** The last update, or else the value from below. */
  function Newest(xs: seq<Update>, below: Val): Val {
    if xs == [] then below else Result(xs[|xs| - 1], Zero)
  }

  /** Only the octets of an address can depend on the old value. */
  predicate Replaces(x: Update) {
    x.Given? ==> !x.conv.ToIpv4? && Writes(x.conv, x.text)
  }

  predicate AllReplace(xs: seq<Update>) {
    forall i :: 0 <= i < |xs| ==> Replaces(xs[i])
  }

  lemma {:induction false} AppliedIsNewest(xs: seq<Update>, below: Val)
    requires AllReplace(xs)
    ensures Applied(xs, below) == Newest(xs, below)
    decreases |xs|
  {
    if xs != [] {
      AppliedIsNewest(xs[1..], Result(xs[0], below));
      assert Replaces(xs[|xs| - 1]);
    }
  }

  lemma {:induction false} AppliedAppend(a: seq<Update>, b: seq<Update>, below: Val)
    ensures Applied(a + b, below) == Applied(b, Applied(a, below))
    decreases |a|
  {
    if a == [] {
      assert a + b == b;
    } else {
      assert (a + b)[0] == a[0] && (a + b)[1..] == a[1..] + b;
      AppliedAppend(a[1..], b, Result(a[0], below));
    }
  }

  // ----- Each layer, without the writes that have no effect -----

  lemma UpdateIsConversion(c: Option<Conversion>, t: string, v: Val)
    ensures Applied(UpdateOf(c, t), v) == if c.Some? then Convert(c.value, v, t) else v
  {
    if c.Some? && Writes(c.value, t) {
      assert [Given(c.value, t)][1..] == [];
      assert Applied([], Convert(c.value, v, t)) == Convert(c.value, v, t);
    }
  }

  lemma {:induction false} UpdatesAreConversions(c: Option<Conversion>, texts: seq<string>, v: Val)
    ensures Applied(UpdatesOf(c, texts), v) == ConvertAll(c, v, texts)
    decreases |texts|
  {
    if texts != [] {
      AppliedAppend(UpdateOf(c, texts[0]), UpdatesOf(c, texts[1..]), v);
      UpdateIsConversion(c, texts[0], v);
      UpdatesAreConversions(c, texts[1..], if c.Some? then Convert(c.value, v, texts[0]) else v);
    }
  }

  lemma EnvUpdateIsLayer(l: Leaf, env: map<string, string>, v: Val)
    ensures Applied(EnvUpdates(l, env), v) == EnvLayer(l, env, v)
  {
    var o := LeafOverride(l);
    if o != [] && o[0].variable in env {
      UpdateIsConversion(o[0].conv, env[o[0].variable], v);
    }
  }

  lemma {:induction false} CliUpdatesAreLayer(p: Place, ws: seq<Write>, v: Val)
    ensures Applied(CliUpdates(p, ws), v) == CliLayer(p, ws, v)
    decreases |ws|
  {
    if ws != [] {
      AppliedAppend(WriteUpdate(p, ws[0]), CliUpdates(p, ws[1..]), v);
      CliUpdatesAreLayer(p, ws[1..], PerformOn(v, p, ws[0]));
      if ws[0].FromText? {
        UpdateIsConversion(ws[0].conv, ws[0].text, v);
      } else {
        assert [On][1..] == [] && Applied([], Truth(true)) == Truth(true);
      }
    }
  }

  /** All updates of a leaf in a load, in the order of the layers. */
  function AllUpdates(u: Unit, root: string, l: Leaf, events: seq<IniEvent>, env: map<string, string>, args: seq<string>)
    : seq<Update>
    requires Ready(u) && IsDeclared(u.prog, root) && l.field.Field?
  {
    IniUpdates(u, root, l, events) + EnvUpdates(l, env) + CliUpdates(Names(l.path), ParseFrom(RootFlags(u, root), args, 1))
  }

  // ----- What the flags of a leaf write -----

  predicate IsAddress(it: Item) {
    it.Field? && it.typ == Named("ipv4")
  }

  /** A write of a command line that concerns a leaf: it parses an address only for an address, and always
      reads a list for an array. */
  predicate IsLeafWrite(l: Leaf, w: Write) {
    w.target == Names(l.path) ==>
      && (w.FromText? && w.conv.Some? && w.conv.value.ToIpv4? ==> IsAddress(l.field))
      && (l.field.Field? && l.field.typ.ArrayOf? ==>
            w.FromText? && w.conv == Some(if l.field.typ.elem == Named("int") then ToIntArray else ToTextArray))
  }

  /** The tests of one leaf write to that leaf, or let the argument pass. */
  lemma {:induction false} LeafFlagsAct(root: string, q: Leaf, rest: seq<FlagTest>, args: seq<string>, i: nat)
    requires i < |args|
    ensures var a := ParseArg(LeafFlags(root, q) + rest, args, i);
            || a == ParseArg(rest, args, i)
            || (a.write.Some? && a.write.value.target == Names(q.path) && IsLeafWrite(q, a.write.value))
  {
    var own := LeafFlags(root, q);
    if own == [] {
      assert own + rest == rest;
    } else if |own| == 1 {
      assert (own + rest)[1..] == rest;
    } else {
      assert (own + rest)[0] == own[0] && (own + rest)[1..] == own[1..] + rest;
      assert (own[1..] + rest)[0] == own[1] && (own[1..] + rest)[1..] == rest;
    }
  }

  lemma {:induction false} FlagWritesOfLeaf(root: string, ls: seq<Leaf>, args: seq<string>, i: nat, l: Leaf)
    requires i < |args|
    requires forall j :: 0 <= j < |ls| ==> ls[j] == l || ls[j].path != l.path
    ensures var a := ParseArg(AllFlags(root, ls), args, i);
            a.write.Some? ==> IsLeafWrite(l, a.write.value)
    decreases |ls|
  {
    if ls != [] {
      FlagWritesOfLeaf(root, ls[1..], args, i, l);
      LeafFlagsAct(root, ls[0], AllFlags(root, ls[1..]), args, i);
      if Names(ls[0].path) == Names(l.path) {
        NamesInjective(ls[0].path, l.path);
      }
    }
  }

  lemma {:induction false} CommandLineWritesOfLeaf(root: string, ls: seq<Leaf>, args: seq<string>, i: nat, l: Leaf)
    requires forall j :: 0 <= j < |ls| ==> ls[j] == l || ls[j].path != l.path
    ensures forall w :: w in ParseFrom(AllFlags(root, ls), args, i) ==> IsLeafWrite(l, w)
    decreases |args| - i
  {
    if i < |args| {
      if args[i] == "" || args[i][0] != '-' {
        CommandLineWritesOfLeaf(root, ls, args, i + 1, l);
      } else {
        FlagWritesOfLeaf(root, ls, args, i, l);
        CommandLineWritesOfLeaf(root, ls, args, ParseArg(AllFlags(root, ls), args, i).i + 1, l);
      }
    }
  }

  lemma {:induction false} RootWritesOfLeaf(u: Unit, root: string, l: Leaf, args: seq<string>)
    requires Ready(u) && IsDeclared(u.prog, root) && l in RootLeaves(u, root)
    ensures forall w :: w in ParseFrom(RootFlags(u, root), args, 1) ==> IsLeafWrite(l, w)
  {
    BodyIsBelow(u, root);
    LeavesAreDistinct(u, Body(u, root), Rank(u, root), [], root);
    assert [root] + [] == [root];
    FlagsFollowLeaves(u, Body(u, root), Rank(u, root), root, [], root, root);
    CommandLineWritesOfLeaf(root, RootLeaves(u, root), args, 1, l);
  }

  lemma {:induction false} UpdatesReplace(c: Option<Conversion>, texts: seq<string>)
    requires c.Some? ==> !c.value.ToIpv4?
    ensures AllReplace(UpdatesOf(c, texts))
    decreases |texts|
  {
    if texts != [] {
      UpdatesReplace(c, texts[1..]);
    }
  }

  lemma {:induction false} CliUpdatesReplace(l: Leaf, ws: seq<Write>)
    requires !IsAddress(l.field) && forall w :: w in ws ==> IsLeafWrite(l, w)
    ensures AllReplace(CliUpdates(Names(l.path), ws))
    decreases |ws|
  {
    if ws != [] {
      assert ws[0] in ws;
      CliUpdatesReplace(l, ws[1..]);
    }
  }

  lemma AllUpdatesReplace(u: Unit, root: string, l: Leaf, events: seq<IniEvent>, env: map<string, string>, args: seq<string>)
    requires Ready(u) && IsDeclared(u.prog, root) && l in RootLeaves(u, root) && l.field.Field? && !IsAddress(l.field)
    ensures AllReplace(AllUpdates(u, root, l, events, env, args))
  {
    UpdatesReplace(IniConversion(u, l.field, l.parent), IniTexts(root, l, events));
    RootWritesOfLeaf(u, root, l, args);
    CliUpdatesReplace(l, ParseFrom(RootFlags(u, root), args, 1));
    assert AllReplace(EnvUpdates(l, env));
  }

  lemma AllUpdatesAreLayers(u: Unit, root: string, l: Leaf, events: seq<IniEvent>, env: map<string, string>, args: seq<string>,
                            v: Val)
    requires Ready(u) && IsDeclared(u.prog, root) && l.field.Field?
    ensures Applied(AllUpdates(u, root, l, events, env, args), v)
         == CliLayer(Names(l.path), ParseFrom(RootFlags(u, root), args, 1), EnvLayer(l, env, IniLayer(u, root, l, events, v)))
  {
    var ini, e, ws := IniUpdates(u, root, l, events), EnvUpdates(l, env), ParseFrom(RootFlags(u, root), args, 1);
    var v1 := IniLayer(u, root, l, events, v);
    AppliedAppend(ini + e, CliUpdates(Names(l.path), ws), v);
    AppliedAppend(ini, e, v);
    UpdatesAreConversions(IniConversion(u, l.field, l.parent), IniTexts(root, l, events), v);
    EnvUpdateIsLayer(l, env, v1);
    CliUpdatesAreLayer(Names(l.path), ws, EnvLayer(l, env, v1));
  }

  /** After every load, for every leaf: the last update, be it from the command line, the environment or
      the INI file, else the default. An address is all its updates, one over the other. */
  lemma LastWriterWins(u: Unit, root: string, l: Leaf, events: seq<IniEvent>, env: map<string, string>, args: seq<string>)
    requires Ready(u) && IsDeclared(u.prog, root) && l in RootLeaves(u, root)
    requires Load(u, root, events, env, args).Some?
    ensures l.field.Field?
    ensures (var xs, below := AllUpdates(u, root, l, events, env, args), DefaultLayer(l, Zero);
             Get(Load(u, root, events, env, args).value, Names(l.path))
             == if IsAddress(l.field) then Applied(xs, below) else Newest(xs, below))
  {
    BodyIsBelow(u, root);
    LeafIsReached(u, Body(u, root), Rank(u, root), [], root, l, "", EMPTY, []);
    var below := DefaultLayer(l, Zero);
    LoadIsLayered(u, root, l, events, env, args);
    AllUpdatesAreLayers(u, root, l, events, env, args, below);
    if !IsAddress(l.field) {
      AllUpdatesReplace(u, root, l, events, env, args);
      AppliedIsNewest(AllUpdates(u, root, l, events, env, args), below);
    }
  }

  /** A text that is no member of an enum changes nothing, wherever it comes from. */
  lemma UnknownMemberIsNoUpdate(u: Unit, l: Leaf, dotted: string, text: string)
    requires l.field.Field? && l.field.typ.EnumOf? && text !in l.field.typ.members
    ensures UpdateOf(IniConversion(u, l.field, l.parent), text) == []
    ensures forall f :: f in FieldFlags(l.field, dotted, Names(l.path), l.parent) ==> UpdateOf(f.conv, text) == []
  {
  }
}
