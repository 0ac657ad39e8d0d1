/** The emitted command line parser: a chain of flag tests over dotted paths. */
module CliEmitter {
  import opened Schema
  import opened Expansion
  import opened Runtime
  import opened Defaults
  import opened Text

  // ----- Emitted code -----

  datatype FlagTest =
    // if (strcmp(arg, flag) == 0 || short flag) { [value = argv[++i];] assignment; return true; }
    | Exact(flag: string, short: Option<char>, takesValue: bool, target: Place, conv: Option<Conversion>)
    // if (strncmp(arg, flag, …) == 0) { value = arg + …; assignment; return true; }
    | Prefixed(flag: string, target: Place, conv: Option<Conversion>)

  /** An assignment that a run performs. */
  datatype Write =
    | SetTrue(target: Place)
    | FromText(target: Place, conv: Option<Conversion>, text: string)

  function Perform(m: Mem, w: Write): Mem {
    match w
    case SetTrue(p) => Put(m, p, Truth(true))
    case FromText(p, c, text) => if c.Some? then Assign(m, p, c.value, text) else m
  }

  /** What one argument does, and the index of the last argument it used. */
  datatype Action = Action(write: Option<Write>, i: nat)

  predicate IsShort(arg: string, short: Option<char>) {
    short.Some? && arg == ['-', short.value]
  }

  /** `X_parse_arg`: the first test that applies acts. */
  function ParseArg(chain: seq<FlagTest>, args: seq<string>, i: nat): (r: Action)
    requires i < |args|
    ensures r.i >= i
    decreases |chain|
  {
    if chain == [] then Action(None, i)
    else
      var arg, next := args[i], ParseArg(chain[1..], args, i);
      match chain[0]
      case Exact(flag, short, takesValue, target, conv) =>
        if arg == flag || IsShort(arg, short) then
          if !takesValue then Action(Some(SetTrue(target)), i)
          else if i + 1 < |args| then Action(Some(FromText(target, conv, args[i + 1])), i + 1)
          else next
        else next
      case Prefixed(flag, target, conv) =>
        if flag <= arg then Action(Some(FromText(target, conv, arg[|flag|..])), i) else next
  }

  function ParseFrom(chain: seq<FlagTest>, args: seq<string>, i: nat): seq<Write>
    decreases |args| - i
  {
    if i >= |args| then []
    else if args[i] == "" || args[i][0] != '-' then ParseFrom(chain, args, i + 1)
    else
      var a := ParseArg(chain, args, i);
      (if a.write.Some? then [a.write.value] else []) + ParseFrom(chain, args, a.i + 1)
  }

  function PerformAll(m: Mem, ws: seq<Write>): Mem
    decreases ws
  {
    if ws == [] then m else PerformAll(Perform(m, ws[0]), ws[1..])
  }

  /** `X_parse_cli`: the first argument is the program's name. */
  function ParseCli(chain: seq<FlagTest>, args: seq<string>, m: Mem): Mem {
    PerformAll(m, ParseFrom(chain, args, 1))
  }

  /** The loop over the arguments, writing as it goes. */
  method RunCli(chain: seq<FlagTest>, args: seq<string>, start: Mem) returns (m: Mem)
    ensures m == ParseCli(chain, args, start)
  {
    m := start;
    var i := 1;
    while i < |args|
      invariant 1 <= i
      invariant PerformAll(m, ParseFrom(chain, args, i)) == ParseCli(chain, args, start)
      decreases |args| - i
    {
      if args[i] != "" && args[i][0] == '-' {
        var a := ParseArg(chain, args, i);
        if a.write.Some? {
          ghost var rest := ParseFrom(chain, args, a.i + 1);
          assert ([a.write.value] + rest)[1..] == rest;
          m := Perform(m, a.write.value);
        } else {
          assert [] + ParseFrom(chain, args, a.i + 1) == ParseFrom(chain, args, a.i + 1);
        }
        i := a.i;
      }
      i := i + 1;
    }
  }

  // ----- Emitting it -----

  function ShortFlag(it: Item): Option<char>
    requires it.Field?
  {
    var s := FindProperty(it.props, "short");
    if s.Some? && s.value.value.Plain? && s.value.value.lit.StringLit? && s.value.value.lit.text != ""
    then Some(s.value.value.lit.text[0]) else None
  }

  /** The tests emitted for one leaf, given its dotted path. */
  function FieldFlags(it: Item, dotted: string, target: Place, parent: string): seq<FlagTest>
    requires it.Field?
  {
    var flag, short := "--" + dotted, ShortFlag(it);
    match it.typ
    case Named(n) =>
      if n == "bool" then [Exact(flag, short, false, target, None)]
      else [Exact(flag, short, true, target, PrimitiveConversion(n)),
            Prefixed(flag + "=", target, PrimitiveConversion(n))]
    case EnumOf(ms) => [Exact(flag, short, true, target, Some(ToEnum(parent, it.name, ms)))]
    case ArrayOf(e) => [Exact(flag, short, true, target, Some(if e == Named("int") then ToIntArray else ToTextArray))]
  }

  function CliFlags(u: Unit, items: seq<Item>, r: nat, path: seq<string>, dotted: string, parent: string): seq<FlagTest>
    requires Ready(u) && Below(u, items, r)
    decreases r, items, 1
  {
    if items == [] then []
    else
      BelowTail(u, items, r);
      CliItem(u, items, r, path, dotted, parent) + CliFlags(u, items[1..], r, path, dotted, parent)
  }

  function CliItem(u: Unit, items: seq<Item>, r: nat, path: seq<string>, dotted: string, parent: string): seq<FlagTest>
    requires Ready(u) && Below(u, items, r) && items != []
    decreases r, items, 0
  {
    BelowTail(u, items, r);
    var it := items[0];
    var path', dotted' := path + [it.name], dotted + "." + it.name;
    match it
    case Section(n, inner) => CliFlags(u, inner, r, path', dotted', n)
    case Field(n, t, _) =>
      var s := ShapeOf(u, t);
      if s.Struct? then
        BodyIsBelow(u, s.schema);
        CliFlags(u, Body(u, s.schema), Rank(u, s.schema), path', dotted', s.schema)
      else FieldFlags(it, dotted', Names(path'), parent)
  }

  /** The emitter's loop. */
  method EmitCliParser(u: Unit, items: seq<Item>, r: nat, path: seq<string>, dotted: string, parent: string)
    returns (out: seq<FlagTest>)
    requires Ready(u) && Below(u, items, r)
    ensures out == CliFlags(u, items, r, path, dotted, parent)
    decreases r, items, 1
  {
    out := [];
    var i := 0;
    assert items[0..] == items;
    while i < |items|
      invariant 0 <= i <= |items| && Below(u, items[i..], r)
      invariant out + CliFlags(u, items[i..], r, path, dotted, parent) == CliFlags(u, items, r, path, dotted, parent)
    {
      assert items[i..][0] == items[i] && items[i..][1..] == items[i + 1..];
      BelowTail(u, items[i..], r);
      var code := EmitCliItem(u, items[i..], r, path, dotted, parent, items);
      out := out + code;
      i := i + 1;
    }
  }

  method EmitCliItem(u: Unit, items: seq<Item>, r: nat, path: seq<string>, dotted: string, parent: string, ghost all: seq<Item>)
    returns (out: seq<FlagTest>)
    requires Ready(u) && Below(u, items, r) && items != [] && items[0] in all
    ensures out == CliItem(u, items, r, path, dotted, parent)
    decreases r, all, 0
  {
    BelowTail(u, items, r);
    var it := items[0];
    var path', dotted' := path + [it.name], dotted + "." + it.name;
    if it.Section? {
      out := EmitCliParser(u, it.items, r, path', dotted', it.name);
      return;
    }
    var s := ShapeOf(u, it.typ);
    if s.Struct? {
      BodyIsBelow(u, s.schema);
      out := EmitCliParser(u, Body(u, s.schema), Rank(u, s.schema), path', dotted', s.schema);
    } else {
      out := FieldFlags(it, dotted', Names(path'), parent);
    }
  }

  // ----- The flags follow the leaves -----

  /** The tests of one leaf of a schema. */
  function LeafFlags(root: string, l: Leaf): seq<FlagTest> {
    if l.field.Section? then [] else FieldFlags(l.field, Join([root] + l.path, '.'), Names(l.path), l.parent)
  }

  function AllFlags(root: string, ls: seq<Leaf>): seq<FlagTest> {
    if ls == [] then [] else LeafFlags(root, ls[0]) + AllFlags(root, ls[1..])
  }

  lemma {:induction false} AllFlagsAppend(root: string, a: seq<Leaf>, b: seq<Leaf>)
    ensures AllFlags(root, a + b) == AllFlags(root, a) + AllFlags(root, b)
    decreases |a|
  {
    if a == [] {
      assert a + b == b;
    } else {
      assert (a + b)[0] == a[0] && (a + b)[1..] == a[1..] + b;
      AllFlagsAppend(root, a[1..], b);
    }
  }

  /** The command line walk tests the leaves, each once, in declaration order. */
  lemma {:induction false} FlagsFollowLeaves(u: Unit, items: seq<Item>, r: nat, root: string,
                                             path: seq<string>, dotted: string, parent: string)
    requires Ready(u) && Below(u, items, r) && dotted == Join([root] + path, '.')
    ensures CliFlags(u, items, r, path, dotted, parent) == AllFlags(root, Leaves(u, items, r, path, parent))
    decreases r, items
  {
    if items != [] {
      BelowTail(u, items, r);
      var it := items[0];
      var path', dotted' := path + [it.name], dotted + "." + it.name;
      JoinSnoc([root] + path, it.name, '.');
      assert [root] + path' == ([root] + path) + [it.name];
      FlagsFollowLeaves(u, items[1..], r, root, path, dotted, parent);
      AllFlagsAppend(root, ItemLeaves(u, items, r, path, parent), Leaves(u, items[1..], r, path, parent));
      if it.Section? {
        FlagsFollowLeaves(u, it.items, r, root, path', dotted', it.name);
      } else {
        var s := ShapeOf(u, it.typ);
        if s.Struct? {
          BodyIsBelow(u, s.schema);
          FlagsFollowLeaves(u, Body(u, s.schema), Rank(u, s.schema), root, path', dotted', s.schema);
        } else {
          var l := Leaf(path', it, parent);
          assert [l][1..] == [];
          assert AllFlags(root, [l]) == LeafFlags(root, l);
        }
      }
    }
  }
}
