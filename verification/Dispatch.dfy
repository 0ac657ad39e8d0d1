/** The two dispatchers over the same tree: for every scalar leaf, a flag and a section line
    perform the same single write. */
module Dispatch {
  import opened Schema
  import opened Characters
  import opened SchemaGraph
  import opened Expansion
  import opened Runtime
  import opened Text
  import opened IniEmitter
  import opened CliEmitter

  // ----- Names as the lexer produces them -----

  predicate IsName(n: string) {
    n != "" && forall i :: 0 <= i < |n| ==> IsNameChar(n[i])
  }

  predicate AreNames(path: seq<string>) {
    forall i :: 0 <= i < |path| ==> IsName(path[i])
  }

  predicate ItemsNamed(items: seq<Item>)
    decreases items
  {
    forall i :: 0 <= i < |items| ==> ItemNamed(items[i])
  }

  predicate ItemNamed(it: Item)
    decreases it
  {
    IsName(it.name) && (it.Section? ==> ItemsNamed(it.items))
  }

  predicate ProgramNamed(prog: Program) {
    forall i :: 0 <= i < |prog| ==> IsName(prog[i].name) && ItemsNamed(prog[i].items)
  }

  lemma {:induction false} LeavesAreNamed(u: Unit, items: seq<Item>, r: nat, path: seq<string>, parent: string, l: Leaf)
    requires Ready(u) && Below(u, items, r) && ProgramNamed(u.prog) && ItemsNamed(items) && AreNames(path)
    requires l in Leaves(u, items, r, path, parent)
    ensures AreNames(l.path) && l.field.Field?
    decreases r, items
  {
    BelowTail(u, items, r);
    assert items == [items[0]] + items[1..];
    var it := items[0];
    var path' := path + [it.name];
    if l !in ItemLeaves(u, items, r, path, parent) {
      LeavesAreNamed(u, items[1..], r, path, parent, l);
    } else if it.Section? {
      LeavesAreNamed(u, it.items, r, path', it.name, l);
    } else {
      var s := ShapeOf(u, it.typ);
      if s.Struct? {
        BodyIsBelow(u, s.schema);
        var i := FindSchemaIndex(u.prog, s.schema);
        LeavesAreNamed(u, Body(u, s.schema), Rank(u, s.schema), path', s.schema, l);
      }
    }
  }

  lemma NamesSplit(path: seq<string>)
    requires AreNames(path)
    ensures Splittable(path, '.') && '=' !in Join(path, '.')
  {
    forall i | 0 <= i < |path| ensures '.' !in path[i] && '=' !in path[i] {
    }
    JoinLacks(path, '.', '=');
  }

  // ----- INI: the walk reaches every leaf -----

  /** What a line addressed to a leaf does. */
  function LeafTarget(u: Unit, l: Leaf, p: Place, from: nat): Target
    requires l.field.Field? && from <= |l.path|
  {
    var c := IniConversion(u, l.field, l.parent);
    if c.Some? then FieldAt(p + Names(l.path[from..]), c.value) else Nowhere
  }

  lemma NamesCons(path: seq<string>, from: nat)
    requires from < |path|
    ensures Names(path[from..]) == [Dot(path[from])] + Names(path[from + 1..])
  {
  }

  lemma {:induction false} LeafIsReached(u: Unit, items: seq<Item>, r: nat, path: seq<string>, parent: string,
                                         l: Leaf, v: string, m: Mem, p: Place)
    requires Ready(u) && Below(u, items, r) && ItemsAccepted(u.prog, items)
    requires l in Leaves(u, items, r, path, parent)
    ensures l.field.Field? && |l.path| > |path|
    ensures var k := |l.path| - 1;
            WalkPath(u, items, r, l.path[|path|..k], Line(l.path[k], v), m, p, parent) == LeafTarget(u, l, p, |path|)
    decreases r, items
  {
    BelowTail(u, items, r);
    AcceptedTail(u.prog, items);
    LeavesExtendPath(u, items, r, path, parent);
    var n, k := |path|, |l.path| - 1;
    var it := items[0];
    var path' := path + [it.name];
    if l !in ItemLeaves(u, items, r, path, parent) {
      assert l in Leaves(u, items[1..], r, path, parent);
      LeavesExtendPath(u, items[1..], r, path, parent);
      LeafIsReached(u, items[1..], r, path, parent, l, v, m, p);
      assert it.name != l.path[n];
    } else {
      ItemLeavesExtendPath(u, items, r, path, parent);
      NamesCons(l.path, n);
      if it.Section? {
        LeafIsReached(u, it.items, r, path', it.name, l, v, m, p + [Dot(it.name)]);
        EnteringIsAWalk(u, items, r, l, n, v, m, p, parent);
      } else {
        var s := ShapeOf(u, it.typ);
        if s.Struct? {
          BodyIsBelow(u, s.schema);
          LeafIsReached(u, Body(u, s.schema), Rank(u, s.schema), path', s.schema, l, v, m, p + [Dot(it.name)]);
          EnteringIsAWalk(u, items, r, l, n, v, m, p, parent);
        } else {
          assert l == Leaf(path', it, parent);
          assert l.path[n..k] == [] && Names(l.path[n + 1..]) == [];
        }
      }
    }
  }

  lemma EnteringIsAWalk(u: Unit, items: seq<Item>, r: nat, l: Leaf, n: nat, v: string, m: Mem, p: Place, parent: string)
    requires Ready(u) && Below(u, items, r) && items != []
    requires n + 1 < |l.path| && items[0].name == l.path[n]
    ensures var k := |l.path| - 1;
            && l.path[n..k] != [] && l.path[n..k][1..] == l.path[n + 1..k]
            && WalkPath(u, items, r, l.path[n..k], Line(l.path[k], v), m, p, parent)
            == WalkItem(u, items, r, l.path[n..k], Line(l.path[k], v), m, p)
  {
  }

  // ----- INI: nothing else reaches it -----

  /** The names along a place. */
  function Dots(p: Place): seq<string> {
    if p == [] then []
    else Dots(p[..|p| - 1]) + (if p[|p| - 1].Dot? then [p[|p| - 1].name] else [])
  }

  lemma DotsStep(p: Place, s: Runtime.Step)
    ensures Dots(p + [s]) == Dots(p) + (if s.Dot? then [s.name] else [])
  {
    assert (p + [s])[..|p|] == p;
  }

  lemma {:induction false} DotsOfNames(p: Place, path: seq<string>)
    ensures Dots(p + Names(path)) == Dots(p) + path
    decreases |path|
  {
    if path == [] {
      assert p + Names(path) == p;
    } else {
      var n := |path| - 1;
      DotsOfNames(p, path[..n]);
      assert path == path[..n] + [path[n]];
      NamesAppend(path[..n], path[n]);
      assert p + Names(path) == (p + Names(path[..n])) + [Dot(path[n])];
      DotsStep(p + Names(path[..n]), Dot(path[n]));
    }
  }

  /** The names along the addressed place are those of `p`, the parts, and the key. */
  predicate KeepsNames(t: Target, parts: seq<string>, e: Event, p: Place) {
    && (t.FieldAt? ==> e.Line? && Dots(t.place) == Dots(p) + parts + [e.key])
    && (t.NewElement? ==> e.Header? && Dots(t.place) == Dots(p) + parts)
  }

  lemma KeepsNamesStep(t: Target, parts: seq<string>, e: Event, p: Place, q: Place)
    requires parts != [] && KeepsNames(t, parts[1..], e, q) && Dots(q) == Dots(p) + [parts[0]]
    ensures KeepsNames(t, parts, e, p)
  {
    assert parts == [parts[0]] + parts[1..];
  }

  lemma {:induction false} WalkKeepsNames(u: Unit, items: seq<Item>, r: nat, parts: seq<string>, e: Event,
                                          m: Mem, p: Place, parent: string)
    requires Ready(u) && Below(u, items, r)
    ensures KeepsNames(WalkPath(u, items, r, parts, e, m, p, parent), parts, e, p)
    decreases r, items, 1
  {
    if parts == [] {
      if e.Line? {
        DotsStep(p, Dot(e.key));
        FieldNamedPlace(u, items, e.key, p, parent);
      }
    } else if items != [] {
      BelowTail(u, items, r);
      if items[0].name == parts[0] {
        WalkItemKeepsNames(u, items, r, parts, e, m, p);
        assert WalkPath(u, items, r, parts, e, m, p, parent) == WalkInto(u, items, r, parts, e, m, p)
            == WalkItem(u, items, r, parts, e, m, p);
      } else {
        WalkKeepsNames(u, items[1..], r, parts, e, m, p, parent);
        assert WalkPath(u, items, r, parts, e, m, p, parent) == WalkInto(u, items, r, parts, e, m, p)
            == WalkInto(u, items[1..], r, parts, e, m, p) == WalkPath(u, items[1..], r, parts, e, m, p, parent);
      }
    } else {
      assert WalkPath(u, items, r, parts, e, m, p, parent) == WalkInto(u, items, r, parts, e, m, p) == Nowhere;
    }
  }

  lemma {:induction false} WalkItemKeepsNames(u: Unit, items: seq<Item>, r: nat, parts: seq<string>, e: Event,
                                              m: Mem, p: Place)
    requires Ready(u) && Below(u, items, r) && parts != [] && items != [] && items[0].name == parts[0]
    ensures KeepsNames(WalkItem(u, items, r, parts, e, m, p), parts, e, p)
    decreases r, items, 0
  {
    BelowTail(u, items, r);
    var it, t := items[0], WalkItem(u, items, r, parts, e, m, p);
    var p' := p + [Dot(it.name)];
    DotsStep(p, Dot(it.name));
    if it.Section? {
      WalkKeepsNames(u, it.items, r, parts[1..], e, m, p', it.name);
      KeepsNamesStep(t, parts, e, p, p');
    } else {
      var s := ShapeOf(u, it.typ);
      if s.Struct? {
        BodyIsBelow(u, s.schema);
        WalkKeepsNames(u, Body(u, s.schema), Rank(u, s.schema), parts[1..], e, m, p', s.schema);
        KeepsNamesStep(t, parts, e, p, p');
      } else if s.StructArray? && e.Line? && Count(m, p') > 0 {
        BodyIsBelow(u, s.schema);
        var q := p' + [Elem(Count(m, p') - 1)];
        DotsStep(p', Elem(Count(m, p') - 1));
        WalkKeepsNames(u, Body(u, s.schema), Rank(u, s.schema), parts[1..], e, m, q, s.schema);
        KeepsNamesStep(t, parts, e, p, q);
      } else if |parts| == 1 {
        assert parts == [it.name];
      }
    }
  }

  lemma {:induction false} FieldNamedPlace(u: Unit, items: seq<Item>, key: string, p: Place, parent: string)
    ensures var t := FieldNamed(u, items, key, p, parent);
            t == Nowhere || (t.FieldAt? && t.place == p + [Dot(key)])
    decreases |items|
  {
    if items != [] {
      FieldNamedPlace(u, items[1..], key, p, parent);
    }
  }

  // ----- The whole handlers of one schema -----

  /** The parts of a section name, which is cut at 255 characters and 32 parts. */
  function HandlerParts(section: string): seq<string> {
    var all := Tokens(if |section| <= 255 then section else section[..255], '.');
    if |all| <= 32 then all else all[..32]
  }

  /** `X_ini_handler`: the first part must be the schema's name. */
  function IniHandler(u: Unit, root: string, section: string, e: Event, m: Mem): Outcome
    requires Ready(u) && IsDeclared(u.prog, root)
  {
    var parts := HandlerParts(section);
    if parts == [] || parts[0] != root then Running(m)
    else
      BodyIsBelow(u, root);
      ExecAll(IniBody(u, Body(u, root), Rank(u, root), [], root, 0), parts[1..], e, m)
  }

  /** What the handler does, as a walk from the root schema. */
  function IniWalk(u: Unit, root: string, section: string, e: Event, m: Mem): Target
    requires Ready(u) && IsDeclared(u.prog, root)
  {
    var parts := HandlerParts(section);
    if parts == [] || parts[0] != root then Nowhere
    else
      BodyIsBelow(u, root);
      WalkPath(u, Body(u, root), Rank(u, root), parts[1..], e, m, [], root)
  }

  /** For every section text, event and memory, the generated handler performs exactly the
      write that the walk addresses, and changes nothing when the walk leads nowhere. */
  lemma {:induction false} HandlerIsAWalk(u: Unit, root: string, section: string, e: Event, m: Mem)
    requires Ready(u) && IsDeclared(u.prog, root)
    ensures Agree(u, IniHandler(u, root, section, e, m), IniWalk(u, root, section, e, m), e, m)
  {
    BodyIsBelow(u, root);
    var parts := HandlerParts(section);
    if parts != [] {
      assert parts[1..][0..] == parts[1..];
      IniBodyAgrees(u, Body(u, root), Rank(u, root), [], root, 0, parts[1..], e, m);
    }
  }

  function RootLeaves(u: Unit, root: string): seq<Leaf>
    requires Ready(u) && IsDeclared(u.prog, root)
  {
    BodyIsBelow(u, root);
    Leaves(u, Body(u, root), Rank(u, root), [], root)
  }

  function RootFlags(u: Unit, root: string): seq<FlagTest>
    requires Ready(u) && IsDeclared(u.prog, root)
  {
    BodyIsBelow(u, root);
    CliFlags(u, Body(u, root), Rank(u, root), [], root, root)
  }

  /** The section text of a leaf fits the handler's buffers. */
  predicate Fits(root: string, l: Leaf) {
    l.path != [] && |l.path| <= 32 && |Join([root] + l.path[..|l.path| - 1], '.')| <= 255
  }

  lemma {:induction false} PartsReachLeaf(u: Unit, root: string, l: Leaf, section: string, v: string, m: Mem)
    requires Ready(u) && IsDeclared(u.prog, root) && l in RootLeaves(u, root) && l.path != []
    requires HandlerParts(section) == [root] + l.path[..|l.path| - 1]
    ensures l.field.Field?
    ensures IniWalk(u, root, section, Line(l.path[|l.path| - 1], v), m) == LeafTarget(u, l, [], 0)
  {
    BodyIsBelow(u, root);
    var k := |l.path| - 1;
    assert ([root] + l.path[..k])[1..] == l.path[0..k];
    LeafIsReached(u, Body(u, root), Rank(u, root), [], root, l, v, m, []);
  }

  lemma {:induction false} SectionReachesLeaf(u: Unit, root: string, l: Leaf, v: string, m: Mem)
    requires Ready(u) && ProgramNamed(u.prog) && IsDeclared(u.prog, root)
    requires l in RootLeaves(u, root) && Fits(root, l)
    ensures l.field.Field?
    ensures var k := |l.path| - 1;
            IniWalk(u, root, Join([root] + l.path[..k], '.'), Line(l.path[k], v), m) == LeafTarget(u, l, [], 0)
  {
    BodyIsBelow(u, root);
    var i := FindSchemaIndex(u.prog, root);
    LeavesAreNamed(u, Body(u, root), Rank(u, root), [], root, l);
    var full := [root] + l.path[..|l.path| - 1];
    NamesSplit(full);
    TokensOfJoin(full, '.');
    PartsReachLeaf(u, root, l, Join(full, '.'), v, m);
  }

  // ----- CLI: the chain reaches every leaf -----

  /** An argument that spells the flag of a path: alone, or with `=value`. */
  predicate Spells(arg: string, dotted: string) {
    arg == "--" + dotted || "--" + dotted + "=" <= arg
  }

  /** The flag an argument spells is its text up to the first equals sign. */
  lemma {:induction false} SpelledFlag(arg: string, a: string)
    requires '=' !in a && Spells(arg, a)
    ensures |arg| >= 2 && Head(arg[2..], '=') == a
  {
    if arg == "--" + a {
      assert arg[2..] == a + "";
      HeadOf(a, "", '=');
    } else {
      var f := "--" + a + "=";
      var rest := "=" + arg[|f|..];
      assert arg == f + arg[|f|..];
      assert arg[2..] == a + rest;
      HeadOf(a, rest, '=');
    }
  }

  /** A leaf whose flag the argument does not spell lets it pass. */
  lemma {:induction false} OtherLeafPasses(root: string, l: Leaf, rest: seq<FlagTest>, args: seq<string>, i: nat)
    requires i < |args| && |args[i]| > 2
    requires !Spells(args[i], Join([root] + l.path, '.'))
    ensures ParseArg(LeafFlags(root, l) + rest, args, i) == ParseArg(rest, args, i)
  {
    var own := LeafFlags(root, l);
    if own == [] {
      assert own + rest == rest;
    } else if |own| == 1 {
      assert (own + rest)[1..] == rest;
    } else {
      assert (own + rest)[0] == own[0] && (own + rest)[1..] == own[1..] + rest;
      assert (own[1..] + rest)[0] == own[1] && (own[1..] + rest)[1..] == rest;
    }
  }

  lemma {:induction false} ChainReachesLeaf(root: string, ls: seq<Leaf>, k: nat, args: seq<string>, i: nat)
    requires k < |ls| && i < |args| && |args[i]| > 2
    requires IsName(root) && DistinctPaths(ls) && forall j :: 0 <= j < |ls| ==> AreNames(ls[j].path)
    requires Spells(args[i], Join([root] + ls[k].path, '.'))
    ensures ParseArg(AllFlags(root, ls), args, i)
         == ParseArg(LeafFlags(root, ls[k]) + AllFlags(root, ls[k + 1..]), args, i)
    decreases k
  {
    if k > 0 {
      var a, b := [root] + ls[0].path, [root] + ls[k].path;
      assert a[1..] == ls[0].path && b[1..] == ls[k].path;
      NamesSplit(a);
      NamesSplit(b);
      SpelledFlag(args[i], Join(b, '.'));
      if Spells(args[i], Join(a, '.')) {
        SpelledFlag(args[i], Join(a, '.'));
        JoinInjective(a, b, '.');
      }
      OtherLeafPasses(root, ls[0], AllFlags(root, ls[1..]), args, i);
      assert ls[1..][k - 1] == ls[k] && ls[1..][k..] == ls[k + 1..];
      ChainReachesLeaf(root, ls[1..], k - 1, args, i);
    }
  }

  /** The types that both dispatchers write from a text in the same way. */
  predicate IsTextScalar(it: Item) {
    it.Field? &&
    (it.typ == Named("int") || it.typ == Named("float") || it.typ == Named("string")
      || it.typ == Named("path") || it.typ == Named("ipv4"))
  }

  lemma {:induction false} RootChainReachesLeaf(u: Unit, root: string, l: Leaf, args: seq<string>, i: nat)
    returns (rest: seq<FlagTest>)
    requires Ready(u) && ProgramNamed(u.prog) && IsDeclared(u.prog, root) && l in RootLeaves(u, root)
    requires i < |args| && |args[i]| > 2 && Spells(args[i], Join([root] + l.path, '.'))
    ensures l.field.Field?
    ensures ParseArg(RootFlags(u, root), args, i) == ParseArg(LeafFlags(root, l) + rest, args, i)
  {
    BodyIsBelow(u, root);
    var s := FindSchemaIndex(u.prog, root);
    var ls := RootLeaves(u, root);
    var k :| 0 <= k < |ls| && ls[k] == l;
    forall j | 0 <= j < |ls| ensures AreNames(ls[j].path) {
      LeavesAreNamed(u, Body(u, root), Rank(u, root), [], root, ls[j]);
    }
    LeavesAreNamed(u, Body(u, root), Rank(u, root), [], root, l);
    LeavesAreDistinct(u, Body(u, root), Rank(u, root), [], root);
    assert [root] + [] == [root];
    FlagsFollowLeaves(u, Body(u, root), Rank(u, root), root, [], root, root);
    ChainReachesLeaf(root, ls, k, args, i);
    rest := AllFlags(root, ls[k + 1..]);
  }

  /** `--S.a.b.k=v`, `--S.a.b.k v` and the line `k = v` in section `S.a.b` perform the same
      single write, for every int, float, string, path and ipv4 leaf, value and memory. */
  lemma {:induction false} DispatchersAgree(u: Unit, root: string, l: Leaf, program: string, v: string, m: Mem)
    requires Ready(u) && ProgramNamed(u.prog) && IsDeclared(u.prog, root)
    requires l in RootLeaves(u, root) && Fits(root, l) && IsTextScalar(l.field)
    ensures var k, flag := |l.path| - 1, "--" + Join([root] + l.path, '.');
            var m' := Assign(m, Names(l.path), PrimitiveConversion(l.field.typ.name).value, v);
            && IniHandler(u, root, Join([root] + l.path[..k], '.'), Line(l.path[k], v), m) == Returned(m')
            && ParseCli(RootFlags(u, root), [program, flag + "=" + v], m) == m'
            && ParseCli(RootFlags(u, root), [program, flag, v], m) == m'
  {
    var k, dotted := |l.path| - 1, Join([root] + l.path, '.');
    var section := Join([root] + l.path[..k], '.');
    SectionReachesLeaf(u, root, l, v, m);
    HandlerIsAWalk(u, root, section, Line(l.path[k], v), m);
    assert [] + Names(l.path[0..]) == Names(l.path);
    var conv := PrimitiveConversion(l.field.typ.name);
    assert IniWalk(u, root, section, Line(l.path[k], v), m) == FieldAt(Names(l.path), conv.value);
    FlagWithEquals(u, root, l, program, v, m);
    FlagWithValue(u, root, l, program, v, m);
  }

  lemma {:induction false} FlagWithEquals(u: Unit, root: string, l: Leaf, program: string, v: string, m: Mem)
    requires Ready(u) && ProgramNamed(u.prog) && IsDeclared(u.prog, root)
    requires l in RootLeaves(u, root) && IsTextScalar(l.field)
    ensures ParseCli(RootFlags(u, root), [program, "--" + Join([root] + l.path, '.') + "=" + v], m)
         == Assign(m, Names(l.path), PrimitiveConversion(l.field.typ.name).value, v)
  {
    var flag := "--" + Join([root] + l.path, '.');
    var arg := flag + "=" + v;
    NonEmptyJoin(u, root, l.path);
    var args := [program, arg];
    var rest := RootChainReachesLeaf(u, root, l, args, 1);
    var own := LeafFlags(root, l);
    assert (own + rest)[0] == own[0] && (own + rest)[1..] == own[1..] + rest;
    assert (own[1..] + rest)[0] == own[1];
    assert flag + "=" <= arg && arg[|flag + "="|..] == v;
    var w := FromText(Names(l.path), PrimitiveConversion(l.field.typ.name), v);
    assert ParseArg(own[1..] + rest, args, 1) == Action(Some(w), 1);
    assert ParseArg(own + rest, args, 1) == ParseArg(own[1..] + rest, args, 1);
    OneWrite(RootFlags(u, root), args, w, 1, m);
  }

  lemma {:induction false} FlagWithValue(u: Unit, root: string, l: Leaf, program: string, v: string, m: Mem)
    requires Ready(u) && ProgramNamed(u.prog) && IsDeclared(u.prog, root)
    requires l in RootLeaves(u, root) && IsTextScalar(l.field)
    ensures ParseCli(RootFlags(u, root), [program, "--" + Join([root] + l.path, '.'), v], m)
         == Assign(m, Names(l.path), PrimitiveConversion(l.field.typ.name).value, v)
  {
    var flag := "--" + Join([root] + l.path, '.');
    var args := [program, flag, v];
    NonEmptyJoin(u, root, l.path);
    var rest := RootChainReachesLeaf(u, root, l, args, 1);
    var own := LeafFlags(root, l);
    assert (own + rest)[0] == own[0];
    var w := FromText(Names(l.path), PrimitiveConversion(l.field.typ.name), v);
    assert ParseArg(own + rest, args, 1) == Action(Some(w), 2);
    OneWrite(RootFlags(u, root), args, w, 2, m);
  }

  lemma OneWrite(chain: seq<FlagTest>, args: seq<string>, w: Write, last: nat, m: Mem)
    requires |args| == last + 1 >= 2 && args[1] != "" && args[1][0] == '-'
    requires ParseArg(chain, args, 1) == Action(Some(w), last)
    ensures ParseCli(chain, args, m) == Perform(m, w)
  {
    assert ParseFrom(chain, args, last + 1) == [];
    assert ParseFrom(chain, args, 1) == [w] + [];
    assert PerformAll(m, [w]) == PerformAll(Perform(m, w), [w][1..]);
  }

  lemma NonEmptyJoin(u: Unit, root: string, path: seq<string>)
    requires ProgramNamed(u.prog) && IsDeclared(u.prog, root)
    ensures Join([root] + path, '.') != ""
  {
    var s := FindSchemaIndex(u.prog, root);
    assert ([root] + path)[0] == root;
  }
}
