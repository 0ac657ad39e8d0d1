/** Arrays of schemas over whole INI files: headers append elements, and the lines after a
    header fill the element it appended. */
module ArrayRuns {
  import opened Schema
  import opened SchemaGraph
  import opened Expansion
  import opened Runtime
  import opened Defaults
  import opened IniEmitter
  import opened CliEmitter
  import opened Dispatch
  import opened Lifecycle

  predicate IsArrayLeaf(u: Unit, a: Leaf) {
    a.path != [] && a.field.Field? && ShapeOf(u, a.field.typ).StructArray?
  }

  function ElementSchema(u: Unit, a: Leaf): string
    requires IsArrayLeaf(u, a)
  {
    ShapeOf(u, a.field.typ).schema
  }

  /** The leaves of one element. */
  function ElementLeaves(u: Unit, a: Leaf): seq<Leaf>
    requires Ready(u) && IsArrayLeaf(u, a)
  {
    var sn := ElementSchema(u, a);
    BodyIsBelow(u, sn);
    Leaves(u, Body(u, sn), Rank(u, sn), [], sn)
  }

  function ArrayPlace(a: Leaf): Place {
    Names(a.path)
  }

  /** The place of a leaf in the element with index `i`. */
  function ElementPlace(a: Leaf, i: int, l: Leaf): Place {
    Names(a.path) + [Elem(i)] + Names(l.path)
  }

  /** `[[S.f]]` for this array. */
  predicate IsHeaderFor(root: string, a: Leaf, e: IniEvent) {
    e.event.Header? && HandlerParts(e.section) == [root] + a.path
  }

  /** A line addressed to a leaf of the array's elements. */
  predicate IsLineFor(root: string, a: Leaf, l: Leaf, e: IniEvent) {
    && l.path != [] && e.event.Line?
    && HandlerParts(e.section) == [root] + (a.path + l.path[..|l.path| - 1])
    && e.event.key == l.path[|l.path| - 1]
  }

  // ----- The walk through an array -----

  /** What the two blocks of the array do with the rest of the parts. */
  function ArrayTarget(u: Unit, sn: string, tail: seq<string>, e: Event, m: Mem, q: Place): Target
    requires Ready(u) && IsDeclared(u.prog, sn)
  {
    BodyIsBelow(u, sn);
    if e.Header? then if tail == [] then NewElement(q, sn) else Nowhere
    else if Count(m, q) == 0 then Nowhere
    else WalkPath(u, Body(u, sn), Rank(u, sn), tail, e, m, q + [Elem(Count(m, q) - 1)], sn)
  }

  lemma {:induction false} WalkReachesArray(u: Unit, items: seq<Item>, r: nat, path: seq<string>, parent: string,
                                            a: Leaf, tail: seq<string>, e: Event, m: Mem, p: Place)
    requires Ready(u) && Below(u, items, r) && ItemsAccepted(u.prog, items)
    requires a in Leaves(u, items, r, path, parent) && IsArrayLeaf(u, a)
    ensures |a.path| > |path|
    ensures WalkPath(u, items, r, a.path[|path|..] + tail, e, m, p, parent)
         == ArrayTarget(u, ElementSchema(u, a), tail, e, m, p + Names(a.path[|path|..]))
    decreases r, items
  {
    BelowTail(u, items, r);
    AcceptedTail(u.prog, items);
    LeavesExtendPath(u, items, r, path, parent);
    var n, it := |path|, items[0];
    var parts, path' := a.path[n..] + tail, path + [it.name];
    assert parts[0] == a.path[n] && parts[1..] == a.path[n + 1..] + tail;
    assert WalkPath(u, items, r, parts, e, m, p, parent) == WalkInto(u, items, r, parts, e, m, p);
    if a !in ItemLeaves(u, items, r, path, parent) {
      assert a in Leaves(u, items[1..], r, path, parent);
      LeavesExtendPath(u, items[1..], r, path, parent);
      WalkReachesArray(u, items[1..], r, path, parent, a, tail, e, m, p);
      assert it.name != a.path[n];
      assert WalkInto(u, items, r, parts, e, m, p) == WalkInto(u, items[1..], r, parts, e, m, p)
          == WalkPath(u, items[1..], r, parts, e, m, p, parent);
    } else {
      ItemLeavesExtendPath(u, items, r, path, parent);
      NamesCons(a.path, n);
      assert p + Names(a.path[n..]) == (p + [Dot(it.name)]) + Names(a.path[n + 1..]);
      assert WalkInto(u, items, r, parts, e, m, p) == WalkItem(u, items, r, parts, e, m, p);
      if it.Section? {
        WalkReachesArray(u, it.items, r, path', it.name, a, tail, e, m, p + [Dot(it.name)]);
      } else {
        var s := ShapeOf(u, it.typ);
        if s.Struct? {
          BodyIsBelow(u, s.schema);
          WalkReachesArray(u, Body(u, s.schema), Rank(u, s.schema), path', s.schema, a, tail, e, m, p + [Dot(it.name)]);
          assert WalkItem(u, items, r, parts, e, m, p)
              == WalkPath(u, Body(u, s.schema), Rank(u, s.schema), parts[1..], e, m, p + [Dot(it.name)], s.schema);
        } else {
          assert a == Leaf(path', it, parent);
          assert a.path[n + 1..] == [] && [] + tail == tail;
          assert Names(a.path[n..]) == [Dot(it.name)];
          ArrayItemIsArrayTarget(u, items, r, parts, e, m, p);
        }
      }
    }
  }

  lemma ArrayItemIsArrayTarget(u: Unit, items: seq<Item>, r: nat, parts: seq<string>, e: Event, m: Mem, p: Place)
    requires Ready(u) && Below(u, items, r) && items != [] && parts != []
    requires items[0].Field? && ShapeOf(u, items[0].typ).StructArray?
    ensures WalkItem(u, items, r, parts, e, m, p)
         == ArrayTarget(u, ShapeOf(u, items[0].typ).schema, parts[1..], e, m, p + [Dot(items[0].name)])
  {
  }

  lemma {:induction false} HeaderReachesArray(u: Unit, root: string, a: Leaf, e: IniEvent, m: Mem)
    requires Ready(u) && IsDeclared(u.prog, root) && a in RootLeaves(u, root) && IsArrayLeaf(u, a)
    requires IsHeaderFor(root, a, e)
    ensures IniWalk(u, root, e.section, e.event, m) == NewElement(ArrayPlace(a), ElementSchema(u, a))
  {
    BodyIsBelow(u, root);
    WalkReachesArray(u, Body(u, root), Rank(u, root), [], root, a, [], e.event, m, []);
    assert a.path[0..] + [] == a.path == HandlerParts(e.section)[1..];
    assert [] + Names(a.path[0..]) == Names(a.path);
  }

  lemma {:induction false} LineReachesElement(u: Unit, root: string, a: Leaf, l: Leaf, e: IniEvent, m: Mem)
    requires Ready(u) && IsDeclared(u.prog, root) && a in RootLeaves(u, root) && IsArrayLeaf(u, a)
    requires l in ElementLeaves(u, a) && IsLineFor(root, a, l, e)
    ensures l.field.Field?
    ensures IniWalk(u, root, e.section, e.event, m)
         == if Count(m, ArrayPlace(a)) == 0 then Nowhere
            else LeafTarget(u, l, ArrayPlace(a) + [Elem(Count(m, ArrayPlace(a)) - 1)], 0)
  {
    BodyIsBelow(u, root);
    var sn, k, q := ElementSchema(u, a), |l.path| - 1, ArrayPlace(a);
    BodyIsBelow(u, sn);
    WalkReachesArray(u, Body(u, root), Rank(u, root), [], root, a, l.path[..k], e.event, m, []);
    assert a.path[0..] + l.path[..k] == HandlerParts(e.section)[1..];
    assert [] + Names(a.path[0..]) == q;
    assert l.path[0..k] == l.path[..k];
    LeafIsReached(u, Body(u, sn), Rank(u, sn), [], sn, l, e.event.val, m, q + [Elem(Count(m, q) - 1)]);
  }

  // ----- One event -----

  lemma {:induction false} DotsOfElement(a: Leaf, i: int, l: Leaf)
    ensures Dots(ElementPlace(a, i, l)) == a.path + l.path
  {
    DotsOfNames([], a.path);
    assert [] + Names(a.path) == Names(a.path) && Dots([]) == [];
    DotsStep(Names(a.path), Elem(i));
    DotsOfNames(Names(a.path) + [Elem(i)], l.path);
  }

  /** Two element places are the same only for the same index. */
  lemma ElementIndex(a: Leaf, i: int, j: int, l: Leaf)
    ensures ElementPlace(a, i, l) == ElementPlace(a, j, l) ==> i == j
  {
    assert ElementPlace(a, i, l)[|a.path|] == Elem(i) && ElementPlace(a, j, l)[|a.path|] == Elem(j);
  }

  /** A place under a fresh element of some array is an element of that very array. */
  lemma UnderElement(a: Leaf, i: int, l: Leaf, q: Place, n: int)
    ensures IsUnder(ElementPlace(a, i, l), q + [Elem(n)]) ==> q == ArrayPlace(a) && n == i
  {
    var f := ElementPlace(a, i, l);
    if IsUnder(f, q + [Elem(n)]) {
      assert f[..|q| + 1][|q|] == Elem(n);
      assert f[|q|] == Elem(n);
      assert forall k :: 0 <= k < |f| && k != |a.path| ==> f[k].Dot?;
      assert f[..|q|] == f[..|q| + 1][..|q|] == q;
      assert f[..|a.path|] == Names(a.path);
    }
  }

  /** What one event does to the leaf of element `i` when the array has `n` elements. */
  function ElementStep(root: string, a: Leaf, l: Leaf, c: Option<Conversion>, e: IniEvent, n: nat, i: nat, v: Val): Val {
    if IsHeaderFor(root, a, e) && n == i then DefaultLayer(l, Zero)
    else if IsLineFor(root, a, l, e) && n == i + 1 then ConvertAll(c, v, [e.event.val])
    else v
  }

  /** The value of an element's leaf, and the count, after one event. */
  lemma {:induction false} EventOnElement(u: Unit, root: string, a: Leaf, l: Leaf, i: nat, e: IniEvent, m: Mem)
    requires Ready(u) && IsDeclared(u.prog, root) && a in RootLeaves(u, root) && IsArrayLeaf(u, a)
    requires l in ElementLeaves(u, a)
    ensures l.field.Field? && l.path != []
    ensures var o, n, f := IniHandler(u, root, e.section, e.event, m), Count(m, ArrayPlace(a)), ElementPlace(a, i, l);
            !o.Undefined? ==>
              && Count(o.m, ArrayPlace(a)) == n + (if IsHeaderFor(root, a, e) then 1 else 0)
              && Get(o.m, f) == ElementStep(root, a, l, IniConversion(u, l.field, l.parent), e, n, i, Get(m, f))
  {
    BodyIsBelow(u, root);
    ElementLeafHasPath(u, a, l);
    HandlerIsAWalk(u, root, e.section, e.event, m);
    var t := IniWalk(u, root, e.section, e.event, m);
    if IsHeaderFor(root, a, e) {
      HeaderReachesArray(u, root, a, e, m);
      AppendOnElement(u, a, l, i, m);
    } else if IsLineFor(root, a, l, e) {
      LineOnElement(u, root, a, l, i, e, m);
    } else if t != Nowhere && t != NullKey {
      OtherEventOnElement(u, root, a, l, i, e, m);
    }
  }

  lemma {:induction false} LineOnElement(u: Unit, root: string, a: Leaf, l: Leaf, i: nat, e: IniEvent, m: Mem)
    requires Ready(u) && IsDeclared(u.prog, root) && a in RootLeaves(u, root) && IsArrayLeaf(u, a)
    requires l in ElementLeaves(u, a) && IsLineFor(root, a, l, e)
    ensures l.field.Field?
    ensures var t, n, f := IniWalk(u, root, e.section, e.event, m), Count(m, ArrayPlace(a)), ElementPlace(a, i, l);
            && t != NullKey && Proper(u, t, e.event)
            && Count(Effect(u, t, e.event, m).value, ArrayPlace(a)) == n
            && Get(Effect(u, t, e.event, m).value, f)
            == ElementStep(root, a, l, IniConversion(u, l.field, l.parent), e, n, i, Get(m, f))
  {
    LineReachesElement(u, root, a, l, e, m);
    var t, n := IniWalk(u, root, e.section, e.event, m), Count(m, ArrayPlace(a));
    if t.FieldAt? {
      ElementIndex(a, i, n - 1, l);
      assert l.path[0..] == l.path;
      assert t.place == ElementPlace(a, n - 1, l);
      assert [e.event.val][1..] == [];
      assert ConvertAll(Some(t.conv), Get(m, t.place), [e.event.val]) == Convert(t.conv, Get(m, t.place), e.event.val);
    }
  }

  lemma {:induction false} ElementLeafHasPath(u: Unit, a: Leaf, l: Leaf)
    requires Ready(u) && IsArrayLeaf(u, a) && l in ElementLeaves(u, a)
    ensures l.path != [] && l.field.Field?
  {
    var sn := ElementSchema(u, a);
    BodyIsBelow(u, sn);
    LeafIsReached(u, Body(u, sn), Rank(u, sn), [], sn, l, "", EMPTY, []);
  }

  /** The statements of the header: the new element holds its defaults, the others stay. */
  lemma {:induction false} AppendOnElement(u: Unit, a: Leaf, l: Leaf, i: nat, m: Mem)
    requires Ready(u) && IsArrayLeaf(u, a) && l in ElementLeaves(u, a)
    ensures var sn, p, f := ElementSchema(u, a), ArrayPlace(a), ElementPlace(a, i, l);
            var m' := Runtime.Append(m, p, SchemaInits(u, sn));
            && Count(m', p) == Count(m, p) + 1
            && Get(m', f) == if Count(m, p) == i then DefaultLayer(l, Zero) else Get(m, f)
  {
    var sn, p, f := ElementSchema(u, a), ArrayPlace(a), ElementPlace(a, i, l);
    BodyIsBelow(u, sn);
    var n, inits := Count(m, p), DefaultInits(u, Body(u, sn), Rank(u, sn), [], sn);
    NamesNotUnderElement(a.path, p, n);
    AppendIsLocal(m, p, inits, p);
    if n == i {
      var ls := ElementLeaves(u, a);
      var k :| 0 <= k < |ls| && ls[k] == l;
      LeavesAreDistinct(u, Body(u, sn), Rank(u, sn), [], sn);
      DefaultsFollowLeaves(u, Body(u, sn), Rank(u, sn), [], sn);
      var e := p + [Elem(n)];
      var cleared := Clear(m, e);
      assert f[..|e|] == e && IsUnder(f, e);
      InitsOnLeaf(cleared.(counts := cleared.counts[p := n + 1]), e, ls, k);
    } else {
      UnderElement(a, i, l, p, n);
      AppendIsLocal(m, p, inits, f);
    }
  }

  /** Only a line for the leaf writes a field of an element, only a header for the array
      appends to it. */
  lemma {:induction false} TargetsAreNamed(u: Unit, root: string, a: Leaf, l: Leaf, i: int, e: IniEvent, m: Mem)
    requires Ready(u) && IsDeclared(u.prog, root) && l.path != []
    ensures var t := IniWalk(u, root, e.section, e.event, m);
            && (t.FieldAt? && t.place == ElementPlace(a, i, l) ==> IsLineFor(root, a, l, e))
            && (t.NewElement? && t.place == ArrayPlace(a) ==> IsHeaderFor(root, a, e))
  {
    BodyIsBelow(u, root);
    var t, parts := IniWalk(u, root, e.section, e.event, m), HandlerParts(e.section);
    if t != Nowhere && t != NullKey {
      WalkKeepsNames(u, Body(u, root), Rank(u, root), parts[1..], e.event, m, [], root);
      assert Dots([]) == [];
      assert parts == [root] + parts[1..];
      if t.FieldAt? && t.place == ElementPlace(a, i, l) {
        DotsOfElement(a, i, l);
        assert parts[1..] + [e.event.key] == a.path + l.path;
        SplitLast(parts[1..], e.event.key, a.path, l.path);
      } else if t.NewElement? && t.place == ArrayPlace(a) {
        DotsOfNames([], a.path);
        assert [] + Names(a.path) == ArrayPlace(a);
        assert Dots([]) + a.path == a.path && Dots([]) + parts[1..] == parts[1..];
      }
    }
  }

  lemma SplitLast(x: seq<string>, k: string, p: seq<string>, q: seq<string>)
    requires q != [] && x + [k] == p + q
    ensures x == p + q[..|q| - 1] && k == q[|q| - 1]
  {
    var n := |p + q| - 1;
    assert (x + [k])[..n] == x && (p + q)[..n] == p + q[..|q| - 1];
    assert (x + [k])[n] == k && (p + q)[n] == q[|q| - 1];
  }

  lemma {:induction false} OtherEventOnElement(u: Unit, root: string, a: Leaf, l: Leaf, i: nat, e: IniEvent, m: Mem)
    requires Ready(u) && IsDeclared(u.prog, root) && l.path != []
    requires !IsHeaderFor(root, a, e) && !IsLineFor(root, a, l, e)
    requires var t := IniWalk(u, root, e.section, e.event, m); t.FieldAt? || t.NewElement?
    ensures var t := IniWalk(u, root, e.section, e.event, m);
            && Proper(u, t, e.event)
            && Effect(u, t, e.event, m).Some?
            && Count(Effect(u, t, e.event, m).value, ArrayPlace(a)) == Count(m, ArrayPlace(a))
            && Get(Effect(u, t, e.event, m).value, ElementPlace(a, i, l)) == Get(m, ElementPlace(a, i, l))
  {
    HandlerIsAWalk(u, root, e.section, e.event, m);
    TargetsAreNamed(u, root, a, l, i, e, m);
    var t := IniWalk(u, root, e.section, e.event, m);
    if t.NewElement? {
      var n, inits := Count(m, t.place), SchemaInits(u, t.schema);
      NamesNotUnderElement(a.path, t.place, n);
      AppendIsLocal(m, t.place, inits, ArrayPlace(a));
      UnderElement(a, i, l, t.place, n);
      AppendIsLocal(m, t.place, inits, ElementPlace(a, i, l));
    }
  }

  // ----- Whole runs -----

  function HeaderCount(root: string, a: Leaf, events: seq<IniEvent>): nat {
    if events == [] then 0
    else (if IsHeaderFor(root, a, events[0]) then 1 else 0) + HeaderCount(root, a, events[1..])
  }

  /** The values of the lines for leaf `l` that come after header number `i` (from zero) and
      before the next one, when `seen` headers came before. */
  function LinesOfElement(root: string, a: Leaf, l: Leaf, events: seq<IniEvent>, seen: nat, i: nat): seq<string> {
    if events == [] then []
    else if IsHeaderFor(root, a, events[0]) then LinesOfElement(root, a, l, events[1..], seen + 1, i)
    else
      var own := if IsLineFor(root, a, l, events[0]) && seen == i + 1 then [events[0].event.val] else [];
      own + LinesOfElement(root, a, l, events[1..], seen, i)
  }

  lemma ConvertCons(c: Option<Conversion>, v: Val, t: string, texts: seq<string>)
    ensures ConvertAll(c, v, [t] + texts) == ConvertAll(c, ConvertAll(c, v, [t]), texts)
  {
    assert ([t] + texts)[1..] == texts && [t][1..] == [];
  }

  /** Shifting the first event from the list into the value. */
  lemma {:induction false} LinesTurn(root: string, a: Leaf, l: Leaf, events: seq<IniEvent>, n: nat, i: nat,
                                     c: Option<Conversion>, v: Val)
    requires events != []
    ensures var n' := n + (if IsHeaderFor(root, a, events[0]) then 1 else 0);
            var v' := ElementStep(root, a, l, c, events[0], n, i, v);
            (ConvertAll(c, if i < n' then v' else DefaultLayer(l, Zero), LinesOfElement(root, a, l, events[1..], n', i))
              == ConvertAll(c, if i < n then v else DefaultLayer(l, Zero), LinesOfElement(root, a, l, events, n, i)))
  {
    if !IsHeaderFor(root, a, events[0]) {
      var rest := LinesOfElement(root, a, l, events[1..], n, i);
      if IsLineFor(root, a, l, events[0]) && n == i + 1 {
        ConvertCons(c, v, events[0].event.val, rest);
      } else {
        assert [] + rest == rest;
      }
    }
  }

  /** What a run makes of element `i`, starting with `n` elements and the value `v`. */
  function ElementAfter(u: Unit, root: string, a: Leaf, l: Leaf, events: seq<IniEvent>, n: nat, i: nat, v: Val): Val
    requires l.field.Field?
  {
    ConvertAll(IniConversion(u, l.field, l.parent), if i < n then v else DefaultLayer(l, Zero),
               LinesOfElement(root, a, l, events, n, i))
  }

  lemma {:induction false} StepOnElement(u: Unit, root: string, a: Leaf, l: Leaf, i: nat, events: seq<IniEvent>, m: Mem)
    returns (m1: Mem)
    requires Ready(u) && IsDeclared(u.prog, root) && a in RootLeaves(u, root) && IsArrayLeaf(u, a)
    requires l in ElementLeaves(u, a) && events != [] && RunEvents(u, root, events, m).Some?
    ensures l.field.Field?
    ensures RunEvents(u, root, events, m) == RunEvents(u, root, events[1..], m1)
    ensures Count(m1, ArrayPlace(a)) == Count(m, ArrayPlace(a)) + (if IsHeaderFor(root, a, events[0]) then 1 else 0)
    ensures Get(m1, ElementPlace(a, i, l))
         == ElementStep(root, a, l, IniConversion(u, l.field, l.parent), events[0],
                        Count(m, ArrayPlace(a)), i, Get(m, ElementPlace(a, i, l)))
  {
    EventOnElement(u, root, a, l, i, events[0], m);
    m1 := IniHandler(u, root, events[0].section, events[0].event, m).m;
  }

  lemma ElementAfterTurn(u: Unit, root: string, a: Leaf, l: Leaf, events: seq<IniEvent>, n: nat, i: nat, v: Val)
    requires events != [] && l.field.Field?
    ensures var n' := n + (if IsHeaderFor(root, a, events[0]) then 1 else 0);
            var v' := ElementStep(root, a, l, IniConversion(u, l.field, l.parent), events[0], n, i, v);
            && ElementAfter(u, root, a, l, events[1..], n', i, v') == ElementAfter(u, root, a, l, events, n, i, v)
            && n' + HeaderCount(root, a, events[1..]) == n + HeaderCount(root, a, events)
  {
    LinesTurn(root, a, l, events, n, i, IniConversion(u, l.field, l.parent), v);
  }

  lemma {:induction false} RunCounts(u: Unit, root: string, a: Leaf, l: Leaf, events: seq<IniEvent>, m: Mem)
    requires Ready(u) && IsDeclared(u.prog, root) && a in RootLeaves(u, root) && IsArrayLeaf(u, a)
    requires l in ElementLeaves(u, a) && RunEvents(u, root, events, m).Some?
    ensures Count(RunEvents(u, root, events, m).value, ArrayPlace(a))
         == Count(m, ArrayPlace(a)) + HeaderCount(root, a, events)
    decreases |events|
  {
    if events != [] {
      var m1 := StepOnElement(u, root, a, l, 0, events, m);
      RunCounts(u, root, a, l, events[1..], m1);
    }
  }

  lemma {:induction false} RunOnElement(u: Unit, root: string, a: Leaf, l: Leaf, i: nat, events: seq<IniEvent>, m: Mem)
    requires Ready(u) && IsDeclared(u.prog, root) && a in RootLeaves(u, root) && IsArrayLeaf(u, a)
    requires l in ElementLeaves(u, a) && RunEvents(u, root, events, m).Some?
    ensures l.field.Field?
    ensures var m', n, f := RunEvents(u, root, events, m).value, Count(m, ArrayPlace(a)), ElementPlace(a, i, l);
            i < n + HeaderCount(root, a, events) ==> Get(m', f) == ElementAfter(u, root, a, l, events, n, i, Get(m, f))
    decreases |events|
  {
    ElementLeafHasPath(u, a, l);
    if events != [] {
      var n, f := Count(m, ArrayPlace(a)), ElementPlace(a, i, l);
      var m1 := StepOnElement(u, root, a, l, i, events, m);
      RunOnElement(u, root, a, l, i, events[1..], m1);
      ElementAfterTurn(u, root, a, l, events, n, i, Get(m, f));
    }
  }

  /** From an empty array: the count is the number of headers, and element `i` holds its
      defaults overridden by exactly the lines between header `i` and the next. */
  lemma {:induction false} ElementsAreTheirSections(u: Unit, root: string, a: Leaf, l: Leaf, i: nat,
                                                    events: seq<IniEvent>, m: Mem)
    requires Ready(u) && IsDeclared(u.prog, root) && a in RootLeaves(u, root) && IsArrayLeaf(u, a)
    requires l in ElementLeaves(u, a) && Count(m, ArrayPlace(a)) == 0
    requires RunEvents(u, root, events, m).Some?
    ensures l.field.Field?
    ensures var m' := RunEvents(u, root, events, m).value;
            && Count(m', ArrayPlace(a)) == HeaderCount(root, a, events)
            && (i < HeaderCount(root, a, events) ==>
                  Get(m', ElementPlace(a, i, l))
                  == ConvertAll(IniConversion(u, l.field, l.parent), DefaultLayer(l, Zero),
                                LinesOfElement(root, a, l, events, 0, i)))
  {
    RunCounts(u, root, a, l, events, m);
    RunOnElement(u, root, a, l, i, events, m);
  }

  // ----- Whole loads -----

  lemma {:induction false} NamesAreDots(path: seq<string>, a: Leaf, i: int, l: Leaf)
    ensures Names(path) != ElementPlace(a, i, l)
  {
    assert ElementPlace(a, i, l)[|a.path|] == Elem(i);
    if |path| > |a.path| {
      assert Names(path)[|a.path|] == Dot(path[|a.path|]);
    }
  }

  lemma {:induction false} OverridesKeepElement(m: Mem, os: seq<Override>, env: map<string, string>, a: Leaf, i: int, l: Leaf)
    ensures var m' := RunOverrides(m, os, env);
            && Get(m', ElementPlace(a, i, l)) == Get(m, ElementPlace(a, i, l))
            && Count(m', ArrayPlace(a)) == Count(m, ArrayPlace(a))
    decreases |os|
  {
    if os != [] {
      NamesAreDots(os[0].path, a, i, l);
      OverridesKeepElement(RunOverride(m, os[0], env), os[1..], env, a, i, l);
    }
  }

  lemma {:induction false} WritesKeepElement(m: Mem, ws: seq<Write>, a: Leaf, i: int, l: Leaf)
    requires forall k :: 0 <= k < |ws| ==> ws[k].target != ElementPlace(a, i, l)
    ensures var m' := PerformAll(m, ws);
            && Get(m', ElementPlace(a, i, l)) == Get(m, ElementPlace(a, i, l))
            && Count(m', ArrayPlace(a)) == Count(m, ArrayPlace(a))
    decreases |ws|
  {
    if ws != [] {
      WritesKeepElement(Perform(m, ws[0]), ws[1..], a, i, l);
    }
  }

  /** No test of the chain is for the place. */
  ghost predicate NoTestFor(chain: seq<FlagTest>, p: Place) {
    forall k :: 0 <= k < |chain| ==> chain[k].target != p
  }

  lemma {:induction false} ActionOffPlace(chain: seq<FlagTest>, args: seq<string>, i: nat, p: Place)
    requires i < |args| && NoTestFor(chain, p)
    ensures var w := ParseArg(chain, args, i).write; w.Some? ==> w.value.target != p
    decreases |chain|
  {
    if chain != [] {
      ActionOffPlace(chain[1..], args, i, p);
    }
  }

  lemma {:induction false} WritesOffPlace(chain: seq<FlagTest>, args: seq<string>, i: nat, p: Place)
    requires NoTestFor(chain, p)
    ensures forall k :: 0 <= k < |ParseFrom(chain, args, i)| ==> ParseFrom(chain, args, i)[k].target != p
    decreases |args| - i
  {
    if i < |args| {
      if args[i] == "" || args[i][0] != '-' {
        WritesOffPlace(chain, args, i + 1, p);
      } else {
        ActionOffPlace(chain, args, i, p);
        WritesOffPlace(chain, args, ParseArg(chain, args, i).i + 1, p);
      }
    }
  }

  lemma {:induction false} NoFlagForElement(root: string, ls: seq<Leaf>, a: Leaf, i: int, l: Leaf)
    ensures NoTestFor(AllFlags(root, ls), ElementPlace(a, i, l))
    decreases |ls|
  {
    if ls != [] {
      NamesAreDots(ls[0].path, a, i, l);
      NoFlagForElement(root, ls[1..], a, i, l);
    }
  }

  /** No argument writes to the array itself. The original would read the text of such an argument as an
      array of strings. */
  ghost predicate FlagNotGiven(u: Unit, root: string, a: Leaf, args: seq<string>)
    requires Ready(u) && IsDeclared(u.prog, root)
  {
    var ws := ParseFrom(RootFlags(u, root), args, 1);
    forall k :: 0 <= k < |ws| ==> ws[k].target != ArrayPlace(a)
  }

  /** After a whole load the elements of an array of schemas are still its sections: neither the environment
      nor the command line reaches into them. */
  lemma {:induction false} ElementsAfterLoad(u: Unit, root: string, a: Leaf, l: Leaf, i: nat, events: seq<IniEvent>,
                                             env: map<string, string>, args: seq<string>)
    requires Ready(u) && IsDeclared(u.prog, root) && a in RootLeaves(u, root) && IsArrayLeaf(u, a)
    requires l in ElementLeaves(u, a) && Load(u, root, events, env, args).Some? && FlagNotGiven(u, root, a, args)
    ensures l.field.Field?
    ensures var m := Load(u, root, events, env, args).value;
            && Count(m, ArrayPlace(a)) == HeaderCount(root, a, events)
            && (i < HeaderCount(root, a, events) ==>
                  Get(m, ElementPlace(a, i, l))
                  == ConvertAll(IniConversion(u, l.field, l.parent), DefaultLayer(l, Zero),
                                LinesOfElement(root, a, l, events, 0, i)))
  {
    BodyIsBelow(u, root);
    var start := RunInits(EMPTY, [], SchemaInits(u, root));
    InitsKeepCounts(EMPTY, [], SchemaInits(u, root), ArrayPlace(a));
    ElementsAreTheirSections(u, root, a, l, i, events, start);
    var m1 := RunEvents(u, root, events, start).value;
    OverridesKeepElement(m1, RootOverrides(u, root), env, a, i, l);
    var m2, ws := RunOverrides(m1, RootOverrides(u, root), env), ParseFrom(RootFlags(u, root), args, 1);
    assert [root] + [] == [root];
    FlagsFollowLeaves(u, Body(u, root), Rank(u, root), root, [], root, root);
    NoFlagForElement(root, RootLeaves(u, root), a, i, l);
    WritesOffPlace(RootFlags(u, root), args, 1, ElementPlace(a, i, l));
    WritesKeepElement(m2, ws, a, i, l);
  }
}
