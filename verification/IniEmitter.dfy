/** The emitted INI handler: a tree of tests on the section's parts and the key. */
module IniEmitter {
  import opened Schema
  import opened SchemaGraph
  import opened Inlining
  import opened Expansion
  import opened Runtime
  import opened Defaults

  // ----- Emitted code -----

  /** A step of an emitted lvalue: `.name`, or `.data[….count - 1]`. */
  datatype LStep = Member(name: string) | Last

  type LValue = seq<LStep>

  datatype Guard =
    | PartsAre(n: nat)                  // num_parts == n
    | PartIs(i: nat, name: string)      // i < num_parts && strcmp(parts[i], name) == 0
    | KeyIs(name: string)               // strcmp(key, name) == 0
    | HeaderAt(i: nat)                  // !key && !val && i == num_parts - 1
    | LineIn(arr: LValue)             // key && val && array.count > 0

  datatype Stmt =
    | If(guard: Guard, body: seq<Stmt>)
    | Store(target: LValue, conv: Conversion)
    | AppendTo(arr: LValue, inits: seq<Init>)
    | Return

  /** What the INI parser reports: a `key = value` line, or a `[[section]]` header. */
  datatype Event = Line(key: string, val: string) | Header

  datatype Outcome =
    | Running(m: Mem)      // fell through
    | Returned(m: Mem)
    | Undefined            // `strcmp` was given the null key

  // ----- Running it -----

  function Address(m: Mem, lv: LValue): Place {
    if lv == [] then []
    else
      var p := Address(m, lv[..|lv| - 1]);
      match lv[|lv| - 1]
      case Member(n) => p + [Dot(n)]
      case Last => p + [Elem(Count(m, p) - 1)]
  }

  /** `None`: the test itself is undefined. */
  function Test(g: Guard, parts: seq<string>, e: Event, m: Mem): Option<bool> {
    match g
    case PartsAre(n) => Some(|parts| == n)
    case PartIs(i, name) => Some(i < |parts| && parts[i] == name)
    case KeyIs(name) => if e.Header? then None else Some(e.key == name)
    case HeaderAt(i) => Some(e.Header? && i == |parts| - 1)
    case LineIn(arr) => Some(e.Line? && Count(m, Address(m, arr)) > 0)
  }

  function Exec(s: Stmt, parts: seq<string>, e: Event, m: Mem): Outcome
    decreases s
  {
    match s
    case If(g, body) =>
      var t := Test(g, parts, e, m);
      if t.None? then Undefined
      else if t.value then ExecAll(body, parts, e, m) else Running(m)
    case Store(target, conv) =>
      if e.Header? then Undefined else Running(Assign(m, Address(m, target), conv, e.val))
    case AppendTo(arr, inits) => Running(Runtime.Append(m, Address(m, arr), inits))
    case Return => Returned(m)
  }

  function ExecAll(ss: seq<Stmt>, parts: seq<string>, e: Event, m: Mem): Outcome
    decreases ss
  {
    if ss == [] then Running(m)
    else
      var o := Exec(ss[0], parts, e, m);
      if o.Running? then ExecAll(ss[1..], parts, e, o.m) else o
  }

  lemma {:induction false} ExecAppend(a: seq<Stmt>, b: seq<Stmt>, parts: seq<string>, e: Event, m: Mem)
    ensures ExecAll(a + b, parts, e, m)
         == var o := ExecAll(a, parts, e, m); if o.Running? then ExecAll(b, parts, e, o.m) else o
    decreases |a|
  {
    if a == [] {
      assert a + b == b;
    } else {
      assert (a + b)[0] == a[0] && (a + b)[1..] == a[1..] + b;
      var o := Exec(a[0], parts, e, m);
      if o.Running? {
        ExecAppend(a[1..], b, parts, e, o.m);
      }
    }
  }

  lemma ExecOne(s: Stmt, parts: seq<string>, e: Event, m: Mem)
    ensures ExecAll([s], parts, e, m) == Exec(s, parts, e, m)
  {
    var o := Exec(s, parts, e, m);
    assert [s][1..] == [];
    if o.Running? {
      assert ExecAll([], parts, e, o.m) == Running(o.m);
    }
  }

  // ----- Emitting it -----

  function IniConversion(u: Unit, it: Item, parent: string): Option<Conversion>
    requires it.Field?
  {
    match it.typ
    case Named(n) => PrimitiveConversion(n)
    case EnumOf(ms) => Some(ToEnum(parent, it.name, ms))
    case ArrayOf(e) =>
      if !e.Named? then Some(ToTextArray)
      else if e.name == "int" then Some(ToIntArray)
      else if e.name == "string" || e.name == "path" then Some(ToTextArray)
      else if !IsSchemaName(u.prog, e.name) then Some(ToTextArray)
      else None
  }

  /** `if (strcmp(key, "f") == 0) { assignment; return; }` */
  function KeyCase(u: Unit, it: Item, lv: LValue, parent: string): seq<Stmt> {
    if it.Section? then []
    else
      var c := IniConversion(u, it, parent);
      [If(KeyIs(it.name), (if c.Some? then [Store(lv + [Member(it.name)], c.value)] else []) + [Return])]
  }

  function KeyCases(u: Unit, items: seq<Item>, lv: LValue, parent: string): seq<Stmt> {
    if items == [] then [] else KeyCase(u, items[0], lv, parent) + KeyCases(u, items[1..], lv, parent)
  }

  function IniBody(u: Unit, items: seq<Item>, r: nat, lv: LValue, parent: string, depth: nat): seq<Stmt>
    requires Ready(u) && Below(u, items, r)
    decreases r, items, 2
  {
    [If(PartsAre(depth), KeyCases(u, items, lv, parent))] + Nested(u, items, r, lv, depth)
  }

  function Nested(u: Unit, items: seq<Item>, r: nat, lv: LValue, depth: nat): seq<Stmt>
    requires Ready(u) && Below(u, items, r)
    decreases r, items, 1
  {
    if items == [] then []
    else
      BelowTail(u, items, r);
      NestedItem(u, items, r, lv, depth) + Nested(u, items[1..], r, lv, depth)
  }

  /** The test for the first item's name, around the handler of what the item leads into. */
  function NestedItem(u: Unit, items: seq<Item>, r: nat, lv: LValue, depth: nat): seq<Stmt>
    requires Ready(u) && Below(u, items, r) && items != []
    decreases r, items, 0
  {
    BelowTail(u, items, r);
    var it := items[0];
    var lv' := lv + [Member(it.name)];
    match it
    case Section(n, inner) => [If(PartIs(depth, n), IniBody(u, inner, r, lv', n, depth + 1))]
    case Field(n, t, _) =>
      match ShapeOf(u, t)
      case Scalar => []
      case Struct(sn) =>
        BodyIsBelow(u, sn);
        [If(PartIs(depth, n), IniBody(u, Body(u, sn), Rank(u, sn), lv', sn, depth + 1))]
      case StructArray(sn) =>
        BodyIsBelow(u, sn);
        [If(PartIs(depth, n), [
          If(HeaderAt(depth), [AppendTo(lv', SchemaInits(u, sn)), Return]),
          If(LineIn(lv'), IniBody(u, Body(u, sn), Rank(u, sn), lv' + [Last], sn, depth + 1))])]
  }

  /** The first loop. */
  method EmitKeyCases(u: Unit, items: seq<Item>, lv: LValue, parent: string) returns (cases: seq<Stmt>)
    ensures cases == KeyCases(u, items, lv, parent)
  {
    cases := [];
    var i := 0;
    assert items[0..] == items && items[|items|..] == [];
    while i < |items|
      invariant 0 <= i <= |items|
      invariant cases + KeyCases(u, items[i..], lv, parent) == KeyCases(u, items, lv, parent)
    {
      assert items[i..][0] == items[i] && items[i..][1..] == items[i + 1..];
      cases := cases + KeyCase(u, items[i], lv, parent);
      i := i + 1;
    }
    assert KeyCases(u, [], lv, parent) == [];
  }

  /** The emitter: one loop over the fields, then one over the blocks to enter. */
  method EmitIniHandlerBody(u: Unit, items: seq<Item>, r: nat, lv: LValue, parent: string, depth: nat)
    returns (out: seq<Stmt>)
    requires Ready(u) && Below(u, items, r)
    ensures out == IniBody(u, items, r, lv, parent, depth)
    decreases r, items, 2
  {
    var cases := EmitKeyCases(u, items, lv, parent);
    var nested := EmitNested(u, items, r, lv, depth);
    out := [If(PartsAre(depth), cases)] + nested;
  }

  /** The second loop. */
  method EmitNested(u: Unit, items: seq<Item>, r: nat, lv: LValue, depth: nat) returns (nested: seq<Stmt>)
    requires Ready(u) && Below(u, items, r)
    ensures nested == Nested(u, items, r, lv, depth)
    decreases r, items, 1
  {
    nested := [];
    var i := 0;
    assert items[0..] == items && items[|items|..] == [];
    while i < |items|
      invariant 0 <= i <= |items| && Below(u, items[i..], r)
      invariant nested + Nested(u, items[i..], r, lv, depth) == Nested(u, items, r, lv, depth)
    {
      assert items[i..][0] == items[i] && items[i..][1..] == items[i + 1..];
      BelowTail(u, items[i..], r);
      var code := EmitNestedItem(u, items[i..], r, lv, depth, items);
      nested := nested + code;
      i := i + 1;
    }
  }

  /** One turn of the second loop. */
  method EmitNestedItem(u: Unit, items: seq<Item>, r: nat, lv: LValue, depth: nat, ghost all: seq<Item>)
    returns (out: seq<Stmt>)
    requires Ready(u) && Below(u, items, r) && items != [] && items[0] in all
    ensures out == NestedItem(u, items, r, lv, depth)
    decreases r, all, 0
  {
    BelowTail(u, items, r);
    var it := items[0];
    var lv' := lv + [Member(it.name)];
    if it.Section? {
      var inner := EmitIniHandlerBody(u, it.items, r, lv', it.name, depth + 1);
      return [If(PartIs(depth, it.name), inner)];
    }
    var s := ShapeOf(u, it.typ);
    if s.Scalar? {
      return [];
    }
    BodyIsBelow(u, s.schema);
    var body, rank := Body(u, s.schema), Rank(u, s.schema);
    if s.Struct? {
      var inner := EmitIniHandlerBody(u, body, rank, lv', s.schema, depth + 1);
      return [If(PartIs(depth, it.name), inner)];
    }
    var inits := EmitDefaultInitialization(u, body, rank, [], s.schema);
    var inner := EmitIniHandlerBody(u, body, rank, lv' + [Last], s.schema, depth + 1);
    out := [If(PartIs(depth, it.name), [
      If(HeaderAt(depth), [AppendTo(lv', inits), Return]),
      If(LineIn(lv'), inner)])];
  }

  // ----- The walk it stands for -----

  /** What a line or header addresses. */
  datatype Target =
    | FieldAt(place: Place, conv: Conversion)
    | NewElement(place: Place, schema: string)
    | Nowhere
    | NullKey                               // a header that names a block with fields

  predicate HasField(items: seq<Item>) {
    exists i :: 0 <= i < |items| && items[i].Field?
  }

  /** The field of that name, if the handler can assign it. */
  function FieldNamed(u: Unit, items: seq<Item>, key: string, p: Place, parent: string): Target {
    if items == [] then Nowhere
    else if items[0].Field? && items[0].name == key then
      var c := IniConversion(u, items[0], parent);
      if c.Some? then FieldAt(p + [Dot(key)], c.value) else Nowhere
    else FieldNamed(u, items[1..], key, p, parent)
  }

  /** Walk the parts from a block at place `p`, then look up the key. */
  function WalkPath(u: Unit, items: seq<Item>, r: nat, parts: seq<string>, e: Event, m: Mem, p: Place, parent: string): Target
    requires Ready(u) && Below(u, items, r)
    decreases r, items, 2
  {
    if parts != [] then WalkInto(u, items, r, parts, e, m, p)
    else if e.Line? then FieldNamed(u, items, e.key, p, parent)
    else if HasField(items) then NullKey else Nowhere
  }

  /** Enter the item named by the first part. */
  function WalkInto(u: Unit, items: seq<Item>, r: nat, parts: seq<string>, e: Event, m: Mem, p: Place): Target
    requires Ready(u) && Below(u, items, r) && parts != []
    decreases r, items, 1
  {
    if items == [] then Nowhere
    else
      BelowTail(u, items, r);
      if items[0].name == parts[0] then WalkItem(u, items, r, parts, e, m, p)
      else WalkInto(u, items[1..], r, parts, e, m, p)
  }

  function WalkItem(u: Unit, items: seq<Item>, r: nat, parts: seq<string>, e: Event, m: Mem, p: Place): Target
    requires Ready(u) && Below(u, items, r) && parts != [] && items != []
    decreases r, items, 0
  {
    BelowTail(u, items, r);
    var it := items[0];
    var p' := p + [Dot(it.name)];
    match it
    case Section(n, inner) => WalkPath(u, inner, r, parts[1..], e, m, p', n)
    case Field(n, t, _) =>
      match ShapeOf(u, t)
      case Scalar => Nowhere
      case Struct(sn) =>
        BodyIsBelow(u, sn);
        WalkPath(u, Body(u, sn), Rank(u, sn), parts[1..], e, m, p', sn)
      case StructArray(sn) =>
        BodyIsBelow(u, sn);
        if e.Header? then if |parts| == 1 then NewElement(p', sn) else Nowhere
        else if Count(m, p') == 0 then Nowhere
        else WalkPath(u, Body(u, sn), Rank(u, sn), parts[1..], e, m, p' + [Elem(Count(m, p') - 1)], sn)
  }

  /** The memory after the addressed write; `None` when the behaviour is undefined. */
  function Effect(u: Unit, t: Target, e: Event, m: Mem): Option<Mem>
    requires Ready(u)
    requires t.FieldAt? ==> e.Line?
    requires t.NewElement? ==> IsDeclared(u.prog, t.schema)
  {
    match t
    case FieldAt(p, c) => Some(Assign(m, p, c, e.val))
    case NewElement(p, sn) =>
      Some(Runtime.Append(m, p, SchemaInits(u, sn)))
    case Nowhere => Some(m)
    case NullKey => None
  }

  predicate Proper(u: Unit, t: Target, e: Event) {
    (t.FieldAt? ==> e.Line?) && (t.NewElement? ==> IsDeclared(u.prog, t.schema))
  }

  /** The run of the code and the walk have the same effect; falling through means no effect. */
  ghost predicate Agree(u: Unit, o: Outcome, t: Target, e: Event, m: Mem)
    requires Ready(u)
  {
    && Proper(u, t, e)
    && match o
       case Running(m') => m' == m && t == Nowhere
       case Returned(m') => Effect(u, t, e, m) == Some(m')
       case Undefined => t == NullKey
  }

  lemma {:induction false} KeyCasesAgree(u: Unit, items: seq<Item>, lv: LValue, parent: string,
                                         parts: seq<string>, e: Event, m: Mem)
    requires Ready(u)
    ensures var t := if e.Line? then FieldNamed(u, items, e.key, Address(m, lv), parent)
                     else if HasField(items) then NullKey else Nowhere;
            Agree(u, ExecAll(KeyCases(u, items, lv, parent), parts, e, m), t, e, m)
    decreases |items|
  {
    if items != [] {
      var it, code := items[0], KeyCase(u, items[0], lv, parent);
      ExecAppend(code, KeyCases(u, items[1..], lv, parent), parts, e, m);
      KeyCasesAgree(u, items[1..], lv, parent, parts, e, m);
      if it.Field? {
        ExecOne(code[0], parts, e, m);
        if e.Line? && it.name == e.key {
          KeyCaseRuns(u, it, lv, parent, parts, e, m);
        }
      } else {
        assert HasField(items) <==> HasField(items[1..]) by {
          assert items == [items[0]] + items[1..];
        }
      }
    }
  }

  lemma {:induction false} KeyCaseRuns(u: Unit, it: Item, lv: LValue, parent: string,
                                       parts: seq<string>, e: Event, m: Mem)
    requires Ready(u) && it.Field? && e.Line? && it.name == e.key
    ensures var c := IniConversion(u, it, parent);
            (Exec(KeyCase(u, it, lv, parent)[0], parts, e, m)
             == Returned(if c.Some? then Assign(m, Address(m, lv) + [Dot(it.name)], c.value, e.val) else m))
  {
    var c := IniConversion(u, it, parent);
    var target := lv + [Member(it.name)];
    assert target[..|target| - 1] == lv;
    assert Address(m, target) == Address(m, lv) + [Dot(it.name)];
    if c.Some? {
      var body := [Store(target, c.value)] + [Return];
      ExecAppend([Store(target, c.value)], [Return], parts, e, m);
      ExecOne(Store(target, c.value), parts, e, m);
      ExecOne(Return, parts, e, Assign(m, Address(m, target), c.value, e.val));
    } else {
      assert [] + [Return] == [Return];
      ExecOne(Return, parts, e, m);
    }
  }

  /** Blocks of other names fall through. */
  lemma {:induction false} NestedIdle(u: Unit, items: seq<Item>, r: nat, lv: LValue, depth: nat,
                                      parts: seq<string>, e: Event, m: Mem)
    requires Ready(u) && Below(u, items, r)
    requires depth < |parts| ==> forall i :: 0 <= i < |items| ==> items[i].name != parts[depth]
    ensures ExecAll(Nested(u, items, r, lv, depth), parts, e, m) == Running(m)
    decreases |items|
  {
    if items != [] {
      BelowTail(u, items, r);
      var own := NestedItem(u, items, r, lv, depth);
      ExecAppend(own, Nested(u, items[1..], r, lv, depth), parts, e, m);
      assert forall i :: 0 <= i < |items[1..]| ==> items[1..][i] == items[i + 1];
      NestedIdle(u, items[1..], r, lv, depth, parts, e, m);
      if own != [] {
        ExecOne(own[0], parts, e, m);
      }
    }
  }

  /** The emitted handler of a block does what the walk says, for all parts, events and memories. */
  lemma {:induction false} IniBodyAgrees(u: Unit, items: seq<Item>, r: nat, lv: LValue, parent: string, depth: nat,
                                         parts: seq<string>, e: Event, m: Mem)
    requires Ready(u) && Below(u, items, r) && ItemsAccepted(u.prog, items) && depth <= |parts|
    ensures Agree(u, ExecAll(IniBody(u, items, r, lv, parent, depth), parts, e, m),
                  WalkPath(u, items, r, parts[depth..], e, m, Address(m, lv), parent), e, m)
    decreases r, items, 2
  {
    var cases := If(PartsAre(depth), KeyCases(u, items, lv, parent));
    ExecAppend([cases], Nested(u, items, r, lv, depth), parts, e, m);
    ExecOne(cases, parts, e, m);
    if depth == |parts| {
      KeyCasesAgree(u, items, lv, parent, parts, e, m);
      NestedIdle(u, items, r, lv, depth, parts, e, m);
    } else {
      NestedAgrees(u, items, r, lv, depth, parts, e, m);
    }
  }

  lemma {:induction false} NestedAgrees(u: Unit, items: seq<Item>, r: nat, lv: LValue, depth: nat,
                                        parts: seq<string>, e: Event, m: Mem)
    requires Ready(u) && Below(u, items, r) && ItemsAccepted(u.prog, items) && depth < |parts|
    ensures Agree(u, ExecAll(Nested(u, items, r, lv, depth), parts, e, m),
                  WalkInto(u, items, r, parts[depth..], e, m, Address(m, lv)), e, m)
    decreases r, items, 1
  {
    if items != [] {
      BelowTail(u, items, r);
      AcceptedTail(u.prog, items);
      var own := NestedItem(u, items, r, lv, depth);
      ExecAppend(own, Nested(u, items[1..], r, lv, depth), parts, e, m);
      if items[0].name == parts[depth] {
        NestedItemAgrees(u, items, r, lv, depth, parts, e, m);
        NestedIdle(u, items[1..], r, lv, depth, parts, e, m);
      } else {
        if own != [] {
          ExecOne(own[0], parts, e, m);
        }
        NestedAgrees(u, items[1..], r, lv, depth, parts, e, m);
      }
    }
  }

  lemma {:induction false} NestedItemAgrees(u: Unit, items: seq<Item>, r: nat, lv: LValue, depth: nat,
                                            parts: seq<string>, e: Event, m: Mem)
    requires Ready(u) && Below(u, items, r) && ItemsAccepted(u.prog, items) && items != []
    requires depth < |parts| && items[0].name == parts[depth]
    ensures Agree(u, ExecAll(NestedItem(u, items, r, lv, depth), parts, e, m),
                  WalkItem(u, items, r, parts[depth..], e, m, Address(m, lv)), e, m)
    decreases r, items, 0, 1
  {
    BelowTail(u, items, r);
    AcceptedTail(u.prog, items);
    var it, own := items[0], NestedItem(u, items, r, lv, depth);
    var lv' := lv + [Member(it.name)];
    assert lv'[..|lv'| - 1] == lv;
    assert parts[depth..][1..] == parts[depth + 1..];
    if own != [] {
      ExecOne(own[0], parts, e, m);
    }
    if it.Section? {
      IniBodyAgrees(u, it.items, r, lv', it.name, depth + 1, parts, e, m);
    } else {
      var s := ShapeOf(u, it.typ);
      if !s.Scalar? {
        BodyIsBelow(u, s.schema);
        if s.Struct? {
          IniBodyAgrees(u, Body(u, s.schema), Rank(u, s.schema), lv', s.schema, depth + 1, parts, e, m);
        } else {
          ArrayItemAgrees(u, items, r, lv, depth, parts, e, m);
        }
      }
    }
  }

  /** The two blocks of an array of schemas: the header appends, a line goes to the last element. */
  lemma {:induction false} ArrayItemAgrees(u: Unit, items: seq<Item>, r: nat, lv: LValue, depth: nat,
                                           parts: seq<string>, e: Event, m: Mem)
    requires Ready(u) && Below(u, items, r) && ItemsAccepted(u.prog, items) && items != []
    requires items[0].Field? && ShapeOf(u, items[0].typ).StructArray?
    requires depth < |parts| && items[0].name == parts[depth]
    ensures Agree(u, ExecAll(NestedItem(u, items, r, lv, depth), parts, e, m),
                  WalkItem(u, items, r, parts[depth..], e, m, Address(m, lv)), e, m)
    decreases r, items, 0, 0
  {
    BelowTail(u, items, r);
    var sn, lv' := ShapeOf(u, items[0].typ).schema, lv + [Member(items[0].name)];
    assert lv'[..|lv'| - 1] == lv;
    BodyIsBelow(u, sn);
    var body, rank := Body(u, sn), Rank(u, sn);
    var inner := lv' + [Last];
    assert inner[..|lv'|] == lv';
    var append := [AppendTo(lv', SchemaInits(u, sn)), Return];
    var header, line := If(HeaderAt(depth), append), If(LineIn(lv'), IniBody(u, body, rank, inner, sn, depth + 1));
    var own := NestedItem(u, items, r, lv, depth);
    assert own == [If(PartIs(depth, items[0].name), [header, line])];
    ExecOne(own[0], parts, e, m);
    assert [header, line] == [header] + [line];
    ExecAppend([header], [line], parts, e, m);
    ExecOne(header, parts, e, m);
    ExecOne(line, parts, e, m);
    if e.Header? {
      var m' := Runtime.Append(m, Address(m, lv'), SchemaInits(u, sn));
      assert append == [append[0]] + [Return];
      ExecAppend([append[0]], [Return], parts, e, m);
      ExecOne(append[0], parts, e, m);
      ExecOne(Return, parts, e, m');
    } else if Count(m, Address(m, lv')) > 0 {
      assert parts[depth..][1..] == parts[depth + 1..];
      IniBodyAgrees(u, body, rank, inner, sn, depth + 1, parts, e, m);
    }
  }
}
