/** The emitter of the validators, their execution, and their exactness. */
module ValidatorEmitter {
  import opened Schema
  import opened Expansion
  import opened Validator

  // ----- The table of patterns -----

  /** `track_usage`: a pattern enters the table the first time it is met. */
  function AddPattern(table: seq<string>, p: Property): seq<string> {
    if p.name == "pattern" && p.value.Plain? && p.value.lit.StringLit? && p.value.lit.text !in table
    then table + [p.value.lit.text] else table
  }

  function AddPatterns(table: seq<string>, props: seq<Property>): seq<string>
    decreases props
  {
    if props == [] then table else AddPatterns(AddPattern(table, props[0]), props[1..])
  }

  function TrackItems(table: seq<string>, items: seq<Item>): seq<string>
    decreases items
  {
    if items == [] then table
    else
      var t := match items[0]
        case Field(_, _, props) => AddPatterns(table, props)
        case Section(_, inner) => TrackItems(table, inner);
      TrackItems(t, items[1..])
  }

  function TrackProgram(table: seq<string>, prog: Program): seq<string>
    decreases prog
  {
    if prog == [] then table else TrackProgram(TrackItems(table, prog[0].items), prog[1..])
  }

  /** The loops of `track_usage`, on the pattern table. */
  method TrackUsage(table: seq<string>, items: seq<Item>) returns (t: seq<string>)
    ensures t == TrackItems(table, items)
    decreases items
  {
    t := table;
    var i := 0;
    assert items[0..] == items;
    while i < |items|
      invariant 0 <= i <= |items|
      invariant TrackItems(t, items[i..]) == TrackItems(table, items)
    {
      assert items[i..][0] == items[i] && items[i..][1..] == items[i + 1..];
      match items[i] {
        case Field(_, _, props) =>
          t := TrackProperties(t, props);
        case Section(_, inner) =>
          t := TrackUsage(t, inner);
      }
      i := i + 1;
    }
  }

  method TrackProperties(table: seq<string>, props: seq<Property>) returns (t: seq<string>)
    ensures t == AddPatterns(table, props)
  {
    t := table;
    var i := 0;
    while i < |props|
      invariant 0 <= i <= |props|
      invariant AddPatterns(t, props[i..]) == AddPatterns(table, props)
    {
      assert props[i..][0] == props[i] && props[i..][1..] == props[i + 1..];
      t := AddPattern(t, props[i]);
      i := i + 1;
    }
  }

  /** `get_regex_index`: a linear search; -1 when the pattern is not in the table. */
  method GetRegexIndex(table: seq<string>, pattern: string) returns (idx: int)
    ensures idx == RegexIndex(table, pattern)
  {
    var i := 0;
    while i < |table|
      invariant 0 <= i <= |table|
      invariant forall j :: 0 <= j < i ==> table[j] != pattern
      invariant RegexIndex(table, pattern) == Shift(RegexIndex(table[i..], pattern), i)
    {
      if table[i] == pattern {
        return i;
      }
      assert table[i..][1..] == table[i + 1..];
      i := i + 1;
    }
    idx := -1;
  }

  function Shift(k: int, offset: nat): int {
    if k == -1 then -1 else k + offset
  }

  function RegexIndex(table: seq<string>, pattern: string): (r: int)
    ensures -1 <= r < |table|
    ensures r == -1 <==> pattern !in table
    ensures r >= 0 ==> table[r] == pattern
  {
    if table == [] then -1
    else if table[0] == pattern then 0
    else Shift(RegexIndex(table[1..], pattern), 1)
  }

  // ----- Emitted code -----

  /** The condition of one emitted `if (…) { report; return false; }`. */
  datatype Test =
    | OutsideInt(lo: int, hi: int) | BelowInt(lo: int) | AboveInt(hi: int)
    | OutsideReal(rlo: real, rhi: real) | BelowReal(rlo: real) | AboveReal(rhi: real)
    | CountBelow(n: int) | CountAbove(n: int)
    | ShorterThan(n: int) | LongerThan(n: int)
    | SomeFileMissing | FileMissing
    | Unmatched(index: int)
    | IsNull | IsEmptyArray
    | When(left: string, right: Literal, test: Test)
    | HookFails(name: string)

  datatype Stmt =
    | FailIf(field: string, test: Test, report: Violation)
    | Call(function_: string, field: string)
    | CallEach(function_: string, field: string)

  /** String literals are compared by address, so such a condition is never true. An enum member is
      emitted by its bare name, which is declared nowhere; such code does not build. */
  predicate ConditionTrue(v: Option<Data>, l: Literal) {
    !l.StringLit? && !l.NameLit? && Equals(v, l)
  }

  predicate TestHolds(table: seq<string>, w: World, t: Test, v: Data, block: Data) {
    match t
    case OutsideInt(lo, hi) => v.IntValue? && (v.num < lo || v.num > hi)
    case BelowInt(lo) => v.IntValue? && v.num < lo
    case AboveInt(hi) => v.IntValue? && v.num > hi
    case OutsideReal(lo, hi) => v.RealValue? && (v.number < lo || v.number > hi)
    case BelowReal(lo) => v.RealValue? && v.number < lo
    case AboveReal(hi) => v.RealValue? && v.number > hi
    case CountBelow(n) => v.ListValue? && |v.elems| < n
    case CountAbove(n) => v.ListValue? && |v.elems| > n
    case ShorterThan(n) => v.TextValue? && v.text.Some? && |v.text.value| < n
    case LongerThan(n) => v.TextValue? && v.text.Some? && |v.text.value| > n
    case SomeFileMissing => v.ListValue? && exists i :: 0 <= i < |v.elems| && !FileThere(w, v.elems[i])
    case FileMissing => !FileThere(w, v)
    case Unmatched(k) =>
      v.TextValue? && v.text.Some? && 0 <= k < |table|
      && RegexMatcher.Match(RegexCompiler.Emit(table[k]), v.text.value) != RegexMatcher.Accept
    case IsNull => v.TextValue? && v.text.None?
    case IsEmptyArray => v.ListValue? && v.elems == []
    case When(left, right, t') => ConditionTrue(FieldOf(block, left), right) && TestHolds(table, w, t', v, block)
    case HookFails(n) => !w.hook(n, v)
  }

  predicate CanBeEmpty(it: Item)
    requires it.Field?
  {
    it.typ.ArrayOf? || it.typ == Named("string") || it.typ == Named("path")
  }

  function EmptyTest(it: Item): Test
    requires it.Field?
  {
    if it.typ.ArrayOf? then IsEmptyArray else IsNull
  }

  /** `emit_validation_logic` for one property. */
  function PropertyTest(table: seq<string>, it: Item, p: Property): Option<Test>
    requires it.Field?
  {
    if p.name == "range" then
      if !p.value.RangeOf? then None
      else if p.value.min.IntLit? && p.value.max.IntLit? then Some(OutsideInt(p.value.min.value, p.value.max.value))
      else if p.value.min.FloatLit? && p.value.max.FloatLit? then Some(OutsideReal(p.value.min.number, p.value.max.number))
      else None
    else if p.name == "required_if" then
      if CanBeEmpty(it) && p.value.Condition? then Some(When(p.value.left, p.value.right, EmptyTest(it))) else None
    else if !p.value.Plain? then None
    else
      var l := p.value.lit;
      if p.name == "min" then
        if l.IntLit? then Some(BelowInt(l.value)) else if l.FloatLit? then Some(BelowReal(l.number)) else None
      else if p.name == "max" then
        if l.IntLit? then Some(AboveInt(l.value)) else if l.FloatLit? then Some(AboveReal(l.number)) else None
      else if p.name == "min_length" && l.IntLit? then
        Some(if it.typ.ArrayOf? then CountBelow(l.value) else ShorterThan(l.value))
      else if p.name == "max_length" && l.IntLit? then
        Some(if it.typ.ArrayOf? then CountAbove(l.value) else LongerThan(l.value))
      else if p.name == "exists" && l == BoolLit(true) then
        Some(if it.typ.ArrayOf? then SomeFileMissing else FileMissing)
      else if p.name == "pattern" && l.StringLit? then Some(Unmatched(RegexIndex(table, l.text)))
      else if p.name == "required" && l == BoolLit(true) then if CanBeEmpty(it) then Some(EmptyTest(it)) else None
      else if p.name == "hook" && l.StringLit? then Some(HookFails(l.text))
      else None
  }

  function PropertyCode(table: seq<string>, it: Item, props: seq<Property>): seq<Stmt>
    requires it.Field?
    decreases props
  {
    if props == [] then []
    else
      var t := PropertyTest(table, it, props[0]);
      (if t.Some? then [FailIf(it.name, t.value, Validator.Report(it, props[0]))] else [])
      + PropertyCode(table, it, props[1..])
  }

  function ItemCode(u: Unit, table: seq<string>, it: Item): seq<Stmt> {
    match it
    case Section(n, _) => [Call(n, n)]
    case Field(n, t, props) =>
      PropertyCode(table, it, props) +
      match ShapeOf(u, t)
      case Scalar => []
      case Struct(sn) => [Call(sn, n)]
      case StructArray(sn) => [CallEach(sn, n)]
  }

  function BlockCode(u: Unit, table: seq<string>, items: seq<Item>): seq<Stmt> {
    if items == [] then [] else ItemCode(u, table, items[0]) + BlockCode(u, table, items[1..])
  }

  /** The emitter's loop over one block. */
  method EmitValidationFunction(u: Unit, table: seq<string>, items: seq<Item>) returns (code: seq<Stmt>)
    ensures code == BlockCode(u, table, items)
  {
    code := [];
    var i := 0;
    assert items[0..] == items;
    while i < |items|
      invariant 0 <= i <= |items|
      invariant code + BlockCode(u, table, items[i..]) == BlockCode(u, table, items)
    {
      assert items[i..][0] == items[i] && items[i..][1..] == items[i + 1..];
      code := code + ItemCode(u, table, items[i]);
      i := i + 1;
    }
  }

  /** An emitted function, named after its schema or section. */
  datatype Fn = Fn(name: string, items: seq<Item>)

  /** The block's function, then those of its sections. */
  function FnsOf(name: string, items: seq<Item>): seq<Fn>
    decreases items, 1
  {
    [Fn(name, items)] + SectionFns(items)
  }

  function SectionFns(items: seq<Item>): seq<Fn>
    decreases items, 0
  {
    if items == [] then []
    else (if items[0].Section? then FnsOf(items[0].name, items[0].items) else []) + SectionFns(items[1..])
  }

  function AllFns(prog: Program): seq<Fn> {
    if prog == [] then [] else FnsOf(prog[0].name, prog[0].items) + AllFns(prog[1..])
  }

  predicate DistinctFns(fns: seq<Fn>) {
    forall i, j :: 0 <= i < j < |fns| ==> fns[i].name != fns[j].name
  }

  function FindFn(fns: seq<Fn>, n: string): Option<seq<Item>> {
    if fns == [] then None else if fns[0].name == n then Some(fns[0].items) else FindFn(fns[1..], n)
  }

  // ----- Running it -----

  datatype Output = Output(u: Unit, table: seq<string>, fns: seq<Fn>, w: World)

  /** `None`: returned true; otherwise the reported violation, or the mark of undefined behaviour. */
  function RunFn(o: Output, n: string, v: Data): Option<Violation>
    decreases v, 3
  {
    var items := FindFn(o.fns, n);
    if items.None? then None else RunCode(o, BlockCode(o.u, o.table, items.value), v)
  }

  function RunCode(o: Output, code: seq<Stmt>, v: Data): Option<Violation>
    decreases v, 2, code
  {
    if code == [] then None
    else
      var r := RunStmt(o, code[0], v);
      if r.Some? then r else RunCode(o, code[1..], v)
  }

  function RunStmt(o: Output, s: Stmt, v: Data): Option<Violation>
    decreases v, 1
  {
    if !v.StructValue? then None
    else
      var i := FieldIndex(v.fields, s.field);
      if i.None? then None
      else
        var x := v.fields[i.value].value;
        match s
        case FailIf(_, t, report) => if TestHolds(o.table, o.w, t, x, v) then Some(report) else None
        case Call(f, _) => RunFn(o, f, x)
        case CallEach(f, _) => if x.ListValue? then RunEach(o, f, x.elems) else None
  }

  function RunEach(o: Output, f: string, elems: seq<Data>): Option<Violation>
    decreases elems, 0
  {
    if elems == [] then None
    else
      var r := if elems[0].StructValue? then RunFn(o, f, elems[0]) else Some(Violation(f, NoStruct));
      if r.Some? then r else RunEach(o, f, elems[1..])
  }
}
