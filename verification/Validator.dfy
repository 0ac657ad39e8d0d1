/** The generated validator: one function per schema and per section, each returning at the first
    failed check. It decides the conjunction of all declared constraints over the whole tree. */
module Validator {
  import opened Schema
  import opened Expansion
  import RegexCompiler
  import RegexMatcher

  // ----- A loaded configuration -----

  datatype Binding = Binding(name: string, value: Data)

  datatype Data =
    | IntValue(num: int)
    | RealValue(number: real)
    | BoolValue(on: bool)
    | TextValue(text: Option<string>)      // a pointer, possibly null
    | EnumValue(member: string)
    | OtherValue                           // addresses, and what has no type of its own
    | ListValue(elems: seq<Data>)
    | StructValue(fields: seq<Binding>)

  function FieldIndex(fields: seq<Binding>, n: string): (r: Option<nat>)
    ensures r.Some? ==> r.value < |fields| && fields[r.value].name == n
  {
    if fields == [] then None
    else if fields[0].name == n then Some(0)
    else
      var i := FieldIndex(fields[1..], n);
      if i.Some? then Some(i.value + 1) else None
  }

  function FieldOf(v: Data, n: string): Option<Data> {
    if !v.StructValue? then None
    else
      var i := FieldIndex(v.fields, n);
      if i.Some? then Some(v.fields[i.value].value) else None
  }

  /** Down a path of names. */
  function DataAt(v: Data, path: seq<string>): Option<Data> {
    if path == [] then Some(v)
    else
      var x := FieldOf(v, path[0]);
      if x.Some? then DataAt(x.value, path[1..]) else None
  }

  /** What the outside decides: which files exist, and what user hooks answer. */
  datatype World = World(exists_: string -> bool, hook: (string, Data) -> bool)

  /** How constraints are read: what the outside answers, and which texts a pattern matches. */
  datatype Reading = Reading(world: World, matches: (string, string) -> bool)

  /** As the emitted matchers decide. */
  function Emitted(w: World): Reading {
    Reading(w, (pattern, text) => RegexMatcher.Match(RegexCompiler.Emit(pattern), text) == RegexMatcher.Accept)
  }

  datatype What =
    | OutOfRange | TooSmall | TooLarge
    | ArrayTooShort | StringTooShort | ArrayTooLong | StringTooLong
    | NoFileInArray | NoFile | PatternMismatch
    | RequiredMissing
    | ConditionMissing                     // a condition on a number or a truth value
    | TextConditionMissing                 // a condition on a text
    | HookRefused(name: string)
    | NoStruct                             // no report: an element is no struct, and reading it is undefined

  datatype Violation = Violation(field: string, what: What)

  // ----- What the properties mean -----

  predicate AtLeast(v: Data, l: Literal) {
    (v.IntValue? && l.IntLit? ==> l.value <= v.num) && (v.RealValue? && l.FloatLit? ==> l.number <= v.number)
  }

  predicate AtMost(v: Data, l: Literal) {
    (v.IntValue? && l.IntLit? ==> v.num <= l.value) && (v.RealValue? && l.FloatLit? ==> v.number <= l.number)
  }

  function LengthOf(v: Data): Option<nat> {
    if v.ListValue? then Some(|v.elems|)
    else if v.TextValue? && v.text.Some? then Some(|v.text.value|)
    else None
  }

  predicate IsMissing(v: Data) {
    (v.TextValue? && v.text.None?) || (v.ListValue? && v.elems == [])
  }

  predicate FileThere(w: World, v: Data) {
    v.TextValue? && v.text.Some? ==> w.exists_(v.text.value)
  }

  predicate Equals(v: Option<Data>, l: Literal) {
    match l
    case IntLit(n) => v == Some(IntValue(n))
    case FloatLit(x) => v == Some(RealValue(x))
    case BoolLit(b) => v == Some(BoolValue(b))
    case StringLit(t) => v == Some(TextValue(Some(t)))
    case NameLit(m) => v == Some(EnumValue(m))
  }

  /** A property holds of a field value inside its block. */
  predicate Satisfied(how: Reading, p: Property, v: Data, block: Data) {
    match p.value
    case RangeOf(lo, hi) => p.name == "range" ==> AtLeast(v, lo) && AtMost(v, hi)
    case Condition(left, right) => p.name == "required_if" && Equals(FieldOf(block, left), right) ==> !IsMissing(v)
    case Plain(l) =>
      && (p.name == "min" ==> AtLeast(v, l))
      && (p.name == "max" ==> AtMost(v, l))
      && (p.name == "min_length" && l.IntLit? && LengthOf(v).Some? ==> l.value <= LengthOf(v).value)
      && (p.name == "max_length" && l.IntLit? && LengthOf(v).Some? ==> LengthOf(v).value <= l.value)
      && (p.name == "exists" && l == BoolLit(true) ==>
            FileThere(how.world, v) && (v.ListValue? ==> forall i :: 0 <= i < |v.elems| ==> FileThere(how.world, v.elems[i])))
      && (p.name == "pattern" && l.StringLit? && v.TextValue? && v.text.Some? ==> how.matches(l.text, v.text.value))
      && (p.name == "required" && l == BoolLit(true) ==> !IsMissing(v))
      && (p.name == "hook" && l.StringLit? ==> how.world.hook(l.text, v))
  }

  predicate IsTextCondition(p: Property) {
    p.name == "required_if" && p.value.Condition? && p.value.right.StringLit?
  }

  /** How a violated property is reported. */
  function Report(it: Item, p: Property): Violation {
    var arr := it.Field? && it.typ.ArrayOf?;
    Violation(it.name,
      if p.name == "range" then OutOfRange
      else if p.name == "min" then TooSmall
      else if p.name == "max" then TooLarge
      else if p.name == "min_length" then if arr then ArrayTooShort else StringTooShort
      else if p.name == "max_length" then if arr then ArrayTooLong else StringTooLong
      else if p.name == "exists" then if arr then NoFileInArray else NoFile
      else if p.name == "pattern" then PatternMismatch
      else if p.name == "required" then RequiredMissing
      else if p.name == "required_if" then if IsTextCondition(p) then TextConditionMissing else ConditionMissing
      else if p.value.Plain? && p.value.lit.StringLit? then HookRefused(p.value.lit.text)
      else RequiredMissing)
  }

  // ----- All violations, in declaration order -----

  function PropertyViolations(how: Reading, it: Item, props: seq<Property>, v: Data, block: Data): seq<Violation> {
    if props == [] then []
    else
      (if Satisfied(how, props[0], v, block) then [] else [Report(it, props[0])])
      + PropertyViolations(how, it, props[1..], v, block)
  }

  function Violations(u: Unit, how: Reading, items: seq<Item>, r: nat, v: Data): seq<Violation>
    requires Ready(u) && Below(u, items, r)
    decreases r, items, 1
  {
    if items == [] then []
    else
      BelowTail(u, items, r);
      ItemViolations(u, how, items, r, v) + Violations(u, how, items[1..], r, v)
  }

  /** The violations of the first item: its own properties, then everything below it. */
  function ItemViolations(u: Unit, how: Reading, items: seq<Item>, r: nat, v: Data): seq<Violation>
    requires Ready(u) && Below(u, items, r) && items != []
    decreases r, items, 0
  {
    BelowTail(u, items, r);
    var it := items[0];
    var x := FieldOf(v, it.name);
    if x.None? then []
    else
      match it
      case Section(_, inner) => Violations(u, how, inner, r, x.value)
      case Field(_, t, props) =>
        PropertyViolations(how, it, props, x.value, v) +
        match ShapeOf(u, t)
        case Scalar => []
        case Struct(sn) =>
          BodyIsBelow(u, sn);
          Violations(u, how, Body(u, sn), Rank(u, sn), x.value)
        case StructArray(sn) =>
          if x.value.ListValue? then ElementViolations(u, how, sn, x.value.elems) else []
  }

  function ElementViolations(u: Unit, how: Reading, sn: string, elems: seq<Data>): seq<Violation>
    requires Ready(u) && IsDeclared(u.prog, sn)
    decreases Rank(u, sn), Body(u, sn), 2, elems
  {
    if elems == [] then []
    else
      BodyIsBelow(u, sn);
      (if elems[0].StructValue? then Violations(u, how, Body(u, sn), Rank(u, sn), elems[0]) else [Violation(sn, NoStruct)])
      + ElementViolations(u, how, sn, elems[1..])
  }
}
