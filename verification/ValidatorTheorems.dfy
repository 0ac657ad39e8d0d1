/** The generated validators against the declared constraints. */
module ValidatorTheorems {
  import opened Schema
  import opened Types
  import opened Properties
  import opened SchemaGraph
  import opened Expansion
  import opened Validator
  import opened ValidatorEmitter

  // ----- Preconditions on the configuration and the program -----

  /** The value has the C type of the field. */
  predicate Fits(t: TypeExpr, x: Data) {
    && (t.ArrayOf? <==> x.ListValue?)
    && (t == Named("string") || t == Named("path") <==> x.TextValue?)
    && (t.EnumOf? <==> x.EnumValue?)
  }

  /** The configuration has the shape that the generated structs give it. */
  predicate Conforms(u: Unit, items: seq<Item>, r: nat, v: Data)
    requires Ready(u) && Below(u, items, r)
    decreases r, items, 1
  {
    v.StructValue? &&
    (items != [] ==>
      (BelowTail(u, items, r);
       ItemConforms(u, items, r, v) && Conforms(u, items[1..], r, v)))
  }

  predicate ItemConforms(u: Unit, items: seq<Item>, r: nat, v: Data)
    requires Ready(u) && Below(u, items, r) && items != []
    decreases r, items, 0
  {
    BelowTail(u, items, r);
    var x := FieldOf(v, items[0].name);
    x.Some? &&
    match items[0]
    case Section(_, inner) => Conforms(u, inner, r, x.value)
    case Field(_, t, _) =>
      Fits(t, x.value) &&
      match ShapeOf(u, t)
      case Scalar => true
      case Struct(sn) =>
        BodyIsBelow(u, sn);
        Conforms(u, Body(u, sn), Rank(u, sn), x.value)
      case StructArray(sn) => ElementsConform(u, sn, x.value.elems)
  }

  /** A flag may have put something else where structs were. */
  predicate ElementsConform(u: Unit, sn: string, elems: seq<Data>)
    requires Ready(u) && IsDeclared(u.prog, sn)
    decreases Rank(u, sn), Body(u, sn), 2, elems
  {
    elems != [] ==>
      (BodyIsBelow(u, sn);
       (elems[0].StructValue? ==> Conforms(u, Body(u, sn), Rank(u, sn), elems[0])) && ElementsConform(u, sn, elems[1..]))
  }

  /** Every pattern is in the table. */
  predicate PropsReady(table: seq<string>, props: seq<Property>) {
    forall k :: 0 <= k < |props| ==>
      (props[k].name == "pattern" && props[k].value.Plain? && props[k].value.lit.StringLit? ==>
         props[k].value.lit.text in table)
  }

  predicate ItemsReady(table: seq<string>, items: seq<Item>)
    decreases items
  {
    forall i :: 0 <= i < |items| ==> ItemReady(table, items[i])
  }

  predicate ItemReady(table: seq<string>, it: Item)
    decreases it
  {
    match it
    case Field(_, _, props) => PropsReady(table, props)
    case Section(_, inner) => ItemsReady(table, inner)
  }

  /** The functions that a block calls are the ones emitted for its sections. */
  predicate SectionsListed(fns: seq<Fn>, items: seq<Item>)
    decreases items
  {
    forall i :: 0 <= i < |items| && items[i].Section? ==>
      FindFn(fns, items[i].name) == Some(items[i].items) && SectionsListed(fns, items[i].items)
  }

  ghost predicate OutputReady(o: Output) {
    && Ready(o.u)
    && (forall n :: IsDeclared(o.u.prog, n) ==>
          && FindFn(o.fns, n) == Some(Body(o.u, n))
          && SectionsListed(o.fns, Body(o.u, n))
          && ItemsReady(o.table, Body(o.u, n)))
  }

  /** As above, and the emitted code names no enum member. */
  ghost predicate OutputBuilds(o: Output) {
    OutputReady(o) && forall n :: IsDeclared(o.u.prog, n) ==> NoMemberNamed(Body(o.u, n))
  }

  // ----- Conditions that can be emitted -----

  /** No comparison with an enum member is emitted for the field. */
  predicate NamesNoMember(it: Item)
    requires it.Field?
  {
    CanBeEmpty(it) ==> forall k :: 0 <= k < |it.props| && it.props[k].value.Condition? ==> !it.props[k].value.right.NameLit?
  }

  predicate NoMemberNamed(items: seq<Item>)
    decreases items
  {
    forall i :: 0 <= i < |items| ==>
      match items[i]
      case Field(_, _, _) => NamesNoMember(items[i])
      case Section(_, inner) => NoMemberNamed(inner)
  }

  /** The C type can be compared with the literal: numbers and truth values with each other, pointers to text
      with texts. An address is a struct. */
  predicate IsComparable(t: TypeExpr, l: Literal) {
    if l.StringLit? then t == Named("string") || t == Named("path")
    else t == Named("int") || t == Named("float") || t == Named("bool")
  }

  /** Each condition that is emitted compares a field of the same block with what it can be compared with. */
  predicate ConditionsLocal(items: seq<Item>)
    decreases items
  {
    forall i :: 0 <= i < |items| ==>
      match items[i]
      case Field(_, _, props) =>
        CanBeEmpty(items[i]) ==>
          forall k :: 0 <= k < |props| && props[k].value.Condition? ==>
            exists j :: 0 <= j < |items| && items[j].Field? && items[j].name == props[k].value.left
                          && IsComparable(items[j].typ, props[k].value.right)
      case Section(_, inner) => ConditionsLocal(inner)
  }

  /** What the C compiler asks of the emitted conditions: both sides are declared, and of types that can be
      compared. */
  predicate Builds(prog: Program) {
    forall i :: 0 <= i < |prog| ==> NoMemberNamed(prog[i].items) && ConditionsLocal(prog[i].items)
  }

  /** The enumerators that are declared for a block: `block_field_member`. */
  function Enumerators(name: string, items: seq<Item>): set<string>
    decreases items, 1
  {
    if items == [] then {} else ItemEnumerators(name, items[0]) + Enumerators(name, items[1..])
  }

  function ItemEnumerators(name: string, it: Item): set<string>
    decreases it, 0
  {
    match it
    case Field(n, EnumOf(ms), _) => set i | 0 <= i < |ms| :: name + "_" + n + "_" + ms[i]
    case Field(_, _, _) => {}
    case Section(n, inner) => Enumerators(n, inner)
  }

  /** Some block of this name has an enum field with these members. */
  predicate DeclaresEnum(name: string, items: seq<Item>, block: string, field: string, members: seq<string>)
    decreases items
  {
    exists i :: 0 <= i < |items| && ItemDeclaresEnum(name, items[i], block, field, members)
  }

  predicate ItemDeclaresEnum(name: string, it: Item, block: string, field: string, members: seq<string>)
    decreases it
  {
    match it
    case Field(n, t, _) => name == block && n == field && t == EnumOf(members)
    case Section(n, inner) => DeclaresEnum(n, inner, block, field, members)
  }

  ghost predicate IsEnumerator(name: string, items: seq<Item>, c: string) {
    exists block, field, members, k: nat ::
      DeclaresEnum(name, items, block, field, members) && k < |members| && c == block + "_" + field + "_" + members[k]
  }

  lemma DeclaresEnumCons(name: string, items: seq<Item>, block: string, field: string, members: seq<string>)
    requires items != []
    ensures DeclaresEnum(name, items, block, field, members)
       <==> ItemDeclaresEnum(name, items[0], block, field, members) || DeclaresEnum(name, items[1..], block, field, members)
  {
    var rest := items[1..];
    if DeclaresEnum(name, rest, block, field, members) {
      var i :| 0 <= i < |rest| && ItemDeclaresEnum(name, rest[i], block, field, members);
      assert items[i + 1] == rest[i];
    }
    if DeclaresEnum(name, items, block, field, members) {
      var i :| 0 <= i < |items| && ItemDeclaresEnum(name, items[i], block, field, members);
      assert i > 0 ==> rest[i - 1] == items[i];
    }
  }

  /** A condition on an enum is emitted with the member's bare name. That name is declared if and only if it is,
      as a whole, the `block_field_member` of some enum of the program. */
  lemma {:induction false} BareMemberIsDeclaredIff(name: string, items: seq<Item>, member: string)
    ensures member in Enumerators(name, items) <==> IsEnumerator(name, items, member)
    decreases items
  {
    if items != [] {
      var it, rest := items[0], items[1..];
      BareMemberIsDeclaredIff(name, rest, member);
      if it.Section? {
        BareMemberIsDeclaredIff(it.name, it.items, member);
      }
      forall block, field, members
        ensures DeclaresEnum(name, items, block, field, members)
           <==> ItemDeclaresEnum(name, it, block, field, members) || DeclaresEnum(name, rest, block, field, members)
      {
        DeclaresEnumCons(name, items, block, field, members);
      }
      OwnEnumerators(name, it, member);
    }
  }

  lemma OwnEnumerators(name: string, it: Item, c: string)
    requires it.Section? ==> (c in Enumerators(it.name, it.items) <==> IsEnumerator(it.name, it.items, c))
    ensures c in ItemEnumerators(name, it) <==>
            exists block, field, members, k: nat ::
              ItemDeclaresEnum(name, it, block, field, members) && k < |members| && c == block + "_" + field + "_" + members[k]
  {
    match it
    case Field(n, EnumOf(ms), _) =>
      if c in ItemEnumerators(name, it) {
        var i :| 0 <= i < |ms| && c == name + "_" + n + "_" + ms[i];
        assert ItemDeclaresEnum(name, it, name, n, ms);
      }
    case Field(_, _, _) =>
    case Section(n, inner) =>
  }

  /** So the C code of `required_if: mode == ADVANCED` names nothing: no enumerator is without an underscore. */
  lemma BareMemberIsUndeclared(name: string, items: seq<Item>, member: string)
    requires '_' !in member
    ensures member !in Enumerators(name, items)
  {
    BareMemberIsDeclaredIff(name, items, member);
    forall block, field, members, k: nat
      | DeclaresEnum(name, items, block, field, members) && k < |members|
      ensures member != block + "_" + field + "_" + members[k]
    {
      assert (block + "_" + field + "_" + members[k])[|block|] == '_';
    }
  }

  /** A member that spells another's enumerator is declared, as that other one. */
  lemma MemberMayBeDeclared()
    ensures "S_mode_X" in Enumerators("S", [Field("mode", EnumOf(["X", "S_mode_X"]), [])])
  {
    var items, ms := [Field("mode", EnumOf(["X", "S_mode_X"]), [])], ["X", "S_mode_X"];
    assert ItemDeclaresEnum("S", items[0], "S", "mode", ms);
    assert "S" + "_" + "mode" + "_" + ms[0] == "S_mode_X";
    BareMemberIsDeclaredIff("S", items, "S_mode_X");
  }

  // ----- One property -----

  /** A field that carries constraints: accepted by the checker, with its patterns in the table. */
  ghost predicate FieldReady(u: Unit, table: seq<string>, it: Item) {
    it.Field? && TypeKnown(u.prog, it.typ) && PropertiesAccepted(TypeOf(u.prog, it.typ), it.props)
    && PropsReady(table, it.props)
  }

  /** What acceptance says about the value of a property. */
  lemma AcceptedShape(t: Type, p: Property)
    requires PropertyAccepted(t, p)
    ensures p.name == "range" <==> p.value.RangeOf?
    ensures p.name == "required_if" <==> p.value.Condition?
    ensures p.value.RangeOf? ==> (p.value.min.IntLit? && p.value.max.IntLit?) || (p.value.min.FloatLit? && p.value.max.FloatLit?)
    ensures p.name == "required" || p.name == "exists" ==> p.value.lit.BoolLit?
    ensures p.name == "pattern" || p.name == "hook" ==> p.value.lit.StringLit?
    ensures p.name == "min_length" || p.name == "max_length" ==> p.value.lit.IntLit?
  {
  }

  /** The emitted test holds exactly when the property is violated, except that the test of a condition
      on a text never holds. */
  ghost predicate TestIsExact(o: Output, it: Item, p: Property, x: Data, block: Data)
    requires it.Field?
  {
    var t := PropertyTest(o.table, it, p);
    (t.Some? && TestHolds(o.table, o.w, t.value, x, block)) <==> !Satisfied(Emitted(o.w), p, x, block) && !IsTextCondition(p)
  }

  lemma RangeTestIsExact(o: Output, it: Item, p: Property, x: Data, block: Data)
    requires it.Field? && p.value.RangeOf? && p.name == "range"
    requires (p.value.min.IntLit? && p.value.max.IntLit?) || (p.value.min.FloatLit? && p.value.max.FloatLit?)
    ensures TestIsExact(o, it, p, x, block)
  {
  }

  lemma ConditionTestIsExact(o: Output, it: Item, p: Property, x: Data, block: Data)
    requires it.Field? && p.value.Condition? && p.name == "required_if"
    requires CanBeEmpty(it) ==> !p.value.right.NameLit?
    requires Fits(it.typ, x)
    ensures TestIsExact(o, it, p, x, block)
  {
    if !p.value.right.StringLit? && CanBeEmpty(it) {
      assert ConditionTrue(FieldOf(block, p.value.left), p.value.right)
        <==> Equals(FieldOf(block, p.value.left), p.value.right);
    }
  }

  lemma LengthTestIsExact(o: Output, it: Item, p: Property, x: Data, block: Data)
    requires it.Field? && p.value.Plain? && p.value.lit.IntLit?
    requires p.name == "min_length" || p.name == "max_length"
    requires Fits(it.typ, x) && (x.ListValue? || x.TextValue?)
    ensures TestIsExact(o, it, p, x, block)
  {
  }

  lemma ExistsTestIsExact(o: Output, it: Item, p: Property, x: Data, block: Data)
    requires it.Field? && p.value.Plain? && p.value.lit.BoolLit? && p.name == "exists"
    requires Fits(it.typ, x)
    ensures TestIsExact(o, it, p, x, block)
  {
  }

  lemma PatternTestIsExact(o: Output, it: Item, p: Property, x: Data, block: Data)
    requires it.Field? && p.value.Plain? && p.value.lit.StringLit? && p.name == "pattern"
    requires p.value.lit.text in o.table
    ensures TestIsExact(o, it, p, x, block)
  {
    assert o.table[RegexIndex(o.table, p.value.lit.text)] == p.value.lit.text;
  }

  lemma PlainTestIsExact(o: Output, it: Item, p: Property, x: Data, block: Data)
    requires it.Field? && p.value.Plain? && Fits(it.typ, x)
    requires p.name !in ["range", "required_if", "min_length", "max_length", "exists", "pattern"]
    ensures TestIsExact(o, it, p, x, block)
  {
    assert p.name != "range" && p.name != "required_if" && p.name != "exists" && p.name != "pattern";
    assert p.name != "min_length" && p.name != "max_length";
  }

  lemma {:induction false} PropertyTestIsExact(o: Output, it: Item, k: nat, x: Data, block: Data)
    requires FieldReady(o.u, o.table, it) && NamesNoMember(it) && k < |it.props| && Fits(it.typ, x)
    ensures TestIsExact(o, it, it.props[k], x, block)
  {
    var p := it.props[k];
    AcceptedShape(TypeOf(o.u.prog, it.typ), p);
    if p.name == "range" {
      RangeTestIsExact(o, it, p, x, block);
    } else if p.name == "required_if" {
      ConditionTestIsExact(o, it, p, x, block);
    } else if p.name == "min_length" || p.name == "max_length" {
      LengthFieldFits(o.u, it, p, x);
      LengthTestIsExact(o, it, p, x, block);
    } else if p.name == "exists" {
      ExistsTestIsExact(o, it, p, x, block);
    } else if p.name == "pattern" {
      PatternTestIsExact(o, it, p, x, block);
    } else {
      PlainTestIsExact(o, it, p, x, block);
    }
  }

  lemma LengthFieldFits(u: Unit, it: Item, p: Property, x: Data)
    requires it.Field? && TypeKnown(u.prog, it.typ) && Fits(it.typ, x)
    requires PropertyAccepted(TypeOf(u.prog, it.typ), p) && (p.name == "min_length" || p.name == "max_length")
    ensures x.ListValue? || x.TextValue?
  {
  }

  // ----- One field, one block, the whole tree -----

  function First(vs: seq<Violation>): Option<Violation> {
    if vs == [] then None else Some(vs[0])
  }

  predicate OfTextCondition(x: Violation) {
    x.what.TextConditionMissing?
  }

  /** The violations without those of conditions on a text. */
  function WithoutText(vs: seq<Violation>): seq<Violation> {
    if vs == [] then [] else (if OfTextCondition(vs[0]) then [] else [vs[0]]) + WithoutText(vs[1..])
  }

  lemma {:induction false} WithoutTextAppend(a: seq<Violation>, b: seq<Violation>)
    ensures WithoutText(a + b) == WithoutText(a) + WithoutText(b)
    decreases |a|
  {
    if a == [] {
      assert a + b == b;
    } else {
      assert (a + b)[0] == a[0] && (a + b)[1..] == a[1..] + b;
      WithoutTextAppend(a[1..], b);
    }
  }

  /** The first violation that can be reported. */
  function FirstReported(vs: seq<Violation>): Option<Violation> {
    First(WithoutText(vs))
  }

  lemma FirstReportedAppend(a: seq<Violation>, b: seq<Violation>)
    ensures FirstReported(a + b) == if FirstReported(a).Some? then FirstReported(a) else FirstReported(b)
  {
    WithoutTextAppend(a, b);
    FirstAppend(WithoutText(a), WithoutText(b));
  }

  lemma ReportTellsTextConditions(it: Item, p: Property)
    ensures OfTextCondition(Validator.Report(it, p)) <==> IsTextCondition(p)
  {
  }

  lemma FirstReportedOfOne(x: Violation)
    ensures FirstReported([x]) == if OfTextCondition(x) then None else Some(x)
    ensures WithoutText([x]) == if OfTextCondition(x) then [] else [x]
  {
    assert [x][1..] == [] && WithoutText([]) == [];
  }

  lemma FirstReportedOfList(holds: bool, x: Violation, rest: seq<Violation>)
    ensures FirstReported((if holds then [] else [x]) + rest)
         == if !holds && !OfTextCondition(x) then Some(x) else FirstReported(rest)
  {
    var own := if holds then [] else [x];
    FirstReportedOfOne(x);
    FirstReportedAppend(own, rest);
  }

  /** A violated property is reported by its own name, a text condition by one that is never reported. */
  lemma ReportedProperty(how: Reading, it: Item, props: seq<Property>, v: Data, block: Data)
    requires props != []
    ensures FirstReported(PropertyViolations(how, it, props, v, block))
         == if !Satisfied(how, props[0], v, block) && !IsTextCondition(props[0]) then Some(Validator.Report(it, props[0]))
            else FirstReported(PropertyViolations(how, it, props[1..], v, block))
  {
    var holds := Satisfied(how, props[0], v, block);
    ReportTellsTextConditions(it, props[0]);
    FirstReportedOfList(holds, Validator.Report(it, props[0]), PropertyViolations(how, it, props[1..], v, block));
  }

  lemma {:induction false} RunAppend(o: Output, a: seq<Stmt>, b: seq<Stmt>, v: Data)
    ensures RunCode(o, a + b, v) == if RunCode(o, a, v).Some? then RunCode(o, a, v) else RunCode(o, b, v)
    decreases |a|
  {
    if a == [] {
      assert a + b == b;
    } else {
      assert (a + b)[0] == a[0] && (a + b)[1..] == a[1..] + b;
      RunAppend(o, a[1..], b, v);
    }
  }

  lemma RunOne(o: Output, s: Stmt, v: Data)
    ensures RunCode(o, [s], v) == RunStmt(o, s, v)
  {
    assert [s][1..] == [];
    assert RunCode(o, [], v) == None;
  }

  lemma {:induction false} PropertyCodeIsExact(o: Output, it: Item, k: nat, v: Data)
    requires FieldReady(o.u, o.table, it) && NamesNoMember(it) && k <= |it.props|
    requires FieldOf(v, it.name).Some? && Fits(it.typ, FieldOf(v, it.name).value)
    ensures RunCode(o, PropertyCode(o.table, it, it.props[k..]), v)
         == FirstReported(PropertyViolations(Emitted(o.w), it, it.props[k..], FieldOf(v, it.name).value, v))
    decreases |it.props| - k
  {
    if k < |it.props| {
      var x, p, rest := FieldOf(v, it.name).value, it.props[k], it.props[k + 1..];
      assert it.props[k..][0] == p && it.props[k..][1..] == rest;
      PropertyTestIsExact(o, it, k, x, v);
      PropertyCodeIsExact(o, it, k + 1, v);
      ReportedProperty(Emitted(o.w), it, it.props[k..], x, v);
      var t := PropertyTest(o.table, it, p);
      if t.Some? {
        var s := FailIf(it.name, t.value, Validator.Report(it, p));
        RunAppend(o, [s], PropertyCode(o.table, it, rest), v);
        RunOne(o, s, v);
      } else {
        assert [] + PropertyCode(o.table, it, rest) == PropertyCode(o.table, it, rest);
      }
    }
  }

  lemma FirstAppend(a: seq<Violation>, b: seq<Violation>)
    ensures First(a + b) == if a != [] then First(a) else First(b)
  {
    if a == [] {
      assert a + b == b;
    }
  }

  /** A block's function reports the first of all violations below it, or returns true. */
  lemma {:induction false} BlockIsExact(o: Output, items: seq<Item>, r: nat, v: Data)
    requires OutputBuilds(o) && Below(o.u, items, r) && ItemsAccepted(o.u.prog, items)
    requires Conforms(o.u, items, r, v) && ItemsReady(o.table, items) && SectionsListed(o.fns, items) && NoMemberNamed(items)
    ensures RunCode(o, BlockCode(o.u, o.table, items), v) == FirstReported(Violations(o.u, Emitted(o.w), items, r, v))
    decreases r, items, 1
  {
    if items != [] {
      BelowTail(o.u, items, r);
      AcceptedTail(o.u.prog, items);
      var rest := items[1..];
      assert forall i :: 0 <= i < |rest| ==> rest[i] == items[i + 1];
      RunAppend(o, ItemCode(o.u, o.table, items[0]), BlockCode(o.u, o.table, rest), v);
      FirstReportedAppend(ItemViolations(o.u, Emitted(o.w), items, r, v), Violations(o.u, Emitted(o.w), rest, r, v));
      ItemIsExact(o, items, r, v);
      BlockIsExact(o, rest, r, v);
    }
  }

  lemma {:induction false} ItemIsExact(o: Output, items: seq<Item>, r: nat, v: Data)
    requires OutputBuilds(o) && Below(o.u, items, r) && ItemsAccepted(o.u.prog, items) && items != []
    requires v.StructValue? && ItemConforms(o.u, items, r, v)
    requires ItemsReady(o.table, items) && SectionsListed(o.fns, items) && NoMemberNamed(items)
    ensures RunCode(o, ItemCode(o.u, o.table, items[0]), v) == FirstReported(ItemViolations(o.u, Emitted(o.w), items, r, v))
    decreases r, items, 0
  {
    BelowTail(o.u, items, r);
    AcceptedTail(o.u.prog, items);
    var it, x := items[0], FieldOf(v, items[0].name).value;
    if it.Section? {
      RunOne(o, Call(it.name, it.name), v);
      BlockIsExact(o, it.items, r, x);
    } else {
      assert ItemReady(o.table, it);
      assert it.props[0..] == it.props;
      PropertyCodeIsExact(o, it, 0, v);
      var s := ShapeOf(o.u, it.typ);
      if !s.Scalar? {
        BodyIsBelow(o.u, s.schema);
        if s.Struct? {
          BlockIsExact(o, Body(o.u, s.schema), Rank(o.u, s.schema), x);
        } else {
          ElementsAreExact(o, s.schema, x.elems);
        }
      }
      FieldIsExact(o, items, r, v);
    }
  }

  /** A field: its own tests, then the call for what it holds. */
  lemma FieldIsExact(o: Output, items: seq<Item>, r: nat, v: Data)
    requires OutputBuilds(o) && Below(o.u, items, r) && items != [] && items[0].Field?
    requires v.StructValue? && ItemConforms(o.u, items, r, v)
    requires (var it, x := items[0], FieldOf(v, items[0].name).value;
              RunCode(o, PropertyCode(o.table, it, it.props), v) == FirstReported(PropertyViolations(Emitted(o.w), it, it.props, x, v)) &&
              match ShapeOf(o.u, it.typ)
              case Scalar => true
              case Struct(sn) =>
                BodyIsBelow(o.u, sn);
                RunCode(o, BlockCode(o.u, o.table, Body(o.u, sn)), x)
                == FirstReported(Violations(o.u, Emitted(o.w), Body(o.u, sn), Rank(o.u, sn), x))
              case StructArray(sn) =>
                RunEach(o, sn, x.elems) == FirstReported(ElementViolations(o.u, Emitted(o.w), sn, x.elems)))
    ensures RunCode(o, ItemCode(o.u, o.table, items[0]), v) == FirstReported(ItemViolations(o.u, Emitted(o.w), items, r, v))
  {
    var it, x := items[0], FieldOf(v, items[0].name).value;
    var own, s := PropertyCode(o.table, it, it.props), ShapeOf(o.u, it.typ);
    var ownViolations := PropertyViolations(Emitted(o.w), it, it.props, x, v);
    if s.Scalar? {
      RunAppend(o, own, [], v);
      FirstReportedAppend(ownViolations, []);
    } else {
      BodyIsBelow(o.u, s.schema);
      var call := if s.Struct? then Call(s.schema, it.name) else CallEach(s.schema, it.name);
      RunAppend(o, own, [call], v);
      RunOne(o, call, v);
      FirstReportedAppend(ownViolations,
        if s.Struct? then Violations(o.u, Emitted(o.w), Body(o.u, s.schema), Rank(o.u, s.schema), x)
        else ElementViolations(o.u, Emitted(o.w), s.schema, x.elems));
    }
  }

  lemma {:induction false} ElementsAreExact(o: Output, sn: string, elems: seq<Data>)
    requires OutputBuilds(o) && IsDeclared(o.u.prog, sn) && ElementsConform(o.u, sn, elems)
    ensures RunEach(o, sn, elems) == FirstReported(ElementViolations(o.u, Emitted(o.w), sn, elems))
    decreases Rank(o.u, sn), Body(o.u, sn), 2, elems
  {
    if elems != [] {
      BodyIsBelow(o.u, sn);
      ElementsAreExact(o, sn, elems[1..]);
      var rest := ElementViolations(o.u, Emitted(o.w), sn, elems[1..]);
      if elems[0].StructValue? {
        BlockIsExact(o, Body(o.u, sn), Rank(o.u, sn), elems[0]);
        FirstReportedAppend(Violations(o.u, Emitted(o.w), Body(o.u, sn), Rank(o.u, sn), elems[0]), rest);
      } else {
        FirstReportedOfOne(Violation(sn, NoStruct));
        FirstReportedAppend([Violation(sn, NoStruct)], rest);
      }
    }
  }

  // ----- The emitted program is ready -----

  predicate Includes<T(==)>(big: seq<T>, small: seq<T>) {
    forall i :: 0 <= i < |small| ==> small[i] in big
  }

  lemma IncludesTransitive<T>(a: seq<T>, b: seq<T>, c: seq<T>)
    requires Includes(a, b) && Includes(b, c)
    ensures Includes(a, c)
  {
  }

  lemma IncludesParts<T>(big: seq<T>, a: seq<T>, b: seq<T>)
    requires Includes(big, a + b)
    ensures Includes(big, a) && Includes(big, b)
  {
    forall i | 0 <= i < |a| ensures a[i] in big {
      assert (a + b)[i] in big;
    }
    forall i | 0 <= i < |b| ensures b[i] in big {
      assert (a + b)[|a| + i] in big;
    }
  }

  lemma {:induction false} AddPatternsIncludes(table: seq<string>, props: seq<Property>)
    ensures Includes(AddPatterns(table, props), table)
    ensures forall k :: 0 <= k < |props| && props[k].name == "pattern" && props[k].value.Plain? && props[k].value.lit.StringLit? ==>
              props[k].value.lit.text in AddPatterns(table, props)
    decreases |props|
  {
    if props != [] {
      var t := AddPattern(table, props[0]);
      assert Includes(t, table) by {
        assert table <= t;
      }
      if props[0].name == "pattern" && props[0].value.Plain? && props[0].value.lit.StringLit? && t != table {
        assert t[|table|] == props[0].value.lit.text;
      }
      AddPatternsIncludes(t, props[1..]);
      IncludesTransitive(AddPatterns(t, props[1..]), t, table);
      assert props == [props[0]] + props[1..];
    }
  }

  lemma {:induction false} AddPatternsOnce(table: seq<string>, props: seq<Property>)
    requires Distinct(table)
    ensures Distinct(AddPatterns(table, props))
    decreases |props|
  {
    if props != [] {
      var t := AddPattern(table, props[0]);
      assert t != table ==> t[..|table|] == table;
      AddPatternsOnce(t, props[1..]);
    }
  }

  lemma {:induction false} TrackItemsOnce(table: seq<string>, items: seq<Item>)
    requires Distinct(table)
    ensures Distinct(TrackItems(table, items))
    decreases items
  {
    if items != [] {
      match items[0] {
        case Field(_, _, props) =>
          AddPatternsOnce(table, props);
          TrackItemsOnce(AddPatterns(table, props), items[1..]);
        case Section(_, inner) =>
          TrackItemsOnce(table, inner);
          TrackItemsOnce(TrackItems(table, inner), items[1..]);
      }
    }
  }

  /** No pattern enters the table twice, so no matcher is emitted twice. */
  lemma {:induction false} PatternsEnterOnce(table: seq<string>, prog: Program)
    requires Distinct(table)
    ensures Distinct(TrackProgram(table, prog))
    decreases |prog|
  {
    if prog != [] {
      TrackItemsOnce(table, prog[0].items);
      PatternsEnterOnce(TrackItems(table, prog[0].items), prog[1..]);
    }
  }

  lemma {:induction false} ItemsReadyGrows(table: seq<string>, bigger: seq<string>, items: seq<Item>)
    requires Includes(bigger, table) && ItemsReady(table, items)
    ensures ItemsReady(bigger, items)
    decreases items
  {
    forall i | 0 <= i < |items| ensures ItemReady(bigger, items[i]) {
      assert ItemReady(table, items[i]);
      if items[i].Section? {
        ItemsReadyGrows(table, bigger, items[i].items);
      }
    }
  }

  lemma {:induction false} TrackItemsReady(table: seq<string>, items: seq<Item>)
    ensures Includes(TrackItems(table, items), table) && ItemsReady(TrackItems(table, items), items)
    decreases items
  {
    if items != [] {
      var it := items[0];
      var t := if it.Field? then AddPatterns(table, it.props) else TrackItems(table, it.items);
      if it.Field? {
        AddPatternsIncludes(table, it.props);
      } else {
        TrackItemsReady(table, it.items);
      }
      assert ItemsReady(t, [it]);
      TrackItemsReady(t, items[1..]);
      var t' := TrackItems(table, items);
      IncludesTransitive(t', t, table);
      ItemsReadyGrows(t, t', [it]);
      assert ItemReady(t', [it][0]);
      assert forall i :: 0 < i < |items| ==> items[i] == items[1..][i - 1];
    }
  }

  lemma {:induction false} TrackProgramReady(table: seq<string>, prog: Program, k: nat)
    requires k < |prog|
    ensures ItemsReady(TrackProgram(table, prog), prog[k].items)
    decreases |prog|
  {
    TrackItemsReady(table, prog[0].items);
    var t := TrackItems(table, prog[0].items);
    assert forall i :: 0 <= i < |prog[1..]| ==> prog[1..][i] == prog[i + 1];
    if k == 0 {
      TrackProgramIncludes(t, prog[1..]);
      ItemsReadyGrows(t, TrackProgram(t, prog[1..]), prog[0].items);
    } else {
      TrackProgramReady(t, prog[1..], k - 1);
    }
  }

  lemma {:induction false} TrackProgramIncludes(table: seq<string>, prog: Program)
    ensures Includes(TrackProgram(table, prog), table)
    decreases |prog|
  {
    if prog != [] {
      var t := TrackItems(table, prog[0].items);
      TrackItemsReady(table, prog[0].items);
      assert forall i :: 0 <= i < |prog[1..]| ==> prog[1..][i] == prog[i + 1];
      TrackProgramIncludes(t, prog[1..]);
      IncludesTransitive(TrackProgram(t, prog[1..]), t, table);
    }
  }

  lemma {:induction false} FindListedFn(fns: seq<Fn>, k: nat)
    requires DistinctFns(fns) && k < |fns|
    ensures FindFn(fns, fns[k].name) == Some(fns[k].items)
    decreases |fns|
  {
    if k > 0 {
      assert fns[1..][k - 1] == fns[k];
      FindListedFn(fns[1..], k - 1);
    }
  }

  lemma {:induction false} SectionsAreListed(fns: seq<Fn>, items: seq<Item>)
    requires DistinctFns(fns) && Includes(fns, SectionFns(items))
    ensures SectionsListed(fns, items)
    decreases items
  {
    if items != [] {
      var it := items[0];
      var own := if it.Section? then FnsOf(it.name, it.items) else [];
      IncludesParts(fns, own, SectionFns(items[1..]));
      SectionsAreListed(fns, items[1..]);
      if it.Section? {
        IncludesParts(fns, [Fn(it.name, it.items)], SectionFns(it.items));
        assert [Fn(it.name, it.items)][0] in fns;
        var k :| 0 <= k < |fns| && fns[k] == Fn(it.name, it.items);
        FindListedFn(fns, k);
        SectionsAreListed(fns, it.items);
      }
      assert forall i :: 0 < i < |items| ==> items[i] == items[1..][i - 1];
    }
  }

  lemma {:induction false} AllFnsInclude(prog: Program, k: nat)
    requires k < |prog|
    ensures Includes(AllFns(prog), FnsOf(prog[k].name, prog[k].items))
    decreases |prog|
  {
    var own, rest := FnsOf(prog[0].name, prog[0].items), AllFns(prog[1..]);
    if k > 0 {
      AllFnsInclude(prog[1..], k - 1);
    }
    var mine := FnsOf(prog[k].name, prog[k].items);
    forall i | 0 <= i < |mine| ensures mine[i] in own + rest {
      assert k == 0 ==> (own + rest)[i] == mine[i];
      assert k > 0 ==> mine[i] in rest;
    }
  }

  /** The whole generated program. */
  function Generated(u: Unit, w: World): Output {
    Output(u, TrackProgram([], u.prog), AllFns(u.prog), w)
  }

  lemma {:induction false} GeneratedIsReady(u: Unit, w: World)
    requires Ready(u) && DistinctFns(AllFns(u.prog))
    ensures OutputReady(Generated(u, w))
  {
    var fns, table := AllFns(u.prog), TrackProgram([], u.prog);
    forall n | IsDeclared(u.prog, n)
      ensures FindFn(fns, n) == Some(Body(u, n)) && SectionsListed(fns, Body(u, n)) && ItemsReady(table, Body(u, n))
    {
      var i := FindSchemaIndex(u.prog, n);
      AllFnsInclude(u.prog, i);
      IncludesParts(fns, [Fn(n, Body(u, n))], SectionFns(Body(u, n)));
      assert [Fn(n, Body(u, n))][0] in fns;
      var k :| 0 <= k < |fns| && fns[k] == Fn(n, Body(u, n));
      FindListedFn(fns, k);
      SectionsAreListed(fns, Body(u, n));
      TrackProgramReady([], u.prog, i);
    }
  }

  /** All constraints of a schema, checked against a configuration, in declaration order. */
  function SchemaViolations(u: Unit, how: Reading, root: string, v: Data): seq<Violation>
    requires Ready(u) && IsDeclared(u.prog, root)
  {
    BodyIsBelow(u, root);
    Violations(u, how, Body(u, root), Rank(u, root), v)
  }

  predicate SchemaConforms(u: Unit, root: string, v: Data)
    requires Ready(u) && IsDeclared(u.prog, root)
  {
    BodyIsBelow(u, root);
    Conforms(u, Body(u, root), Rank(u, root), v)
  }

  /** The generated `X_validate` reports the first violation, in declaration order, of all constraints anywhere
      in the tree, array elements included, but for those of conditions on a text; it returns true when there is
      no other. Patterns are read as their matchers do. Function names must be unique, and the code must build. */
  lemma {:induction false} ValidatorReportsFirst(u: Unit, w: World, root: string, v: Data)
    requires Ready(u) && DistinctFns(AllFns(u.prog)) && IsDeclared(u.prog, root)
    requires Builds(u.prog) && SchemaConforms(u, root, v)
    ensures RunFn(Generated(u, w), root, v) == FirstReported(SchemaViolations(u, Emitted(w), root, v))
  {
    GeneratedIsReady(u, w);
    forall n | IsDeclared(u.prog, n) ensures NoMemberNamed(Body(u, n)) {
      var i := FindSchemaIndex(u.prog, n);
    }
    BodyIsBelow(u, root);
    BlockIsExact(Generated(u, w), Body(u, root), Rank(u, root), v);
  }

  lemma {:induction false} WithoutTextIsWithout(vs: seq<Violation>)
    ensures forall i :: 0 <= i < |WithoutText(vs)| ==> !OfTextCondition(WithoutText(vs)[i])
    ensures vs != [] && !OfTextCondition(vs[0]) ==> WithoutText(vs) != [] && WithoutText(vs)[0] == vs[0]
    ensures WithoutText(vs) == [] <==> forall i :: 0 <= i < |vs| ==> OfTextCondition(vs[i])
    decreases |vs|
  {
    if vs != [] {
      WithoutTextIsWithout(vs[1..]);
    }
  }

  /** Patterns read as their matchers do, the generated validator gives the first of all violations, or true, if
      and only if that first violation is not one of a condition on a text. It returns true if and only if every
      violation is one of those. */
  lemma ValidatorIsExactIff(u: Unit, w: World, root: string, v: Data)
    requires Ready(u) && DistinctFns(AllFns(u.prog)) && IsDeclared(u.prog, root)
    requires Builds(u.prog) && SchemaConforms(u, root, v)
    ensures (var vs := SchemaViolations(u, Emitted(w), root, v);
             (RunFn(Generated(u, w), root, v) == First(vs) <==> !(vs != [] && OfTextCondition(vs[0]))) &&
             (RunFn(Generated(u, w), root, v) == None <==> forall i :: 0 <= i < |vs| ==> OfTextCondition(vs[i])))
  {
    ValidatorReportsFirst(u, w, root, v);
    WithoutTextIsWithout(SchemaViolations(u, Emitted(w), root, v));
  }

  // ----- Programs without conditions on a text -----

  predicate NoTextConditions(items: seq<Item>)
    decreases items
  {
    forall i :: 0 <= i < |items| ==>
      match items[i]
      case Field(_, _, props) => forall k :: 0 <= k < |props| ==> !IsTextCondition(props[k])
      case Section(_, inner) => NoTextConditions(inner)
  }

  lemma {:induction false} PropertiesWithoutText(how: Reading, it: Item, props: seq<Property>, v: Data, block: Data)
    requires forall k :: 0 <= k < |props| ==> !IsTextCondition(props[k])
    ensures WithoutText(PropertyViolations(how, it, props, v, block)) == PropertyViolations(how, it, props, v, block)
    decreases |props|
  {
    if props != [] {
      PropertiesWithoutText(how, it, props[1..], v, block);
      var own := if Satisfied(how, props[0], v, block) then [] else [Validator.Report(it, props[0])];
      ReportTellsTextConditions(it, props[0]);
      FirstReportedOfOne(Validator.Report(it, props[0]));
      WithoutTextAppend(own, PropertyViolations(how, it, props[1..], v, block));
    }
  }

  ghost predicate ProgramWithoutText(u: Unit) {
    Ready(u) && forall n :: IsDeclared(u.prog, n) ==> NoTextConditions(Body(u, n))
  }

  lemma {:induction false} BlockWithoutText(u: Unit, how: Reading, items: seq<Item>, r: nat, v: Data)
    requires ProgramWithoutText(u) && Below(u, items, r) && NoTextConditions(items)
    ensures WithoutText(Violations(u, how, items, r, v)) == Violations(u, how, items, r, v)
    decreases r, items, 1
  {
    if items != [] {
      BelowTail(u, items, r);
      var rest := items[1..];
      assert forall i :: 0 <= i < |rest| ==> rest[i] == items[i + 1];
      ItemWithoutText(u, how, items, r, v);
      BlockWithoutText(u, how, rest, r, v);
      WithoutTextAppend(ItemViolations(u, how, items, r, v), Violations(u, how, rest, r, v));
    }
  }

  lemma {:induction false} ItemWithoutText(u: Unit, how: Reading, items: seq<Item>, r: nat, v: Data)
    requires ProgramWithoutText(u) && Below(u, items, r) && items != [] && NoTextConditions(items)
    ensures WithoutText(ItemViolations(u, how, items, r, v)) == ItemViolations(u, how, items, r, v)
    decreases r, items, 0
  {
    BelowTail(u, items, r);
    var it, x := items[0], FieldOf(v, items[0].name);
    if x.Some? {
      if it.Section? {
        BlockWithoutText(u, how, it.items, r, x.value);
      } else {
        var s, own := ShapeOf(u, it.typ), PropertyViolations(how, it, it.props, x.value, v);
        PropertiesWithoutText(how, it, it.props, x.value, v);
        if s.Scalar? {
          WithoutTextAppend(own, []);
        } else {
          BodyIsBelow(u, s.schema);
          if s.Struct? {
            BlockWithoutText(u, how, Body(u, s.schema), Rank(u, s.schema), x.value);
            WithoutTextAppend(own, Violations(u, how, Body(u, s.schema), Rank(u, s.schema), x.value));
          } else if x.value.ListValue? {
            ElementsWithoutText(u, how, s.schema, x.value.elems);
            WithoutTextAppend(own, ElementViolations(u, how, s.schema, x.value.elems));
          } else {
            WithoutTextAppend(own, []);
          }
        }
      }
    }
  }

  lemma {:induction false} ElementsWithoutText(u: Unit, how: Reading, sn: string, elems: seq<Data>)
    requires ProgramWithoutText(u) && IsDeclared(u.prog, sn)
    ensures WithoutText(ElementViolations(u, how, sn, elems)) == ElementViolations(u, how, sn, elems)
    decreases Rank(u, sn), Body(u, sn), 2, elems
  {
    if elems != [] {
      BodyIsBelow(u, sn);
      ElementsWithoutText(u, how, sn, elems[1..]);
      var rest := ElementViolations(u, how, sn, elems[1..]);
      if elems[0].StructValue? {
        BlockWithoutText(u, how, Body(u, sn), Rank(u, sn), elems[0]);
        WithoutTextAppend(Violations(u, how, Body(u, sn), Rank(u, sn), elems[0]), rest);
      } else {
        FirstReportedOfOne(Violation(sn, NoStruct));
        WithoutTextAppend([Violation(sn, NoStruct)], rest);
      }
    }
  }

  /** A program without conditions on a text is validated exactly, whatever the configuration, patterns read as
      their matchers do. */
  lemma ValidatorIsExact(u: Unit, w: World, root: string, v: Data)
    requires Ready(u) && DistinctFns(AllFns(u.prog)) && IsDeclared(u.prog, root)
    requires Builds(u.prog) && SchemaConforms(u, root, v)
    requires forall i :: 0 <= i < |u.prog| ==> NoTextConditions(u.prog[i].items)
    ensures RunFn(Generated(u, w), root, v) == First(SchemaViolations(u, Emitted(w), root, v))
  {
    ValidatorReportsFirst(u, w, root, v);
    forall n | IsDeclared(u.prog, n) ensures NoTextConditions(Body(u, n)) {
      var i := FindSchemaIndex(u.prog, n);
    }
    BodyIsBelow(u, root);
    BlockWithoutText(u, Emitted(w), Body(u, root), Rank(u, root), v);
  }

  /** The same at one field: the test of a condition on a text never holds, whether or not the field is
      missing while the texts are equal. */
  lemma TextConditionNeverFires(o: Output, it: Item, left: string, text: string, x: Data, block: Data)
    requires it.Field? && CanBeEmpty(it) && Fits(it.typ, x)
    ensures (var p := Property("required_if", Condition(left, StringLit(text)));
             !TestHolds(o.table, o.w, PropertyTest(o.table, it, p).value, x, block) &&
             (Satisfied(Emitted(o.w), p, x, block) <==> !(FieldOf(block, left) == Some(TextValue(Some(text))) && IsMissing(x))))
  {
  }
}
