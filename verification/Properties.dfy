/** Which properties a field may carry, and which values they take. */
module Properties {
  import opened Schema
  import opened Types
  import opened Characters

  datatype ErrorKind = UnknownType | Redeclaration | Undeclared | TypeMismatch | UnexpectedProperty | CircularDependency

  /** What a property's value must be. */
  datatype Expected =
    | MatchingLiteral      // a literal of the field's own type
    | BoolLiteral | StringLiteral | IntLiteral
    | Range
    | Cond

  /** `is_property_valid_for_type`: the generic table first, then the one of the type. */
  function PropertyDef(t: Type, name: string): Option<Expected> {
    if name == "default" then Some(MatchingLiteral)
    else if name == "required" || name == "secret" then Some(BoolLiteral)
    else if name == "required_if" then Some(Cond)
    else if name == "env" || name == "hook" || name == "short" then Some(StringLiteral)
    else
      match t
      case PrimitiveType(p) =>
        if p == Int || p == Float then
          if name == "range" then Some(Range)
          else if name == "min" || name == "max" then Some(MatchingLiteral) else None
        else if p == Text then
          if name == "min_length" || name == "max_length" then Some(IntLiteral)
          else if name == "pattern" then Some(StringLiteral) else None
        else if p == Path && name == "exists" then Some(BoolLiteral)
        else None
      case ArrayType(e) =>
        if name == "min_length" || name == "max_length" then Some(IntLiteral)
        else if name == "exists" && e == PrimitiveType(Path) then Some(BoolLiteral)
        else None
      case _ => None
  }

  predicate LiteralMatches(p: Primitive, l: Literal) {
    match p
    case Int => l.IntLit?
    case Float => l.FloatLit?
    case Bool => l.BoolLit?
    case Text => l.StringLit?
    case Path => l.StringLit?
    case Ipv4 => l.StringLit?
    case Void => false
  }

  /** A literal of the field's own type. Arrays, schemas and sections have no literal. */
  predicate OwnLiteral(t: Type, l: Literal) {
    match t
    case PrimitiveType(p) => LiteralMatches(p, l)
    case EnumType(ms) => l.NameLit? && l.name in ms
    case _ => false
  }

  /** The scan of `is_valid_ipv4`, from the rest of the text and the counters so far. */
  predicate Ipv4From(s: string, dots: nat, num: nat, hasNum: bool) {
    if s == "" then dots == 3 && hasNum
    else if IsDigit(s[0]) then
      var num' := num * 10 + (s[0] - '0') as int;
      num' <= 255 && Ipv4From(s[1..], dots, num', true)
    else s[0] == '.' && hasNum && Ipv4From(s[1..], dots + 1, 0, false)
  }

  predicate ValidEnvName(s: string) {
    s != "" && !IsDigit(s[0]) && forall i :: 0 <= i < |s| ==> IsAlnum(s[i]) || s[i] == '_'
  }

  /** The literal a property wants, with the format checks that depend on its name. */
  predicate LiteralAccepted(t: Type, e: Expected, name: string, l: Literal) {
    && (match e
        case MatchingLiteral => OwnLiteral(t, l)
        case BoolLiteral => l.BoolLit?
        case StringLiteral => l.StringLit?
        case IntLiteral => l.IntLit?
        case _ => false)
    // an enum field only accepts members, whatever the property
    && (t.EnumType? ==> OwnLiteral(t, l))
    && (l.StringLit? && t == PrimitiveType(Ipv4) && name == "default" ==> Ipv4From(l.text, 0, 0, false))
    && (l.StringLit? && name == "env" ==> ValidEnvName(l.text))
    && (l.IntLit? && (name == "min_length" || name == "max_length") ==> l.value >= 0)
  }

  predicate RangeAccepted(t: Type, v: Value) {
    v.RangeOf? &&
    if t == PrimitiveType(Float) then v.min.FloatLit? && v.max.FloatLit? && v.min.number <= v.max.number
    else v.min.IntLit? && v.max.IntLit? && v.min.value <= v.max.value
  }

  /** The checks on a property that do not depend on the scopes. */
  predicate PropertyAccepted(t: Type, p: Property) {
    var d := PropertyDef(t, p.name);
    d.Some? &&
    match d.value
    case Range => RangeAccepted(t, p.value)
    case Cond => p.value.Condition?
    case e => p.value.Plain? && LiteralAccepted(t, e, p.name, p.value.lit)
  }

  function ConditionErrors(scopes: seq<Scope>, left: string, right: Literal): seq<ErrorKind> {
    var s := Lookup(scopes, left);
    if s.None? then [Undeclared]
    else if OwnLiteral(TypeOfSymbol(s.value), right) then [] else [TypeMismatch]
  }

  /** The errors of one property, after its siblings `before` it. */
  function PropertyErrors(scopes: seq<Scope>, t: Type, before: seq<Property>, p: Property): (r: seq<ErrorKind>)
    ensures CircularDependency !in r
  {
    (if exists q :: q in before && q.name == p.name then [Redeclaration] else []) +
    (var d := PropertyDef(t, p.name);
     if d.None? then [UnexpectedProperty]
     else if d.value == Cond && p.value.Condition? then ConditionErrors(scopes, p.value.left, p.value.right)
     else if PropertyAccepted(t, p) then [] else [TypeMismatch])
  }

  function PropertiesErrors(scopes: seq<Scope>, t: Type, props: seq<Property>, i: nat): (r: seq<ErrorKind>)
    requires i <= |props|
    ensures CircularDependency !in r
    decreases |props| - i
  {
    if i == |props| then []
    else PropertyErrors(scopes, t, props[..i], props[i]) + PropertiesErrors(scopes, t, props, i + 1)
  }

  lemma PropertiesTurn(errors: seq<ErrorKind>, scopes: seq<Scope>, t: Type, props: seq<Property>, i: nat)
    requires i < |props|
    ensures errors + PropertiesErrors(scopes, t, props, i)
         == (errors + PropertyErrors(scopes, t, props[..i], props[i])) + PropertiesErrors(scopes, t, props, i + 1)
  {
  }

  // ----- The checks as the checker makes them -----

  datatype Row = Row(name: string, expected: Expected)

  const GENERIC: seq<Row> :=
    [Row("default", MatchingLiteral), Row("required", BoolLiteral), Row("required_if", Cond),
     Row("env", StringLiteral), Row("secret", BoolLiteral), Row("hook", StringLiteral), Row("short", StringLiteral)]
  const NUMERIC: seq<Row> := [Row("range", Range), Row("min", MatchingLiteral), Row("max", MatchingLiteral)]
  const TEXTUAL: seq<Row> :=
    [Row("min_length", IntLiteral), Row("max_length", IntLiteral), Row("pattern", StringLiteral)]
  const ON_PATHS: seq<Row> := [Row("exists", BoolLiteral)]
  const ON_ARRAYS: seq<Row> :=
    [Row("min_length", IntLiteral), Row("max_length", IntLiteral), Row("required", BoolLiteral), Row("required_if", Cond)]

  /** The first row of a name, from an index on. */
  function RowFrom(rows: seq<Row>, i: nat, name: string): Option<Expected>
    requires i <= |rows|
    decreases |rows| - i
  {
    if i == |rows| then None
    else if rows[i].name == name then Some(rows[i].expected)
    else RowFrom(rows, i + 1, name)
  }

  method FindRow(rows: seq<Row>, name: string) returns (r: Option<Expected>)
    ensures r == RowFrom(rows, 0, name)
  {
    var i := 0;
    while i < |rows|
      invariant 0 <= i <= |rows|
      invariant RowFrom(rows, i, name) == RowFrom(rows, 0, name)
    {
      if rows[i].name == name {
        return Some(rows[i].expected);
      }
      i := i + 1;
    }
    r := None;
  }

  lemma GenericRows(name: string)
    ensures RowFrom(GENERIC, 0, name) ==
            (if name == "default" then Some(MatchingLiteral)
             else if name == "required" || name == "secret" then Some(BoolLiteral)
             else if name == "required_if" then Some(Cond)
             else if name == "env" || name == "hook" || name == "short" then Some(StringLiteral)
             else None)
  {
    assert RowFrom(GENERIC, 6, name) == if name == "short" then Some(StringLiteral) else None;
    assert RowFrom(GENERIC, 4, name) ==
           if name == "secret" then Some(BoolLiteral) else if name == "hook" then Some(StringLiteral) else RowFrom(GENERIC, 6, name);
    assert RowFrom(GENERIC, 2, name) ==
           if name == "required_if" then Some(Cond) else if name == "env" then Some(StringLiteral) else RowFrom(GENERIC, 4, name);
  }

  lemma TypeRows(name: string)
    ensures RowFrom(NUMERIC, 0, name) ==
            (if name == "range" then Some(Range)
             else if name == "min" || name == "max" then Some(MatchingLiteral) else None)
    ensures RowFrom(TEXTUAL, 0, name) ==
            (if name == "min_length" || name == "max_length" then Some(IntLiteral)
             else if name == "pattern" then Some(StringLiteral) else None)
    ensures RowFrom(ON_PATHS, 0, name) == (if name == "exists" then Some(BoolLiteral) else None)
    ensures name != "required" && name != "required_if" ==>
              RowFrom(ON_ARRAYS, 0, name) == (if name == "min_length" || name == "max_length" then Some(IntLiteral) else None)
  {
    assert RowFrom(NUMERIC, 2, name) == if name == "max" then Some(MatchingLiteral) else None;
    assert RowFrom(TEXTUAL, 2, name) == if name == "pattern" then Some(StringLiteral) else None;
    assert RowFrom(ON_PATHS, 1, name) == None;
    assert name != "required" && name != "required_if" ==> RowFrom(ON_ARRAYS, 2, name) == RowFrom(ON_ARRAYS, 4, name) == None;
  }

  /** `is_property_valid_for_type`: the search through the tables. */
  method FindProperty(t: Type, name: string) returns (r: Option<Expected>)
    ensures r == PropertyDef(t, name)
  {
    GenericRows(name);
    TypeRows(name);
    r := FindRow(GENERIC, name);
    if r.Some? {
      return;
    }
    match t {
      case PrimitiveType(p) =>
        if p == Int || p == Float {
          r := FindRow(NUMERIC, name);
        } else if p == Text {
          r := FindRow(TEXTUAL, name);
        } else if p == Path {
          r := FindRow(ON_PATHS, name);
        }
      case ArrayType(e) =>
        r := FindRow(ON_ARRAYS, name);
        if r.None? && name == "exists" && e == PrimitiveType(Path) {
          r := Some(ON_PATHS[0].expected);
        }
      case _ =>
    }
  }

  /** `is_valid_ipv4`. */
  method IsValidIpv4(s: string) returns (ok: bool)
    ensures ok == Ipv4From(s, 0, 0, false)
  {
    var i, dots: nat, num: nat, hasNum := 0, 0, 0, false;
    while i < |s|
      invariant 0 <= i <= |s|
      invariant Ipv4From(s, 0, 0, false) == Ipv4From(s[i..], dots, num, hasNum)
    {
      assert s[i..][0] == s[i] && s[i..][1..] == s[i + 1..];
      if IsDigit(s[i]) {
        num := num * 10 + (s[i] - '0') as int;
        if num > 255 {
          return false;
        }
        hasNum := true;
      } else if s[i] == '.' {
        if !hasNum {
          return false;
        }
        dots, num, hasNum := dots + 1, 0, false;
      } else {
        return false;
      }
      i := i + 1;
    }
    ok := dots == 3 && hasNum;
  }

  /** `is_valid_env_name`. */
  method IsValidEnvName(s: string) returns (ok: bool)
    ensures ok == ValidEnvName(s)
  {
    if s == "" || IsDigit(s[0]) {
      return false;
    }
    var i := 0;
    while i < |s|
      invariant 0 <= i <= |s|
      invariant forall j :: 0 <= j < i ==> IsAlnum(s[j]) || s[j] == '_'
    {
      if !IsAlnum(s[i]) && s[i] != '_' {
        return false;
      }
      i := i + 1;
    }
    ok := true;
  }

  /** `check_enum_member`. */
  method IsEnumMember(members: seq<string>, l: Literal) returns (ok: bool)
    ensures ok == OwnLiteral(EnumType(members), l)
  {
    if !l.NameLit? {
      return false;
    }
    var i := 0;
    while i < |members|
      invariant 0 <= i <= |members|
      invariant l.name !in members[..i]
    {
      if members[i] == l.name {
        return true;
      }
      i := i + 1;
    }
    ok := false;
  }

  /** Whether a literal is of the kind that a row, or else the field's type, wants. */
  predicate KindMatches(t: Type, e: Expected, l: Literal) {
    match e
    case MatchingLiteral =>
      (match t
       case PrimitiveType(p) => LiteralMatches(p, l)
       case EnumType(_) => l.NameLit?
       case _ => false)
    case BoolLiteral => l.BoolLit?
    case StringLiteral => l.StringLit?
    case IntLiteral => l.IntLit?
    case _ => false
  }

  /** The literals of `check_value_matches`. */
  method CheckLiteral(t: Type, e: Expected, name: string, l: Literal) returns (ok: bool)
    ensures ok == LiteralAccepted(t, e, name, l)
  {
    if !KindMatches(t, e, l) {
      return false;
    }
    if t.EnumType? {
      ok := IsEnumMember(t.members, l);
      return;
    }
    match l {
      case StringLit(text) =>
        if t == PrimitiveType(Ipv4) && name == "default" {
          ok := IsValidIpv4(text);
          return;
        }
        if name == "env" {
          ok := IsValidEnvName(text);
          return;
        }
      case IntLit(value) =>
        if (name == "min_length" || name == "max_length") && value < 0 {
          return false;
        }
      case _ =>
    }
    ok := true;
  }

  /** The conditions of `check_value_matches`. */
  method CheckCondition(scopes: seq<Scope>, left: string, right: Literal) returns (errors: seq<ErrorKind>)
    ensures errors == ConditionErrors(scopes, left, right)
  {
    var level := LookupLevel(scopes, left);
    if level.None? {
      return [Undeclared];
    }
    var ok := false;
    match TypeOfSymbol(scopes[level.value][left]) {
      case PrimitiveType(p) => ok := LiteralMatches(p, right);
      case EnumType(members) => ok := IsEnumMember(members, right);
      case _ =>
    }
    errors := if ok then [] else [TypeMismatch];
  }

  /** One turn of `typecheck_field_properties`. */
  method CheckProperty(scopes: seq<Scope>, t: Type, props: seq<Property>, i: nat) returns (errors: seq<ErrorKind>)
    requires i < |props|
    ensures errors == PropertyErrors(scopes, t, props[..i], props[i])
  {
    errors := [];
    var repeated := IsRepeated(props, i);
    if repeated {
      errors := [Redeclaration];
    }
    var e := FindProperty(t, props[i].name);
    if e.None? {
      return errors + [UnexpectedProperty];
    }
    var more := CheckValue(scopes, t, e.value, props[i]);
    errors := errors + more;
  }

  /** The scan for an earlier property of the same name. */
  method IsRepeated(props: seq<Property>, i: nat) returns (found: bool)
    requires i < |props|
    ensures found <==> exists q :: q in props[..i] && q.name == props[i].name
  {
    var j := 0;
    while j < i
      invariant 0 <= j <= i
      invariant forall q :: q in props[..j] ==> q.name != props[i].name
    {
      if props[j].name == props[i].name {
        assert props[..i][j] == props[j];
        return true;
      }
      j := j + 1;
    }
    found := false;
  }

  /** `check_value_matches`, with the report of its refusal. */
  method CheckValue(scopes: seq<Scope>, t: Type, e: Expected, p: Property) returns (errors: seq<ErrorKind>)
    requires PropertyDef(t, p.name) == Some(e)
    ensures errors == if e == Cond && p.value.Condition? then ConditionErrors(scopes, p.value.left, p.value.right)
                      else if PropertyAccepted(t, p) then [] else [TypeMismatch]
  {
    match p.value {
      case Condition(left, right) =>
        if e == Cond {
          errors := CheckCondition(scopes, left, right);
          return;
        }
      case RangeOf(_, _) =>
        if e == Range && RangeAccepted(t, p.value) {
          return [];
        }
      case Plain(l) =>
        if e != Range && e != Cond {
          var ok := CheckLiteral(t, e, p.name, l);
          if ok {
            return [];
          }
        }
    }
    errors := [TypeMismatch];
  }

  /** `typecheck_field_properties`. */
  method CheckFieldProperties(scopes: seq<Scope>, t: Type, props: seq<Property>) returns (errors: seq<ErrorKind>)
    ensures errors == PropertiesErrors(scopes, t, props, 0)
  {
    errors := [];
    var i := 0;
    while i < |props|
      invariant 0 <= i <= |props|
      invariant errors + PropertiesErrors(scopes, t, props, i) == PropertiesErrors(scopes, t, props, 0)
    {
      PropertiesTurn(errors, scopes, t, props, i);
      var more := CheckProperty(scopes, t, props, i);
      errors := errors + more;
      i := i + 1;
    }
  }

  /** Everything an accepted list of properties promises to the emitters. */
  predicate PropertiesAccepted(t: Type, props: seq<Property>) {
    && (forall k :: 0 <= k < |props| ==> PropertyAccepted(t, props[k]))
    && (forall j, k :: 0 <= j < k < |props| ==> props[j].name != props[k].name)
  }

  /** Conditions are the one kind of value whose check looks through the scopes. */
  predicate IsCondition(p: Property) {
    p.name == "required_if" && p.value.Condition?
  }

  ghost predicate FitsAt(scopes: seq<Scope>, t: Type, props: seq<Property>, k: nat)
    requires k < |props|
  {
    && PropertyAccepted(t, props[k])
    && (forall j :: 0 <= j < k ==> props[j].name != props[k].name)
    && (IsCondition(props[k]) ==> ConditionErrors(scopes, props[k].value.left, props[k].value.right) == [])
  }

  lemma NoErrorsAt(scopes: seq<Scope>, t: Type, props: seq<Property>, k: nat)
    requires k < |props|
    ensures PropertyErrors(scopes, t, props[..k], props[k]) == [] <==> FitsAt(scopes, t, props, k)
  {
    if forall j :: 0 <= j < k ==> props[j].name != props[k].name {
      assert forall q :: q in props[..k] ==> q.name != props[k].name;
    } else {
      var j :| 0 <= j < k && props[j].name == props[k].name;
      assert props[..k][j] == props[j];
    }
  }

  lemma {:induction false} NoErrorsFrom(scopes: seq<Scope>, t: Type, props: seq<Property>, i: nat)
    requires i <= |props|
    ensures PropertiesErrors(scopes, t, props, i) == [] <==> forall k :: i <= k < |props| ==> FitsAt(scopes, t, props, k)
    decreases |props| - i
  {
    if i < |props| {
      var head, tail := PropertyErrors(scopes, t, props[..i], props[i]), PropertiesErrors(scopes, t, props, i + 1);
      NoErrorsAt(scopes, t, props, i);
      NoErrorsFrom(scopes, t, props, i + 1);
      assert |head + tail| == |head| + |tail|;
    }
  }

  /** No error is reported exactly when every property is accepted, none is repeated, and every
      condition fits what its name stands for. */
  lemma NoErrorsIff(scopes: seq<Scope>, t: Type, props: seq<Property>)
    ensures PropertiesErrors(scopes, t, props, 0) == [] <==>
            && PropertiesAccepted(t, props)
            && forall k :: 0 <= k < |props| && IsCondition(props[k]) ==>
                             ConditionErrors(scopes, props[k].value.left, props[k].value.right) == []
  {
    NoErrorsFrom(scopes, t, props, 0);
    if PropertiesErrors(scopes, t, props, 0) == [] {
      forall k | 0 <= k < |props|
        ensures PropertyAccepted(t, props[k]) && forall j :: 0 <= j < k ==> props[j].name != props[k].name
        ensures IsCondition(props[k]) ==> ConditionErrors(scopes, props[k].value.left, props[k].value.right) == []
      {
        assert FitsAt(scopes, t, props, k);
      }
    } else {
      var k :| 0 <= k < |props| && !FitsAt(scopes, t, props, k);
    }
  }
}
