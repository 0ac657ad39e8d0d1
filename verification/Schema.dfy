/** The abstract syntax of schema programs. Names stand for interned strings: two names are
    the same object exactly when their texts are equal. */
module Schema {

  datatype Option<+T> = None | Some(value: T)

  datatype Literal =
    | IntLit(value: int)
    | FloatLit(number: real)
    | BoolLit(on: bool)
    | StringLit(text: string)
    | NameLit(name: string)

  datatype Value = Plain(lit: Literal) | RangeOf(min: Literal, max: Literal) | Condition(left: string, right: Literal)

  datatype Property = Property(name: string, value: Value)

  datatype TypeExpr = Named(name: string) | ArrayOf(elem: TypeExpr) | EnumOf(members: seq<string>)

  datatype Item =
    | Field(name: string, typ: TypeExpr, props: seq<Property>)
    | Section(name: string, items: seq<Item>)

  datatype SchemaDecl = SchemaDecl(name: string, items: seq<Item>)

  type Program = seq<SchemaDecl>

  // ----- Looking schemas up by name -----

  /** The first schema declared under a name. */
  function FindSchema(prog: Program, name: string): (r: Option<SchemaDecl>)
    ensures r.Some? ==> r.value.name == name
  {
    if prog == [] then None
    else if prog[0].name == name then Some(prog[0])
    else FindSchema(prog[1..], name)
  }

  lemma {:induction false} FindSchemaIndex(prog: Program, name: string) returns (i: nat)
    requires FindSchema(prog, name).Some?
    ensures i < |prog| && FindSchema(prog, name) == Some(prog[i])
    ensures forall j :: 0 <= j < i ==> prog[j].name != name
    decreases |prog|
  {
    if prog[0].name == name {
      i := 0;
    } else {
      i := FindSchemaIndex(prog[1..], name);
      i := i + 1;
    }
  }

  lemma {:induction false} FindSchemaFirst(prog: Program, i: nat)
    requires i < |prog| && forall j :: 0 <= j < i ==> prog[j].name != prog[i].name
    ensures FindSchema(prog, prog[i].name) == Some(prog[i])
    decreases |prog|
  {
    if i > 0 {
      FindSchemaFirst(prog[1..], i - 1);
    }
  }

  lemma {:induction false} FindSchemaOf(prog: Program, i: nat)
    requires i < |prog|
    ensures FindSchema(prog, prog[i].name).Some?
    ensures DistinctNames(prog) ==> FindSchema(prog, prog[i].name) == Some(prog[i])
    decreases |prog|
  {
    if i > 0 {
      FindSchemaOf(prog[1..], i - 1);
    }
  }

  predicate IsDeclared(prog: Program, name: string) {
    FindSchema(prog, name).Some?
  }

  predicate DistinctNames(prog: Program) {
    forall i, j :: 0 <= i < j < |prog| ==> prog[i].name != prog[j].name
  }

  // ----- Sizes -----

  function TypeSize(t: TypeExpr): nat {
    if t.ArrayOf? then 1 + TypeSize(t.elem) else 1
  }

  function ItemSize(it: Item): nat {
    match it
    case Field(_, t, _) => 8 + TypeSize(t)
    case Section(_, items) => 8 + ItemsSize(items)
  }

  function ItemsSize(items: seq<Item>): nat {
    if items == [] then 0 else ItemSize(items[0]) + ItemsSize(items[1..])
  }

  lemma {:induction false} ItemsSizeAt(items: seq<Item>, i: nat)
    requires i < |items|
    ensures ItemSize(items[i]) <= ItemsSize(items)
    decreases |items|
  {
    if i > 0 {
      ItemsSizeAt(items[1..], i - 1);
    }
  }

  // ----- Lists without repetition -----

  predicate Distinct<T(==)>(s: seq<T>) {
    s != [] ==> Distinct(s[..|s| - 1]) && s[|s| - 1] !in s[..|s| - 1]
  }

  lemma {:induction false} DistinctAt<T>(s: seq<T>, i: nat, j: nat)
    requires Distinct(s) && i < j < |s|
    ensures s[i] != s[j]
    decreases |s|
  {
    if j < |s| - 1 {
      DistinctAt(s[..|s| - 1], i, j);
    } else {
      assert s[i] == s[..j][i];
    }
  }
}
