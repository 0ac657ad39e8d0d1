/** Types, symbols and the chain of scopes. */
module Types {
  import opened Schema

  datatype Primitive = Int | Float | Bool | Text | Ipv4 | Path | Void

  datatype Type =
    | PrimitiveType(p: Primitive)
    | ArrayType(elem: Type)
    | EnumType(members: seq<string>)
    | SchemaType(name: string)
    | SectionType(name: string)

  function PrimitiveNamed(name: string): Option<Primitive> {
    if name == "int" then Some(Int)
    else if name == "float" then Some(Float)
    else if name == "bool" then Some(Bool)
    else if name == "string" then Some(Text)
    else if name == "ipv4" then Some(Ipv4)
    else if name == "path" then Some(Path)
    else if name == "void" then Some(Void)
    else None
  }

  datatype Symbol =
    | SchemaSymbol(decl: SchemaDecl)
    | SectionSymbol(section: string)
    | FieldSymbol(typ: Type)

  function TypeOfSymbol(s: Symbol): Type {
    match s
    case SchemaSymbol(decl) => SchemaType(decl.name)
    case SectionSymbol(name) => SectionType(name)
    case FieldSymbol(t) => t
  }

  type Scope = map<string, Symbol>

  /** The level of the innermost scope that defines a name; the last scope is the innermost. */
  function LevelOf(scopes: seq<Scope>, name: string): (r: Option<nat>)
    ensures r.Some? ==> r.value < |scopes| && name in scopes[r.value]
    ensures r.Some? ==> forall l :: r.value < l < |scopes| ==> name !in scopes[l]
    ensures r.None? ==> forall l :: 0 <= l < |scopes| ==> name !in scopes[l]
  {
    if scopes == [] then None
    else if name in scopes[|scopes| - 1] then Some(|scopes| - 1)
    else LevelOf(scopes[..|scopes| - 1], name)
  }

  /** The symbol a name stands for. */
  function Lookup(scopes: seq<Scope>, name: string): Option<Symbol> {
    var level := LevelOf(scopes, name);
    if level.Some? then Some(scopes[level.value][name]) else None
  }

  /** `symbol_table_lookup`: up the chain of parents. */
  method LookupLevel(scopes: seq<Scope>, name: string) returns (r: Option<nat>)
    ensures r == LevelOf(scopes, name)
  {
    var n := |scopes|;
    while n > 0
      invariant 0 <= n <= |scopes|
      invariant LevelOf(scopes, name) == LevelOf(scopes[..n], name)
    {
      if name in scopes[n - 1] {
        return Some(n - 1);
      }
      assert scopes[..n][..n - 1] == scopes[..n - 1];
      n := n - 1;
    }
    r := None;
  }

  // ----- What a type expression means in a program -----

  predicate TypeKnown(prog: Program, t: TypeExpr) {
    match t
    case Named(n) => PrimitiveNamed(n).Some? || IsDeclared(prog, n)
    case ArrayOf(e) => TypeKnown(prog, e)
    case EnumOf(_) => true
  }

  function TypeOf(prog: Program, t: TypeExpr): Type {
    match t
    case Named(n) =>
      var p := PrimitiveNamed(n);
      if p.Some? then PrimitiveType(p.value)
      else if IsDeclared(prog, n) then SchemaType(n) else PrimitiveType(Void)
    case ArrayOf(e) => ArrayType(TypeOf(prog, e))
    case EnumOf(ms) => EnumType(ms)
  }
}
