/** What the schema checker does, as functions from one state of its fields to the next. */
module Checking {
  import opened Schema
  import opened Types
  import opened Properties

  /** The checker's fields. `resolved` lists the schemas whose flag is set, in the order in which the
      flags were set; `resolving` is the stack of schemas whose bodies are being traversed. */
  datatype State = State(scopes: seq<Scope>, resolved: seq<string>, resolving: seq<string>, errors: seq<ErrorKind>)

  /** Schema symbols are found in the global scope only, and there they are the declared schemas. */
  ghost predicate ScopesOk(prog: Program, scopes: seq<Scope>) {
    && |scopes| >= 1
    && (forall n :: n in scopes[0] ==> scopes[0][n].SchemaSymbol? && FindSchema(prog, n) == Some(scopes[0][n].decl))
    && (forall l, n :: 1 <= l < |scopes| && n in scopes[l] ==> !scopes[l][n].SchemaSymbol?)
  }

  /** The innermost scope. */
  function Top(scopes: seq<Scope>): Scope
    requires scopes != []
  {
    scopes[|scopes| - 1]
  }

  /** What a traversal may change: more flags, more errors. */
  ghost predicate Extends(a: State, b: State) {
    && a.scopes == b.scopes && a.resolving == b.resolving
    && a.errors <= b.errors && a.resolved <= b.resolved
  }

  /** As `Extends`, but symbols may also be defined in the innermost scope. */
  ghost predicate ExtendsInside(a: State, b: State) {
    && |a.scopes| == |b.scopes| >= 1 && a.scopes[..|a.scopes| - 1] == b.scopes[..|a.scopes| - 1]
    && a.resolving == b.resolving
    && a.errors <= b.errors && a.resolved <= b.resolved
  }

  // ----- Termination: how many schemas are not on the stack -----

  function Names(prog: Program): set<string> {
    set i | 0 <= i < |prog| :: prog[i].name
  }

  ghost function Remaining(prog: Program, resolving: seq<string>): nat {
    |Names(prog) - (set n | n in resolving)|
  }

  lemma RemainingShrinks(prog: Program, resolving: seq<string>, n: string)
    requires IsDeclared(prog, n) && n !in resolving
    ensures Remaining(prog, resolving + [n]) < Remaining(prog, resolving)
  {
    var a, b := Names(prog) - (set x | x in resolving), Names(prog) - (set x | x in resolving + [n]);
    var i := FindSchemaIndex(prog, n);
    assert n in a;
    assert b == a - {n};
  }

  // ----- Symbols -----

  /** The schema a name stands for here. A field or section may hide it. */
  function SchemaIn(scopes: seq<Scope>, n: string): Option<SchemaDecl> {
    var s := Lookup(scopes, n);
    if s.Some? && s.value.SchemaSymbol? then Some(s.value.decl) else None
  }

  lemma SchemaInIsDeclared(prog: Program, scopes: seq<Scope>, n: string)
    requires ScopesOk(prog, scopes)
    ensures SchemaIn(scopes, n).Some? ==> LevelOf(scopes, n) == Some(0) && FindSchema(prog, n) == SchemaIn(scopes, n)
  {
  }

  /** Symbols of fields and sections have their flag set from the start. */
  predicate IsFlagged(resolved: seq<string>, s: Symbol) {
    s.SchemaSymbol? ==> s.decl.name in resolved
  }

  function Flagged(resolved: seq<string>, s: Option<Symbol>): (r: seq<string>)
    ensures resolved <= r
  {
    if s.Some? && s.value.SchemaSymbol? then resolved + [s.value.decl.name] else resolved
  }

  function Reported(st: State, more: seq<ErrorKind>): (r: State)
    ensures Extends(st, r)
  {
    st.(errors := st.errors + more)
  }

  /** `symbol_table_define`: the first definition in a scope stands. */
  function Defined(st: State, n: string, s: Symbol): (r: State)
    requires st.scopes != []
    ensures ExtendsInside(st, r)
  {
    if n in Top(st.scopes) then Reported(st, [Redeclaration])
    else st.(scopes := st.scopes[|st.scopes| - 1 := Top(st.scopes)[n := s]])
  }

  lemma DefinedScopes(prog: Program, st: State, n: string, s: Symbol)
    requires ScopesOk(prog, st.scopes) && |st.scopes| >= 2 && !s.SchemaSymbol?
    ensures ScopesOk(prog, Defined(st, n, s).scopes)
  {
  }

  // ----- Types and schemas -----

  function TypeIn(scopes: seq<Scope>, t: TypeExpr): Type {
    match t
    case Named(n) =>
      var p, d := PrimitiveNamed(n), SchemaIn(scopes, n);
      if p.Some? then PrimitiveType(p.value)
      else if d.Some? then SchemaType(d.value.name) else PrimitiveType(Void)
    case ArrayOf(e) => ArrayType(TypeIn(scopes, e))
    case EnumOf(members) => EnumType(members)
  }

  /** `resolve_ast_type` descends into the schema that a type names. */
  ghost function AfterType(prog: Program, st: State, t: TypeExpr): (r: State)
    requires ScopesOk(prog, st.scopes)
    ensures Extends(st, r)
    decreases Remaining(prog, st.resolving), TypeSize(t), 0
  {
    match t
    case Named(n) =>
      var d := SchemaIn(st.scopes, n);
      SchemaInIsDeclared(prog, st.scopes, n);
      if PrimitiveNamed(n).Some? then st
      else if d.Some? then AfterSchema(prog, st, d.value)
      else Reported(st, [UnknownType])
    case ArrayOf(e) => AfterType(prog, st, e)
    case EnumOf(_) => st
  }

  /** `typecheck_schema`. */
  ghost function AfterSchema(prog: Program, st: State, d: SchemaDecl): (r: State)
    requires ScopesOk(prog, st.scopes) && IsDeclared(prog, d.name)
    ensures Extends(st, r)
    decreases Remaining(prog, st.resolving), 0, 0
  {
    var s := Lookup(st.scopes, d.name);
    if s.Some? && IsFlagged(st.resolved, s.value) then st
    else if d.name in st.resolving then Reported(st, [CircularDependency])
    else
      RemainingShrinks(prog, st.resolving, d.name);
      Left(AfterBlock(prog, Entered(st, d.name), d.items), s)
  }

  function Entered(st: State, n: string): State {
    st.(resolving := st.resolving + [n])
  }

  /** The flag is set and the stack popped. */
  function Left(st: State, s: Option<Symbol>): State
    requires st.resolving != []
  {
    st.(resolved := Flagged(st.resolved, s), resolving := st.resolving[..|st.resolving| - 1])
  }

  // ----- Blocks -----

  function Pushed(st: State): State {
    st.(scopes := st.scopes + [map[]])
  }

  function Popped(st: State): State
    requires st.scopes != []
  {
    st.(scopes := st.scopes[..|st.scopes| - 1])
  }

  function SymbolIn(scopes: seq<Scope>, it: Item): (s: Symbol)
    ensures !s.SchemaSymbol?
  {
    match it
    case Field(_, t, _) => FieldSymbol(TypeIn(scopes, t))
    case Section(n, _) => SectionSymbol(n)
  }

  /** First pass over a block: an item's symbol is defined, after its type has been resolved. */
  ghost function AfterDefining(prog: Program, st: State, it: Item): (r: State)
    requires ScopesOk(prog, st.scopes) && |st.scopes| >= 2
    ensures ExtendsInside(st, r) && ScopesOk(prog, r.scopes)
    decreases Remaining(prog, st.resolving), ItemSize(it), 1
  {
    var resolved := if it.Field? then AfterType(prog, st, it.typ) else st;
    DefinedScopes(prog, resolved, it.name, SymbolIn(st.scopes, it));
    Defined(resolved, it.name, SymbolIn(st.scopes, it))
  }

  ghost function AfterDefiningAll(prog: Program, st: State, items: seq<Item>): (r: State)
    requires ScopesOk(prog, st.scopes) && |st.scopes| >= 2
    ensures ExtendsInside(st, r) && ScopesOk(prog, r.scopes)
    decreases Remaining(prog, st.resolving), ItemsSize(items), 2
  {
    if items == [] then st else AfterDefiningAll(prog, AfterDefining(prog, st, items[0]), items[1..])
  }

  /** Second pass: the properties of a field, or the block of a section. */
  ghost function AfterChecking(prog: Program, st: State, it: Item): (r: State)
    requires ScopesOk(prog, st.scopes) && |st.scopes| >= 2
    ensures Extends(st, r)
    decreases Remaining(prog, st.resolving), ItemSize(it), 1
  {
    match it
    case Field(n, _, props) =>
      if n !in Top(st.scopes) then st
      else Reported(st, PropertiesErrors(st.scopes, TypeOfSymbol(Top(st.scopes)[n]), props, 0))
    case Section(_, items) => AfterBlock(prog, st, items)
  }

  ghost function AfterCheckingAll(prog: Program, st: State, items: seq<Item>): (r: State)
    requires ScopesOk(prog, st.scopes) && |st.scopes| >= 2
    ensures Extends(st, r)
    decreases Remaining(prog, st.resolving), ItemsSize(items), 2
  {
    if items == [] then st else AfterCheckingAll(prog, AfterChecking(prog, st, items[0]), items[1..])
  }

  /** The items of a schema or section, in a scope of their own. */
  ghost function AfterBlock(prog: Program, st: State, items: seq<Item>): (r: State)
    requires ScopesOk(prog, st.scopes)
    ensures Extends(st, r)
    decreases Remaining(prog, st.resolving), ItemsSize(items), 3
  {
    Popped(AfterCheckingAll(prog, AfterDefiningAll(prog, Pushed(st), items), items))
  }

  // ----- Programs -----

  /** The first pass: the symbols of the first `k` schemas. */
  function DeclaredUpTo(prog: Program, k: nat): (r: State)
    requires k <= |prog|
    ensures |r.scopes| == 1 && r.resolving == [] && r.resolved == []
  {
    if k == 0 then State([map[]], [], [], [])
    else Defined(DeclaredUpTo(prog, k - 1), prog[k - 1].name, SchemaSymbol(prog[k - 1]))
  }

  lemma {:induction false} DeclaredScopes(prog: Program, k: nat)
    requires k <= |prog|
    ensures var r := DeclaredUpTo(prog, k);
            && ScopesOk(prog, r.scopes) && CircularDependency !in r.errors
            && (forall n :: n in r.scopes[0] <==> exists i :: 0 <= i < k && prog[i].name == n)
            && (r.errors == [] <==> forall i, j :: 0 <= i < j < k ==> prog[i].name != prog[j].name)
  {
    if k > 0 {
      DeclaredScopes(prog, k - 1);
      if prog[k - 1].name !in DeclaredUpTo(prog, k - 1).scopes[0] {
        FindSchemaFirst(prog, k - 1);
      }
    }
  }

  lemma DeclaredSchema(prog: Program, k: nat)
    requires k < |prog|
    ensures IsDeclared(prog, prog[k].name)
  {
    FindSchemaOf(prog, k);
  }

  /** The second pass, from schema `k` on. */
  ghost function AfterSchemas(prog: Program, st: State, k: nat): (r: State)
    requires ScopesOk(prog, st.scopes) && k <= |prog|
    ensures Extends(st, r)
    decreases |prog| - k
  {
    if k == |prog| then st
    else
      DeclaredSchema(prog, k);
      AfterSchemas(prog, AfterSchema(prog, st, prog[k]), k + 1)
  }

  /** The state in which the checker leaves a program. */
  ghost function Checked(prog: Program): State {
    DeclaredScopes(prog, |prog|);
    AfterSchemas(prog, DeclaredUpTo(prog, |prog|), 0)
  }
}
