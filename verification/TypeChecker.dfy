/** The schema checker: a depth-first walk over schema references with a resolving stack and
    `resolved` flags, inside a chain of scopes. Each method is proved to take the step that `Checking`
    defines; what the steps amount to is stated in `CheckerTheorems`. */
module TypeChecker {
  import opened Schema
  import opened Types
  import opened Properties
  import opened SchemaGraph
  import opened Checking
  import opened CheckerTheorems

  class Checker {
    const program: Program
    var scopes: seq<Scope>
    var resolved: seq<string>
    var resolving: seq<string>
    var errors: seq<ErrorKind>

    constructor (program: Program)
      ensures this.program == program
      ensures Now() == State([map[]], [], [], [])
    {
      this.program := program;
      scopes, resolved, resolving, errors := [map[]], [], [], [];
    }

    ghost function Now(): State
      reads this
    {
      State(scopes, resolved, resolving, errors)
    }

    ghost predicate Valid()
      reads this
    {
      ScopesOk(program, scopes)
    }

    method Report(more: seq<ErrorKind>)
      modifies this`errors
      ensures Now() == Reported(old(Now()), more)
    {
      errors := errors + more;
    }

    /** `symbol_table_define`. */
    method Define(n: string, s: Symbol) returns (ok: bool)
      requires scopes != []
      modifies this`scopes
      ensures ok == (n !in Top(old(scopes)))
      ensures ok ==> Now() == Defined(old(Now()), n, s)
      ensures !ok ==> Now() == old(Now())
    {
      var last := |scopes| - 1;
      if n in scopes[last] {
        return false;
      }
      scopes := scopes[last := scopes[last][n := s]];
      ok := true;
    }

    /** Define a symbol, reporting a second declaration of its name. */
    method Declare(n: string, s: Symbol)
      requires scopes != []
      modifies this`scopes, this`errors
      ensures Now() == Defined(old(Now()), n, s)
    {
      var ok := Define(n, s);
      if !ok {
        Report([Redeclaration]);
      }
    }

    /** `symbol_table_lookup`. */
    method LookupSymbol(n: string) returns (s: Option<Symbol>)
      ensures s == Lookup(scopes, n)
    {
      var level := LookupLevel(scopes, n);
      s := if level.Some? then Some(scopes[level.value][n]) else None;
    }

    /** The scan of the resolving stack. */
    method IsResolving(n: string) returns (found: bool)
      ensures found <==> n in resolving
    {
      var i := 0;
      while i < |resolving|
        invariant 0 <= i <= |resolving|
        invariant forall j :: 0 <= j < i ==> resolving[j] != n
      {
        if resolving[i] == n {
          return true;
        }
        i := i + 1;
      }
      found := false;
    }

    method ResolveType(t: TypeExpr) returns (ty: Type)
      requires Valid()
      modifies this
      ensures Now() == AfterType(program, old(Now()), t) && ty == TypeIn(old(scopes), t)
      decreases Remaining(program, resolving), TypeSize(t), 0
    {
      match t {
        case Named(n) => ty := ResolveName(n);
        case ArrayOf(e) =>
          var elem := ResolveType(e);
          ty := ArrayType(elem);
        case EnumOf(members) => ty := EnumType(members);
      }
    }

    method ResolveName(n: string) returns (ty: Type)
      requires Valid()
      modifies this
      ensures Now() == AfterType(program, old(Now()), Named(n)) && ty == TypeIn(old(scopes), Named(n))
      decreases Remaining(program, resolving), 0, 2
    {
      var p := PrimitiveNamed(n);
      if p.Some? {
        return PrimitiveType(p.value);
      }
      var s := LookupSymbol(n);
      if s.Some? && s.value.SchemaSymbol? {
        SchemaInIsDeclared(program, scopes, n);
        TypecheckSchema(s.value.decl);
        return SchemaType(s.value.decl.name);
      }
      Report([UnknownType]);
      ty := PrimitiveType(Void);
    }

    method TypecheckSchema(node: SchemaDecl)
      requires Valid() && IsDeclared(program, node.name)
      modifies this
      ensures Now() == AfterSchema(program, old(Now()), node)
      decreases Remaining(program, resolving), 0, 1
    {
      var s := LookupSymbol(node.name);
      if s.Some? && (s.value.SchemaSymbol? ==> s.value.decl.name in resolved) {
        return;
      }
      var circular := IsResolving(node.name);
      if circular {
        Report([CircularDependency]);
        return;
      }
      RemainingShrinks(program, resolving, node.name);
      TraverseBody(node, s);
    }

    /** From the push on the stack to the pop. */
    method TraverseBody(node: SchemaDecl, s: Option<Symbol>)
      requires Valid() && Remaining(program, resolving + [node.name]) < Remaining(program, resolving)
      modifies this
      ensures Now() == Left(AfterBlock(program, Entered(old(Now()), node.name), node.items), s)
      decreases Remaining(program, resolving), 0, 0
    {
      resolving := resolving + [node.name];
      TypecheckBlock(node.items);
      Leave(s);
    }

    /** Set the flag and pop the stack. */
    method Leave(s: Option<Symbol>)
      requires resolving != []
      modifies this`resolved, this`resolving
      ensures Now() == Left(old(Now()), s)
    {
      if s.Some? && s.value.SchemaSymbol? {
        resolved := resolved + [s.value.decl.name];
      }
      resolving := resolving[..|resolving| - 1];
    }

    /** The items of a schema or section, in a scope of their own. */
    method TypecheckBlock(items: seq<Item>)
      requires Valid()
      modifies this
      ensures Now() == AfterBlock(program, old(Now()), items)
      decreases Remaining(program, resolving), ItemsSize(items), 4
    {
      scopes := scopes + [map[]];
      TypecheckScopeItems(items);
      scopes := scopes[..|scopes| - 1];
    }

    method TypecheckScopeItems(items: seq<Item>)
      requires Valid() && |scopes| >= 2
      modifies this
      ensures Now() == AfterCheckingAll(program, AfterDefiningAll(program, old(Now()), items), items)
      decreases Remaining(program, resolving), ItemsSize(items), 3
    {
      DefineItems(items);
      CheckItems(items);
    }

    method DefineItem(it: Item)
      requires Valid() && |scopes| >= 2
      modifies this
      ensures Now() == AfterDefining(program, old(Now()), it)
      decreases Remaining(program, resolving), ItemSize(it), 1
    {
      match it {
        case Field(n, t, _) =>
          var ty := ResolveType(t);
          Declare(n, FieldSymbol(ty));
        case Section(n, _) =>
          Declare(n, SectionSymbol(n));
      }
    }

    /** First pass: define the symbols of the block, resolving the types of its fields. */
    method DefineItems(items: seq<Item>)
      requires Valid() && |scopes| >= 2
      modifies this
      ensures Now() == AfterDefiningAll(program, old(Now()), items)
      decreases Remaining(program, resolving), ItemsSize(items), 2
    {
      ghost var start := Now();
      var k := 0;
      while k < |items|
        invariant 0 <= k <= |items|
        invariant Valid() && |scopes| >= 2 && resolving == start.resolving
        invariant AfterDefiningAll(program, Now(), items[k..]) == AfterDefiningAll(program, start, items)
      {
        ItemsSizeAt(items, k);
        assert items[k..][0] == items[k] && items[k..][1..] == items[k + 1..];
        DefineItem(items[k]);
        k := k + 1;
      }
    }

    method CheckItem(it: Item)
      requires Valid() && |scopes| >= 2
      modifies this
      ensures Now() == AfterChecking(program, old(Now()), it)
      decreases Remaining(program, resolving), ItemSize(it), 1
    {
      match it {
        case Field(n, _, props) =>
          if n in scopes[|scopes| - 1] {
            var more := CheckFieldProperties(scopes, TypeOfSymbol(scopes[|scopes| - 1][n]), props);
            Report(more);
          }
        case Section(_, items) =>
          TypecheckBlock(items);
      }
    }

    /** Second pass: check the properties and descend into the sections. */
    method CheckItems(items: seq<Item>)
      requires Valid() && |scopes| >= 2
      modifies this
      ensures Now() == AfterCheckingAll(program, old(Now()), items)
      decreases Remaining(program, resolving), ItemsSize(items), 2
    {
      ghost var start := Now();
      var k := 0;
      while k < |items|
        invariant 0 <= k <= |items|
        invariant scopes == start.scopes && resolving == start.resolving
        invariant AfterCheckingAll(program, Now(), items[k..]) == AfterCheckingAll(program, start, items)
      {
        ItemsSizeAt(items, k);
        assert items[k..][0] == items[k] && items[k..][1..] == items[k + 1..];
        CheckItem(items[k]);
        k := k + 1;
      }
    }

    /** First pass over the program: the schema symbols, in the global scope. */
    method DefineSchemas()
      requires Now() == DeclaredUpTo(program, 0)
      modifies this`scopes, this`errors
      ensures Now() == DeclaredUpTo(program, |program|)
    {
      var k := 0;
      while k < |program|
        invariant 0 <= k <= |program|
        invariant Now() == DeclaredUpTo(program, k)
      {
        Declare(program[k].name, SchemaSymbol(program[k]));
        k := k + 1;
      }
    }

    /** Second pass over the program. */
    method TypecheckSchemas()
      requires Valid()
      modifies this
      ensures Now() == AfterSchemas(program, old(Now()), 0)
    {
      var k := 0;
      while k < |program|
        invariant 0 <= k <= |program|
        invariant Valid()
        invariant AfterSchemas(program, Now(), k) == AfterSchemas(program, old(Now()), 0)
      {
        DeclaredSchema(program, k);
        TypecheckSchema(program[k]);
        k := k + 1;
      }
    }

    /** The whole check. Every schema body is traversed exactly once. A circular dependency is only
        reported when the references have a cycle, and always when no name hides a schema or no type
        is reported as unknown; so a cycle never passes without an error. Without errors the order
        of traversal ranks the schemas. Where no name is hidden or captured, there are no errors
        exactly in the programs that meet every demand. */
    method TypecheckProgram()
      requires Now() == State([map[]], [], [], [])
      modifies this
      ensures Now() == Checked(program)
      ensures |scopes| == 1 && resolving == []
      ensures Distinct(resolved) && forall n :: n in resolved <==> IsDeclared(program, n)
      ensures CircularDependency in errors ==> HasCycle(program)
      ensures NoShadowing(program) || UnknownType !in errors ==> (CircularDependency in errors <==> HasCycle(program))
      ensures errors == [] ==> ProgramAccepted(program) && Ranked(program, resolved) && !HasCycle(program)
      ensures NoShadowing(program) && ProgramMeets(program, FoundOrNowhere) ==>
                (errors == [] <==> ProgramAccepted(program) && !HasCycle(program) && ProgramMeets(program, Fits))
    {
      DeclaredScopes(program, |program|);
      DefineSchemas();
      TypecheckSchemas();
      CheckerIsSound(program);
      if NoShadowing(program) && ProgramMeets(program, FoundOrNowhere) {
        CheckerIsExact(program);
      }
    }
  }
}
