/** From source text to an accepted program. What the later stages ask of a program, that its names
    are names and that its schemas can be ranked, is here a consequence of its having been accepted. */
module Compiler {
  import opened Schema
  import opened Types
  import opened Properties
  import opened SchemaGraph
  import opened Inlining
  import opened Grammar
  import opened Reading
  import opened Scanning
  import opened Spelling
  import Lexer
  import Parser
  import TypeChecker
  import opened CheckerTheorems
  import Expansion
  import Dispatch

  // ----- Names -----

  predicate NamesOnly(ts: seq<Token>) {
    forall t :: t in ts && t.Ident? ==> Dispatch.IsName(t.name)
  }

  lemma {:induction false} LexedNames(source: string, pos: nat, ts: seq<Token>)
    requires pos <= |source| && ts == TokensLexed(LexFrom(source, pos))
    ensures NamesOnly(ts) && ts != [] && Eof in ts
    decreases |source| - pos
  {
    LexedTail(source, pos, ts);
    if !ts[0].Eof? {
      NextIsSpellable(source, pos);
      LexedNames(source, NextLexeme(source, pos).end, ts[1..]);
      NamesOnlyGrows(ts[0], ts[1..]);
      assert ts == [ts[0]] + ts[1..];
    }
  }

  lemma NamesOnlyGrows(t: Token, ts: seq<Token>)
    requires NamesOnly(ts) && (t.Ident? ==> Dispatch.IsName(t.name))
    ensures NamesOnly([t] + ts) && (Eof in ts ==> Eof in [t] + ts)
  {
  }

  lemma NamesOnlyParts(a: seq<Token>, b: seq<Token>)
    requires NamesOnly(a + b)
    ensures NamesOnly(a) && NamesOnly(b)
  {
    assert forall t :: t in a ==> t in a + b;
    assert forall t :: t in b ==> t in a + b;
  }

  lemma {:induction false} ItemIsNamed(it: ItemTree)
    requires ItemWritable(it) && NamesOnly(ItemTokens(it))
    ensures Dispatch.ItemNamed(ItemOf(it))
    decreases it
  {
    match it
    case FieldTree(n, _, _) =>
      assert ItemTokens(it)[0] == Ident(n);
    case SectionTree(n, items) =>
      assert ItemTokens(it)[1] == Ident(n);
      NamesOnlyParts([KwSection, Ident(n), LBrace], ItemsTokens(items));
      ItemsAreNamed(items);
  }

  lemma {:induction false} ItemsAreNamed(items: seq<ItemTree>)
    requires ItemsWritable(items) && NamesOnly(ItemsTokens(items))
    ensures Dispatch.ItemsNamed(ItemsOf(items))
    decreases items
  {
    if items != [] {
      NamesOnlyParts(ItemTokens(items[0]), ItemsTokens(items[1..]));
      ItemIsNamed(items[0]);
      ItemsAreNamed(items[1..]);
    }
  }

  lemma {:induction false} SchemasAreNamed(ss: seq<SchemaTree>)
    requires SchemasWritable(ss) && NamesOnly(SchemasTokens(ss))
    ensures Dispatch.ProgramNamed(SchemasOf(ss))
    decreases |ss|
  {
    if ss != [] {
      var head := [KwSchema, Ident(ss[0].name), LBrace];
      NamesOnlyParts(head + ItemsTokens(ss[0].items), SchemasTokens(ss[1..]));
      NamesOnlyParts(head, ItemsTokens(ss[0].items));
      assert head[1] == Ident(ss[0].name);
      ItemsAreNamed(ss[0].items);
      SchemasAreNamed(ss[1..]);
    }
  }

  /** Every name in a program read from a source is a name. */
  lemma ReadProgramIsNamed(source: string, ts: seq<Token>)
    requires ts == TokensLexed(LexFrom(source, 0)) && ReadProgram(ts).Done?
    ensures Dispatch.ProgramNamed(SchemasOf(ReadProgram(ts).tree.schemas))
  {
    LexedNames(source, 0, ts);
    ProgramWasWritten(ts);
    var p, rest := ReadProgram(ts).tree, ReadProgram(ts).rest;
    NamesOnlyParts(ProgramTokens(p), rest);
    NamesOnlyParts(ImportsTokens(p.imports), SchemasTokens(p.schemas));
    SchemasAreNamed(p.schemas);
  }

  // ----- The front end -----

  /** The program a source stands for, if it can be read. */
  function Meaning(source: string): Option<Program> {
    match ReadProgram(TokensLexed(LexFrom(source, 0)))
    case Fail => None
    case Done(p, _) => Some(SchemasOf(p.schemas))
  }

  /** Lexing, parsing and checking. A source whose schemas refer to each other in a circle is never
      accepted, and an accepted one is ready for all the emitters exactly when inlining has no cycle,
      which it can only have through a schema named like a primitive. `order` is then an order of the
      schemas along which inlining falls. */
  method Compile(source: string) returns (r: Option<Program>, errors: seq<ErrorKind>, ghost order: seq<string>)
    ensures r.Some? <==> Meaning(source).Some? && errors == []
    ensures r.Some? ==> Meaning(source) == r && Dispatch.ProgramNamed(r.value) && ProgramAccepted(r.value)
    ensures r.Some? ==> !HasCycle(r.value)
    ensures r.Some? ==> (Expansion.Ready(Expansion.Unit(r.value, order)) <==> !HasInlineCycle(r.value))
    ensures r.Some? ==> forall path :: IsInlineCycle(r.value, path) ==>
              exists i :: 0 <= i < |path| && PrimitiveNamed(path[i]).Some?
    ensures CircularDependency in errors ==> Meaning(source).Some? && HasCycle(Meaning(source).value)
    ensures Meaning(source).Some? && (NoShadowing(Meaning(source).value) || UnknownType !in errors) ==>
              (CircularDependency in errors <==> HasCycle(Meaning(source).value))
    ensures Meaning(source).Some? && NoShadowing(Meaning(source).value) && ProgramMeets(Meaning(source).value, FoundOrNowhere)
            ==> (r.Some? <==>
                  var p := Meaning(source).value; ProgramAccepted(p) && !HasCycle(p) && ProgramMeets(p, Fits))
  {
    var xs := Lexer.Lex(source);
    var tokens := TokensLexed(xs);
    var parser := new Parser.Parser(tokens);
    var parsed := parser.ParseProgram();
    if parsed.None? {
      return None, [], [];
    }
    var program := parsed.value.program;
    ReadProgramIsNamed(source, tokens);
    var checker := new TypeChecker.Checker(program);
    checker.TypecheckProgram();
    if checker.errors != [] {
      return None, checker.errors, [];
    }
    order := AnOrder(program, checker.resolved);
    return Some(program), [], order;
  }

  /** The order for the emitters, if there is one. */
  lemma AnOrder(prog: Program, finished: seq<string>) returns (order: seq<string>)
    requires Ranked(prog, finished)
    ensures InlineRanked(prog, order) <==> !HasInlineCycle(prog)
    ensures forall path :: IsInlineCycle(prog, path) ==> exists i :: 0 <= i < |path| && PrimitiveNamed(path[i]).Some?
  {
    RankExistsIffAcyclic(prog);
    order := [];
    if !HasInlineCycle(prog) {
      order :| InlineRanked(prog, order);
    }
    forall path | IsInlineCycle(prog, path) ensures exists i :: 0 <= i < |path| && PrimitiveNamed(path[i]).Some? {
      CyclesPassThroughPrimitives(prog, finished, path);
    }
  }
}
