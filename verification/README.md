# cfgsafe in Dafny

cfgsafe is a small compiler. It reads a schema language, checks the schemas against each other, and
writes a C loader for configurations: defaults, an INI dispatcher, environment overrides, a command
line dispatcher, validators and regular expression matchers. This project models the compiler stage
by stage and the loader it writes, and proves that the loader means what the schema says.

Emitted C code is a syntax tree with an interpreter, not text. The emitters are methods with the loops
of the original that build such trees; the front end and the containers are classes whose methods
change their fields in place. Each method is tied to a function of its inputs or of the old state, and
the theorems are about those functions.

## Main results

- **Regular expressions** (`Regex*.dfy`). The emitted matcher is sound for the whole documented syntax
  and never leaves the string. It is exact on all strings if and only if the pattern meets a condition,
  stated on its items and executable (`ExactPattern`): every item is mandatory, no looping class meets the class of the
  next item, a `.+` stands where one character does as well as many, the end anchor is a real one, and
  the pattern is not the unanchored empty one; or some item has an empty class and nothing matches at
  all. Outside the condition a lemma gives a string on which matcher and language disagree.
- **Schema checker** (`Schema.dfy`, `Types.dfy`, `Properties.dfy`, `SchemaGraph.dfy`, `Checking.dfy`,
  `CheckerTheorems.dfy`, `CheckerExamples.dfy`, `TypeChecker.dfy`). Each schema is traversed once, no
  cycle of references passes, and the order of the traversal ranks the schemas of an accepted program.
  A circular dependency is reported exactly when the reference graph has a cycle, unless a type was
  reported as unknown while an item hides a schema that is used as a type. Where nothing is hidden so and no
  condition uses a name that only other schemas have, the checker finds no error if and only if the program
  meets every demand. Two small programs show what hiding and capture do.
- **Expansion and dispatch** (`Inlining.dfy`, `Expansion.dfy`, `Runtime.dfy`, `Defaults.dfy`,
  `IniEmitter.dfy`, `CliEmitter.dfy`, `Text.dfy`, `Dispatch.dfy`, `IniPlaces.dfy`). The unguarded recursion
  of the emitters ends if and only if inlining has no cycle. Three walks (defaults, environment, command
  line) follow one list of leaves with distinct paths; the INI walk reaches all of them, and what it
  reaches beyond them lies in an array of schemas. The INI decision tree is a path walk, and the two
  dispatchers perform the same single write.
- **Loading** (`Lifecycle.dfy`, `LastWriter.dfy`, `ArrayRuns.dfy`, `IniText.dfy`, `IniFile.dfy`,
  `ArrayText.dfy`, `ArrayFlags.dfy`, `Loading.dfy`, `LoadMeaning.dfy`). A loaded field holds the last text
  that wrote it, through all layers; an element of an array of schemas holds its defaults and the lines of
  its own header; a configuration written as text is read back leaf by leaf, through the cutting of the file
  into lines. A load is undefined exactly when a header meets a missing key or the validator comes to texts that
  a flag has left in an array of schemas; when it succeeds, every loaded text with a pattern is in the
  language of the pattern, and nothing else that the schema declares is violated but conditions on texts.
- **Validation** (`Validator.dfy`, `ValidatorEmitter.dfy`, `ValidatorTheorems.dfy`, `RegexUnique.dfy`,
  `PatternReadings.dfy`). The generated, mutually calling functions report the first violation, in
  declaration order, of all emitted constraints over the whole tree, except for those of conditions that
  compare with a text. Against the languages of the patterns they are sound for every program, and exact
  where every pattern meets the condition of its compiler.
- **Containers** (`DynArray.dfy`, `Slices.dfy`, `HashMap.dfy`, `Interner.dfy`, `Arena.dfy`). The hash map stands for a
  finite map even when rehashing is refused half-way; interning gives one object for each text; ranges
  handed out by the arena never share a byte.
- **Front end** (`Characters.dfy`, `Numbers.dfy`, `Grammar.dfy`, `Scanning.dfy`, `Lexer.dfy`,
  `Spelling.dfy`, `Reading.dfy`, `Parser.dfy`, `Compiler.dfy`). Tokens tile the source with right
  positions; integer literals are exact; the relaxed grammar is unambiguous, and printing a program and
  lexing and parsing the text gives the program back. What the back end asks of a program follows from
  its having been accepted.

## Where the code differs from its documentation

The model follows the code.

- `x*` is emitted as one mandatory `x` and a loop, so it acts as `x+`; `?`, and any quantifier after a
  dot, is skipped; braces are ordinary characters. The e-mail pattern of `docs/schema_guide.md` line 427
  therefore accepts no string at all, although line 456 says that `user@example.com` passes
  (`RegexExamples.DocumentedEmailAcceptsNothing`), and the colour pattern of line 431 wants literal
  braces (`RegexExamples.DocumentedHexColorWantsBraces`).
- `lang.bnf` demands a property block, has no commas between properties and wants a number at the upper
  end of a range. The parser takes the block and the commas as optional and any literal at the upper end.
- A schema named like a primitive passes the checker, which looks for primitives first, while the emitters
  look for schemas first. Their recursion ends if and only if inlining has no cycle
  (`Inlining.RankExistsIffAcyclic`); for `schema int { x: int }` it does not end
  (`Inlining.PrimitiveNameEscapesTheChecker`), for other programs with such a name it may
  (`Inlining.PrimitiveNameMayBeRanked`). A field whose type is such a schema has a primitive C type in
  its struct, so the theorems about written places and loaded configurations ask for no such name.
- A `required_if` that compares with a text compares addresses (`ValidatorTheorems.TextConditionNeverFires`).
- `docs/schema_guide.md` line 611 compares with an enum member. The emitter writes the bare name of the
  member, which no generated enumeration declares, so the output does not compile. A bare name is declared
  only when the member is spelt like some enumerator, and then stands for that one
  (`ValidatorTheorems.BareMemberIsDeclaredIff`, `ValidatorTheorems.MemberMayBeDeclared`).
- A `required_if` that compares an address with a text passes the checker and is emitted as a struct compared
  with a pointer, which does not compile. The theorems about validators ask that the code builds (`Builds`).
- The flag of an array of schemas is emitted as that of an array of texts: it replaces the elements by
  pointers, which the validator then reads as structs (`Loading.StatusIsUndefinedIff`).
- A schema body is checked inside the scopes of the schema that refers to it first, so a `required_if`
  may find a field there, and whether a program passes can depend on the order of its schemas
  (`CheckerExamples.CaptureDependsOnTheOrder`).

## Model

| member | source | states |
|---|---|---|
| `RegexTheorems.MatcherIsExactIff` | tools/src/codegen/emit_validation.c:245-335 | for every well-formed pattern and all four combinations of anchors: the emitted matcher decides the language of the pattern on all strings if and only if the pattern meets an executable condition on its items and anchors |
| `RegexUnique.RenderIsInjective` | tools/src/codegen/emit_validation.c:204-318 | no text can be read as two well-formed patterns, so the language of a written pattern is well defined |
| `RegexTheorems.MatcherIsSound` | tools/src/codegen/emit_validation.c:245-335 | for the whole documented syntax and every string: what the matcher accepts is in the language, and the cursor never leaves the text and its terminator |
| `RegexTheorems.ADisagreement` | tools/src/codegen/emit_validation.c:245-335 | every well-formed pattern outside the condition has a string, which the lemma gives, that is in the language and is turned away |
| `RegexTheorems.LanguageIsAccepted` | tools/src/codegen/emit_validation.c:245-335 | the sufficient half: under the condition every string of the language is accepted |
| `RegexTheorems.GreedyFindsTheMatch` | tools/src/codegen/emit_validation.c:276-308 | with separated loops, if any way of matching ends at a place, taking as much as possible ends there or later |
| `RegexTheorems.OptionalDisagrees` | tools/src/codegen/emit_validation.c:266-316 | `x*` acts as `x+`, and `?` and any quantifier after a dot are skipped: each mandatory-looking optional item costs a string of the language |
| `RegexTheorems.OverlapDisagrees` | tools/src/codegen/emit_validation.c:276-308 | a looping item whose class meets the next item's class turns some string of the language away, because the loop never gives a character back |
| `RegexTheorems.DotPlusDisagrees` | tools/src/codegen/emit_validation.c:266-292 | a `.+` between mandatory items takes one character where the language allows more, and a string shows it |
| `RegexTheorems.WrittenDollarDisagrees` | tools/src/codegen/emit_validation.c:254-256 | a pattern that ends in an escaped dollar is taken for end-anchored, and a string shows the difference |
| `RegexTheorems.EmptyPatternDisagrees` | tools/src/codegen/emit_validation.c:258-261 | an unanchored matcher never tries the empty suffix, so the empty pattern rejects the empty string |
| `RegexGreedy.EmitsWhatIsWritten` | tools/src/codegen/emit_validation.c:245-335 | compiling the text of any well-formed pattern gives the matcher its syntax tree stands for: escapes, ranges, dashes, carets and quantifiers are read as written |
| `RegexGreedy.RenderedClassIsRead` | tools/src/codegen/emit_validation.c:204-243 | the class reader gives the condition of the class that was written and stops right behind its bracket |
| `RegexGreedy.ConditionDecidesMembership` | tools/src/codegen/emit_validation.c:204-243 | the emitted boolean condition, positive or negated, with ranges and escapes, holds of a character exactly when the character is in the class |
| `RegexGreedy.RunIsGreedy` | tools/src/codegen/emit_validation.c:264-318 | the emitted statements run to where the greedy reading of the items ends, or fail where it sticks, and never read outside the string |
| `RegexGreedy.MatcherIsGreedy` | tools/src/codegen/emit_validation.c:245-335 | the emitted function accepts exactly when some permitted start lets every item take its characters greedily; unanchored starts exclude the end of the text |
| `RegexCompiler.EmitRegexValidator` | tools/src/codegen/emit_validation.c:264-318 | the emitter's loop over the pattern builds the matcher the functions of the compiler describe |
| `RegexCompiler.EmitCharClassCheck` | tools/src/codegen/emit_validation.c:204-243 | the emitter's loop over a class builds the condition and leaves the pattern pointer behind the class |
| `RegexMatcher.Execute` | tools/src/codegen/emit_validation.c:258-332 | the emitted outer loop over start positions gives the verdict of the matcher semantics |
| `RegexMatcher.RunBody` | tools/src/codegen/emit_validation.c:264-318 | executing the emitted statements one after another gives the outcome of the statement semantics |
| `RegexExamples.DocumentedEmailAcceptsNothing` | docs/schema_guide.md:425-457 | the e-mail pattern of the guide denotes every `u@v.w`, but its matcher accepts no string at all, against what the guide says |
| `RegexExamples.DocumentedHexColorWantsBraces` | docs/schema_guide.md:429-432 | the colour pattern of the guide takes `{6}` as three ordinary characters: no string without a brace is accepted |
| `TypeChecker.Checker.TypecheckProgram` | tools/src/typecheck/typecheck.c:29-54 | the run ends in the state that the functions of `Checking` give; every schema is finished exactly once; a circular-dependency error implies a cycle of the references; a cycle implies that error whenever no type was reported as unknown, or no item carries the name of a schema that is used as a type; so a cycle never passes; no errors means the program is accepted and the finishing order ranks it; where besides no condition is captured there are no errors exactly in the accepted, acyclic programs whose conditions fit |
| `CheckerTheorems.CheckerIsExact` | tools/src/typecheck/typecheck.c:29-122 | where no item carries the name of a schema that is used as a type and no condition uses a name that only other schemas have: the checker finds no error if and only if every block is accepted, the references have no cycle, and every condition names an item of its own schema whose type has the literal |
| `CheckerTheorems.CheckerIsSound` | tools/src/typecheck/typecheck.c:29-122 | for every program, shadowing included: the verdict on cycles is exact unless a type was reported as unknown while a schema name in use is hidden, so a missed cycle always leaves that error behind; without errors the program is accepted and ranked, and every condition fits its own schema or names an item of another scope |
| `CheckerTheorems.CheckerIsComplete` | tools/src/typecheck/typecheck.c:29-122 | without shadowing an accepted, acyclic program whose conditions fit passes without any error |
| `CheckerExamples.HiddenCycleIsUnknownType` | tools/src/typecheck/typecheck.c:135-150 | `schema A { B: int b: B } schema B { a: A }` has a cycle, and the one error reported is an unknown type |
| `CheckerExamples.CaptureDependsOnTheOrder` | tools/src/typecheck/typecheck.c:56-122 | a condition may find a field of the schema that refers to its own: the same two schemas pass in one order and not in the other |
| `TypeChecker.Checker.TypecheckSchema` | tools/src/typecheck/typecheck.c:101-122 | the method takes the step that the specification defines: the flag test, the scan for a cycle, the push, the block, the flag and the pop |
| `CheckerTheorems.SchemaSound` | tools/src/typecheck/typecheck.c:101-122 | the invariant holds again, and the schema is finished unless an error excuses it; scopes and stack are as before (`Extends`, in the contract of the step) |
| `TypeChecker.Checker.TypecheckScopeItems` | tools/src/typecheck/typecheck.c:56-99 | the two loops over a block define all its symbols first and check its properties and sections then |
| `CheckerTheorems.BlockSound` | tools/src/typecheck/typecheck.c:56-99 | both passes over a block: every schema the block refers to has been finished unless an error excuses it, and no errors means the block is accepted, with conditions that fit or name items of other scopes |
| `TypeChecker.Checker.ResolveType` | tools/src/typecheck/typecheck.c:135-164 | primitives first, then schema symbols found through the scopes, which are traversed on the way |
| `CheckerTheorems.TypeSound` | tools/src/typecheck/typecheck.c:135-164 | without errors the result is the type the expression denotes in the program, and the schemas it refers to are finished |
| `TypeChecker.Checker.IsResolving` | tools/src/typecheck/typecheck.c:107-113 | the scan decides whether a name is on the resolving stack |
| `CheckerTheorems.MetAgain` | tools/src/typecheck/typecheck.c:107-113 | a name found on the resolving stack closes a cycle of the reference graph |
| `CheckerTheorems.LookupIsRight` | tools/src/typecheck/symbol_table.c:33-41 | a lookup that yields a schema symbol yields the schema of that name from the global scope; without shadowing a declared schema is always found; anything else found is an item of the program |
| `Types.LookupLevel` | tools/src/typecheck/symbol_table.c:33-41 | the walk up the parents finds the innermost scope that defines the name |
| `SchemaGraph.RankedHasNoCycle` | tools/src/typecheck/typecheck.c:101-122 | an order in which every reference points back rules out every cycle |
| `SchemaGraph.EdgeLowersPosition` | tools/src/typecheck/typecheck.c:101-122 | along every reference the position in the finishing order drops strictly |
| `Properties.CheckFieldProperties` | tools/src/typecheck/properties.c:296-328 | the loop over a field's properties, with its scan for an earlier name, records in order the errors each property earns among its siblings |
| `Properties.FindProperty` | tools/src/typecheck/properties.c:9-93 | the searches through the generic table and the table of the type find the one demand the language makes of that property of that type, or none |
| `Properties.CheckLiteral` | tools/src/typecheck/properties.c:139-224 | the kind test, the scan of enum members, the address and variable name scans and the sign test accept exactly the literals the property allows |
| `Properties.IsValidIpv4` | tools/src/typecheck/properties.c:106-127 | the scan with its counters decides the form of an address |
| `Properties.NoErrorsIff` | tools/src/typecheck/properties.c:158-328 | no errors if and only if every property is allowed for the type and carries a value of the demanded kind and format, no name is used twice, and every condition fits what its name stands for |
| `Expansion.BodyIsBelow` | tools/src/codegen/emit_lifecycle.c:77-105 | every schema that a body is inlined with ranks below the body's own schema, so the unguarded recursion of the emitters ends |
| `Inlining.RankExistsIffAcyclic` | tools/src/codegen/emit_lifecycle.c:77-253 | a rank that falls along the edges by which the emitters inline schemas exists if and only if those edges have no cycle |
| `Inlining.CyclesPassThroughPrimitives` | tools/src/typecheck/typecheck.c:135-150 | in a program that the checker ranks, every cycle of the emitters passes through a schema named like a primitive |
| `Inlining.CheckerOrderServes` | tools/src/typecheck/typecheck.c:135-150 | without such a schema the checker's own order is a rank for the emitters |
| `Inlining.PrimitiveNameMayBeRanked` | tools/src/codegen/usage_tracker.c:9-20 | the name alone does no harm: a program with a schema named `int` and no inlining cycle has a rank |
| `Expansion.LeavesAreDistinct` | tools/src/codegen/emit_lifecycle.c:77-105 | the expansion of an accepted program meets no path twice |
| `Inlining.PrimitiveNameEscapesTheChecker` | tools/src/codegen/usage_tracker.c:9-20 | `schema int { x: int }` meets every demand of the checker and is ranked by it, while no order at all ranks the emitters' inlining of it into itself |
| `Defaults.EmitDefaultInitialization` | tools/src/codegen/emit_lifecycle.c:77-105 | the emitter's loop produces the initialisations of the default walk |
| `Defaults.DefaultsFollowLeaves` | tools/src/codegen/emit_lifecycle.c:77-105 | the default walk initialises exactly the leaves of the expansion, each at most once, in declaration order |
| `Defaults.EmitEnvOverrides` | tools/src/codegen/emit_lifecycle.c:107-133 | the emitter's loop produces the overrides of the environment walk |
| `Defaults.OverridesFollowLeaves` | tools/src/codegen/emit_lifecycle.c:107-133 | the environment walk overrides exactly the leaves of the expansion, in declaration order |
| `CliEmitter.EmitCliParser` | tools/src/codegen/emit_cli.c:15-124 | the emitter's loop produces the chain of flag tests of the command line walk |
| `CliEmitter.FlagsFollowLeaves` | tools/src/codegen/emit_cli.c:15-124 | the command line walk tests the flags of exactly the leaves of the expansion, in declaration order, each with its full dotted path |
| `CliEmitter.RunCli` | tools/src/codegen/emit_lifecycle.c:265-273 | the argument loop, writing as it goes, performs the writes the chain selects |
| `IniEmitter.EmitIniHandlerBody` | tools/src/codegen/emit_lifecycle.c:139-253 | the emitter's two loops over a block produce the decision tree |
| `IniEmitter.IniBodyAgrees` | tools/src/codegen/emit_lifecycle.c:139-253 | for all section parts, keys, values, headers and memories the decision tree of a block, with its early returns and fall-through, does exactly what walking the remaining path does |
| `Dispatch.HandlerIsAWalk` | tools/src/codegen/codegen.c:332-347 | the whole generated handler performs exactly the write that the path walk from the root schema addresses, and changes nothing when the walk leads nowhere |
| `Dispatch.SectionReachesLeaf` | tools/src/codegen/emit_lifecycle.c:139-253 | the section text and key of a leaf lead the walk to that leaf and its own conversion |
| `Dispatch.LeafIsReached` | tools/src/codegen/emit_lifecycle.c:139-253 | from any block, the path of a leaf below it leads the walk to that leaf |
| `Dispatch.WalkKeepsNames` | tools/src/codegen/emit_lifecycle.c:139-253 | whatever the walk addresses has the names of the parts and the key as its path, so two different paths never address one field |
| `IniPlaces.HandlerWritesLeaves` | tools/src/codegen/emit_lifecycle.c:139-253 | the converse of reaching every leaf: whatever the handler writes or appends to is a leaf of the expanded tree with its own conversion, or such a leaf of the last element of an array of schemas, at the place of that leaf |
| `IniPlaces.WalkHasTrail` | tools/src/codegen/emit_lifecycle.c:139-253 | the same for the walk through any block: the INI walk adds only paths through arrays of schemas to the other walks |
| `Dispatch.ChainReachesLeaf` | tools/src/codegen/emit_cli.c:25-71 | an argument that spells the flag of one leaf passes the tests of all leaves before it without effect |
| `Dispatch.DispatchersAgree` | tools/src/codegen/emit_cli.c:25-71 | for every int, float, string, path and ipv4 leaf and every value, `--S.a.b.k=v`, `--S.a.b.k v` and `k = v` in section `S.a.b` perform the same single write |
| `Dispatch.FlagWithEquals` | tools/src/codegen/emit_cli.c:61-71 | `--path=value` performs the single write of its leaf and nothing else |
| `Dispatch.FlagWithValue` | tools/src/codegen/emit_cli.c:42-59 | `--path value` performs the single write of its leaf and consumes the value |
| `Text.TokensOfJoin` | tools/src/codegen/codegen.c:56-66 | splitting undoes joining for non-empty parts that do not hold the delimiter |
| `Text.JoinInjective` | tools/src/codegen/codegen.c:56-66 | different paths have different dotted flags |
| `Text.SplitParts` | tools/src/codegen/codegen.c:337-340 | the loop that cuts a section name yields its tokens, at most the limit of them |
| `Lifecycle.LoadConfig` | tools/src/codegen/codegen.c:349-366 | the three stages that fill the configuration, overwriting it in sequence, compute the load function |
| `Loading.LoadAndValidate` | tools/src/codegen/codegen.c:349-369 | the whole generated function, stage by stage: it gives up when the file does not open or a line is malformed, and otherwise ends with what the validator says of the layered configuration, which is undefined when it comes to read a struct where a flag has put a pointer |
| `Loading.StatusIsUndefinedIff` | tools/src/codegen/emit_cli.c:90-110 | a load is undefined if and only if a header makes a missing key be compared, or the file is well formed, the last text given for some array of schemas is not an empty list, and the validator reports nothing before it comes to such an element |
| `Loading.ViolationsAreMarkedIff` | tools/src/codegen/emit_validation.c:159-167 | the validator has an element that is no struct ahead of it if and only if the last text given for some array of schemas is not an empty list |
| `Loading.LoadSucceedsIff` | tools/src/codegen/codegen.c:349-369 | a load succeeds with a configuration if and only if the file opens, no line is malformed, no argument leaves texts in an array of schemas, the layers give that configuration, and it violates nothing but conditions on texts, patterns read as their emitted matchers do |
| `LoadMeaning.SuccessMeetsTheSchema` | tools/src/codegen/codegen.c:349-369 | a load that succeeds leaves a configuration that violates nothing the schema declares, patterns read by their languages, but conditions on texts |
| `LoadMeaning.ExactLoadSucceedsIff` | tools/src/codegen/codegen.c:349-369 | where every pattern meets the condition of its compiler, success is equivalent to a readable file, no malformed line, no texts in an array of schemas, and a layered configuration that violates nothing declared but conditions on texts |
| `LoadMeaning.LoadedTextIsInLanguage` | tools/src/codegen/codegen.c:349-369 | after a successful load the text that defaults, file, environment and arguments give a field with a pattern is in the language of that pattern |
| `ArrayFlags.ArrayAfterLoad` | tools/src/codegen/emit_cli.c:90-110 | after a load an array of schemas holds the text of its last flag, if one was given, and nothing from the other layers |
| `ArrayFlags.LoadIsIntactIff` | tools/src/codegen/emit_cli.c:90-110 | all arrays of schemas, at whatever depth, still hold their elements if and only if no flag has left a non-empty list in one: the file and the environment never do |
| `Loading.ValidatorSeesTheLayers` | tools/src/codegen/codegen.c:349-369 | in the configuration handed to the validator a leaf has the value of its default, its INI lines, its variable and its flags, in that order |
| `Loading.ValidatorSeesTheElements` | tools/src/codegen/codegen.c:349-369 | there an array of schemas has one element for each header, and a leaf of an element has its default overridden by the lines between that header and the next; a flag for the array replaces them by as many elements as its text has tokens |
| `Loading.SchemaDataConforms` | tools/src/codegen/emit_validation.c:141-183 | what a load leaves in memory always has the shape that the validator relies on, but for elements that a flag has replaced by pointers to texts |
| `Lifecycle.EventsOnLeaf` | tools/src/codegen/codegen.c:332-347 | over any sequence of callbacks a leaf changes only by the lines addressed to it, in their order |
| `Lifecycle.LoadIsLayered` | tools/src/codegen/codegen.c:349-369 | after any load a leaf is its default, overridden by the INI lines addressed to it, then by its environment variable, then by its command line writes |
| `LastWriter.LastWriterWins` | tools/src/codegen/codegen.c:349-369 | for every leaf of every type: after any load it holds its last effective command line text, else the environment, else the last effective INI text, else the default; texts that do not write, such as unknown enum members, leave the lower layer visible; an address is the fold of all its texts, since a refused one may keep octets |
| `LastWriter.UnknownMemberIsNoUpdate` | tools/src/codegen/emit_lifecycle.c:160-168 | a text that is no member of the enum is no update from the file or the command line |
| `Runtime.AppendIsLocal` | tools/src/codegen/emit_lifecycle.c:225-236 | appending an element changes nothing outside the new element and adds one to one count |
| `ArrayRuns.EventOnElement` | tools/src/codegen/emit_lifecycle.c:215-248 | one callback changes a leaf of an array element only if it is the header that creates the element or a line addressed to that leaf while the element is the last |
| `ArrayRuns.RunCounts` | tools/src/codegen/emit_lifecycle.c:225-231 | over any sequence of callbacks the length grows by the number of headers of that array |
| `ArrayRuns.ElementsAreTheirSections` | tools/src/codegen/emit_lifecycle.c:215-248 | from an empty array: the length is the number of headers, and element i is its defaults overridden by exactly the lines between header i and the next |
| `ArrayRuns.ElementsAfterLoad` | tools/src/codegen/codegen.c:349-366 | the same after a whole load without a flag for the array itself: no environment variable and no flag of another leaf reaches into an element |
| `ValidatorTheorems.ValidatorReportsFirst` | tools/src/codegen/emit_validation.c:141-183 | for every accepted program that builds: the generated validator reports the first violation, in declaration order, of all emitted constraints anywhere in the tree, array elements included, but for those of conditions on a text, and returns true when there is no other; patterns are read as their emitted matchers do |
| `PatternReadings.ValidatorIsSound` | tools/src/codegen/emit_validation.c:141-183 | patterns read by their languages: when the validator returns true nothing declared is violated but conditions on texts, and a report that is no pattern mismatch is a declared violation |
| `PatternReadings.ValidatorDecides` | tools/src/codegen/emit_validation.c:141-183 | where every pattern of the program meets the condition of its compiler: the result is the first declared violation, patterns read by their languages, if and only if that first one is not of a condition on a text, and true if and only if every violation is such a one |
| `PatternReadings.AcceptedTextsAreInLanguage` | tools/src/codegen/emit_validation.c:106-110 | a configuration that passes has, at every leaf with a pattern, no text or one of the language of the pattern |
| `PatternReadings.PatternIsDecidedIff` | tools/src/codegen/emit_validation.c:106-110 | the emitted reading and the declared reading of a written pattern agree on all C strings if and only if the pattern meets the condition |
| `PatternReadings.PatternTestDecidesIff` | tools/src/codegen/emit_validation.c:106-110 | the test emitted for a written pattern fires on exactly the texts outside its language if and only if the pattern meets the condition |
| `ValidatorTheorems.ValidatorIsExactIff` | tools/src/codegen/emit_validation.c:141-183 | its result is the first of all violations, patterns read as their emitted matchers do, if and only if that first one is not of a condition on a text; it returns true if and only if every violation is such a one |
| `ValidatorTheorems.ValidatorIsExact` | tools/src/codegen/emit_validation.c:141-183 | where no condition compares with a text, the validator returns true exactly when nothing is violated, patterns read as their emitted matchers do, and otherwise reports the first violation |
| `ValidatorTheorems.BareMemberIsDeclaredIff` | tools/src/codegen/emit_validation.c:4-19 | a condition on an enum member is emitted as the bare name of the member; that name is declared if and only if it is, as a whole, the `block_field_member` of some enum |
| `ValidatorTheorems.BareMemberIsUndeclared` | tools/src/codegen/emit_validation.c:4-19 | so the bare name of a member without an underscore is declared nowhere |
| `ValidatorTheorems.MemberMayBeDeclared` | tools/src/codegen/emit_validation.c:4-19 | a member spelt like the enumerator of another is declared, as that other one |
| `ValidatorTheorems.BlockIsExact` | tools/src/codegen/emit_validation.c:141-183 | each block's function reports the first of all violations below it that are not of text conditions, through its calls into other functions |
| `ValidatorTheorems.PropertyTestIsExact` | tools/src/codegen/emit_validation.c:49-139 | the test emitted for any accepted property but a condition on a text fires exactly when the property's constraint is violated; that of a text condition never fires |
| `ValidatorTheorems.PatternTestIsExact` | tools/src/codegen/emit_validation.c:106-110 | a pattern test calls the matcher compiled from that very pattern |
| `ValidatorTheorems.GeneratedIsReady` | tools/src/codegen/usage_tracker.c:33-96 | after usage tracking every pattern of every block has an entry in the table and every called function exists |
| `ValidatorTheorems.TextConditionNeverFires` | tools/src/codegen/emit_validation.c:4-19 | a `required_if` that compares with a text compares addresses and never fires, even where the field is missing and the texts are equal |
| `ValidatorEmitter.GetRegexIndex` | tools/src/codegen/emit_validation.c:42-47 | the linear search yields the first index of the pattern, or -1 when it is absent |
| `ValidatorEmitter.TrackUsage` | tools/src/codegen/usage_tracker.c:33-96 | the search loops add the patterns in order of first use |
| `ValidatorTheorems.PatternsEnterOnce` | tools/src/codegen/usage_tracker.c:33-96 | no pattern is in the table twice, so no matcher is emitted twice |
| `ValidatorEmitter.EmitValidationFunction` | tools/src/codegen/emit_validation.c:141-183 | the loop over a block emits the code of the block |
| `DynArray.DynArray.Reserve` | tools/src/datastructures/dynamic_array.c:27-43 | contents are kept whether or not memory is granted; the capacity reached is at least the one asked for and less than twice it, or eight |
| `DynArray.DynArray.Push` | tools/src/datastructures/dynamic_array.c:45-56 | appends one element, or changes nothing when memory is refused |
| `DynArray.DynArray.Remove` | tools/src/datastructures/dynamic_array.c:72-82 | removes the element at the index and closes the gap; an index out of range changes nothing |
| `HashMap.HashMap.Put` | tools/src/datastructures/hash_map.c:115-153 | the table stands for the map with the key set to the value, whatever rehashing met on the way; only a refused bucket growth for a new key fails, and then the map is as before |
| `HashMap.HashMap.Rehash` | tools/src/datastructures/hash_map.c:61-113 | the abstract map is the same after success, after an immediate refusal and after a refusal in the middle of moving, where the old buckets stay |
| `HashMap.HashMap.Lookup` | tools/src/datastructures/hash_map.c:155-173 | finds exactly what the map holds |
| `HashMap.HashMap.Remove` | tools/src/datastructures/hash_map.c:175-200 | removes the key from the map and says whether it was there |
| `HashMap.MoveBucket` | tools/src/datastructures/hash_map.c:82-103 | moving one bucket entry by entry keeps every key in bucket hash modulo count, unique, and found with its value |
| `HashMap.MovedEntry` | tools/src/datastructures/hash_map.c:85-101 | one push into the new buckets: exactly one more key is found there, and no other answer changes |
| `HashMap.MovedAll` | tools/src/datastructures/hash_map.c:105-112 | when every bucket has been moved the new buckets stand for the same map, with the same number of entries |
| `HashMap.TableUpdate` | tools/src/datastructures/hash_map.c:133-141 | overwriting the value of an entry in its bucket updates the map and keeps placement, uniqueness and size |
| `HashMap.TableAppend` | tools/src/datastructures/hash_map.c:143-151 | appending a new key to its bucket extends the map and keeps placement, uniqueness and size |
| `HashMap.TableRemove` | tools/src/datastructures/hash_map.c:186-197 | closing the gap of a removed entry takes one key out of the map and keeps the rest |
| `Interner.DenseInterner.Intern` | tools/src/datastructures/dense_interner.c:66-111 | the record of a text: the old one if the text was interned before, else a fresh one with the next dense index; map size, array length and counter stay equal |
| `Interner.DenseInterner.InternAll` | tools/src/datastructures/dense_interner.c:66-111 | over any sequence of interns two results are the same object if and only if their texts are equal |
| `Interner.SameIndexIffSameText` | tools/src/datastructures/dense_interner.c:66-111 | two dense indices issued at any two moments of a run are equal exactly when the texts are, and an index once issued stays with its text |
| `Interner.CanonicalTexts` | tools/src/datastructures/dense_interner.c:66-111 | the dense array holds no text twice and holds exactly the keys of the map |
| `Interner.DenseInterner.Peek` | tools/src/datastructures/dense_interner.c:127-133 | finds a text exactly when it was interned and never inserts |
| `Interner.DenseInterner.GetText` | tools/src/datastructures/dense_interner.c:142-163 | gives the text of every index below the counter and nothing for others, negative ones included |
| `Interner.DenseInterner.GetResult` | tools/src/datastructures/dense_interner.c:165-175 | gives the record whose dense index is the index asked for |
| `Slices.ComparesAsOrder` | tools/include/datastructures/utils.h:31-36 | the comparison is a total order under which only equal texts compare as zero, and texts that compare as zero hash alike |
| `Slices.SliceHash` | tools/include/datastructures/utils.h:21-29 | the loop computes the FNV-1a hash of the text in 64-bit arithmetic |
| `Arena.Arena.Alloc` | tools/src/datastructures/arena.c:72-116 | the new range is aligned, non-empty, inside its block and apart from every earlier range, and no earlier range changes a byte |
| `Arena.GrowCapacity` | tools/src/datastructures/arena.c:92-96 | the doubling loop ends without overflow at a capacity that fits, below twice the size unless the block size was enough |
| `Arena.Arena.Realloc` | tools/src/datastructures/arena.c:162-179 | a fresh range whose common prefix with the old one is copied, while the old range keeps its place and contents |
| `Arena.Arena.Reset` | tools/src/datastructures/arena.c:58-69 | keeps the newest block and gives every range up |
| `Arena.Arena.BytesUsed` | tools/src/datastructures/arena.c:126-132 | the sum over the blocks is the sum of all sizes handed out, each rounded up to the alignment |
| `Arena.BumpIsSound` | tools/src/datastructures/arena.c:83-115 | moving the fill mark by the padded size keeps all ranges aligned, inside and pairwise apart |
| `Arena.AlignUpRounds` | tools/src/datastructures/arena.c:11-13 | unless the sum wraps, rounding gives the least multiple of the alignment that is not smaller |
| `Lexer.Lex` | tools/src/lexer/lexer.c:257-265 | lexing any source ends with one end marker, and the tokens tile the source |
| `Lexer.Lexer.NextToken` | tools/src/lexer/lexer.c:179-250 | skips blanks and comments, then gives the token found there with its slice, and a span whose lines and columns are those counted from the newlines before it |
| `Lexer.Lexer.Advance` | tools/src/lexer/lexer.c:29-40 | the line and the column always equal the values computed from the source before the cursor |
| `Lexer.Lexer.SkipWhitespace` | tools/src/lexer/lexer.c:54-87 | stops at the first character that starts no blank and no comment |
| `Lexer.Lexer.LexNumber` | tools/src/lexer/lexer.c:197-206 | a point belongs to the number only when a digit follows it |
| `Lexer.UnescapeString` | tools/src/lexer/lexer.c:90-117 | the in-place loop removes exactly the escapes |
| `Scanning.LexingTiles` | tools/src/lexer/lexer.c:179-265 | slices are non-empty, ordered and disjoint, everything between them is white space or comments, skipped to its end, every position is the counted one, and the last token alone is the end marker |
| `Scanning.SkipsBlanks` | tools/src/lexer/lexer.c:54-87 | what is skipped is a run of white space, line comments and block comments that end at their first end mark, an open one reaching the end of the source |
| `Scanning.ColumnCountsFromTheLineStart` | tools/src/lexer/lexer.c:29-40 | the column is the distance from the last newline, or from the start |
| `Spelling.LexingUndoesSpelling` | tools/src/lexer/lexer.c:179-265 | tokens written out with any white space that keeps them apart are lexed back |
| `Spelling.ScanSpelling` | tools/src/lexer/lexer.c:179-250 | each kind of token is read back from its spelling, strings with any contents included |
| `Spelling.EscapeIsUndone` | tools/src/lexer/lexer.c:90-117 | unescaping undoes escaping for every text |
| `Spelling.RangesLexTight` | tools/src/lexer/lexer.c:197-242 | `a..b` lexes to a whole number, a range mark and a whole number for all a and b, without any space |
| `Spelling.ScannedNumerals` | tools/src/lexer/lexer.c:197-206 | a number the lexer produces has the exact form of a numeral, so the parser refuses a whole one only for its size and never refuses a decimal |
| `Spelling.NormalisingKeepsTheTokens` | tools/src/lexer/lexer.c:179-265 | printing the tokens of any source without stray characters with single spaces and lexing again gives the same tokens |
| `Numbers.ParseIntLit` | tools/src/parser/parse_statements.c:38-60 | succeeds exactly on an optional minus and digits whose mathematical value fits a signed 64-bit word and returns that value; the accumulator never exceeds the unsigned 64-bit maximum |
| `Numbers.ReadsBackExactly` | tools/src/parser/parse_statements.c:38-60 | every value of the type, the least included, is read back from its digits, and every other integer is refused |
| `Numbers.LeadingZeros` | tools/src/parser/parse_statements.c:38-60 | leading zeros change nothing |
| `Numbers.WouldWrap` | tools/src/parser/parse_statements.c:49-50 | the overflow guard fires exactly when the next accumulator value would not fit |
| `Parser.Parser.ParseProgram` | tools/src/parser/parse_statements.c:84-119 | the cursor parser succeeds exactly when the reader does, with the same syntax tree and the same remaining tokens |
| `Parser.Parser.ParseItems` | tools/src/parser/parse_statements.c:153-169 | the loop over a block, shared by schemas and sections, consumes a token in every turn and collects the items up to the closing brace |
| `Parser.Parser.ParseFieldDecl` | tools/src/parser/parse_statements.c:209-243 | the property block may be missing, and a comma after a property may be missing |
| `Parser.Parser.ParsePropertyValue` | tools/src/parser/parse_statements.c:323-361 | two tokens of lookahead tell a range and a condition from a literal; the upper end of a range may be any literal |
| `Parser.Parser.ParseTypeExpr` | tools/src/parser/parse_statements.c:269-320 | a name or an enum with at least one member, and one pair of brackets at most |
| `Parser.Parser.ParseLiteral` | tools/src/parser/parse_statements.c:364-409 | a literal token gives its value, an integer that does not fit gives none and the cursor stays |
| `Parser.Parser.Match` | tools/src/parser/parser.c:55-61 | consumes the expected token and nothing else |
| `Parser.ParseWritten` | tools/src/parser/parse_statements.c:84-119 | parsing the tokens of any program followed by the end marker rebuilds the program and stops at the end marker |
| `Reading.ProgramReadsBack` | tools/src/parser/parse_statements.c:84-409 | every program, with any choice of commas and omitted blocks, is read back from its tokens |
| `Reading.ProgramWasWritten` | tools/src/parser/parse_statements.c:84-409 | conversely, every accepted token list with an end marker is such a rendering up to the end marker |
| `Reading.ReadsExactlyTheGrammar` | lang.bnf:1-34 | both directions: the tokens of a program, and only they, are read as that program |
| `Reading.WritingIsUnambiguous` | lang.bnf:1-34 | no two programs have the same tokens, so the relaxed grammar is unambiguous |
| `Reading.UnclosedBlockIsAccepted` | tools/src/parser/parse_statements.c:153-166 | take the last brace off any program: without an end marker the tokens are still read as that very program, with one they are refused |
| `Spelling.PrintingIsUndone` | tools/src/parser/parse_statements.c:84-409 | printing a program with any commas, omitted blocks and spacing, then lexing and parsing the text, gives back the very program |
| `Compiler.Compile` | tools/src/typecheck/typecheck.c:29-54 | an accepted source has names that are names and no cycle; it is ready for all emitters exactly when inlining has no cycle, which only a schema named like a primitive can cause; where no name is hidden or captured a readable source is accepted exactly when it is accepted, acyclic and its conditions fit |
| `Compiler.ReadProgramIsNamed` | tools/src/lexer/lexer.c:120-133 | every name in a program read from a source has the form that flags and section names need |
| `ArrayText.ParseArrayString` | tools/src/codegen/codegen.c:75-108 | both passes see the same tokens, the second never meets a missing one, and the result is one element for each token |
| `ArrayText.ParseArrayInt` | tools/src/codegen/codegen.c:110-132 | as many numbers as tokens, each converted from its own token, and no data for no tokens |
| `ArrayText.ListsReadBack` | tools/src/codegen/codegen.c:75-108 | a list of elements without commas or quotes, each quoted or spaced in any way, is read back element by element |
| `ArrayText.PlainListsReadBackIff` | tools/src/codegen/codegen.c:92-105 | the plain comma join of non-empty, comma-free elements is read back exactly when none has outer space or opens with a quote |
| `IniText.ReadLine` | tools/src/codegen/codegen.c:149-199 | the cursor loops of the line reader compute the effect of the line |
| `IniText.QuotedLineIsVerbatim` | tools/src/codegen/codegen.c:164-195 | within one line a quoted value without quotes inside arrives exactly as written, whatever `;`, `#`, `=` or outer space it holds, with any spacing and any comment behind |
| `IniText.QuotedLineIff` | tools/src/codegen/codegen.c:164-195 | a value between quotes arrives as written if and only if it has no quote inside |
| `IniText.BareLineIff` | tools/src/codegen/codegen.c:164-195 | an unquoted value arrives as written exactly when it has no outer space, no comment character outside quotes, and is not wrapped in its only two quotes |
| `IniText.HeaderReadsBack` | tools/src/codegen/codegen.c:152-162 | section and element headers give back their names |
| `IniFile.ParseIni` | tools/src/codegen/codegen.c:145-203 | the file is one text, cut at newlines and at 4095 characters as the line buffer does; the callbacks are those of its lines under their sections, and the status is success exactly when no line is malformed |
| `IniFile.LeafReadsBack` | tools/src/codegen/codegen.c:145-203 | a leaf written into a text as a header line and a quoted value gives exactly one callback, addressed to that leaf, with the value untouched, for values without quotes, newlines and NUL on lines that fit the buffer |
| `IniFile.AssignedTextsFitALine` | tools/src/codegen/codegen.c:145-203 | no file at all assigns a text with a newline or a NUL, or one that does not fit the line buffer: what the writing lemmas exclude cannot be saved |
| `IniFile.SavedFileReadsBack` | tools/src/codegen/codegen.c:145-203 | in the text written for any list of leaves and such values, the lines addressed to a leaf are exactly those written for it, in order, and no line is malformed |
| `IniFile.SavedValuesAreLoaded` | tools/src/codegen/codegen.c:349-369 | after loading such a file a leaf holds its default overridden by what was saved for it, before the environment and the command line have their say |
## Left out

- TypeChecker.Checker.TypecheckProgram: when an item carries the name of a schema that is used as a type, what it hides depends on the traversal, and a cycle may be reported as an unknown type instead; the equivalence for the absence of errors is stated for programs without such names and without captured conditions.
- ValidatorTheorems.ValidatorReportsFirst: asks that section and schema names are unique in the program, because the emitted functions are named after them, and that the code builds: a condition names a field of the same struct that can be compared with its literal, and no enum member, also where the bare name happens to be declared as another enumerator.
- PatternReadings.ValidatorDecides: asks that every pattern meets the condition of its compiler, and that texts are C strings; for other patterns the validator is sound, and may turn away texts of the language.
- Loading.SchemaDataConforms: an element that a flag has replaced by a pointer has no shape; what the validator reads there is not modelled, and the load counts as undefined from then on.
- IniPlaces.HandlerWritesLeaves: asks that no schema is named like a primitive, because a field of such a type is both a struct and a scalar to the emitters and does not build.
- Dispatch.DispatchersAgree: asks that the section text fits the 255 characters and 32 parts of the handler's buffers; shorter buffers for prefixes and flag paths are taken as long enough.
- Parser.Parser.ParseLiteral: a decimal is its exact value; rounding to a double, and to six places when it is emitted, is not modelled.
- Lexer.UnescapeString: the content of an empty literal has no intern record in the original and the content of a literal that is a lone quote has a negative length; the model gives the empty text for both.
- HashMap.HashMap.Rehash: buckets are sequences whose growth is what `DynArray` proves; doubling past the largest word is not modelled, and the table is proved for any hash function.
- Interner.DenseInterner.Intern: memory is granted, except that rehashing may be refused at any point.
- Arena.Arena.Alloc: asks that the fill mark plus the size does not wrap a word, which the original does not test.
- Loading.LoadAndValidate: a missing configuration pointer, the error record and the freeing of the memory of a refused configuration are not modelled.
- ArrayRuns.ElementsAfterLoad: asks that no argument is the flag of the array itself; what such a flag does is stated by `ArrayFlags.ArrayAfterLoad` and `Loading.ValidatorSeesTheElements`.
- Header lines that name a block with fields of its own compare a missing key in C; such a run is undefined, and the load function says so by giving no memory.
- An empty `short` property is taken as giving no short flag.
- The text cursor of `cfg_next_token` writes terminators into its buffer; the model returns the token and the rest of the text instead.
- The library conversions `strtoll`, `strtod` and `sscanf`, file existence and user hooks are uninterpreted; the conversion of an address may keep octets of the old value, so its result is a function of both.
- The order of characters is that of their codes; the signedness of bytes in class ranges is not modelled.
- Struct definitions, printing, error rendering, spans of syntax nodes and parse error messages: easy members only.
- Opening and reading a file, beyond its text, and the order of the C functions in the output.
