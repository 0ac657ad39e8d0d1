/** Recursive descent with two tokens of lookahead, as functions of the tokens still to come. */
module Reading {
  import opened Schema
  import opened Grammar

  datatype Read<+T> = Fail | Done(tree: T, rest: seq<Token>)

  function ReadMembers(ts: seq<Token>): (r: Read<seq<string>>)
    ensures r.Done? ==> r.tree != [] && |r.rest| < |ts|
    decreases |ts|
  {
    if |ts| < 2 || !ts[0].Ident? then Fail
    else if ts[1].RParen? then Done([ts[0].name], ts[2..])
    else if ts[1].Comma? then
      match ReadMembers(ts[2..])
      case Fail => Fail
      case Done(ms, rest) => Done([ts[0].name] + ms, rest)
    else Fail
  }

  function ReadAtom(ts: seq<Token>): (r: Read<AtomTree>)
    ensures r.Done? ==> AtomWritable(r.tree) && |r.rest| < |ts|
  {
    if ts != [] && ts[0].KwEnum? then
      if |ts| < 2 || !ts[1].LParen? then Fail
      else
        match ReadMembers(ts[2..])
        case Fail => Fail
        case Done(ms, rest) => Done(EnumTree(ms), rest)
    else if ts != [] && ts[0].Ident? then Done(NamedTree(ts[0].name), ts[1..])
    else Fail
  }

  /** An opening bracket after the atom commits to an array. */
  function ReadType(ts: seq<Token>): (r: Read<TypeTree>)
    ensures r.Done? ==> AtomWritable(r.tree.atom) && |r.rest| < |ts|
  {
    match ReadAtom(ts)
    case Fail => Fail
    case Done(a, rest) =>
      if rest == [] || !rest[0].LBracket? then Done(TypeTree(a, false), rest)
      else if |rest| > 1 && rest[1].RBracket? then Done(TypeTree(a, true), rest[2..])
      else Fail
  }

  function ReadValue(ts: seq<Token>): (r: Read<ValueTree>)
    ensures r.Done? ==> ValueWritable(r.tree) && |r.rest| < |ts|
  {
    if |ts| > 1 && NumberToken(ts[0]) && ts[1].DotDot? then
      if LiteralToken(ts[0]) && |ts| > 2 && LiteralToken(ts[2]) then Done(RangeTree(ts[0], ts[2]), ts[3..]) else Fail
    else if |ts| > 1 && ts[0].Ident? && ts[1].EqEq? then
      if |ts| > 2 && LiteralToken(ts[2]) then Done(ConditionTree(ts[0].name, ts[2]), ts[3..]) else Fail
    else if ts != [] && LiteralToken(ts[0]) then Done(PlainTree(ts[0]), ts[1..])
    else Fail
  }

  /** One property and the comma after it, if there is one. */
  function ReadProp(ts: seq<Token>): (r: Read<PropTree>)
    ensures r.Done? ==> ValueWritable(r.tree.value) && |r.rest| < |ts|
  {
    if |ts| < 2 || !ts[0].Ident? || !ts[1].Colon? then Fail
    else
      match ReadValue(ts[2..])
      case Fail => Fail
      case Done(v, rest) =>
        var comma := rest != [] && rest[0].Comma?;
        Done(PropTree(ts[0].name, v, comma), if comma then rest[1..] else rest)
  }

  /** Properties up to the closing brace, or to the end of all tokens. */
  function ReadProps(ts: seq<Token>): (r: Read<seq<PropTree>>)
    ensures r.Done? ==> PropsWritable(r.tree) && |r.rest| <= |ts|
    decreases |ts|
  {
    if ts == [] then Done([], [])
    else if ts[0].RBrace? then Done([], ts[1..])
    else
      match ReadProp(ts)
      case Fail => Fail
      case Done(p, rest) =>
        match ReadProps(rest)
        case Fail => Fail
        case Done(ps, after) => Done([p] + ps, after)
  }

  function ReadField(ts: seq<Token>): (r: Read<ItemTree>)
    ensures r.Done? ==> ItemWritable(r.tree) && |r.rest| < |ts|
  {
    if |ts| < 2 || !ts[0].Ident? || !ts[1].Colon? then Fail
    else
      match ReadType(ts[2..])
      case Fail => Fail
      case Done(t, rest) =>
        if rest == [] || !rest[0].LBrace? then Done(FieldTree(ts[0].name, t, None), rest)
        else
          match ReadProps(rest[1..])
          case Fail => Fail
          case Done(ps, after) => Done(FieldTree(ts[0].name, t, Some(ps)), after)
  }

  /** A keyword already seen, a name, and a block. */
  function ReadBlock(ts: seq<Token>): (r: Read<SchemaTree>)
    ensures r.Done? ==> ItemsWritable(r.tree.items) && |r.rest| < |ts|
    decreases |ts|, 0
  {
    if |ts| < 3 || !ts[1].Ident? || !ts[2].LBrace? then Fail
    else
      match ReadItems(ts[3..])
      case Fail => Fail
      case Done(items, rest) => Done(SchemaTree(ts[1].name, items), rest)
  }

  function ReadItem(ts: seq<Token>): (r: Read<ItemTree>)
    ensures r.Done? ==> ItemWritable(r.tree) && |r.rest| < |ts|
    decreases |ts|, 1
  {
    if ts != [] && ts[0].KwSection? then
      match ReadBlock(ts)
      case Fail => Fail
      case Done(s, rest) => Done(SectionTree(s.name, s.items), rest)
    else ReadField(ts)
  }

  function ReadItems(ts: seq<Token>): (r: Read<seq<ItemTree>>)
    ensures r.Done? ==> ItemsWritable(r.tree) && |r.rest| <= |ts|
    decreases |ts|, 2
  {
    if ts == [] then Done([], [])
    else if ts[0].RBrace? then Done([], ts[1..])
    else
      match ReadItem(ts)
      case Fail => Fail
      case Done(it, rest) =>
        match ReadItems(rest)
        case Fail => Fail
        case Done(items, after) => Done([it] + items, after)
  }

  function ReadImports(ts: seq<Token>): (r: Read<seq<string>>)
    ensures r.Done? ==> |r.rest| <= |ts|
    decreases |ts|
  {
    if ts == [] || !ts[0].KwImport? then Done([], ts)
    else if |ts| < 2 || !ts[1].StringTok? then Fail
    else
      match ReadImports(ts[2..])
      case Fail => Fail
      case Done(paths, rest) => Done([ts[1].text] + paths, rest)
  }

  function ReadSchemas(ts: seq<Token>): (r: Read<seq<SchemaTree>>)
    ensures r.Done? ==> SchemasWritable(r.tree) && |r.rest| <= |ts|
    decreases |ts|
  {
    if ts == [] || ts[0].Eof? then Done([], ts)
    else if !ts[0].KwSchema? then Fail
    else
      match ReadBlock(ts)
      case Fail => Fail
      case Done(s, rest) =>
        match ReadSchemas(rest)
        case Fail => Fail
        case Done(ss, after) => Done([s] + ss, after)
  }

  function ReadProgram(ts: seq<Token>): (r: Read<ProgramTree>)
    ensures r.Done? ==> SchemasWritable(r.tree.schemas)
  {
    match ReadImports(ts)
    case Fail => Fail
    case Done(paths, rest) =>
      match ReadSchemas(rest)
      case Fail => Fail
      case Done(ss, after) => Done(ProgramTree(paths, ss), after)
  }

  // ----- What is written is read back -----

  /** What must not follow an item: it would be taken for a part of it. */
  predicate EndsItem(rest: seq<Token>) {
    rest != [] ==> !rest[0].LBrace? && !rest[0].LBracket?
  }

  lemma Beyond(a: seq<Token>, b: seq<Token>)
    ensures (a + b)[|a|..] == b
  {
  }

  lemma Regroup(a: seq<Token>, b: seq<Token>, c: seq<Token>)
    ensures a + b + c == a + (b + c)
  {
  }

  lemma {:induction false} MembersReadBack(ms: seq<string>, rest: seq<Token>)
    requires ms != []
    ensures ReadMembers(MemberTokens(ms) + rest) == Done(ms, rest)
    decreases |ms|
  {
    if |ms| > 1 {
      MembersReadBack(ms[1..], rest);
      assert ms == [ms[0]] + ms[1..];
      Regroup([Ident(ms[0]), Comma], MemberTokens(ms[1..]), rest);
      Beyond([Ident(ms[0]), Comma], MemberTokens(ms[1..]) + rest);
    } else {
      assert ms == [ms[0]];
      Beyond([Ident(ms[0]), RParen], rest);
    }
  }

  lemma AtomReadsBack(a: AtomTree, rest: seq<Token>)
    requires AtomWritable(a)
    ensures ReadAtom(AtomTokens(a) + rest) == Done(a, rest)
  {
    match a
    case NamedTree(n) =>
      Beyond([Ident(n)], rest);
    case EnumTree(ms) =>
      MembersReadBack(ms, rest);
      Regroup([KwEnum, LParen], MemberTokens(ms), rest);
      Beyond([KwEnum, LParen], MemberTokens(ms) + rest);
  }

  lemma TypeReadsBack(t: TypeTree, rest: seq<Token>)
    requires AtomWritable(t.atom) && (rest != [] ==> !rest[0].LBracket?)
    ensures ReadType(TypeTokens(t) + rest) == Done(t, rest)
  {
    var brackets := if t.isArray then [LBracket, RBracket] else [];
    AtomReadsBack(t.atom, brackets + rest);
    Regroup(AtomTokens(t.atom), brackets, rest);
    Beyond(brackets, rest);
  }

  lemma ValueReadsBack(v: ValueTree, rest: seq<Token>)
    requires ValueWritable(v)
    requires rest != [] && !rest[0].DotDot? && !rest[0].EqEq?
    ensures ReadValue(ValueTokens(v) + rest) == Done(v, rest)
  {
    Beyond(ValueTokens(v), rest);
  }

  lemma PropReadsBack(p: PropTree, rest: seq<Token>)
    requires ValueWritable(p.value)
    requires rest != [] && (rest[0].RBrace? || rest[0].Ident?)
    ensures ReadProp(PropTokens(p) + rest) == Done(p, rest)
  {
    var head, comma := [Ident(p.name), Colon], if p.comma then [Comma] else [];
    Regroup(head + ValueTokens(p.value), comma, rest);
    Regroup(head, ValueTokens(p.value), comma + rest);
    Beyond(head, ValueTokens(p.value) + (comma + rest));
    ValueReadsBack(p.value, comma + rest);
    Beyond(comma, rest);
  }

  /** The first token of a property block's inside. */
  lemma PropsBegin(ps: seq<PropTree>)
    ensures PropsTokens(ps) != [] && (PropsTokens(ps)[0].RBrace? || PropsTokens(ps)[0].Ident?)
  {
    if ps != [] {
      assert PropTokens(ps[0])[0] == Ident(ps[0].name);
    }
  }

  lemma OnePropRead(p: PropTree, tail: seq<Token>)
    requires ValueWritable(p.value) && tail != [] && (tail[0].RBrace? || tail[0].Ident?)
    ensures ReadProps(PropTokens(p) + tail)
         == match ReadProps(tail) case Fail => Fail case Done(ps, after) => Done([p] + ps, after)
  {
    PropReadsBack(p, tail);
    assert (PropTokens(p) + tail)[0] == Ident(p.name);
  }

  lemma {:induction false} PropsReadBack(ps: seq<PropTree>, rest: seq<Token>)
    requires PropsWritable(ps)
    ensures ReadProps(PropsTokens(ps) + rest) == Done(ps, rest)
    decreases |ps|
  {
    if ps == [] {
      Beyond([RBrace], rest);
    } else {
      var tail := PropsTokens(ps[1..]) + rest;
      PropsReadBack(ps[1..], rest);
      PropsBegin(ps[1..]);
      OnePropRead(ps[0], tail);
      Regroup(PropTokens(ps[0]), PropsTokens(ps[1..]), rest);
      assert ps == [ps[0]] + ps[1..];
    }
  }

  function BlockTokens(b: Option<seq<PropTree>>): seq<Token> {
    if b.Some? then [LBrace] + PropsTokens(b.value) else []
  }

  lemma HeadReadsBack(name: string, t: TypeTree, tail: seq<Token>)
    requires AtomWritable(t.atom) && (tail != [] ==> !tail[0].LBracket?)
    ensures (var ts := [Ident(name), Colon] + TypeTokens(t) + tail;
             |ts| > 2 && ts[0] == Ident(name) && ts[1].Colon? && ReadType(ts[2..]) == Done(t, tail))
  {
    var head := [Ident(name), Colon];
    Regroup(head, TypeTokens(t), tail);
    Beyond(head, TypeTokens(t) + tail);
    TypeReadsBack(t, tail);
    assert ReadType(TypeTokens(t) + tail) == Done(t, tail);
  }

  lemma FieldReadsBack(f: ItemTree, rest: seq<Token>)
    requires f.FieldTree? && ItemWritable(f) && EndsItem(rest)
    ensures ReadField(ItemTokens(f) + rest) == Done(f, rest)
  {
    var head, tail := [Ident(f.name), Colon], BlockTokens(f.block) + rest;
    assert ItemTokens(f) == head + TypeTokens(f.typ) + BlockTokens(f.block);
    Regroup(head + TypeTokens(f.typ), BlockTokens(f.block), rest);
    HeadReadsBack(f.name, f.typ, tail);
    if f.block.Some? {
      PropsReadBack(f.block.value, rest);
      Regroup([LBrace], PropsTokens(f.block.value), rest);
      Beyond([LBrace], PropsTokens(f.block.value) + rest);
    } else {
      assert tail == rest;
    }
  }

  lemma {:induction false} BlockReadsBack(keyword: Token, name: string, items: seq<ItemTree>, rest: seq<Token>)
    requires ItemsWritable(items)
    ensures ReadBlock([keyword, Ident(name), LBrace] + ItemsTokens(items) + rest) == Done(SchemaTree(name, items), rest)
    decreases items, 2
  {
    var head := [keyword, Ident(name), LBrace];
    ItemsReadBack(items, rest);
    Regroup(head, ItemsTokens(items), rest);
    Beyond(head, ItemsTokens(items) + rest);
  }

  lemma {:induction false} ItemReadsBack(it: ItemTree, rest: seq<Token>)
    requires ItemWritable(it) && EndsItem(rest)
    ensures ReadItem(ItemTokens(it) + rest) == Done(it, rest)
    decreases it, 0
  {
    match it
    case FieldTree(n, _, _) =>
      FieldReadsBack(it, rest);
      assert (ItemTokens(it) + rest)[0] == Ident(n);
    case SectionTree(n, items) =>
      BlockReadsBack(KwSection, n, items, rest);
      assert (ItemTokens(it) + rest)[0].KwSection?;
  }

  lemma {:induction false} ItemsReadBack(items: seq<ItemTree>, rest: seq<Token>)
    requires ItemsWritable(items)
    ensures ReadItems(ItemsTokens(items) + rest) == Done(items, rest)
    decreases items, 1
  {
    if items == [] {
      Beyond([RBrace], rest);
    } else {
      var tail := ItemsTokens(items[1..]) + rest;
      ItemsReadBack(items[1..], rest);
      ItemsBegin(items[1..]);
      ItemsBegin(items);
      ItemReadsBack(items[0], tail);
      Regroup(ItemTokens(items[0]), ItemsTokens(items[1..]), rest);
      assert items == [items[0]] + items[1..];
    }
  }

  /** The first token of a block's inside. */
  lemma ItemsBegin(items: seq<ItemTree>)
    ensures ItemsTokens(items) != []
    ensures ItemsTokens(items)[0].RBrace? <==> items == []
    ensures items != [] ==> ItemsTokens(items)[0].KwSection? || ItemsTokens(items)[0].Ident?
  {
    if items != [] {
      var it := items[0];
      assert ItemTokens(it) != [] && (ItemTokens(it)[0].KwSection? || ItemTokens(it)[0].Ident?);
      assert ItemsTokens(items)[0] == ItemTokens(it)[0];
    }
  }

  lemma {:induction false} SchemasReadBack(ss: seq<SchemaTree>, rest: seq<Token>)
    requires SchemasWritable(ss) && rest != [] && rest[0].Eof?
    ensures ReadSchemas(SchemasTokens(ss) + rest) == Done(ss, rest)
    decreases |ss|
  {
    if ss == [] {
      assert SchemasTokens(ss) + rest == rest;
    } else {
      SchemasReadBack(ss[1..], rest);
      BlockReadsBack(KwSchema, ss[0].name, ss[0].items, SchemasTokens(ss[1..]) + rest);
      Regroup([KwSchema, Ident(ss[0].name), LBrace] + ItemsTokens(ss[0].items), SchemasTokens(ss[1..]), rest);
      assert ss == [ss[0]] + ss[1..];
    }
  }

  lemma {:induction false} ImportsReadBack(paths: seq<string>, rest: seq<Token>)
    requires rest != [] && !rest[0].KwImport?
    ensures ReadImports(ImportsTokens(paths) + rest) == Done(paths, rest)
    decreases |paths|
  {
    if paths == [] {
      assert ImportsTokens(paths) + rest == rest;
    } else {
      var head := [KwImport, StringTok(paths[0])];
      ImportsReadBack(paths[1..], rest);
      assert paths == [paths[0]] + paths[1..];
      Regroup(head, ImportsTokens(paths[1..]), rest);
      Beyond(head, ImportsTokens(paths[1..]) + rest);
    }
  }

  /** However commas and empty blocks were chosen, the program is read back as it was written, and
      reading stops at the end marker. */
  lemma ProgramReadsBack(p: ProgramTree, rest: seq<Token>)
    requires SchemasWritable(p.schemas) && rest != [] && rest[0].Eof?
    ensures ReadProgram(ProgramTokens(p) + rest) == Done(p, rest)
  {
    var tail := SchemasTokens(p.schemas) + rest;
    assert ProgramTokens(p) + rest == ImportsTokens(p.imports) + tail;
    ImportsReadBack(p.imports, tail);
    SchemasReadBack(p.schemas, rest);
  }

  // ----- What is read was written -----

  lemma {:induction false} MembersWereWritten(ts: seq<Token>)
    requires ReadMembers(ts).Done?
    ensures ts == MemberTokens(ReadMembers(ts).tree) + ReadMembers(ts).rest
    decreases |ts|
  {
    if ts[1].Comma? {
      var r := ReadMembers(ts[2..]);
      MembersWereWritten(ts[2..]);
      Regroup([ts[0], Comma], MemberTokens(r.tree), r.rest);
      assert ([ts[0].name] + r.tree)[1..] == r.tree;
    }
  }

  lemma AtomWasWritten(ts: seq<Token>)
    requires ReadAtom(ts).Done?
    ensures ts == AtomTokens(ReadAtom(ts).tree) + ReadAtom(ts).rest
  {
    var r := ReadAtom(ts);
    if ts[0].KwEnum? {
      MembersWereWritten(ts[2..]);
      Regroup([KwEnum, LParen], MemberTokens(r.tree.members), r.rest);
    }
  }

  lemma TypeWasWritten(ts: seq<Token>)
    requires ReadType(ts).Done?
    ensures ts == TypeTokens(ReadType(ts).tree) + ReadType(ts).rest
  {
    var a, t := ReadAtom(ts), ReadType(ts);
    var brackets := if t.tree.isArray then [LBracket, RBracket] else [];
    AtomWasWritten(ts);
    assert a.rest == brackets + t.rest;
    Regroup(AtomTokens(a.tree), brackets, t.rest);
  }

  lemma ValueWasWritten(ts: seq<Token>)
    requires ReadValue(ts).Done?
    ensures ts == ValueTokens(ReadValue(ts).tree) + ReadValue(ts).rest
  {
  }

  lemma CommaWasWritten(rest: seq<Token>)
    ensures rest != [] && rest[0].Comma? ==> rest == [Comma] + rest[1..]
    ensures [] + rest == rest
  {
  }

  lemma PropWasWritten(ts: seq<Token>)
    requires ReadProp(ts).Done?
    ensures ts == PropTokens(ReadProp(ts).tree) + ReadProp(ts).rest
  {
    var v, p := ReadValue(ts[2..]), ReadProp(ts);
    var head, comma := [Ident(p.tree.name), Colon], if p.tree.comma then [Comma] else [];
    ValueWasWritten(ts[2..]);
    assert ts == head + ts[2..];
    CommaWasWritten(v.rest);
    assert v.rest == comma + p.rest;
    Regroup(head, ValueTokens(v.tree), v.rest);
    Regroup(head + ValueTokens(v.tree), comma, p.rest);
  }

  /** No production takes the end marker, so a block can only end at its brace. */
  lemma {:induction false} PropsWereWritten(ts: seq<Token>)
    requires ReadProps(ts).Done? && Eof in ts
    ensures ts == PropsTokens(ReadProps(ts).tree) + ReadProps(ts).rest && Eof in ReadProps(ts).rest
    decreases |ts|
  {
    if !ts[0].RBrace? {
      var p := ReadProp(ts);
      PropWasWritten(ts);
      PropHasNoEof(p.tree);
      PropsWereWritten(p.rest);
      Regroup(PropTokens(p.tree), PropsTokens(ReadProps(p.rest).tree), ReadProps(p.rest).rest);
      assert ReadProps(ts).tree[1..] == ReadProps(p.rest).tree;
    }
  }

  lemma PropHasNoEof(p: PropTree)
    requires ValueWritable(p.value)
    ensures Eof !in PropTokens(p)
  {
  }

  lemma {:induction false} MembersHaveNoEof(ms: seq<string>)
    ensures Eof !in MemberTokens(ms)
    decreases |ms|
  {
    if |ms| > 1 {
      MembersHaveNoEof(ms[1..]);
    }
  }

  lemma TypeHasNoEof(t: TypeTree)
    ensures Eof !in TypeTokens(t)
  {
    if t.atom.EnumTree? {
      MembersHaveNoEof(t.atom.members);
    }
  }

  lemma TypeKeepsEof(ts: seq<Token>)
    requires ReadType(ts).Done? && Eof in ts
    ensures Eof in ReadType(ts).rest
  {
    TypeWasWritten(ts);
    TypeHasNoEof(ReadType(ts).tree);
  }

  lemma BracedWasWritten(rest: seq<Token>)
    requires rest != [] && rest[0].LBrace? && Eof in rest && ReadProps(rest[1..]).Done?
    ensures rest == BlockTokens(Some(ReadProps(rest[1..]).tree)) + ReadProps(rest[1..]).rest
    ensures Eof in ReadProps(rest[1..]).rest
  {
    var r := ReadProps(rest[1..]);
    assert rest == [LBrace] + rest[1..];
    PropsWereWritten(rest[1..]);
    Regroup([LBrace], PropsTokens(r.tree), r.rest);
  }

  lemma FieldBlockWasWritten(ts: seq<Token>)
    requires ReadField(ts).Done? && Eof in ts
    ensures ReadType(ts[2..]).rest == BlockTokens(ReadField(ts).tree.block) + ReadField(ts).rest
    ensures Eof in ReadField(ts).rest
  {
    assert ts == ts[..2] + ts[2..];
    TypeKeepsEof(ts[2..]);
    var rest := ReadType(ts[2..]).rest;
    if rest[0].LBrace? {
      BracedWasWritten(rest);
    } else {
      assert BlockTokens(None) + rest == rest;
    }
  }

  lemma FieldWasWritten(ts: seq<Token>)
    requires ReadField(ts).Done? && Eof in ts
    ensures ts == ItemTokens(ReadField(ts).tree) + ReadField(ts).rest && Eof in ReadField(ts).rest
  {
    var t, f := ReadType(ts[2..]), ReadField(ts);
    var head := [Ident(f.tree.name), Colon];
    assert ts == head + ts[2..];
    TypeWasWritten(ts[2..]);
    FieldBlockWasWritten(ts);
    Regroup(head, TypeTokens(t.tree), t.rest);
    Regroup(head + TypeTokens(t.tree), BlockTokens(f.tree.block), f.rest);
  }

  lemma {:induction false} BlockWasWritten(ts: seq<Token>)
    requires ReadBlock(ts).Done? && Eof in ts[3..]
    ensures (var s := ReadBlock(ts).tree;
             ts == [ts[0], Ident(s.name), LBrace] + ItemsTokens(s.items) + ReadBlock(ts).rest)
    ensures Eof in ReadBlock(ts).rest
    decreases |ts|, 0
  {
    var r := ReadBlock(ts);
    ItemsWereWritten(ts[3..]);
    assert ts == [ts[0], Ident(r.tree.name), LBrace] + ts[3..];
    Regroup([ts[0], Ident(r.tree.name), LBrace], ItemsTokens(r.tree.items), r.rest);
  }

  lemma {:induction false} ItemWasWritten(ts: seq<Token>)
    requires ReadItem(ts).Done? && Eof in ts
    ensures ts == ItemTokens(ReadItem(ts).tree) + ReadItem(ts).rest && Eof in ReadItem(ts).rest
    decreases |ts|, 1
  {
    if ts[0].KwSection? {
      BlockWasWritten(ts);
    } else {
      FieldWasWritten(ts);
    }
  }

  lemma {:induction false} ItemsWereWritten(ts: seq<Token>)
    requires ReadItems(ts).Done? && Eof in ts
    ensures ts == ItemsTokens(ReadItems(ts).tree) + ReadItems(ts).rest && Eof in ReadItems(ts).rest
    decreases |ts|, 2
  {
    if !ts[0].RBrace? {
      var it := ReadItem(ts);
      ItemWasWritten(ts);
      ItemsWereWritten(it.rest);
      Regroup(ItemTokens(it.tree), ItemsTokens(ReadItems(it.rest).tree), ReadItems(it.rest).rest);
      assert ReadItems(ts).tree[1..] == ReadItems(it.rest).tree;
    }
  }

  lemma {:induction false} SchemasWereWritten(ts: seq<Token>)
    requires ReadSchemas(ts).Done? && Eof in ts
    ensures ts == SchemasTokens(ReadSchemas(ts).tree) + ReadSchemas(ts).rest
    ensures ReadSchemas(ts).rest != [] && ReadSchemas(ts).rest[0].Eof?
    decreases |ts|
  {
    if !ts[0].Eof? {
      var s := ReadBlock(ts);
      EofBehindHead(ts);
      BlockWasWritten(ts);
      SchemasWereWritten(s.rest);
      var after := ReadSchemas(s.rest);
      Regroup([KwSchema, Ident(s.tree.name), LBrace] + ItemsTokens(s.tree.items), SchemasTokens(after.tree), after.rest);
      assert ReadSchemas(ts).tree[1..] == after.tree;
    }
  }

  lemma EofBehindHead(ts: seq<Token>)
    requires |ts| >= 3 && Eof in ts && Eof !in ts[..3]
    ensures Eof in ts[3..]
  {
    assert ts == ts[..3] + ts[3..];
  }

  lemma ImportIsWritten(ts: seq<Token>, paths: seq<string>, rest: seq<Token>)
    requires |ts| >= 2 && ts[0].KwImport? && ts[1].StringTok? && ts[2..] == ImportsTokens(paths) + rest
    ensures ts == ImportsTokens([ts[1].text] + paths) + rest
  {
    assert ([ts[1].text] + paths)[1..] == paths;
    Regroup(ts[..2], ImportsTokens(paths), rest);
    assert ts == ts[..2] + ts[2..] && ts[..2] == [KwImport, StringTok(ts[1].text)];
  }

  lemma {:induction false} ImportsWereWritten(ts: seq<Token>)
    requires ReadImports(ts).Done? && Eof in ts
    ensures ts == ImportsTokens(ReadImports(ts).tree) + ReadImports(ts).rest && Eof in ReadImports(ts).rest
    decreases |ts|
  {
    if ts[0].KwImport? {
      var r := ReadImports(ts[2..]);
      assert ts == ts[..2] + ts[2..];
      ImportsWereWritten(ts[2..]);
      ImportIsWritten(ts, r.tree, r.rest);
      assert ReadImports(ts) == Done([ts[1].text] + r.tree, r.rest);
    }
  }

  /** The converse: whatever is accepted is some program written out, up to the end marker. */
  lemma ProgramWasWritten(ts: seq<Token>)
    requires ReadProgram(ts).Done? && Eof in ts
    ensures ts == ProgramTokens(ReadProgram(ts).tree) + ReadProgram(ts).rest
    ensures ReadProgram(ts).rest != [] && ReadProgram(ts).rest[0].Eof?
  {
    var r := ReadImports(ts);
    ImportsWereWritten(ts);
    SchemasWereWritten(r.rest);
    Regroup(ImportsTokens(r.tree), SchemasTokens(ReadSchemas(r.rest).tree), ReadSchemas(r.rest).rest);
  }

  /** Both directions at once: of all programs, exactly those written as these tokens are read. */
  lemma ReadsExactlyTheGrammar(ts: seq<Token>, p: ProgramTree)
    requires SchemasWritable(p.schemas) && Eof !in ts
    ensures ReadProgram(ts + [Eof]) == Done(p, [Eof]) <==> ts == ProgramTokens(p)
  {
    if ts == ProgramTokens(p) {
      ProgramReadsBack(p, [Eof]);
    }
    if ReadProgram(ts + [Eof]) == Done(p, [Eof]) {
      ProgramWasWritten(ts + [Eof]);
      assert (ts + [Eof])[..|ts|] == ts && (ProgramTokens(p) + [Eof])[..|ProgramTokens(p)|] == ProgramTokens(p);
    }
  }

  /** No two programs are written alike, so the optional commas never make the language ambiguous. */
  lemma WritingIsUnambiguous(p: ProgramTree, q: ProgramTree)
    requires SchemasWritable(p.schemas) && SchemasWritable(q.schemas)
    ensures ProgramTokens(p) == ProgramTokens(q) ==> p == q
  {
    ProgramReadsBack(p, [Eof]);
    ProgramReadsBack(q, [Eof]);
  }

  // ----- A block left open -----

  /** The items of a block without the brace that closes it. */
  function OpenItems(items: seq<ItemTree>): seq<Token> {
    if items == [] then [] else ItemTokens(items[0]) + OpenItems(items[1..])
  }

  lemma {:induction false} OpenItemsAreUnclosed(items: seq<ItemTree>)
    ensures ItemsTokens(items) == OpenItems(items) + [RBrace]
    decreases |items|
  {
    if items != [] {
      OpenItemsAreUnclosed(items[1..]);
    }
  }

  /** What follows an item of such a block does not belong to it. */
  lemma OpenItemsEnd(items: seq<ItemTree>, rest: seq<Token>)
    requires rest == [] || rest == [Eof]
    ensures EndsItem(OpenItems(items) + rest)
  {
    if items != [] {
      assert ItemTokens(items[0]) != [] && OpenItems(items)[0] == ItemTokens(items[0])[0];
    } else {
      assert OpenItems(items) + rest == rest;
    }
  }

  lemma {:induction false} OpenItemsRead(items: seq<ItemTree>, rest: seq<Token>)
    requires ItemsWritable(items) && (rest == [] || rest == [Eof])
    ensures ReadItems(OpenItems(items) + rest) == if rest == [] then Done(items, []) else Fail
    decreases |items|
  {
    if items == [] {
      assert OpenItems(items) + rest == rest && (rest != [] ==> ReadItem(rest).Fail?);
    } else {
      OpenItemsRead(items[1..], rest);
      OpenItemsEnd(items[1..], rest);
      Regroup(ItemTokens(items[0]), OpenItems(items[1..]), rest);
      OneItemRead(items[0], OpenItems(items[1..]) + rest);
      assert items == [items[0]] + items[1..];
    }
  }

  lemma OneItemRead(it: ItemTree, tail: seq<Token>)
    requires ItemWritable(it) && EndsItem(tail)
    ensures ReadItems(ItemTokens(it) + tail)
         == match ReadItems(tail) case Fail => Fail case Done(items, after) => Done([it] + items, after)
  {
    var ts := ItemTokens(it) + tail;
    assert ts[0] == ItemTokens(it)[0] && !ts[0].RBrace?;
    ItemReadsBack(it, tail);
  }

  /** Schemas of which the last is left open. */
  function OpenSchemas(ss: seq<SchemaTree>): seq<Token>
    requires ss != []
  {
    var head := [KwSchema, Ident(ss[0].name), LBrace];
    if |ss| == 1 then head + OpenItems(ss[0].items)
    else head + ItemsTokens(ss[0].items) + OpenSchemas(ss[1..])
  }

  lemma {:induction false} OpenSchemasAreUnclosed(ss: seq<SchemaTree>)
    requires ss != []
    ensures SchemasTokens(ss) == OpenSchemas(ss) + [RBrace]
    decreases |ss|
  {
    var head := [KwSchema, Ident(ss[0].name), LBrace];
    if |ss| == 1 {
      OpenItemsAreUnclosed(ss[0].items);
      Regroup(head, OpenItems(ss[0].items), [RBrace]);
      assert SchemasTokens(ss[1..]) == [];
    } else {
      OpenSchemasAreUnclosed(ss[1..]);
      Regroup(head + ItemsTokens(ss[0].items), OpenSchemas(ss[1..]), [RBrace]);
    }
  }

  lemma {:induction false} OpenSchemasRead(ss: seq<SchemaTree>, rest: seq<Token>)
    requires ss != [] && SchemasWritable(ss) && (rest == [] || rest == [Eof])
    ensures ReadSchemas(OpenSchemas(ss) + rest) == if rest == [] then Done(ss, []) else Fail
    decreases |ss|
  {
    var head := [KwSchema, Ident(ss[0].name), LBrace];
    if |ss| == 1 {
      OpenItemsRead(ss[0].items, rest);
      Regroup(head, OpenItems(ss[0].items), rest);
      Beyond(head, OpenItems(ss[0].items) + rest);
      assert ss == [ss[0]] + ReadSchemas([]).tree;
    } else {
      OpenSchemasRead(ss[1..], rest);
      BlockReadsBack(KwSchema, ss[0].name, ss[0].items, OpenSchemas(ss[1..]) + rest);
      Regroup(head + ItemsTokens(ss[0].items), OpenSchemas(ss[1..]), rest);
      assert ss == [ss[0]] + ss[1..];
    }
  }

  /** Take the last brace off any program: without an end marker the tokens are still read as that very
      program, and with one they are refused. The end marker alone makes the parser ask for the brace. */
  lemma UnclosedBlockIsAccepted(p: ProgramTree)
    requires SchemasWritable(p.schemas) && p.schemas != []
    ensures var ts := ProgramTokens(p);
            && ts != [] && ts[|ts| - 1].RBrace?
            && ReadProgram(ts[..|ts| - 1]) == Done(p, [])
            && ReadProgram(ts[..|ts| - 1] + [Eof]).Fail?
  {
    var imports, open := ImportsTokens(p.imports), OpenSchemas(p.schemas);
    OpenSchemasAreUnclosed(p.schemas);
    Regroup(imports, open, [RBrace]);
    var ts := ProgramTokens(p);
    assert ts == imports + open + [RBrace] && ts[..|ts| - 1] == imports + open;
    assert open[0].KwSchema?;
    ImportsReadBack(p.imports, open);
    ImportsReadBack(p.imports, open + [Eof]);
    OpenSchemasRead(p.schemas, []);
    OpenSchemasRead(p.schemas, [Eof]);
    assert open + [] == open;
    Regroup(imports, open, [Eof]);
  }
}
