/** The parser itself: a cursor over the token array, moved by recursive-descent procedures. Each of
    them is the reader of the same construct, and gives the syntax tree the read tree stands for. */
module Parser {
  import opened Schema
  import opened Numbers
  import opened Grammar
  import opened Reading

  // ----- The syntax tree a reader gives -----

  function PropOf(p: PropTree): Property
    requires ValueWritable(p.value)
  {
    Property(p.name, ValueOf(p.value))
  }

  function BlockOf(s: SchemaTree): SchemaDecl
    requires ItemsWritable(s.items)
  {
    SchemaDecl(s.name, ItemsOf(s.items))
  }

  function AsLiteral(ts: seq<Token>): Read<Literal> {
    if ts != [] && LiteralToken(ts[0]) then Done(LiteralOf(ts[0]), ts[1..]) else Fail
  }

  function AsValue(ts: seq<Token>): Read<Value> {
    match ReadValue(ts) case Fail => Fail case Done(t, rest) => Done(ValueOf(t), rest)
  }

  function AsProp(ts: seq<Token>): Read<Property> {
    match ReadProp(ts) case Fail => Fail case Done(t, rest) => Done(PropOf(t), rest)
  }

  /** A property, when the comma behind it is still to be read. */
  function PropWithoutComma(ts: seq<Token>): Read<Property> {
    if |ts| < 2 || !ts[0].Ident? || !ts[1].Colon? then Fail
    else match AsValue(ts[2..]) case Fail => Fail case Done(v, rest) => Done(Property(ts[0].name, v), rest)
  }

  function AsProps(ts: seq<Token>): Read<seq<Property>> {
    match ReadProps(ts) case Fail => Fail case Done(t, rest) => Done(PropsOf(t), rest)
  }

  function AsAtom(ts: seq<Token>): Read<TypeExpr> {
    match ReadAtom(ts) case Fail => Fail case Done(t, rest) => Done(TypeOfTree(TypeTree(t, false)), rest)
  }

  function AsType(ts: seq<Token>): Read<TypeExpr> {
    match ReadType(ts) case Fail => Fail case Done(t, rest) => Done(TypeOfTree(t), rest)
  }

  function AsField(ts: seq<Token>): Read<Item> {
    match ReadField(ts) case Fail => Fail case Done(t, rest) => Done(ItemOf(t), rest)
  }

  function AsItem(ts: seq<Token>): Read<Item> {
    match ReadItem(ts) case Fail => Fail case Done(t, rest) => Done(ItemOf(t), rest)
  }

  function AsItems(ts: seq<Token>): Read<seq<Item>> {
    match ReadItems(ts) case Fail => Fail case Done(t, rest) => Done(ItemsOf(t), rest)
  }

  function AsBlock(ts: seq<Token>): Read<SchemaDecl> {
    match ReadBlock(ts) case Fail => Fail case Done(t, rest) => Done(BlockOf(t), rest)
  }

  function AsSchemas(ts: seq<Token>): Read<Program> {
    match ReadSchemas(ts) case Fail => Fail case Done(t, rest) => Done(SchemasOf(t), rest)
  }

  function AsProgram(ts: seq<Token>): Read<Parsed> {
    match ReadProgram(ts) case Fail => Fail case Done(t, rest) => Done(Parsed(t.imports, SchemasOf(t.schemas)), rest)
  }

  datatype Parsed = Parsed(imports: seq<string>, program: Program)

  /** A procedure's result and the tokens it left agree with the reader. */
  predicate Outcome<T(==)>(r: Option<T>, rest: seq<Token>, read: Read<T>) {
    match read
    case Fail => r.None?
    case Done(t, after) => r == Some(t) && rest == after
  }

  // ----- Loops that collect what they read -----

  function Extend<T>(acc: seq<T>, r: Read<seq<T>>): Read<seq<T>> {
    match r
    case Fail => Fail
    case Done(more, rest) => Done(acc + more, rest)
  }

  lemma ExtendNone<T>(acc: seq<T>, r: Read<seq<T>>)
    ensures Extend([], r) == r
    ensures r.Done? && r.tree == [] ==> Extend(acc, r) == Done(acc, r.rest)
  {
    if r.Done? {
      assert [] + r.tree == r.tree && acc + [] == acc;
    }
  }

  lemma ExtendTwice<T>(acc: seq<T>, x: T, r: Read<seq<T>>)
    ensures Extend(acc, Extend([x], r)) == Extend(acc + [x], r)
  {
    if r.Done? {
      assert acc + ([x] + r.tree) == acc + [x] + r.tree;
    }
  }

  lemma MembersTurn(acc: seq<string>, ts: seq<Token>)
    requires |ts| > 1 && ts[0].Ident? && ts[1].Comma?
    ensures Extend(acc, ReadMembers(ts)) == Extend(acc + [ts[0].name], ReadMembers(ts[2..]))
  {
    ExtendTwice(acc, ts[0].name, ReadMembers(ts[2..]));
  }

  lemma ImportsTurn(acc: seq<string>, ts: seq<Token>)
    requires |ts| > 1 && ts[0].KwImport? && ts[1].StringTok?
    ensures Extend(acc, ReadImports(ts)) == Extend(acc + [ts[1].text], ReadImports(ts[2..]))
  {
    ExtendTwice(acc, ts[1].text, ReadImports(ts[2..]));
  }

  lemma PropsTurn(acc: seq<Property>, ts: seq<Token>)
    requires ts != [] && !ts[0].RBrace?
    ensures Extend(acc, AsProps(ts)) ==
            match AsProp(ts) case Fail => Fail case Done(p, rest) => Extend(acc + [p], AsProps(rest))
  {
    match ReadProp(ts)
    case Fail =>
    case Done(p, rest) =>
      assert ReadProps(rest).Done? ==> ([p] + ReadProps(rest).tree)[1..] == ReadProps(rest).tree;
      assert AsProps(ts) == Extend([PropOf(p)], AsProps(rest));
      ExtendTwice(acc, PropOf(p), AsProps(rest));
  }

  lemma PropsEnd(acc: seq<Property>, ts: seq<Token>)
    requires ts == [] || ts[0].RBrace?
    ensures Extend(acc, AsProps(ts)) == Done(acc, if ts == [] then ts else ts[1..])
  {
    ExtendNone(acc, AsProps(ts));
  }

  lemma ItemsTurn(acc: seq<Item>, ts: seq<Token>)
    requires ts != [] && !ts[0].RBrace?
    ensures Extend(acc, AsItems(ts)) ==
            match AsItem(ts) case Fail => Fail case Done(it, rest) => Extend(acc + [it], AsItems(rest))
  {
    match ReadItem(ts)
    case Fail =>
    case Done(it, rest) =>
      assert ReadItems(rest).Done? ==> ([it] + ReadItems(rest).tree)[1..] == ReadItems(rest).tree;
      assert AsItems(ts) == Extend([ItemOf(it)], AsItems(rest));
      ExtendTwice(acc, ItemOf(it), AsItems(rest));
  }

  lemma SchemasTurn(acc: Program, ts: seq<Token>)
    requires ts != [] && ts[0].KwSchema?
    ensures Extend(acc, AsSchemas(ts)) ==
            match AsBlock(ts) case Fail => Fail case Done(s, rest) => Extend(acc + [s], AsSchemas(rest))
  {
    match ReadBlock(ts)
    case Fail =>
    case Done(s, rest) =>
      assert ReadSchemas(rest).Done? ==> ([s] + ReadSchemas(rest).tree)[1..] == ReadSchemas(rest).tree;
      assert AsSchemas(ts) == Extend([BlockOf(s)], AsSchemas(rest));
      ExtendTwice(acc, BlockOf(s), AsSchemas(rest));
  }

  // ----- The cursor -----

  class Parser {
    const tokens: seq<Token>
    var current: nat

    ghost predicate Valid()
      reads this
    {
      current <= |tokens|
    }

    function Rest(): seq<Token>
      requires current <= |tokens|
      reads this
    {
      tokens[current..]
    }

    constructor (tokens: seq<Token>)
      ensures Valid() && this.tokens == tokens && Rest() == tokens
    {
      this.tokens := tokens;
      current := 0;
    }

    /** `peek`, with `current_token` at offset zero. */
    method Peek(offset: nat) returns (t: Option<Token>)
      requires Valid()
      ensures t == if offset < |Rest()| then Some(Rest()[offset]) else None
    {
      return if current + offset >= |tokens| then None else Some(tokens[current + offset]);
    }

    /** `parser_match`. `consume` is the same with the token as its result. */
    method Match(expected: Token) returns (hit: bool)
      requires Valid()
      modifies this`current
      ensures Valid() && hit == (old(Rest()) != [] && old(Rest())[0] == expected)
      ensures current == old(current) + if hit then 1 else 0
    {
      hit := current < |tokens| && tokens[current] == expected;
      if hit {
        current := current + 1;
      }
    }

    method ConsumeName() returns (name: Option<string>)
      requires Valid()
      modifies this`current
      ensures Valid() && (name.Some? <==> old(Rest()) != [] && old(Rest())[0].Ident?)
      ensures name.Some? ==> name.value == old(Rest())[0].name
      ensures current == old(current) + if name.Some? then 1 else 0
    {
      if current < |tokens| && tokens[current].Ident? {
        name := Some(tokens[current].name);
        current := current + 1;
      } else {
        name := None;
      }
    }

    method ParseLiteral() returns (r: Option<Literal>)
      requires Valid()
      modifies this`current
      ensures Valid() && Outcome(r, Rest(), AsLiteral(old(Rest())))
      ensures r.None? ==> current == old(current)
    {
      if current >= |tokens| {
        return None;
      }
      match tokens[current] {
        case IntTok(s) =>
          var v := ParseIntLit(s);
          if v.None? {
            return None;
          }
          r := Some(IntLit(v.value));
        case FloatTok(s) =>
          var v := FloatValue(s);
          if v.None? {
            return None;
          }
          r := Some(FloatLit(v.value));
        case StringTok(s) => r := Some(StringLit(s));
        case KwTrue => r := Some(BoolLit(true));
        case KwFalse => r := Some(BoolLit(false));
        case Ident(n) => r := Some(NameLit(n));
        case _ => return None;
      }
      current := current + 1;
    }

    /** A number is the start of a range when `..` follows, a name that of a condition when `==` follows. */
    method ParsePropertyValue() returns (r: Option<Value>)
      requires Valid()
      modifies this`current
      ensures Valid() && Outcome(r, Rest(), AsValue(old(Rest())))
    {
      var t1 := Peek(0);
      var t2 := Peek(1);
      if t1.Some? && NumberToken(t1.value) && t2 == Some(DotDot) {
        r := ParseRange();
        return;
      }
      if t1.Some? && t1.value.Ident? && t2 == Some(EqEq) {
        r := ParseCondition();
        return;
      }
      var l := ParseLiteral();
      return if l.None? then None else Some(Plain(l.value));
    }

    method ParseRange() returns (r: Option<Value>)
      requires Valid() && |Rest()| > 1 && NumberToken(Rest()[0]) && Rest()[1].DotDot?
      modifies this`current
      ensures Valid() && Outcome(r, Rest(), AsValue(old(Rest())))
    {
      var lo := ParseLiteral();
      var _ := Match(DotDot);
      var hi := ParseLiteral();
      if hi.None? {
        return None;
      }
      return Some(RangeOf(lo.value, hi.value));
    }

    method ParseCondition() returns (r: Option<Value>)
      requires Valid() && |Rest()| > 1 && Rest()[0].Ident? && Rest()[1].EqEq?
      modifies this`current
      ensures Valid() && Outcome(r, Rest(), AsValue(old(Rest())))
    {
      var left := ConsumeName();
      var _ := Match(EqEq);
      var right := ParseLiteral();
      if right.None? {
        return None;
      }
      return Some(Condition(left.value, right.value));
    }

    method ParsePropertyDecl() returns (r: Option<Property>)
      requires Valid()
      modifies this`current
      ensures Valid() && Outcome(r, Rest(), PropWithoutComma(old(Rest())))
    {
      var name := ConsumeName();
      if name.None? {
        return None;
      }
      var colon := Match(Colon);
      if !colon {
        return None;
      }
      assert Rest() == old(Rest())[2..];
      var v := ParsePropertyValue();
      if v.None? {
        return None;
      }
      return Some(Property(name.value, v.value));
    }

    /** One turn of the loop over a property block: a property and, maybe, a comma. */
    method ParsePropertyAndComma() returns (r: Option<Property>)
      requires Valid()
      modifies this`current
      ensures Valid() && Outcome(r, Rest(), AsProp(old(Rest())))
      ensures r.Some? ==> current > old(current)
    {
      r := ParsePropertyDecl();
      if r.Some? {
        var _ := Match(Comma);
      }
    }

    /** The loop over a property block, after its opening brace. */
    method ParseProperties() returns (r: Option<seq<Property>>)
      requires Valid()
      modifies this`current
      ensures Valid() && Outcome(r, Rest(), AsProps(old(Rest())))
    {
      var props := [];
      ghost var start := Rest();
      ExtendNone(props, AsProps(start));
      while current < |tokens|
        invariant Valid() && old(current) <= current
        invariant AsProps(start) == Extend(props, AsProps(Rest()))
        decreases |tokens| - current
      {
        ghost var ts := Rest();
        var closed := Match(RBrace);
        if closed {
          PropsEnd(props, ts);
          assert Rest() == ts[1..];
          return Some(props);
        }
        PropsTurn(props, ts);
        var p := ParsePropertyAndComma();
        if p.None? {
          return None;
        }
        props := props + [p.value];
      }
      PropsEnd(props, Rest());
      return Some(props);
    }

    /** The loop over enum members, after the opening parenthesis. */
    method ParseEnumMembers() returns (r: Option<seq<string>>)
      requires Valid()
      modifies this`current
      ensures Valid() && Outcome(r, Rest(), ReadMembers(old(Rest())))
    {
      var members := [];
      ghost var start := Rest();
      ExtendNone(members, ReadMembers(start));
      while true
        invariant Valid() && ReadMembers(start) == Extend(members, ReadMembers(Rest()))
        decreases |tokens| - current
      {
        ghost var ts := Rest();
        var m := ConsumeName();
        if m.None? {
          return None;
        }
        var closed := Match(RParen);
        if closed {
          assert Rest() == ts[2..];
          return Some(members + [m.value]);
        }
        var comma := Match(Comma);
        if !comma {
          return None;
        }
        MembersTurn(members, ts);
        assert Rest() == ts[2..];
        members := members + [m.value];
      }
    }

    method ParseTypeAtom() returns (r: Option<TypeExpr>)
      requires Valid()
      modifies this`current
      ensures Valid() && Outcome(r, Rest(), AsAtom(old(Rest())))
    {
      var isEnum := Match(KwEnum);
      if isEnum {
        var open := Match(LParen);
        if !open {
          return None;
        }
        assert Rest() == old(Rest())[2..];
        var ms := ParseEnumMembers();
        return if ms.None? then None else Some(EnumOf(ms.value));
      }
      var name := ConsumeName();
      return if name.None? then None else Some(Named(name.value));
    }

    method ParseTypeExpr() returns (r: Option<TypeExpr>)
      requires Valid()
      modifies this`current
      ensures Valid() && Outcome(r, Rest(), AsType(old(Rest())))
    {
      var e := ParseTypeAtom();
      if e.None? {
        return None;
      }
      ghost var ts := Rest();
      var isArray := Match(LBracket);
      if !isArray {
        return e;
      }
      var closed := Match(RBracket);
      if !closed {
        return None;
      }
      assert Rest() == ts[2..];
      return Some(ArrayOf(e.value));
    }

    method ParseFieldDecl() returns (r: Option<Item>)
      requires Valid()
      modifies this`current
      ensures Valid() && Outcome(r, Rest(), AsField(old(Rest())))
    {
      var name := ConsumeName();
      if name.None? {
        return None;
      }
      var colon := Match(Colon);
      if !colon {
        return None;
      }
      assert Rest() == old(Rest())[2..];
      var typ := ParseTypeExpr();
      if typ.None? {
        return None;
      }
      ghost var ts := Rest();
      var open := Match(LBrace);
      if !open {
        return Some(Field(name.value, typ.value, []));
      }
      assert Rest() == ts[1..];
      var props := ParseProperties();
      return if props.None? then None else Some(Field(name.value, typ.value, props.value));
    }

    /** `parse_schema_decl` and `parse_section_decl`, which differ in their keyword alone. */
    method ParseBlock(keyword: Token) returns (r: Option<SchemaDecl>)
      requires Valid() && Rest() != [] && Rest()[0] == keyword
      modifies this`current
      ensures Valid() && Outcome(r, Rest(), AsBlock(old(Rest())))
      decreases |tokens| - current, 0
    {
      var _ := Match(keyword);
      var name := ConsumeName();
      if name.None? {
        return None;
      }
      var open := Match(LBrace);
      if !open {
        return None;
      }
      assert Rest() == old(Rest())[3..];
      var items := ParseItems();
      return if items.None? then None else Some(SchemaDecl(name.value, items.value));
    }

    method ParseItem() returns (r: Option<Item>)
      requires Valid()
      modifies this`current
      ensures Valid() && Outcome(r, Rest(), AsItem(old(Rest())))
      decreases |tokens| - current, 1
    {
      var isSection := Match(KwSection);
      if isSection {
        current := current - 1;
        var s := ParseBlock(KwSection);
        return if s.None? then None else Some(Section(s.value.name, s.value.items));
      }
      r := ParseFieldDecl();
    }

    /** The loop over the inside of a block. */
    method ParseItems() returns (r: Option<seq<Item>>)
      requires Valid()
      modifies this`current
      ensures Valid() && Outcome(r, Rest(), AsItems(old(Rest())))
      decreases |tokens| - current, 2
    {
      var items := [];
      ghost var start := Rest();
      ExtendNone(items, AsItems(start));
      while current < |tokens|
        invariant Valid() && old(current) <= current
        invariant AsItems(start) == Extend(items, AsItems(Rest()))
        decreases |tokens| - current
      {
        ghost var ts := Rest();
        var closed := Match(RBrace);
        if closed {
          ExtendNone(items, AsItems(ts));
          assert Rest() == ts[1..];
          return Some(items);
        }
        ItemsTurn(items, ts);
        var it := ParseItem();
        if it.None? {
          return None;
        }
        items := items + [it.value];
      }
      ExtendNone(items, AsItems(Rest()));
      return Some(items);
    }

    method ParseImports() returns (r: Option<seq<string>>)
      requires Valid()
      modifies this`current
      ensures Valid() && Outcome(r, Rest(), ReadImports(old(Rest())))
    {
      var imports := [];
      ghost var start := Rest();
      ExtendNone(imports, ReadImports(start));
      while true
        invariant Valid() && ReadImports(start) == Extend(imports, ReadImports(Rest()))
        decreases |tokens| - current
      {
        ghost var ts := Rest();
        var more := Match(KwImport);
        if !more {
          ExtendNone(imports, ReadImports(ts));
          return Some(imports);
        }
        if current >= |tokens| || !tokens[current].StringTok? {
          return None;
        }
        ImportsTurn(imports, ts);
        imports := imports + [tokens[current].text];
        current := current + 1;
        assert Rest() == ts[2..];
      }
    }

    method ParseSchemas() returns (r: Option<Program>)
      requires Valid()
      modifies this`current
      ensures Valid() && Outcome(r, Rest(), AsSchemas(old(Rest())))
    {
      var schemas := [];
      ghost var start := Rest();
      ExtendNone(schemas, AsSchemas(start));
      while current < |tokens|
        invariant Valid()
        invariant AsSchemas(start) == Extend(schemas, AsSchemas(Rest()))
        decreases |tokens| - current
      {
        ghost var ts := Rest();
        var more := Match(KwSchema);
        if !more {
          ExtendNone(schemas, AsSchemas(ts));
          return if tokens[current].Eof? then Some(schemas) else None;
        }
        current := current - 1;
        SchemasTurn(schemas, ts);
        var s := ParseBlock(KwSchema);
        if s.None? {
          return None;
        }
        schemas := schemas + [s.value];
      }
      ExtendNone(schemas, AsSchemas(Rest()));
      return Some(schemas);
    }

    method ParseProgram() returns (r: Option<Parsed>)
      requires Valid()
      modifies this`current
      ensures Valid() && Outcome(r, Rest(), AsProgram(old(Rest())))
    {
      var imports := ParseImports();
      if imports.None? {
        return None;
      }
      var schemas := ParseSchemas();
      return if schemas.None? then None else Some(Parsed(imports.value, schemas.value));
    }
  }

  /** Parsing the tokens of any program: the tree it stands for, and the cursor on the end marker. */
  method ParseWritten(p: ProgramTree) returns (r: Option<Parsed>, stop: nat)
    requires SchemasWritable(p.schemas)
    ensures r == Some(Parsed(p.imports, SchemasOf(p.schemas)))
    ensures stop == |ProgramTokens(p)|
  {
    var parser := new Parser(ProgramTokens(p) + [Eof]);
    ProgramReadsBack(p, [Eof]);
    r := parser.ParseProgram();
    stop := parser.current;
    assert |parser.Rest()| == 1;
  }
}
