/** The concrete syntax of schema programs as the parser really reads it: trees that remember every
    choice a writer has (a property block left out, a comma after a property), the tokens a tree is
    written with, and the syntax tree it stands for. */
module Grammar {
  import opened Schema
  import opened Numbers

  datatype Token =
    | Ident(name: string) | StringTok(text: string) | IntTok(lexeme: string) | FloatTok(lexeme: string)
    | KwImport | KwSchema | KwSection | KwEnum | KwTrue | KwFalse
    | LBrace | RBrace | LBracket | RBracket | LParen | RParen
    | Colon | Comma | Lt | Gt | Dot | EqEq | DotDot | Eof | Unknown

  datatype AtomTree = NamedTree(name: string) | EnumTree(members: seq<string>)
  datatype TypeTree = TypeTree(atom: AtomTree, isArray: bool)
  datatype ValueTree = PlainTree(lit: Token) | RangeTree(min: Token, max: Token) | ConditionTree(left: string, right: Token)
  datatype PropTree = PropTree(name: string, value: ValueTree, comma: bool)
  datatype ItemTree =
    | FieldTree(name: string, typ: TypeTree, block: Option<seq<PropTree>>)
    | SectionTree(name: string, items: seq<ItemTree>)
  datatype SchemaTree = SchemaTree(name: string, items: seq<ItemTree>)
  datatype ProgramTree = ProgramTree(imports: seq<string>, schemas: seq<SchemaTree>)

  // ----- Which trees are programs -----

  /** The tokens a literal may be; an integer must fit its type. */
  predicate LiteralToken(t: Token) {
    t.StringTok? || t.Ident? || t.KwTrue? || t.KwFalse? ||
    (t.IntTok? && IntValue(t.lexeme).Some?) || (t.FloatTok? && FloatValue(t.lexeme).Some?)
  }

  predicate NumberToken(t: Token) { t.IntTok? || t.FloatTok? }

  /** Only the lower end of a range has to be a number. */
  predicate ValueWritable(v: ValueTree) {
    match v
    case PlainTree(t) => LiteralToken(t)
    case RangeTree(lo, hi) => NumberToken(lo) && LiteralToken(lo) && LiteralToken(hi)
    case ConditionTree(_, t) => LiteralToken(t)
  }

  predicate PropsWritable(ps: seq<PropTree>) {
    ps != [] ==> ValueWritable(ps[0].value) && PropsWritable(ps[1..])
  }

  predicate AtomWritable(a: AtomTree) { a.EnumTree? ==> a.members != [] }

  predicate ItemWritable(it: ItemTree) {
    match it
    case FieldTree(_, t, b) => AtomWritable(t.atom) && (b.Some? ==> PropsWritable(b.value))
    case SectionTree(_, items) => ItemsWritable(items)
  }

  predicate ItemsWritable(items: seq<ItemTree>) {
    items != [] ==> ItemWritable(items[0]) && ItemsWritable(items[1..])
  }

  predicate SchemasWritable(ss: seq<SchemaTree>) {
    ss != [] ==> ItemsWritable(ss[0].items) && SchemasWritable(ss[1..])
  }

  // ----- How trees are written -----

  function MemberTokens(ms: seq<string>): seq<Token> {
    if ms == [] then []
    else if |ms| == 1 then [Ident(ms[0]), RParen]
    else [Ident(ms[0]), Comma] + MemberTokens(ms[1..])
  }

  function AtomTokens(a: AtomTree): seq<Token> {
    match a
    case NamedTree(n) => [Ident(n)]
    case EnumTree(ms) => [KwEnum, LParen] + MemberTokens(ms)
  }

  function TypeTokens(t: TypeTree): seq<Token> {
    AtomTokens(t.atom) + if t.isArray then [LBracket, RBracket] else []
  }

  function ValueTokens(v: ValueTree): seq<Token> {
    match v
    case PlainTree(t) => [t]
    case RangeTree(lo, hi) => [lo, DotDot, hi]
    case ConditionTree(n, t) => [Ident(n), EqEq, t]
  }

  function PropTokens(p: PropTree): seq<Token> {
    [Ident(p.name), Colon] + ValueTokens(p.value) + if p.comma then [Comma] else []
  }

  function PropsTokens(ps: seq<PropTree>): seq<Token> {
    if ps == [] then [RBrace] else PropTokens(ps[0]) + PropsTokens(ps[1..])
  }

  function ItemTokens(it: ItemTree): seq<Token> {
    match it
    case FieldTree(n, t, b) =>
      [Ident(n), Colon] + TypeTokens(t) + if b.Some? then [LBrace] + PropsTokens(b.value) else []
    case SectionTree(n, items) => [KwSection, Ident(n), LBrace] + ItemsTokens(items)
  }

  /** The items of a block and the brace that closes it. */
  function ItemsTokens(items: seq<ItemTree>): seq<Token> {
    if items == [] then [RBrace] else ItemTokens(items[0]) + ItemsTokens(items[1..])
  }

  function SchemasTokens(ss: seq<SchemaTree>): seq<Token> {
    if ss == [] then []
    else [KwSchema, Ident(ss[0].name), LBrace] + ItemsTokens(ss[0].items) + SchemasTokens(ss[1..])
  }

  function ImportsTokens(paths: seq<string>): seq<Token> {
    if paths == [] then [] else [KwImport, StringTok(paths[0])] + ImportsTokens(paths[1..])
  }

  function ProgramTokens(p: ProgramTree): seq<Token> {
    ImportsTokens(p.imports) + SchemasTokens(p.schemas)
  }

  // ----- What trees mean -----

  function LiteralOf(t: Token): Literal
    requires LiteralToken(t)
  {
    match t
    case IntTok(s) => IntLit(IntValue(s).value)
    case FloatTok(s) => FloatLit(FloatValue(s).value)
    case StringTok(s) => StringLit(s)
    case Ident(n) => NameLit(n)
    case _ => BoolLit(t.KwTrue?)
  }

  function ValueOf(v: ValueTree): Value
    requires ValueWritable(v)
  {
    match v
    case PlainTree(t) => Plain(LiteralOf(t))
    case RangeTree(lo, hi) => RangeOf(LiteralOf(lo), LiteralOf(hi))
    case ConditionTree(n, t) => Condition(n, LiteralOf(t))
  }

  function PropsOf(ps: seq<PropTree>): seq<Property>
    requires PropsWritable(ps)
  {
    if ps == [] then [] else [Property(ps[0].name, ValueOf(ps[0].value))] + PropsOf(ps[1..])
  }

  function TypeOfTree(t: TypeTree): TypeExpr {
    var e := match t.atom case NamedTree(n) => Named(n) case EnumTree(ms) => EnumOf(ms);
    if t.isArray then ArrayOf(e) else e
  }

  function ItemOf(it: ItemTree): Item
    requires ItemWritable(it)
  {
    match it
    case FieldTree(n, t, b) => Field(n, TypeOfTree(t), if b.Some? then PropsOf(b.value) else [])
    case SectionTree(n, items) => Section(n, ItemsOf(items))
  }

  function ItemsOf(items: seq<ItemTree>): seq<Item>
    requires ItemsWritable(items)
  {
    if items == [] then [] else [ItemOf(items[0])] + ItemsOf(items[1..])
  }

  function SchemasOf(ss: seq<SchemaTree>): Program
    requires SchemasWritable(ss)
  {
    if ss == [] then [] else [SchemaDecl(ss[0].name, ItemsOf(ss[0].items))] + SchemasOf(ss[1..])
  }
}
