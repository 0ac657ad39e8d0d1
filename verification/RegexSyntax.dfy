/** The pattern language of the `pattern` property: its syntax tree, how a tree is
    written down, and which strings it denotes. */
module RegexSyntax {

  /** A character inside `[...]`, written plainly or after a backslash. */
  datatype ClassChar = ClassChar(c: char, escaped: bool)

  datatype ClassMember = Single(x: ClassChar) | Range(lo: ClassChar, hi: ClassChar)

  datatype Atom =
    | Dot
    | Literal(c: char, escaped: bool)
    | Class(negated: bool, members: seq<ClassMember>)

  datatype Quantifier = Once | Plus | Star | Optional

  datatype Item = Item(atom: Atom, quant: Quantifier)

  datatype Pattern = Pattern(anchoredStart: bool, items: seq<Item>, anchoredEnd: bool)

  // ----- How a pattern is written -----

  function RenderChar(x: ClassChar): string {
    if x.escaped then ['\\', x.c] else [x.c]
  }

  function RenderMember(m: ClassMember): string {
    match m
    case Single(x) => RenderChar(x)
    case Range(lo, hi) => RenderChar(lo) + "-" + RenderChar(hi)
  }

  function RenderMembers(ms: seq<ClassMember>): string {
    if ms == [] then "" else RenderMember(ms[0]) + RenderMembers(ms[1..])
  }

  function RenderAtom(a: Atom): string {
    match a
    case Dot => "."
    case Literal(c, escaped) => if escaped then ['\\', c] else [c]
    case Class(negated, ms) => "[" + (if negated then "^" else "") + RenderMembers(ms) + "]"
  }

  function RenderQuantifier(q: Quantifier): string {
    match q
    case Once => ""
    case Plus => "+"
    case Star => "*"
    case Optional => "?"
  }

  function RenderItems(items: seq<Item>): string {
    if items == [] then ""
    else RenderAtom(items[0].atom) + RenderQuantifier(items[0].quant) + RenderItems(items[1..])
  }

  function Render(p: Pattern): string {
    (if p.anchoredStart then "^" else "") + RenderItems(p.items) + (if p.anchoredEnd then "$" else "")
  }

  // ----- Well-formed patterns: those whose text can only be read one way -----

  /** `]` closes a class even after a backslash, so it cannot be a member. */
  predicate WellFormedChar(x: ClassChar) {
    x.c != '\0' && x.c != ']' && (x.c == '\\' ==> x.escaped)
  }

  predicate StartsWithDash(m: ClassMember) {
    var x := if m.Single? then m.x else m.lo;
    x.c == '-' && !x.escaped
  }

  predicate StartsWithCaret(m: ClassMember) {
    var x := if m.Single? then m.x else m.lo;
    x.c == '^' && !x.escaped
  }

  predicate WellFormedMember(m: ClassMember) {
    match m
    case Single(x) => WellFormedChar(x)
    case Range(lo, hi) => WellFormedChar(lo) && WellFormedChar(hi)
  }

  /** A plain dash right after a single character would read as a range, unless it comes last. */
  predicate WellFormedMembers(ms: seq<ClassMember>) {
    ms != [] ==>
      && WellFormedMember(ms[0])
      && WellFormedMembers(ms[1..])
      && (|ms| > 1 && ms[0].Single? && StartsWithDash(ms[1]) ==> ms[1].Single? && |ms| == 2)
  }

  predicate WellFormedAtom(a: Atom) {
    match a
    case Dot => true
    case Literal(c, escaped) => c != '\0' && (c in ".[*+?\\^$" ==> escaped)
    case Class(negated, ms) => ms != [] && WellFormedMembers(ms) && (negated || !StartsWithCaret(ms[0]))
  }

  predicate WellFormedItems(items: seq<Item>) {
    forall i :: 0 <= i < |items| ==> WellFormedAtom(items[i].atom)
  }

  predicate WellFormed(p: Pattern) {
    WellFormedItems(p.items)
  }

  // ----- The denoted language -----

  predicate MemberHas(m: ClassMember, c: char) {
    match m
    case Single(x) => c == x.c
    case Range(lo, hi) => lo.c <= c <= hi.c
  }

  predicate SomeMemberHas(ms: seq<ClassMember>, c: char) {
    exists i :: 0 <= i < |ms| && MemberHas(ms[i], c)
  }

  predicate AtomHas(a: Atom, c: char) {
    c != '\0' &&
    match a
    case Dot => true
    case Literal(x, _) => c == x
    case Class(negated, ms) => negated != SomeMemberHas(ms, c)
  }

  predicate CountAllowed(q: Quantifier, n: nat) {
    match q
    case Once => n == 1
    case Plus => n >= 1
    case Star => true
    case Optional => n <= 1
  }

  predicate AllHave(a: Atom, s: string) {
    forall i :: 0 <= i < |s| ==> AtomHas(a, s[i])
  }

  ghost predicate ItemMatches(it: Item, s: string) {
    CountAllowed(it.quant, |s|) && AllHave(it.atom, s)
  }

  /** `s` is a concatenation of one piece for each item. */
  ghost predicate ItemsMatch(items: seq<Item>, s: string) {
    if items == [] then s == ""
    else exists k :: 0 <= k <= |s| && ItemMatches(items[0], s[..k]) && ItemsMatch(items[1..], s[k..])
  }

  /** The two ends of a match, restricted by the anchors. */
  ghost predicate MatchesBetween(p: Pattern, s: string, i: nat, j: nat) {
    && i <= j <= |s|
    && (p.anchoredStart ==> i == 0)
    && (p.anchoredEnd ==> j == |s|)
    && ItemsMatch(p.items, s[i..j])
  }

  /** `s` contains a match of the items that respects the anchors. */
  ghost predicate InLanguage(p: Pattern, s: string) {
    exists i: nat, j: nat :: MatchesBetween(p, s, i, j)
  }

  /** A C string: no character is the terminator. */
  predicate NulFree(s: string) {
    forall i :: 0 <= i < |s| ==> s[i] != '\0'
  }
}
