/** The configuration that a generated loader fills: values at places, arrays of structs with
    their counts, and the conversions that assign. Library conversions are kept symbolic: `IntOf(t)`
    stands for what `strtoll` makes of the text `t`. */
module Runtime {
  import opened Schema

  datatype Step = Dot(name: string) | Elem(index: int)

  type Place = seq<Step>

  datatype Val =
    | Zero
    | Integer(value: int)
    | Number(number: real)
    | Truth(on: bool)
    | TextOf(text: string)
    | IntOf(text: string)
    | FloatOf(text: string)
    | Ipv4Of(previous: Val, text: string)      // octets already parsed stay when a later one is refused
    | EnumConstant(parent: string, field: string, member: string)
    | IntArrayOf(text: string)
    | TextArrayOf(text: string)

  datatype Mem = Mem(vals: map<Place, Val>, counts: map<Place, nat>)

  /** After `memset(cfg, 0, …)`. */
  const EMPTY := Mem(map[], map[])

  function Get(m: Mem, p: Place): Val {
    if p in m.vals then m.vals[p] else Zero
  }

  function Count(m: Mem, p: Place): nat {
    if p in m.counts then m.counts[p] else 0
  }

  function Put(m: Mem, p: Place, v: Val): Mem {
    m.(vals := m.vals[p := v])
  }

  predicate IsUnder(p: Place, q: Place) {
    |q| <= |p| && p[..|q|] == q
  }

  /** `memset` of one struct. */
  function Clear(m: Mem, q: Place): Mem {
    Mem(map p | p in m.vals && !IsUnder(p, q) :: m.vals[p],
        map p | p in m.counts && !IsUnder(p, q) :: m.counts[p])
  }

  // ----- Assignments from a text -----

  datatype Conversion =
    | ToInt | ToFloat | ToBool | ToText | ToIpv4
    | ToEnum(parent: string, field: string, members: seq<string>)
    | ToIntArray | ToTextArray

  function Convert(c: Conversion, previous: Val, text: string): Val {
    match c
    case ToInt => IntOf(text)
    case ToFloat => FloatOf(text)
    case ToBool => Truth(text == "true" || text == "1")
    case ToText => TextOf(text)
    case ToIpv4 => Ipv4Of(previous, text)
    case ToEnum(parent, field, members) => if text in members then EnumConstant(parent, field, text) else previous
    case ToIntArray => IntArrayOf(text)
    case ToTextArray => TextArrayOf(text)
  }

  function Assign(m: Mem, p: Place, c: Conversion, text: string): Mem {
    Put(m, p, Convert(c, Get(m, p), text))
  }

  /** The assignment the emitters know for a primitive type name. */
  function PrimitiveConversion(n: string): Option<Conversion> {
    if n == "int" then Some(ToInt)
    else if n == "float" then Some(ToFloat)
    else if n == "bool" then Some(ToBool)
    else if n == "string" || n == "path" then Some(ToText)
    else if n == "ipv4" then Some(ToIpv4)
    else None
  }

  // ----- Initial values -----

  datatype InitialValue = SetTo(v: Val) | ParseIpv4(text: string)

  /** One emitted initialiser: the path of its field below the struct, and the value. */
  datatype Init = Init(path: seq<string>, value: InitialValue)

  function Names(path: seq<string>): Place {
    seq(|path|, i requires 0 <= i < |path| => Dot(path[i]))
  }

  function RunInit(m: Mem, base: Place, i: Init): Mem {
    var p := base + Names(i.path);
    match i.value
    case SetTo(v) => Put(m, p, v)
    case ParseIpv4(text) => Put(m, p, Ipv4Of(Get(m, p), text))
  }

  function RunInits(m: Mem, base: Place, inits: seq<Init>): Mem
    decreases inits
  {
    if inits == [] then m else RunInits(RunInit(m, base, inits[0]), base, inits[1..])
  }

  /** The statements that append an element: grow the array, zero the new element, initialise it. */
  function Append(m: Mem, p: Place, inits: seq<Init>): Mem {
    var n := Count(m, p);
    var e := p + [Elem(n)];
    var cleared := Clear(m, e);
    RunInits(cleared.(counts := cleared.counts[p := n + 1]), e, inits)
  }

  lemma NamesAppend(path: seq<string>, n: string)
    ensures Names(path + [n]) == Names(path) + [Dot(n)]
  {
  }

  lemma {:induction false} NamesInjective(p: seq<string>, q: seq<string>)
    requires Names(p) == Names(q)
    ensures p == q
  {
    assert |Names(p)| == |Names(q)|;
    forall i | 0 <= i < |p| ensures p[i] == q[i] {
      assert Names(p)[i] == Names(q)[i];
    }
  }

  lemma {:induction false} InitsStayUnder(m: Mem, e: Place, inits: seq<Init>, p: Place)
    requires !IsUnder(p, e)
    ensures Get(RunInits(m, e, inits), p) == Get(m, p) && Count(RunInits(m, e, inits), p) == Count(m, p)
    decreases |inits|
  {
    if inits != [] {
      var q := e + Names(inits[0].path);
      assert q[..|e|] == e;
      InitsStayUnder(RunInit(m, e, inits[0]), e, inits[1..], p);
    }
  }

  lemma {:induction false} InitsKeepCounts(m: Mem, e: Place, inits: seq<Init>, p: Place)
    ensures Count(RunInits(m, e, inits), p) == Count(m, p)
    decreases |inits|
  {
    if inits != [] {
      InitsKeepCounts(RunInit(m, e, inits[0]), e, inits[1..], p);
    }
  }

  /** Appending changes nothing outside the new element, and one count. */
  lemma {:induction false} AppendIsLocal(m: Mem, a: Place, inits: seq<Init>, p: Place)
    requires !IsUnder(p, a + [Elem(Count(m, a))])
    ensures Get(Append(m, a, inits), p) == Get(m, p)
    ensures Count(Append(m, a, inits), p) == Count(m, p) + (if p == a then 1 else 0)
  {
    var n := Count(m, a);
    var e := a + [Elem(n)];
    var cleared := Clear(m, e);
    var grown := cleared.(counts := cleared.counts[a := n + 1]);
    InitsStayUnder(grown, e, inits, p);
  }
}
