/** The regex compiler: it reads a pattern string once and emits a straight-line C matcher.
    The emitted statements are values of `Instr`. A C pointer into a string is modelled by
    the text that remains after it. */
module RegexCompiler {

  /** One comparison of an emitted class condition. */
  datatype Test = Eq(c: char) | Ne(c: char) | Within(lo: char, hi: char) | Outside(lo: char, hi: char)

  /** The tests joined by `&&` (negated class) or `||`. */
  datatype Condition = Condition(negated: bool, tests: seq<Test>)

  datatype Instr =
    | NeedAny                       // if (*p == '\0') fail;
    | NeedClass(cond: Condition)    // { char c = *p; if (c == '\0' || !cond) fail; }
    | NeedChar(c: char)             // if (*p != 'c') fail;
    | Advance                       // p++;
    | Retreat                       // p--;
    | WhileClass(cond: Condition)   // while (*p != '\0') { char c = *p; if (!cond) break; p++; }
    | WhileChar(c: char)            // while (*p == 'c') p++;

  datatype Matcher = Matcher(anchoredStart: bool, body: seq<Instr>, anchoredEnd: bool)

  /** `*(p + i)`: the terminator follows the text. */
  function Peek(p: string, i: nat): char {
    if i < |p| then p[i] else '\0'
  }

  // ----- emit_char_class_check -----

  /** Drop the backslash of an escaped class character. */
  function Unescape(p: string): (q: string)
    requires p != ""
    ensures q != "" && |q| <= |p|
  {
    if p[0] == '\\' && Peek(p, 1) != '\0' && Peek(p, 1) != ']' then p[1..] else p
  }

  predicate IsRangeAt(q: string) {
    Peek(q, 1) == '-' && Peek(q, 2) != ']' && Peek(q, 2) != '\0'
  }

  predicate IsEscapedUpperBound(q: string) {
    Peek(q, 2) == '\\' && Peek(q, 3) != '\0' && Peek(q, 3) != ']'
  }

  function TestAt(q: string, negated: bool): Test
    requires q != ""
  {
    if IsRangeAt(q) then
      var c2 := if IsEscapedUpperBound(q) then q[3] else q[2];
      if negated then Outside(q[0], c2) else Within(q[0], c2)
    else if negated then Ne(q[0]) else Eq(q[0])
  }

  function AfterTest(q: string): (r: string)
    requires q != ""
    ensures |r| < |q|
  {
    if IsRangeAt(q) then if IsEscapedUpperBound(q) then q[4..] else q[3..] else q[1..]
  }

  function ClassTests(p: string, negated: bool): seq<Test>
    decreases |p|
  {
    if p == "" || p[0] == ']' then []
    else [TestAt(Unescape(p), negated)] + ClassTests(AfterTest(Unescape(p)), negated)
  }

  function AfterTests(p: string): (r: string)
    ensures |r| <= |p|
    decreases |p|
  {
    if p == "" || p[0] == ']' then p else AfterTests(AfterTest(Unescape(p)))
  }

  predicate IsNegatedClass(re: string) {
    Peek(re, 0) == '^'
  }

  function ClassBody(re: string): (r: string)
    ensures |r| <= |re|
  {
    if IsNegatedClass(re) then re[1..] else re
  }

  function ClassCondition(re: string): Condition {
    Condition(IsNegatedClass(re), ClassTests(ClassBody(re), IsNegatedClass(re)))
  }

  function AfterClass(re: string): (r: string)
    ensures |r| <= |re|
  {
    var p := AfterTests(ClassBody(re));
    if Peek(p, 0) == ']' then p[1..] else p
  }

  /** One turn of the member loop, after a backslash has been dropped. */
  method EmitClassTest(q: string, negated: bool) returns (t: Test, rest: string)
    requires q != ""
    ensures t == TestAt(q, negated)
    ensures rest == AfterTest(q)
  {
    var c1 := q[0];
    if Peek(q, 1) == '-' && Peek(q, 2) != ']' && Peek(q, 2) != '\0' {
      var c2 := q[2];
      if c2 == '\\' && Peek(q, 3) != '\0' && Peek(q, 3) != ']' {
        c2 := q[3];
        rest := q[4..];
      } else {
        rest := q[3..];
      }
      t := if negated then Outside(c1, c2) else Within(c1, c2);
    } else {
      t := if negated then Ne(c1) else Eq(c1);
      rest := q[1..];
    }
  }

  lemma ClassTestsTurn(tests: seq<Test>, p: string, negated: bool)
    requires p != "" && p[0] != ']'
    ensures tests + ClassTests(p, negated)
         == (tests + [TestAt(Unescape(p), negated)]) + ClassTests(AfterTest(Unescape(p)), negated)
    ensures AfterTests(p) == AfterTests(AfterTest(Unescape(p)))
  {
  }

  /** The emitter's loop over the members of one class. */
  method EmitCharClassCheck(re: string) returns (cond: Condition, rest: string)
    ensures cond == ClassCondition(re)
    ensures rest == AfterClass(re)
  {
    var p := re;
    var negated := false;
    if Peek(p, 0) == '^' {
      negated := true;
      p := p[1..];
    }
    ghost var body := p;
    var tests: seq<Test> := [];
    while p != "" && p[0] != ']'
      invariant tests + ClassTests(p, negated) == ClassTests(body, negated)
      invariant AfterTests(p) == AfterTests(body)
      decreases |p|
    {
      ghost var p0 := p;
      if p[0] == '\\' && Peek(p, 1) != '\0' && Peek(p, 1) != ']' {
        p := p[1..];
      }
      var t, rest' := EmitClassTest(p, negated);
      ClassTestsTurn(tests, p0, negated);
      tests := tests + [t];
      p := rest';
    }
    if Peek(p, 0) == ']' {
      p := p[1..];
    }
    cond, rest := Condition(negated, tests), p;
  }

  // ----- emit_regex_validator -----

  /** The statements emitted for the construct at the front of the pattern. */
  function ConstructAt(p: string): seq<Instr>
    requires p != ""
  {
    if p[0] == '.' then [NeedAny, Advance]
    else if p[0] == '[' then
      var cond := ClassCondition(p[1..]);
      var next := Peek(AfterClass(p[1..]), 0);
      [NeedClass(cond), Advance] +
      (if next == '+' then [WhileClass(cond)] else if next == '*' then [Retreat, WhileClass(cond)] else [])
    else if p[0] == '*' || p[0] == '+' || p[0] == '?' then []
    else
      var q := if p[0] == '\\' && |p| > 1 then p[1..] else p;
      [NeedChar(q[0]), Advance] +
      (if Peek(q, 1) == '+' then [WhileChar(q[0])]
       else if Peek(q, 1) == '*' then [Retreat, WhileChar(q[0])] else [])
  }

  function AfterConstruct(p: string): (r: string)
    requires p != ""
    ensures |r| < |p|
  {
    if p[0] == '[' then
      var r := AfterClass(p[1..]);
      if Peek(r, 0) == '+' || Peek(r, 0) == '*' then r[1..] else r
    else if p[0] == '.' || p[0] == '*' || p[0] == '+' || p[0] == '?' then p[1..]
    else
      var q := if p[0] == '\\' && |p| > 1 then p[1..] else p;
      if Peek(q, 1) == '+' || Peek(q, 1) == '*' then q[2..] else q[1..]
  }

  /** With an end anchor the last character is left alone. */
  function EmitBody(p: string, anchoredEnd: bool): seq<Instr>
    decreases |p|
  {
    if p == "" || (anchoredEnd && |p| == 1) then []
    else ConstructAt(p) + EmitBody(AfterConstruct(p), anchoredEnd)
  }

  function Emit(re: string): Matcher {
    var anchoredStart := Peek(re, 0) == '^';
    var anchoredEnd := re != "" && re[|re| - 1] == '$';
    Matcher(anchoredStart, EmitBody(if anchoredStart then re[1..] else re, anchoredEnd), anchoredEnd)
  }

  /** One turn of the pattern loop. */
  method EmitConstruct(p: string) returns (code: seq<Instr>, rest: string)
    requires p != ""
    ensures code == ConstructAt(p)
    ensures rest == AfterConstruct(p)
  {
    if p[0] == '.' {
      return [NeedAny, Advance], p[1..];
    }
    if p[0] == '[' {
      var cond, next := EmitCharClassCheck(p[1..]);
      code := [NeedClass(cond), Advance];
      if Peek(next, 0) == '+' {
        var again, _ := EmitCharClassCheck(p[1..]);
        return code + [WhileClass(again)], next[1..];
      } else if Peek(next, 0) == '*' {
        var again, _ := EmitCharClassCheck(p[1..]);
        return code + [Retreat, WhileClass(again)], next[1..];
      }
      return code, next;
    }
    if p[0] == '*' || p[0] == '+' || p[0] == '?' {
      return [], p[1..];
    }
    var q := p;
    if q[0] == '\\' && |q| > 1 {
      q := q[1..];
    }
    var target := q[0];
    code := [NeedChar(target), Advance];
    if Peek(q, 1) == '+' {
      return code + [WhileChar(target)], q[2..];
    } else if Peek(q, 1) == '*' {
      return code + [Retreat, WhileChar(target)], q[2..];
    }
    return code, q[1..];
  }

  lemma EmitBodyTurn(body: seq<Instr>, p: string, anchoredEnd: bool)
    requires p != "" && (!anchoredEnd || |p| > 1)
    ensures body + EmitBody(p, anchoredEnd)
         == (body + ConstructAt(p)) + EmitBody(AfterConstruct(p), anchoredEnd)
  {
  }

  /** The emitter's loop over the pattern. */
  method EmitRegexValidator(re: string) returns (m: Matcher)
    ensures m == Emit(re)
  {
    var p := re;
    var anchoredStart := Peek(p, 0) == '^';
    if anchoredStart { p := p[1..]; }
    var anchoredEnd := |re| > 0 && re[|re| - 1] == '$';
    var body: seq<Instr> := [];
    ghost var all := EmitBody(p, anchoredEnd);
    while p != "" && (!anchoredEnd || |p| > 1)
      invariant body + EmitBody(p, anchoredEnd) == all
      decreases |p|
    {
      var code, rest := EmitConstruct(p);
      EmitBodyTurn(body, p, anchoredEnd);
      body, p := body + code, rest;
    }
    m := Matcher(anchoredStart, body, anchoredEnd);
  }
}
