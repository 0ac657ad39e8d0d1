/** What an emitted matcher does when it runs on a NUL-terminated string. */
module RegexMatcher {
  import opened RegexCompiler

  predicate TestHolds(t: Test, c: char) {
    match t
    case Eq(x) => c == x
    case Ne(x) => c != x
    case Within(lo, hi) => c >= lo && c <= hi
    case Outside(lo, hi) => c < lo || c > hi
  }

  predicate ConditionHolds(cond: Condition, c: char) {
    if cond.negated then forall i :: 0 <= i < |cond.tests| ==> TestHolds(cond.tests[i], c)
    else exists i :: 0 <= i < |cond.tests| && TestHolds(cond.tests[i], c)
  }

  /** Where the cursor is, that the attempt failed, or that `*p` was read outside the string. */
  datatype Outcome = Cursor(p: int) | Fail | OutOfBounds

  predicate Readable(s: string, p: int) {
    0 <= p <= |s|
  }

  function CharAt(s: string, p: int): char
    requires Readable(s, p)
  {
    if p < |s| then s[p] else '\0'
  }

  function SkipClass(cond: Condition, s: string, p: nat): (q: nat)
    requires p <= |s|
    ensures p <= q <= |s|
    decreases |s| - p
  {
    if CharAt(s, p) != '\0' && ConditionHolds(cond, CharAt(s, p)) && p < |s| then SkipClass(cond, s, p + 1) else p
  }

  function SkipChar(c: char, s: string, p: nat): (q: nat)
    requires p <= |s|
    ensures p <= q <= |s|
    decreases |s| - p
  {
    if CharAt(s, p) == c && p < |s| then SkipChar(c, s, p + 1) else p
  }

  function Step(i: Instr, s: string, p: int): Outcome {
    if i == Advance then Cursor(p + 1)
    else if i == Retreat then Cursor(p - 1)
    else if !Readable(s, p) then OutOfBounds
    else
      match i
      case NeedAny => if CharAt(s, p) == '\0' then Fail else Cursor(p)
      case NeedClass(cond) =>
        if CharAt(s, p) == '\0' || !ConditionHolds(cond, CharAt(s, p)) then Fail else Cursor(p)
      case NeedChar(c) => if CharAt(s, p) != c then Fail else Cursor(p)
      case WhileClass(cond) => Cursor(SkipClass(cond, s, p))
      case WhileChar(c) => Cursor(SkipChar(c, s, p))
  }

  function Run(body: seq<Instr>, s: string, p: int): Outcome {
    if body == [] then Cursor(p)
    else
      var o := Step(body[0], s, p);
      if o.Cursor? then Run(body[1..], s, o.p) else o
  }

  datatype Verdict = Accept | Reject | Crash

  /** One attempt, from a fixed start. */
  function Attempt(m: Matcher, s: string, start: nat): Verdict {
    match Run(m.body, s, start)
    case Fail => Reject
    case OutOfBounds => Crash
    case Cursor(p) =>
      if !m.anchoredEnd then Accept
      else if !Readable(s, p) then Crash
      else if CharAt(s, p) == '\0' then Accept else Reject
  }

  /** `for (; *start != '\0'; start++)`. */
  function Search(m: Matcher, s: string, start: nat): Verdict
    decreases |s| - start
  {
    if start >= |s| then Reject
    else
      var v := Attempt(m, s, start);
      if v == Reject then Search(m, s, start + 1) else v
  }

  function Match(m: Matcher, s: string): Verdict {
    if m.anchoredStart then Attempt(m, s, 0) else Search(m, s, 0)
  }

  /** The loop over the statements of one attempt. */
  method RunBody(body: seq<Instr>, s: string, start: int) returns (o: Outcome)
    ensures o == Run(body, s, start)
  {
    o := Cursor(start);
    var i := 0;
    while i < |body|
      invariant 0 <= i <= |body|
      invariant o.Cursor?
      invariant Run(body, s, start) == Run(body[i..], s, o.p)
    {
      var next := Step(body[i], s, o.p);
      assert body[i..][0] == body[i] && body[i..][1..] == body[i + 1..];
      if !next.Cursor? {
        return next;
      }
      o, i := next, i + 1;
    }
  }

  /** The emitted function: an outer loop over start positions unless the start is anchored. */
  method Execute(m: Matcher, s: string) returns (v: Verdict)
    ensures v == Match(m, s)
  {
    var start := 0;
    while true
      invariant 0 <= start && (m.anchoredStart ==> start == 0)
      invariant !m.anchoredStart ==> Search(m, s, 0) == Search(m, s, start)
      decreases |s| - start
    {
      if !m.anchoredStart && start >= |s| {
        return Reject;
      }
      var o := RunBody(m.body, s, start);
      if o.OutOfBounds? {
        return Crash;
      }
      if o.Cursor? {
        if !m.anchoredEnd {
          return Accept;
        }
        if !Readable(s, o.p) {
          return Crash;
        }
        if CharAt(s, o.p) == '\0' {
          return Accept;
        }
      }
      if m.anchoredStart {
        return Reject;
      }
      start := start + 1;
    }
  }
}
