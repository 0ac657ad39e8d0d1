/** The text helpers of the generated runtime: `cfg_next_token` and what it splits. The token and
    the text after the overwritten delimiter are returned instead of being written in place. */
module Text {
  import opened Schema

  function SkipLeading(s: string, d: char): (r: string)
    ensures |r| <= |s| && (r != "" ==> r[0] != d)
  {
    if s != "" && s[0] == d then SkipLeading(s[1..], d) else s
  }

  /** The text before the first delimiter. */
  function Head(s: string, d: char): (r: string)
    ensures r <= s && d !in r
  {
    if s == "" || s[0] == d then "" else [s[0]] + Head(s[1..], d)
  }

  datatype Scan = Scan(token: Option<string>, rest: string)

  /** `cfg_next_token(&s, "d")`. */
  function NextToken(s: string, d: char): (r: Scan)
    ensures r.token.Some? ==> |r.rest| < |s| && r.token.value != "" && d !in r.token.value
  {
    var t := SkipLeading(s, d);
    if t == "" then Scan(None, "")
    else
      var token := Head(t, d);
      Scan(Some(token), if |token| < |t| then t[|token| + 1..] else "")
  }

  function Tokens(s: string, d: char): seq<string>
    decreases |s|
  {
    var n := NextToken(s, d);
    if n.token.None? then [] else [n.token.value] + Tokens(n.rest, d)
  }

  /** `while (token && num_parts < 32)`. */
  method SplitParts(s: string, d: char, limit: nat) returns (parts: seq<string>)
    ensures parts == if |Tokens(s, d)| <= limit then Tokens(s, d) else Tokens(s, d)[..limit]
  {
    parts := [];
    var n := NextToken(s, d);
    ghost var before := s;
    while n.token.Some? && |parts| < limit
      invariant |parts| <= limit
      invariant n == NextToken(before, d)
      invariant parts + Tokens(before, d) == Tokens(s, d)
      decreases |before|
    {
      TokensTurn(parts, before, d);
      before := n.rest;
      parts := parts + [n.token.value];
      n := NextToken(n.rest, d);
    }
    if n.token.None? {
      assert parts + [] == parts;
    }
  }

  lemma TokensTurn(parts: seq<string>, s: string, d: char)
    requires NextToken(s, d).token.Some?
    ensures var n := NextToken(s, d);
            parts + Tokens(s, d) == (parts + [n.token.value]) + Tokens(n.rest, d)
  {
  }

  function Join(parts: seq<string>, d: char): string {
    if parts == [] then "" else if |parts| == 1 then parts[0] else parts[0] + [d] + Join(parts[1..], d)
  }

  predicate Splittable(parts: seq<string>, d: char) {
    forall i :: 0 <= i < |parts| ==> parts[i] != "" && d !in parts[i]
  }

  lemma {:induction false} HeadOf(t: string, rest: string, d: char)
    requires d !in t && (rest == "" || rest[0] == d)
    ensures Head(t + rest, d) == t
    decreases |t|
  {
    if t == "" {
      assert t + rest == rest;
    } else {
      assert (t + rest)[1..] == t[1..] + rest;
      HeadOf(t[1..], rest, d);
    }
  }

  /** Splitting undoes joining. */
  lemma {:induction false} TokensOfJoin(parts: seq<string>, d: char)
    requires Splittable(parts, d)
    ensures Tokens(Join(parts, d), d) == parts
    decreases |parts|
  {
    if parts != [] {
      var s, t := Join(parts, d), parts[0];
      if |parts| == 1 {
        assert s == t + "";
        HeadOf(t, "", d);
      } else {
        var rest := [d] + Join(parts[1..], d);
        assert s == t + rest;
        HeadOf(t, rest, d);
        assert s[|t| + 1..] == Join(parts[1..], d);
        TokensOfJoin(parts[1..], d);
      }
      assert SkipLeading(s, d) == s;
    }
  }

  lemma JoinInjective(p: seq<string>, q: seq<string>, d: char)
    requires Splittable(p, d) && Splittable(q, d) && Join(p, d) == Join(q, d)
    ensures p == q
  {
    TokensOfJoin(p, d);
    TokensOfJoin(q, d);
  }

  lemma {:induction false} JoinSnoc(parts: seq<string>, n: string, d: char)
    requires parts != []
    ensures Join(parts + [n], d) == Join(parts, d) + [d] + n
    decreases |parts|
  {
    assert (parts + [n])[0] == parts[0] && (parts + [n])[1..] == parts[1..] + [n];
    if |parts| > 1 {
      JoinSnoc(parts[1..], n, d);
    } else {
      assert parts[1..] + [n] == [n];
    }
  }

  /** A character that is in none of the parts, nor the delimiter, is not in the joined text. */
  lemma {:induction false} JoinLacks(parts: seq<string>, d: char, c: char)
    requires c != d && forall i :: 0 <= i < |parts| ==> c !in parts[i]
    ensures c !in Join(parts, d)
    decreases |parts|
  {
    if |parts| > 1 {
      JoinLacks(parts[1..], d, c);
    }
  }
}
