/** Integer and decimal literals as the parser reads them from a token's text. */
module Numbers {
  import opened Schema
  import opened Characters

  const MAX_UNSIGNED: nat := 0xFFFF_FFFF_FFFF_FFFF
  const MAX_SIGNED: nat := 0x7FFF_FFFF_FFFF_FFFF

  predicate AllDigits(s: string) { forall i :: 0 <= i < |s| ==> IsDigit(s[i]) }

  function DigitValue(c: char): nat
    requires IsDigit(c)
  {
    c as int - '0' as int
  }

  /** The number a run of digits denotes; no digits denote zero. */
  function Magnitude(s: string): nat
    requires AllDigits(s)
  {
    if s == [] then 0 else Magnitude(s[..|s| - 1]) * 10 + DigitValue(s[|s| - 1])
  }

  function Digits(s: string): string {
    if s != [] && s[0] == '-' then s[1..] else s
  }

  function Signed(neg: bool, n: int): int {
    if neg then -n else n
  }

  /** The mathematical value of `-`? digits, if the text has that form. */
  function Denotes(s: string): Option<int> {
    if AllDigits(Digits(s)) then Some(Signed(Digits(s) != s, Magnitude(Digits(s)))) else None
  }

  /** The literals that are accepted: those whose value fits a signed 64-bit word. */
  function IntValue(s: string): Option<int> {
    if Denotes(s).Some? && -(MAX_SIGNED as int) - 1 <= Denotes(s).value <= MAX_SIGNED then Denotes(s) else None
  }

  lemma {:induction false} MagnitudeGrows(s: string, i: nat)
    requires i <= |s| && AllDigits(s)
    ensures Magnitude(s[..i]) <= Magnitude(s)
    decreases |s|
  {
    if i == |s| {
      assert s[..i] == s;
    } else {
      assert s[..|s| - 1][..i] == s[..i];
      MagnitudeGrows(s[..|s| - 1], i);
    }
  }

  lemma {:induction false} TooLargeStaysTooLarge(s: string, i: nat)
    requires i <= |s| && AllDigits(s[..i]) && Magnitude(s[..i]) > MAX_UNSIGNED
    ensures !AllDigits(s) || Magnitude(s) > MAX_UNSIGNED
  {
    if AllDigits(s) {
      MagnitudeGrows(s, i);
    }
  }

  /** The overflow test is exact. */
  lemma WouldWrap(val: nat, d: nat)
    requires d < 10
    ensures val > (MAX_UNSIGNED - d) / 10 <==> val * 10 + d > MAX_UNSIGNED
  {
  }

  /** `parse_int_lit`. The accumulator is an unsigned 64-bit word that never wraps. */
  method ParseIntLit(s: string) returns (r: Option<int>)
    ensures r == IntValue(s)
  {
    var val: nat := 0;
    var i := 0;
    var neg := false;
    if |s| > 0 && s[0] == '-' {
      neg := true;
      i := 1;
    }
    ghost var digits := Digits(s);
    ghost var from := i;
    while i < |s|
      invariant from <= i <= |s| && digits == s[from..]
      invariant AllDigits(digits[..i - from]) && val == Magnitude(digits[..i - from])
      invariant val <= MAX_UNSIGNED
    {
      assert digits[i - from] == s[i];
      if s[i] < '0' || s[i] > '9' {
        return None;
      }
      var d := s[i] as int - '0' as int;
      assert digits[..i + 1 - from][..i - from] == digits[..i - from];
      if val > (MAX_UNSIGNED - d) / 10 {
        WouldWrap(val, d);
        TooLargeStaysTooLarge(digits, i + 1 - from);
        return None;
      }
      WouldWrap(val, d);
      val := val * 10 + d;
      i := i + 1;
    }
    assert digits[..i - from] == digits;
    if val > (if neg then MAX_SIGNED + 1 else MAX_SIGNED) {
      return None;
    }
    return Some(Signed(neg, val));
  }

  // ----- Writing a number and reading it back -----

  function DigitChar(d: nat): (c: char)
    requires d < 10
    ensures IsDigit(c) && DigitValue(c) == d
  {
    ('0' as int + d) as char
  }

  /** The shortest digits of a natural number. */
  function Decimal(n: nat): (s: string)
    ensures AllDigits(s) && s != [] && Magnitude(s) == n
  {
    if n < 10 then [DigitChar(n)]
    else
      var s := Decimal(n / 10) + [DigitChar(n % 10)];
      assert s[..|s| - 1] == Decimal(n / 10);
      s
  }

  function Literally(n: int): string {
    if n < 0 then ['-'] + Decimal(-n) else Decimal(n)
  }

  /** Every value of the type, the least one included, is read back from its own digits, with any
      number of leading zeros; the neighbours outside are refused. */
  lemma ReadsBackExactly(n: int)
    ensures IntValue(Literally(n)) == if -(MAX_SIGNED as int) - 1 <= n <= MAX_SIGNED then Some(n) else None
  {
    var s := Literally(n);
    if n < 0 {
      assert Digits(s) == Decimal(-n);
    } else {
      assert s[0] != '-' by { assert IsDigit(s[0]); }
    }
  }

  lemma {:induction false} LeadingZeros(zeros: nat, s: string)
    requires AllDigits(s)
    ensures AllDigits(seq(zeros, _ => '0') + s)
    ensures Magnitude(seq(zeros, _ => '0') + s) == Magnitude(s)
    decreases |s|, zeros
  {
    var z := seq(zeros, _ => '0');
    if s != [] {
      assert (z + s)[..|z + s| - 1] == z + s[..|s| - 1];
      LeadingZeros(zeros, s[..|s| - 1]);
    } else if zeros > 0 {
      assert z + s == seq(zeros - 1, _ => '0') + "" + ['0'];
      assert (z + s)[..|z + s| - 1] == seq(zeros - 1, _ => '0') + "";
      LeadingZeros(zeros - 1, s);
    }
  }

  // ----- Decimals, as exact numbers -----

  function PowerOfTen(n: nat): real {
    if n == 0 then 1.0 else 10.0 * PowerOfTen(n - 1)
  }

  lemma PowerOfTenPositive(n: nat)
    ensures PowerOfTen(n) > 0.0
  {
  }

  /** Where the decimal point stands, or the length. */
  function PointAt(s: string): (i: nat)
    ensures i <= |s|
  {
    if s == [] || s[0] == '.' then 0 else 1 + PointAt(s[1..])
  }

  /** `-`? digits `.` digits, the only texts decimal tokens have. */
  function FloatValue(s: string): Option<real> {
    var u := Digits(s);
    var p := PointAt(u);
    if 0 < p && p + 1 < |u| && AllDigits(u[..p]) && AllDigits(u[p + 1..]) then
      PowerOfTenPositive(|u| - p - 1);
      var x := Magnitude(u[..p]) as real + Magnitude(u[p + 1..]) as real / PowerOfTen(|u| - p - 1);
      Some(if u == s then x else -x)
    else None
  }
}
