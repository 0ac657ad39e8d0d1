/** The hash and the comparison under which texts are interned. */
module Slices {

  const WORD: nat := 0x1_0000_0000_0000_0000

  function XorByte(a: int, b: int): (r: int)
    requires 0 <= a < 256 && 0 <= b < 256
    ensures 0 <= r < 256
  {
    ((a as bv8) ^ (b as bv8)) as int
  }

  /** One byte of FNV-1a: into the low byte of the hash, then times the prime, in 64 bits. */
  function Mix(h: nat, c: char): nat {
    var low := h % 256;
    ((h - low + XorByte(low, c as int % 256)) * 1099511628211) % WORD
  }

  function Fnv(s: string): nat {
    if s == [] then 1469598103934665603 else Mix(Fnv(s[..|s| - 1]), s[|s| - 1])
  }

  /** `slice_hash` */
  method SliceHash(s: string) returns (h: nat)
    ensures h == Fnv(s) && h < WORD
  {
    h := 1469598103934665603;
    for i := 0 to |s|
      invariant h == Fnv(s[..i]) && h < WORD
    {
      assert s[..i + 1][..i] == s[..i];
      h := Mix(h, s[i]);
    }
    assert s[..|s|] == s;
  }

  /** `memcmp` on texts of one length: the sign of the first difference. */
  function CompareBytes(a: string, b: string): (r: int)
    requires |a| == |b|
    ensures -1 <= r <= 1
  {
    if a == [] then 0
    else if a[0] < b[0] then -1
    else if a[0] > b[0] then 1
    else CompareBytes(a[1..], b[1..])
  }

  /** `slice_cmp`: the shorter slice first, whatever it holds. */
  function Compare(a: string, b: string): (r: int)
    ensures -1 <= r <= 1
  {
    if |a| < |b| then -1 else if |a| > |b| then 1 else CompareBytes(a, b)
  }

  lemma {:induction false} BytesCompareAsOrder(a: string, b: string, c: string)
    requires |a| == |b| == |c|
    ensures CompareBytes(a, b) == 0 <==> a == b
    ensures CompareBytes(b, a) == -CompareBytes(a, b)
    ensures CompareBytes(a, b) <= 0 && CompareBytes(b, c) <= 0 ==> CompareBytes(a, c) <= 0
    decreases |a|
  {
    if a != [] {
      BytesCompareAsOrder(a[1..], b[1..], c[1..]);
      assert a == b <==> a[0] == b[0] && a[1..] == b[1..] by {
        assert a == [a[0]] + a[1..] && b == [b[0]] + b[1..];
      }
    }
  }

  /** The comparison is a total order in which only equal texts compare as zero, so a table keyed by
      it holds each text once, and equal keys fall into one bucket. */
  lemma ComparesAsOrder(a: string, b: string, c: string)
    ensures Compare(a, b) == 0 <==> a == b
    ensures Compare(b, a) == -Compare(a, b)
    ensures Compare(a, b) <= 0 && Compare(b, c) <= 0 ==> Compare(a, c) <= 0
    ensures Compare(a, b) == 0 ==> Fnv(a) == Fnv(b)
  {
    if |a| == |b| {
      BytesCompareAsOrder(a, b, if |b| == |c| then c else b);
    }
  }
}
