/** The hash map with separate chaining. It refines a finite map, whether rehashing succeeds,
    fails at once, or runs out of memory half-way. */
module HashMap {
  import opened Schema

  datatype Entry<K, V> = Entry(key: K, value: V)

  /** The value under a key in one bucket. */
  function FindIn<K(==), V>(b: seq<Entry<K, V>>, k: K): Option<V> {
    if b == [] then None else if b[0].key == k then Some(b[0].value) else FindIn(b[1..], k)
  }

  function Get<K(==), V>(m: map<K, V>, k: K): Option<V> {
    if k in m then Some(m[k]) else None
  }

  function TotalLength<K, V>(bs: seq<seq<Entry<K, V>>>): nat {
    if bs == [] then 0 else TotalLength(bs[..|bs| - 1]) + |bs[|bs| - 1]|
  }

  predicate DistinctKeys<K(==), V>(b: seq<Entry<K, V>>) {
    forall i, j :: 0 <= i < j < |b| ==> b[i].key != b[j].key
  }

  /** Each key sits in bucket `hash % count`, and once. */
  predicate Placed<K(==), V>(hash: K -> nat, bs: seq<seq<Entry<K, V>>>) {
    |bs| > 0 &&
    forall i :: 0 <= i < |bs| ==>
      DistinctKeys(bs[i]) && forall j :: 0 <= j < |bs[i]| ==> hash(bs[i][j].key) % |bs| == i
  }

  /** Looking a key up in its bucket gives what the map says, for every key. */
  ghost predicate Represents<K(!new), V>(hash: K -> nat, bs: seq<seq<Entry<K, V>>>, m: map<K, V>) {
    |bs| > 0 && forall k :: FindIn(bs[hash(k) % |bs|], k) == Get(m, k)
  }

  // ----- Buckets -----

  lemma {:induction false} FindAt<K, V>(b: seq<Entry<K, V>>, i: nat)
    requires i < |b| && DistinctKeys(b)
    ensures FindIn(b, b[i].key) == Some(b[i].value)
    decreases |b|
  {
    if i > 0 {
      FindAt(b[1..], i - 1);
    }
  }

  lemma {:induction false} FindNone<K, V>(b: seq<Entry<K, V>>, k: K)
    ensures FindIn(b, k) == None <==> forall i :: 0 <= i < |b| ==> b[i].key != k
    decreases |b|
  {
    if b != [] {
      FindNone(b[1..], k);
      assert forall i :: 0 < i < |b| ==> b[i] == b[1..][i - 1];
    }
  }

  lemma {:induction false} FindAppend<K, V>(b: seq<Entry<K, V>>, e: Entry<K, V>, k: K)
    ensures FindIn(b + [e], k) == if FindIn(b, k).Some? then FindIn(b, k) else if e.key == k then Some(e.value) else None
    decreases |b|
  {
    if b == [] {
      assert b + [e] == [e];
    } else {
      assert (b + [e])[0] == b[0] && (b + [e])[1..] == b[1..] + [e];
      FindAppend(b[1..], e, k);
    }
  }

  lemma {:induction false} FindUpdate<K, V>(b: seq<Entry<K, V>>, i: nat, v: V, k: K)
    requires i < |b| && DistinctKeys(b)
    ensures FindIn(b[i := Entry(b[i].key, v)], k) == if k == b[i].key then Some(v) else FindIn(b, k)
    decreases |b|
  {
    var b' := b[i := Entry(b[i].key, v)];
    if i == 0 {
      assert b'[1..] == b[1..];
    } else {
      assert b'[1..] == b[1..][i - 1 := Entry(b[i].key, v)];
      FindUpdate(b[1..], i - 1, v, k);
    }
  }

  lemma {:induction false} FindRemove<K, V>(b: seq<Entry<K, V>>, i: nat, k: K)
    requires i < |b| && DistinctKeys(b)
    ensures FindIn(b[..i] + b[i + 1..], k) == if k == b[i].key then None else FindIn(b, k)
    decreases |b|
  {
    var b' := b[..i] + b[i + 1..];
    if i == 0 {
      assert b' == b[1..];
      FindNone(b[1..], b[0].key);
    } else {
      assert b'[0] == b[0] && b'[1..] == b[1..][..i - 1] + b[1..][i..];
      FindRemove(b[1..], i - 1, k);
    }
  }

  lemma {:induction false} TotalLengthUpdate<K, V>(bs: seq<seq<Entry<K, V>>>, i: nat, b: seq<Entry<K, V>>)
    requires i < |bs|
    ensures TotalLength(bs[i := b]) == TotalLength(bs) - |bs[i]| + |b|
    decreases |bs|
  {
    var n := |bs| - 1;
    if i == n {
      assert bs[i := b][..n] == bs[..n];
    } else {
      assert bs[i := b][..n] == bs[..n][i := b];
      TotalLengthUpdate(bs[..n], i, b);
    }
  }

  // ----- The whole table, changed in one bucket -----

  ghost predicate TableOf<K(!new), V>(hash: K -> nat, bs: seq<seq<Entry<K, V>>>, m: map<K, V>) {
    Placed(hash, bs) && Represents(hash, bs, m) && TotalLength(bs) == |m|
  }

  lemma {:induction false} KeyAt<K(!new), V>(hash: K -> nat, bs: seq<seq<Entry<K, V>>>, m: map<K, V>, i: nat, j: nat)
    requires TableOf(hash, bs, m) && i < |bs| && j < |bs[i]|
    ensures Get(m, bs[i][j].key) == Some(bs[i][j].value)
  {
    FindAt(bs[i], j);
    assert hash(bs[i][j].key) % |bs| == i;
  }

  lemma {:induction false} TableUpdate<K(!new), V>(hash: K -> nat, bs: seq<seq<Entry<K, V>>>, m: map<K, V>, i: nat, j: nat, v: V)
    requires TableOf(hash, bs, m) && i < |bs| && j < |bs[i]|
    ensures TableOf(hash, bs[i := bs[i][j := Entry(bs[i][j].key, v)]], m[bs[i][j].key := v])
  {
    var b := bs[i][j := Entry(bs[i][j].key, v)];
    var bs', m' := bs[i := b], m[bs[i][j].key := v];
    KeyAt(hash, bs, m, i, j);
    TotalLengthUpdate(bs, i, b);
    assert m'.Keys == m.Keys;
    assert |m'| == |m'.Keys| && |m| == |m.Keys|;
    assert Placed(hash, bs');
    forall k ensures FindIn(bs'[hash(k) % |bs'|], k) == Get(m', k) {
      FindUpdate(bs[i], j, v, k);
      assert FindIn(bs[hash(k) % |bs|], k) == Get(m, k);
    }
  }

  lemma {:induction false} PlacedAppend<K, V>(hash: K -> nat, bs: seq<seq<Entry<K, V>>>, e: Entry<K, V>)
    requires Placed(hash, bs)
    requires FindIn(bs[hash(e.key) % |bs|], e.key) == None
    ensures Placed(hash, bs[hash(e.key) % |bs| := bs[hash(e.key) % |bs|] + [e]])
  {
    FindNone(bs[hash(e.key) % |bs|], e.key);
  }

  lemma {:induction false} TableAppend<K(!new), V>(hash: K -> nat, bs: seq<seq<Entry<K, V>>>, m: map<K, V>, e: Entry<K, V>)
    requires TableOf(hash, bs, m) && e.key !in m
    ensures TableOf(hash, bs[hash(e.key) % |bs| := bs[hash(e.key) % |bs|] + [e]], m[e.key := e.value])
  {
    var i := hash(e.key) % |bs|;
    assert FindIn(bs[i], e.key) == Get(m, e.key) == None;
    var bs', m' := bs[i := bs[i] + [e]], m[e.key := e.value];
    PlacedAppend(hash, bs, e);
    TotalLengthUpdate(bs, i, bs[i] + [e]);
    assert m' - {e.key} == m;
    forall k ensures FindIn(bs'[hash(k) % |bs'|], k) == Get(m', k) {
      FindAppend(bs[i], e, k);
      assert FindIn(bs[hash(k) % |bs|], k) == Get(m, k);
    }
  }

  lemma {:induction false} TableRemove<K(!new), V>(hash: K -> nat, bs: seq<seq<Entry<K, V>>>, m: map<K, V>, i: nat, j: nat)
    requires TableOf(hash, bs, m) && i < |bs| && j < |bs[i]|
    ensures TableOf(hash, bs[i := bs[i][..j] + bs[i][j + 1..]], m - {bs[i][j].key})
    ensures |m| > 0
  {
    var key := bs[i][j].key;
    var b := bs[i][..j] + bs[i][j + 1..];
    var bs', m' := bs[i := b], m - {key};
    KeyAt(hash, bs, m, i, j);
    TotalLengthUpdate(bs, i, b);
    assert m == m'[key := m[key]];
    assert Placed(hash, bs') by {
      assert forall x :: 0 <= x < |b| ==> b[x] == bs[i][if x < j then x else x + 1];
    }
    forall k ensures FindIn(bs'[hash(k) % |bs'|], k) == Get(m', k) {
      FindRemove(bs[i], j, k);
      assert FindIn(bs[hash(k) % |bs|], k) == Get(m, k);
    }
  }

  // ----- Rehashing -----

  /** What looking up `k` gives after the buckets before `i`, and `j` entries of bucket `i`, moved. */
  function MovedValue<K(==), V>(hash: K -> nat, bs: seq<seq<Entry<K, V>>>, i: nat, j: nat, k: K): Option<V>
    requires |bs| > 0 && i <= |bs| && (i < |bs| ==> j <= |bs[i]|)
  {
    var h := hash(k) % |bs|;
    if h < i then FindIn(bs[h], k) else if h == i then FindIn(bs[i][..j], k) else None
  }

  ghost predicate Moved<K(!new), V>(hash: K -> nat, bs: seq<seq<Entry<K, V>>>, i: nat, j: nat, nb: seq<seq<Entry<K, V>>>)
    requires |bs| > 0 && i <= |bs| && (i < |bs| ==> j <= |bs[i]|)
  {
    Placed(hash, nb) && TotalLength(nb) == TotalLength(bs[..i]) + j &&
    forall k :: FindIn(nb[hash(k) % |nb|], k) == MovedValue(hash, bs, i, j, k)
  }

  lemma {:induction false} EmptyTotal<K, V>(nb: seq<seq<Entry<K, V>>>)
    requires forall i :: 0 <= i < |nb| ==> nb[i] == []
    ensures TotalLength(nb) == 0
    decreases |nb|
  {
    if nb != [] {
      EmptyTotal(nb[..|nb| - 1]);
    }
  }

  lemma {:induction false} MovedNone<K(!new), V>(hash: K -> nat, bs: seq<seq<Entry<K, V>>>, nb: seq<seq<Entry<K, V>>>)
    requires |bs| > 0 && |nb| > 0 && forall i :: 0 <= i < |nb| ==> nb[i] == []
    ensures Moved(hash, bs, 0, 0, nb)
  {
    EmptyTotal(nb);
    forall k ensures FindIn(nb[hash(k) % |nb|], k) == MovedValue(hash, bs, 0, 0, k) {
    }
  }

  lemma {:induction false} MovedEntry<K(!new), V>(
    hash: K -> nat, bs: seq<seq<Entry<K, V>>>, i: nat, j: nat, nb: seq<seq<Entry<K, V>>>)
    requires Placed(hash, bs) && i < |bs| && j < |bs[i]|
    requires Moved(hash, bs, i, j, nb)
    ensures (var e := bs[i][j];
             var at := hash(e.key) % |nb|;
             Moved(hash, bs, i, j + 1, nb[at := nb[at] + [e]]))
  {
    var e := bs[i][j];
    var at := hash(e.key) % |nb|;
    assert hash(e.key) % |bs| == i;
    FindNone(bs[i][..j], e.key);
    assert FindIn(nb[at], e.key) == MovedValue(hash, bs, i, j, e.key) == None;
    PlacedAppend(hash, nb, e);
    var nb' := nb[at := nb[at] + [e]];
    TotalLengthUpdate(nb, at, nb[at] + [e]);
    assert bs[i][..j + 1] == bs[i][..j] + [e];
    forall k ensures FindIn(nb'[hash(k) % |nb'|], k) == MovedValue(hash, bs, i, j + 1, k) {
      FindAppend(nb[at], e, k);
      FindAppend(bs[i][..j], e, k);
      assert FindIn(nb[hash(k) % |nb|], k) == MovedValue(hash, bs, i, j, k);
    }
  }

  lemma {:induction false} MovedBucket<K(!new), V>(hash: K -> nat, bs: seq<seq<Entry<K, V>>>, i: nat, nb: seq<seq<Entry<K, V>>>)
    requires i < |bs| && Moved(hash, bs, i, |bs[i]|, nb)
    ensures Moved(hash, bs, i + 1, 0, nb)
  {
    assert bs[i][..|bs[i]|] == bs[i];
    assert bs[..i + 1][..i] == bs[..i];
    forall k ensures FindIn(nb[hash(k) % |nb|], k) == MovedValue(hash, bs, i + 1, 0, k) {
      assert FindIn(nb[hash(k) % |nb|], k) == MovedValue(hash, bs, i, |bs[i]|, k);
      assert i + 1 < |bs| ==> bs[i + 1][..0] == [];
    }
  }

  lemma {:induction false} MovedAll<K(!new), V>(
    hash: K -> nat, bs: seq<seq<Entry<K, V>>>, nb: seq<seq<Entry<K, V>>>, m: map<K, V>)
    requires TableOf(hash, bs, m) && Moved(hash, bs, |bs|, 0, nb)
    ensures TableOf(hash, nb, m)
  {
    assert bs[..|bs|] == bs;
    forall k ensures FindIn(nb[hash(k) % |nb|], k) == Get(m, k) {
      assert FindIn(nb[hash(k) % |nb|], k) == MovedValue(hash, bs, |bs|, 0, k);
    }
  }

  /** Where the allocator first refuses: `Some(0)` is the new bucket array, `Some(n)` the n-th move. */
  type Refusal = Option<nat>

  /** One push into the new buckets. */
  method MoveEntry<K(!new, ==), V>(
    hash: K -> nat, ghost bs: seq<seq<Entry<K, V>>>, ghost i: nat, ghost j: nat, e: Entry<K, V>, rebuilt: array<seq<Entry<K, V>>>)
    requires Placed(hash, bs) && i < |bs| && j < |bs[i]| && e == bs[i][j]
    requires Moved(hash, bs, i, j, rebuilt[..])
    modifies rebuilt
    ensures Moved(hash, bs, i, j + 1, rebuilt[..])
  {
    MovedEntry(hash, bs, i, j, rebuilt[..]);
    var at := hash(e.key) % rebuilt.Length;
    ghost var was := rebuilt[..];
    rebuilt[at] := rebuilt[at] + [e];
    assert rebuilt[..] == was[at := was[at] + [e]];
  }

  /** The inner loop of rehashing: one old bucket, entry by entry, until the allocator refuses. */
  method MoveBucket<K(!new, ==), V>(
    hash: K -> nat, ghost bs: seq<seq<Entry<K, V>>>, ghost i: nat, bucket: seq<Entry<K, V>>, rebuilt: array<seq<Entry<K, V>>>,
    movedBefore: nat, refusal: Refusal)
    returns (moved: nat, ok: bool)
    requires Placed(hash, bs) && i < |bs| && bucket == bs[i]
    requires Moved(hash, bs, i, 0, rebuilt[..])
    requires movedBefore == TotalLength(bs[..i]) && (refusal == None || movedBefore < refusal.value)
    modifies rebuilt
    ensures ok ==> Moved(hash, bs, i, |bucket|, rebuilt[..])
    ensures ok ==> moved == movedBefore + |bucket| && (refusal == None || moved < refusal.value)
    ensures !ok ==> refusal.Some? && refusal.value <= TotalLength(bs)
  {
    moved := movedBefore;
    for j := 0 to |bucket|
      invariant Moved(hash, bs, i, j, rebuilt[..])
      invariant moved == movedBefore + j && (refusal == None || moved < refusal.value)
    {
      moved := moved + 1;
      if refusal == Some(moved) {
        Crossed(bs, i, j);
        return moved, false;
      }
      MoveEntry(hash, bs, i, j, bucket[j], rebuilt);
    }
    ok := true;
  }

  class HashMap<K(!new, ==), V> {
    const hash: K -> nat
    var buckets: array<seq<Entry<K, V>>>
    var size: nat
    ghost var model: map<K, V>

    ghost predicate Valid()
      reads this, buckets
    {
      TableOf(hash, buckets[..], model) && size == |model|
    }

    /** `hashmap_create`; zero buckets asks for the default 64. */
    constructor (hash: K -> nat, bucketCount: nat)
      ensures Valid() && model == map[] && fresh(buckets) && this.hash == hash
    {
      this.hash := hash;
      buckets := new seq<Entry<K, V>>[if bucketCount == 0 then 64 else bucketCount](_ => []);
      size := 0;
      model := map[];
      new;
      EmptyTotal(buckets[..]);
      assert forall i :: 0 <= i < buckets.Length ==> buckets[..][i] == [];
    }

    /** `hashmap_rehash`: on any refusal the old buckets stay. */
    method Rehash(newCount: nat, refusal: Refusal) returns (ok: bool)
      requires Valid()
      modifies this`buckets
      ensures Valid() && (buckets == old(buckets) || fresh(buckets))
      ensures ok <==> newCount > 0 && (refusal == None || refusal.value > size)
      ensures if ok then buckets.Length == newCount else buckets == old(buckets)
    {
      if newCount == 0 || refusal == Some(0) {
        return false;
      }
      var rebuilt := new seq<Entry<K, V>>[newCount](_ => []);
      ghost var bs := buckets[..];
      assert forall i :: 0 <= i < newCount ==> rebuilt[..][i] == [];
      MovedNone(hash, bs, rebuilt[..]);
      var moves := 0;
      for i := 0 to buckets.Length
        invariant buckets == old(buckets) && buckets[..] == bs && fresh(rebuilt) && rebuilt.Length == newCount
        invariant Moved(hash, bs, i, 0, rebuilt[..])
        invariant moves == TotalLength(bs[..i]) && (refusal == None || moves < refusal.value)
      {
        moves, ok := MoveBucket(hash, bs, i, buckets[i], rebuilt, moves, refusal);
        if !ok {
          return;
        }
        assert bs[..i + 1][..i] == bs[..i];
        MovedBucket(hash, bs, i, rebuilt[..]);
        assert bs[..i + 1][..i] == bs[..i];
      }
      MovedAll(hash, bs, rebuilt[..], model);
      assert bs[..|bs|] == bs;
      buckets := rebuilt;
      return true;
    }

    /** `hashmap_put`. `refusal` is what rehashing meets, `room` whether the bucket can grow. */
    method Put(key: K, value: V, refusal: Refusal, room: bool) returns (ok: bool)
      requires Valid()
      modifies this, buckets
      ensures Valid() && (buckets == old(buckets) || fresh(buckets))
      ensures ok == (key in old(model) || room)
      ensures model == if ok then old(model)[key := value] else old(model)
    {
      if size >= (buckets.Length * 3) / 4 {
        var _ := Rehash(buckets.Length * 2, refusal);
      }
      var at := hash(key) % buckets.Length;
      ghost var bs := buckets[..];
      var i, found := Search(at, key);
      if found {
        TableUpdate(hash, bs, model, at, i, value);
        KeyAt(hash, bs, model, at, i);
        buckets[at] := buckets[at][i := Entry(buckets[at][i].key, value)];
        model := model[key := value];
        assert buckets[..] == bs[at := bs[at][i := Entry(key, value)]];
        return true;
      }
      FindNone(bs[at], key);
      assert FindIn(bs[at], key) == Get(model, key);
      if !room {
        return false;
      }
      TableAppend(hash, bs, model, Entry(key, value));
      buckets[at] := buckets[at] + [Entry(key, value)];
      model := model[key := value];
      assert buckets[..] == bs[at := bs[at] + [Entry(key, value)]];
      size := size + 1;
      return true;
    }

    /** The loop the three operations share: the position of a key in its bucket. */
    method Search(at: nat, key: K) returns (i: nat, found: bool)
      requires at < buckets.Length
      ensures found ==> i < |buckets[at]| && buckets[at][i].key == key
      ensures !found ==> forall x :: 0 <= x < |buckets[at]| ==> buckets[at][x].key != key
    {
      i := 0;
      while i < |buckets[at]|
        invariant i <= |buckets[at]|
        invariant forall x :: 0 <= x < i ==> buckets[at][x].key != key
      {
        if buckets[at][i].key == key {
          return i, true;
        }
        i := i + 1;
      }
      return i, false;
    }

    method Lookup(key: K) returns (r: Option<V>)
      requires Valid()
      ensures r == Get(model, key)
    {
      var at := hash(key) % buckets.Length;
      var i, found := Search(at, key);
      FindNone(buckets[..][at], key);
      assert FindIn(buckets[..][at], key) == Get(model, key);
      if found {
        KeyAt(hash, buckets[..], model, at, i);
        return Some(buckets[at][i].value);
      }
      return None;
    }

    method Remove(key: K) returns (ok: bool)
      requires Valid()
      modifies this`size, this`model, buckets
      ensures Valid() && ok == (key in old(model)) && model == old(model) - {key}
    {
      var at := hash(key) % buckets.Length;
      ghost var bs := buckets[..];
      var i, found := Search(at, key);
      FindNone(bs[at], key);
      assert FindIn(bs[at], key) == Get(model, key);
      if !found {
        return false;
      }
      KeyAt(hash, bs, model, at, i);
      TableRemove(hash, bs, model, at, i);
      buckets[at] := buckets[at][..i] + buckets[at][i + 1..];
      assert buckets[..] == bs[at := bs[at][..i] + bs[at][i + 1..]];
      model := model - {key};
      size := size - 1;
      return true;
    }
  }

  /** An entry not moved yet is still in the count. */
  lemma {:induction false} Crossed<K, V>(bs: seq<seq<Entry<K, V>>>, i: nat, j: nat)
    requires i < |bs| && j < |bs[i]|
    ensures TotalLength(bs[..i]) + j < TotalLength(bs)
    decreases |bs|
  {
    var n := |bs| - 1;
    if i < n {
      assert bs[..n][..i] == bs[..i];
      Crossed(bs[..n], i, j);
    }
  }
}
