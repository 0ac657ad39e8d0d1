/** The string interner. Names are compared by address everywhere in the front end, which is right
    only because equal texts always intern to one and the same record. */
module Interner {
  import opened Schema
  import opened HashMap

  // ----- The history of texts -----

  /** The texts in dense order after one more is interned. */
  function Register(known: seq<string>, t: string): seq<string> {
    if t in known then known else known + [t]
  }

  function RegisterAll(known: seq<string>, ts: seq<string>): seq<string> {
    if ts == [] then known else Register(RegisterAll(known, ts[..|ts| - 1]), ts[|ts| - 1])
  }

  predicate NoRepeats(known: seq<string>) {
    forall i, j :: 0 <= i < j < |known| ==> known[i] != known[j]
  }

  /** The dense index handed out when `ts[i]` was interned, in the middle of the run. */
  ghost predicate IssuedAt(known: seq<string>, ts: seq<string>, i: nat, index: nat)
    requires i < |ts|
  {
    var then_ := RegisterAll(known, ts[..i + 1]);
    index < |then_| && then_[index] == ts[i]
  }

  lemma {:induction false} RegisterAllKeeps(known: seq<string>, ts: seq<string>)
    requires NoRepeats(known)
    ensures known <= RegisterAll(known, ts) && NoRepeats(RegisterAll(known, ts))
    ensures forall t :: t in RegisterAll(known, ts) <==> t in known + ts
    decreases |ts|
  {
    if ts != [] {
      var n := |ts| - 1;
      RegisterAllKeeps(known, ts[..n]);
      assert ts == ts[..n] + [ts[n]];
    }
  }

  lemma {:induction false} RegisterAllSplits(known: seq<string>, us: seq<string>, vs: seq<string>)
    ensures RegisterAll(known, us + vs) == RegisterAll(RegisterAll(known, us), vs)
    decreases |vs|
  {
    if vs == [] {
      assert us + vs == us;
    } else {
      var n := |vs| - 1;
      assert (us + vs)[..|us + vs| - 1] == us + vs[..n];
      RegisterAllSplits(known, us, vs[..n]);
    }
  }

  /** Over any run, whatever was interned before it, two calls were given the same dense index
      exactly when their texts are the same; an index once issued is never moved. */
  lemma {:induction false} SameIndexIffSameText(known: seq<string>, ts: seq<string>, i: nat, j: nat, a: nat, b: nat)
    requires NoRepeats(known) && i < |ts| && j < |ts|
    requires IssuedAt(known, ts, i, a) && IssuedAt(known, ts, j, b)
    ensures a == b <==> ts[i] == ts[j]
    ensures a < |RegisterAll(known, ts)| && RegisterAll(known, ts)[a] == ts[i]
  {
    RegisterAllKeeps(known, ts);
    RegisterPrefix(known, ts, i + 1);
    RegisterPrefix(known, ts, j + 1);
  }

  lemma {:induction false} RegisterPrefix(known: seq<string>, ts: seq<string>, n: nat)
    requires NoRepeats(known) && n <= |ts|
    ensures RegisterAll(known, ts[..n]) <= RegisterAll(known, ts)
  {
    assert ts == ts[..n] + ts[n..];
    RegisterAllSplits(known, ts[..n], ts[n..]);
    RegisterAllKeeps(known, ts[..n]);
    RegisterAllKeeps(RegisterAll(known, ts[..n]), ts[n..]);
  }

  // ----- The table -----

  class InternResult<M> {
    const text: string
    const index: nat
    const meta: M

    constructor (text: string, index: nat, meta: M)
      ensures this.text == text && this.index == index && this.meta == meta
    {
      this.text, this.index, this.meta := text, index, meta;
    }
  }

  function Texts<M>(dense: seq<InternResult<M>>): (r: seq<string>)
    ensures |r| == |dense| && forall i :: 0 <= i < |r| ==> r[i] == dense[i].text
  {
    seq(|dense|, i requires 0 <= i < |dense| => dense[i].text)
  }

  /** Index, array and map agree: the dense array is a bijection between indices and texts. */
  ghost predicate Canonical<M>(model: map<string, InternResult<M>>, dense: seq<InternResult<M>>) {
    (forall i :: 0 <= i < |dense| ==> dense[i].index == i && Get(model, dense[i].text) == Some(dense[i])) &&
    (forall t :: t in model ==> model[t].text == t && model[t].index < |dense| && dense[model[t].index] == model[t])
  }

  lemma TextsGrow<M>(dense: seq<InternResult<M>>, r: InternResult<M>)
    ensures Texts(dense + [r]) == Texts(dense) + [r.text]
  {
  }

  lemma CanonicalGrows<M>(model: map<string, InternResult<M>>, dense: seq<InternResult<M>>, r: InternResult<M>)
    requires Canonical(model, dense) && r.text !in model && r.index == |dense|
    ensures Canonical(model[r.text := r], dense + [r])
  {
    forall i | 0 <= i < |dense|
      ensures Get(model[r.text := r], dense[i].text) == Some(dense[i])
    {
      assert Get(model, dense[i].text) == Some(dense[i]);
    }
  }

  lemma CanonicalTexts<M>(model: map<string, InternResult<M>>, dense: seq<InternResult<M>>)
    requires Canonical(model, dense)
    ensures NoRepeats(Texts(dense)) && forall t :: t in model <==> t in Texts(dense)
  {
    forall t | t in model ensures t in Texts(dense) {
      assert Texts(dense)[model[t].index] == t;
    }
    forall i | 0 <= i < |dense| ensures Texts(dense)[i] in model {
      assert Get(model, dense[i].text) == Some(dense[i]);
    }
    forall i, j | 0 <= i < j < |dense| ensures Texts(dense)[i] != Texts(dense)[j] {
      assert Get(model, dense[i].text) == Some(dense[i]) && Get(model, dense[j].text) == Some(dense[j]);
    }
  }

  /** The records handed out for a run of texts, all still at their places in the array. */
  ghost predicate Issued<M>(dense: seq<InternResult<M>>, texts: seq<string>, rs: seq<InternResult<M>>) {
    |rs| == |texts| &&
    forall i :: 0 <= i < |rs| ==> rs[i].text == texts[i] && rs[i].index < |dense| && dense[rs[i].index] == rs[i]
  }

  lemma IssuedIsCanonical<M>(
    model: map<string, InternResult<M>>, dense: seq<InternResult<M>>, texts: seq<string>, rs: seq<InternResult<M>>)
    requires Canonical(model, dense) && Issued(dense, texts, rs)
    ensures forall i, j :: 0 <= i < |rs| && 0 <= j < |rs| ==> (rs[i] == rs[j] <==> texts[i] == texts[j])
  {
    forall i | 0 <= i < |rs| ensures Get(model, texts[i]) == Some(rs[i]) {
      assert dense[rs[i].index].text == texts[i];
    }
  }

  lemma IssuedGrows<M>(
    was: seq<InternResult<M>>, dense: seq<InternResult<M>>, texts: seq<string>, rs: seq<InternResult<M>>, r: InternResult<M>)
    requires texts != [] && Issued(was, texts[..|texts| - 1], rs) && was <= dense
    requires r.text == texts[|texts| - 1] && r.index < |dense| && dense[r.index] == r
    ensures Issued(dense, texts, rs + [r])
  {
  }

  class DenseInterner<M> {
    const table: HashMap<string, InternResult<M>>
    var dense: seq<InternResult<M>>
    var nextIndex: nat

    ghost predicate Valid()
      reads this, table, table.buckets
    {
      table.Valid() && Canonical(table.model, dense) && |dense| == nextIndex == table.size
    }

    constructor (hash: string -> nat, bucketCount: nat)
      ensures Valid() && dense == [] && fresh(table) && fresh(table.buckets)
    {
      table := new HashMap<string, InternResult<M>>(hash, bucketCount);
      dense, nextIndex := [], 0;
    }

    /** `intern`: the record of a text, made at its first call. A refused rehash changes nothing. */
    method Intern(text: string, meta: M, refusal: Refusal) returns (r: InternResult<M>)
      requires Valid()
      modifies this, table, table.buckets
      ensures Valid() && (table.buckets == old(table.buckets) || fresh(table.buckets))
      ensures Texts(dense) == Register(Texts(old(dense)), text)
      ensures r.text == text && r.index < |dense| && dense[r.index] == r && old(dense) <= dense
      ensures text !in Texts(old(dense)) ==> fresh(r) && r.meta == meta
    {
      CanonicalTexts(table.model, dense);
      var found := table.Lookup(text);
      if found.Some? {
        return found.value;
      }
      r := Insert(text, meta, refusal);
    }

    /** The second half of `intern`, for a text not seen before. */
    method Insert(text: string, meta: M, refusal: Refusal) returns (r: InternResult<M>)
      requires Valid() && text !in table.model
      modifies this, table, table.buckets
      ensures Valid() && (table.buckets == old(table.buckets) || fresh(table.buckets))
      ensures fresh(r) && r.text == text && r.index == |old(dense)| && r.meta == meta
      ensures dense == old(dense) + [r] && Texts(dense) == Texts(old(dense)) + [text]
    {
      r := new InternResult<M>(text, nextIndex, meta);
      CanonicalGrows(table.model, dense, r);
      TextsGrow(dense, r);
      var _ := table.Put(text, r, refusal, true);
      dense := dense + [r];
      nextIndex := nextIndex + 1;
    }

    /** `intern_peek` never inserts. */
    method Peek(text: string) returns (r: Option<InternResult<M>>)
      requires Valid()
      ensures r.Some? <==> text in Texts(dense)
      ensures r.Some? ==> r.value.text == text && r.value.index < |dense| && dense[r.value.index] == r.value
    {
      CanonicalTexts(table.model, dense);
      r := table.Lookup(text);
    }

    /** `interner_get_result`: negative and too large indices give nothing. */
    method GetResult(i: int) returns (r: Option<InternResult<M>>)
      requires Valid()
      ensures r.Some? <==> 0 <= i < |dense|
      ensures r.Some? ==> r.value.index == i && r.value.text == Texts(dense)[i]
    {
      if i < 0 || i >= |dense| {
        return None;
      }
      return Some(dense[i]);
    }

    /** `interner_get_cstr` also consults the counter, which never differs from the array's length. */
    method GetText(i: int) returns (r: Option<string>)
      requires Valid()
      ensures r == if 0 <= i < |Texts(dense)| then Some(Texts(dense)[i]) else None
    {
      if i < 0 || i >= nextIndex {
        return None;
      }
      var result := GetResult(i);
      return if result.Some? then Some(result.value.text) else None;
    }

    /** Any run of calls: two of them return the same object exactly when their texts are equal. */
    method InternAll(texts: seq<string>, metas: seq<M>, refusals: seq<Refusal>) returns (rs: seq<InternResult<M>>)
      requires Valid() && |texts| == |metas| == |refusals|
      modifies this, table, table.buckets
      ensures Valid() && Issued(dense, texts, rs) && Texts(dense) == RegisterAll(Texts(old(dense)), texts)
      ensures forall i, j :: 0 <= i < |rs| && 0 <= j < |rs| ==> (rs[i] == rs[j] <==> texts[i] == texts[j])
    {
      rs := InternRun(texts, metas, refusals);
      IssuedIsCanonical(table.model, dense, texts, rs);
    }

    method InternRun(texts: seq<string>, metas: seq<M>, refusals: seq<Refusal>) returns (rs: seq<InternResult<M>>)
      requires Valid() && |texts| == |metas| == |refusals|
      modifies this, table, table.buckets
      decreases |texts|
      ensures Valid() && (table.buckets == old(table.buckets) || fresh(table.buckets))
      ensures Issued(dense, texts, rs) && Texts(dense) == RegisterAll(Texts(old(dense)), texts)
    {
      if texts == [] {
        return [];
      }
      var n := |texts| - 1;
      rs := InternRun(texts[..n], metas[..n], refusals[..n]);
      ghost var was := dense;
      var r := Intern(texts[n], metas[n], refusals[n]);
      IssuedGrows(was, dense, texts, rs, r);
      rs := rs + [r];
    }
  }
}
