/** The growable array that holds tokens, buckets, scopes' stacks and emitted lists elsewhere in
    this model as sequences. */
module DynArray {

  class DynArray<T> {
    var data: array<T>
    var count: nat
    const filler: T     // what freshly allocated memory holds

    ghost predicate Valid()
      reads this
    {
      count <= data.Length
    }

    /** The sequence it stands for. */
    ghost function Contents(): (s: seq<T>)
      requires Valid()
      reads this, data
    {
      data[..count]
    }

    constructor (filler: T)
      ensures Valid() && Contents() == [] && fresh(data) && data.Length == 0 && this.filler == filler
    {
      this.filler := filler;
      data := new T[0](_ => filler);
      count := 0;
    }

    /** `dynarray_reserve`. `granted` says whether the allocator delivers. */
    method Reserve(atLeast: nat, granted: bool) returns (ok: bool)
      requires Valid()
      modifies this`data
      ensures Valid() && Contents() == old(Contents()) && count == old(count)
      ensures ok == (old(data.Length) >= atLeast || granted)
      ensures ok ==> data.Length >= atLeast
      ensures data.Length == old(data.Length) || data.Length == 8 || data.Length < 2 * atLeast
      ensures data == old(data) || fresh(data)
    {
      if data.Length >= atLeast {
        return true;
      }
      var capacity := if data.Length > 0 then data.Length * 2 else 8;
      while capacity < atLeast
        invariant capacity > 0 && capacity >= data.Length
        invariant capacity == 8 || capacity < 2 * atLeast
        decreases atLeast - capacity
      {
        capacity := capacity * 2;
      }
      if !granted {
        return false;
      }
      var bigger := new T[capacity](_ => filler);
      var i := 0;
      while i < count
        invariant 0 <= i <= count <= data.Length <= bigger.Length
        invariant data == old(data) && data[..] == old(data[..]) && count == old(count)
        invariant bigger[..i] == data[..i]
      {
        bigger[i] := data[i];
        i := i + 1;
      }
      data := bigger;
      ok := true;
    }

    /** `dynarray_push_value`: on failure nothing changes. */
    method Push(x: T, granted: bool) returns (ok: bool)
      requires Valid()
      modifies this, data
      ensures Valid() && (data == old(data) || fresh(data))
      ensures Contents() == if ok then old(Contents()) + [x] else old(Contents())
      ensures granted ==> ok
    {
      ok := Reserve(count + 1, granted);
      if ok {
        data[count] := x;
        count := count + 1;
      }
    }

    method Pop()
      requires Valid()
      modifies this`count
      ensures Valid()
      ensures Contents() == if old(Contents()) == [] then [] else old(Contents())[..|old(Contents())| - 1]
    {
      if count > 0 {
        count := count - 1;
      }
    }

    /** `dynarray_remove`: the elements behind move forward by one. */
    method Remove(index: nat)
      requires Valid()
      modifies this`count, data
      ensures Valid()
      ensures Contents() == if index < |old(Contents())| then old(Contents())[..index] + old(Contents())[index + 1..]
                            else old(Contents())
    {
      if index >= count {
        return;
      }
      var i := index;
      while i + 1 < count
        invariant index <= i < count <= data.Length && count == old(count) && data == old(data)
        invariant data[..i] == old(data[..index]) + old(data[index + 1..i + 1])
        invariant data[i + 1..] == old(data[i + 1..])
      {
        data[i] := data[i + 1];
        i := i + 1;
      }
      count := count - 1;
    }

    method Get(index: nat) returns (x: T, found: bool)
      requires Valid()
      ensures found == (index < |Contents()|)
      ensures x == if found then Contents()[index] else filler
    {
      if index >= count {
        return filler, false;
      }
      return data[index], true;
    }

    method Set(index: nat, x: T) returns (ok: bool)
      requires Valid()
      modifies data
      ensures Valid() && ok == (index < |old(Contents())|)
      ensures Contents() == if ok then old(Contents())[index := x] else old(Contents())
    {
      ok := index < count;
      if ok {
        data[index] := x;
      }
    }
  }
}
