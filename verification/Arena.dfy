/** The arena: blocks of memory handed out front to back and never taken back one by one. */
module Arena {
  import opened Schema

  const SIZE_MAX: nat := 0xFFFF_FFFF_FFFF_FFFF
  const ALIGNMENT: nat := 16
  const HEADER: nat := 24

  /** `align_up` in unsigned 64-bit arithmetic, for a power of two. */
  function AlignUp(v: nat): nat {
    var w := (v + ALIGNMENT - 1) % (SIZE_MAX + 1);
    w - w % ALIGNMENT
  }

  lemma AlignUpRounds(v: nat)
    requires v + ALIGNMENT - 1 <= SIZE_MAX
    ensures v <= AlignUp(v) < v + ALIGNMENT && AlignUp(v) % ALIGNMENT == 0
    ensures v % ALIGNMENT == 0 ==> AlignUp(v) == v
  {
  }

  /** What one allocation was given, and so owns until the arena is reset or destroyed. */
  datatype Range = Range(block: nat, offset: nat, size: nat)

  datatype Block = Block(data: seq<char>, used: nat)

  predicate Apart(a: Range, b: Range) {
    a.block != b.block || a.offset + a.size <= b.offset || b.offset + b.size <= a.offset
  }

  predicate Inside(blocks: seq<Block>, r: Range) {
    r.block < |blocks| && r.offset % ALIGNMENT == 0 && r.size > 0 &&
    r.offset + r.size <= |blocks[r.block].data| && r.offset + r.size <= blocks[r.block].used
  }

  /** `used` can pass the capacity, but only by padding. */
  predicate BlockSound(b: Block) {
    b.used % ALIGNMENT == 0 && b.used < |b.data| + ALIGNMENT && |b.data| <= SIZE_MAX - HEADER
  }

  predicate AllInside(blocks: seq<Block>, ranges: seq<Range>) {
    forall i :: 0 <= i < |ranges| ==> Inside(blocks, ranges[i])
  }

  predicate AllApart(ranges: seq<Range>) {
    forall i, j :: 0 <= i < j < |ranges| ==> Apart(ranges[i], ranges[j])
  }

  function TotalUsed(blocks: seq<Block>): nat {
    if blocks == [] then 0 else TotalUsed(blocks[..|blocks| - 1]) + blocks[|blocks| - 1].used
  }

  function TotalPadded(ranges: seq<Range>): nat {
    if ranges == [] then 0 else TotalPadded(ranges[..|ranges| - 1]) + AlignUp(ranges[|ranges| - 1].size)
  }

  predicate Sound(blocks: seq<Block>, ranges: seq<Range>) {
    blocks != [] && (forall b :: 0 <= b < |blocks| ==> BlockSound(blocks[b])) &&
    AllInside(blocks, ranges) && AllApart(ranges) && TotalUsed(blocks) == TotalPadded(ranges)
  }

  function Bytes(blocks: seq<Block>, r: Range): (s: seq<char>)
    requires Inside(blocks, r)
    ensures |s| == r.size
  {
    blocks[r.block].data[r.offset..r.offset + r.size]
  }

  /** The fill mark of the last block moved past a range of this size. */
  function Bumped(blocks: seq<Block>, size: nat): seq<Block>
    requires blocks != []
  {
    var n := |blocks| - 1;
    blocks[n := blocks[n].(used := blocks[n].used + AlignUp(size))]
  }

  lemma BumpKeepsInside(blocks: seq<Block>, size: nat, r: Range)
    requires blocks != [] && Inside(blocks, r)
    ensures Inside(Bumped(blocks, size), r) && Bytes(Bumped(blocks, size), r) == Bytes(blocks, r)
  {
  }

  lemma BumpedBlockIsSound(b: Block, size: nat)
    requires BlockSound(b) && b.used + size <= |b.data|
    ensures BlockSound(b.(used := b.used + AlignUp(size))) && size <= AlignUp(size)
  {
    AlignUpRounds(size);
  }

  lemma StillApart(ranges: seq<Range>, r: Range)
    requires AllApart(ranges) && forall i :: 0 <= i < |ranges| ==> Apart(ranges[i], r)
    ensures AllApart(ranges + [r])
  {
  }

  lemma BumpCounts(blocks: seq<Block>, ranges: seq<Range>, r: Range)
    requires blocks != [] && TotalUsed(blocks) == TotalPadded(ranges)
    ensures TotalUsed(Bumped(blocks, r.size)) == TotalPadded(ranges + [r])
  {
    var n := |blocks| - 1;
    assert Bumped(blocks, r.size)[..n] == blocks[..n] && (ranges + [r])[..|ranges|] == ranges;
  }

  /** Bumping the last block by a range that fits keeps everything sound and moves no byte. */
  lemma BumpIsSound(blocks: seq<Block>, ranges: seq<Range>, size: nat)
    requires Sound(blocks, ranges) && size > 0
    requires blocks[|blocks| - 1].used + size <= |blocks[|blocks| - 1].data|
    ensures (var n := |blocks| - 1;
             var b := blocks[n];
             var r := Range(n, b.used, size);
             var blocks' := blocks[n := b.(used := b.used + AlignUp(size))];
             Sound(blocks', ranges + [r]) &&
             (forall i :: 0 <= i < |ranges| ==> Bytes(blocks', ranges[i]) == Bytes(blocks, ranges[i])))
  {
    var n := |blocks| - 1;
    var r, blocks' := Range(n, blocks[n].used, size), Bumped(blocks, size);
    BumpedBlockIsSound(blocks[n], size);
    assert AllInside(blocks, ranges);
    forall i | 0 <= i < |ranges|
      ensures Inside(blocks', ranges[i]) && Bytes(blocks', ranges[i]) == Bytes(blocks, ranges[i]) && Apart(ranges[i], r)
    {
      BumpKeepsInside(blocks, size, ranges[i]);
    }
    StillApart(ranges, r);
    BumpCounts(blocks, ranges, r);
  }

  lemma NewBlockIsSound(blocks: seq<Block>, ranges: seq<Range>, data: seq<char>)
    requires Sound(blocks, ranges) && |data| <= SIZE_MAX - HEADER
    ensures Sound(blocks + [Block(data, 0)], ranges)
  {
    var blocks' := blocks + [Block(data, 0)];
    assert blocks'[..|blocks|] == blocks;
    forall i | 0 <= i < |ranges| ensures Inside(blocks', ranges[i]) {
      assert Inside(blocks, ranges[i]);
    }
  }

  /** A range overwritten in place. */
  function Overwritten(blocks: seq<Block>, r: Range, s: seq<char>): (blocks': seq<Block>)
    requires Inside(blocks, r) && |s| <= r.size
    ensures |blocks'| == |blocks|
  {
    var b := blocks[r.block];
    blocks[r.block := b.(data := b.data[..r.offset] + s + b.data[r.offset + |s|..])]
  }

  lemma OverwritingStaysInside(blocks: seq<Block>, ranges: seq<Range>, k: nat, s: seq<char>)
    requires Sound(blocks, ranges) && k < |ranges| && |s| <= ranges[k].size
    ensures (var blocks' := Overwritten(blocks, ranges[k], s);
             Sound(blocks', ranges) && Bytes(blocks', ranges[k])[..|s|] == s &&
             (forall i :: 0 <= i < |ranges| && i != k ==> Bytes(blocks', ranges[i]) == Bytes(blocks, ranges[i])))
  {
    var r := ranges[k];
    var blocks' := Overwritten(blocks, r, s);
    SameUsed(blocks, blocks');
    forall i | 0 <= i < |ranges| ensures Inside(blocks', ranges[i]) {
      assert Inside(blocks, ranges[i]);
    }
    forall i | 0 <= i < |ranges| && i != k ensures Bytes(blocks', ranges[i]) == Bytes(blocks, ranges[i]) {
      var q := ranges[i];
      assert Inside(blocks, q) && (if i < k then Apart(q, r) else Apart(r, q));
    }
  }

  lemma {:induction false} SameUsed(blocks: seq<Block>, blocks': seq<Block>)
    requires |blocks| == |blocks'| && forall b :: 0 <= b < |blocks| ==> blocks[b].used == blocks'[b].used
    ensures TotalUsed(blocks) == TotalUsed(blocks')
    decreases |blocks|
  {
    if blocks != [] {
      SameUsed(blocks[..|blocks| - 1], blocks'[..|blocks| - 1]);
    }
  }

  /** The capacity of a new block: doubled until it fits, or the size itself when doubling would
      overflow. */
  method GrowCapacity(blockSize: nat, size: nat) returns (capacity: nat)
    requires 0 < blockSize <= SIZE_MAX && size <= SIZE_MAX
    ensures size <= capacity <= SIZE_MAX && blockSize <= capacity
    ensures capacity == blockSize || capacity < 2 * size
  {
    capacity := blockSize;
    while capacity < size
      invariant blockSize <= capacity <= SIZE_MAX
      invariant capacity == blockSize || capacity < 2 * size
      decreases size - capacity
    {
      if capacity > SIZE_MAX / 2 {
        return size;
      }
      capacity := capacity * 2;
    }
  }

  class Arena {
    var blocks: seq<Block>      // the newest one last
    var blockSize: nat
    ghost var ranges: seq<Range>

    ghost predicate Valid()
      reads this
    {
      Sound(blocks, ranges) && 0 < blockSize <= SIZE_MAX / 2
    }

    /** `arena_create`, with its default for zero and for absurd requests. */
    constructor (initialCapacity: nat, filler: char)
      ensures Valid() && ranges == [] && |blocks| == 1
      ensures blockSize == if initialCapacity == 0 || initialCapacity > SIZE_MAX / 2 then 1024 else initialCapacity
    {
      var capacity := if initialCapacity == 0 || initialCapacity > SIZE_MAX / 2 then 1024 else initialCapacity;
      blocks := [Block(seq(capacity, _ => filler), 0)];
      blockSize := capacity;
      ranges := [];
    }

    /** `arena_alloc`. `memory` is what the system hands out for a block of the wanted capacity, if
        anything. The new range is aligned, inside its block, and apart from all earlier ones. */
    method Alloc(size: nat, memory: nat -> Option<seq<char>>) returns (r: Option<Range>)
      requires Valid() && (forall n :: memory(n).Some? ==> |memory(n).value| == n)
      requires blocks[|blocks| - 1].used + size <= SIZE_MAX
      modifies this`blocks, this`ranges
      ensures Valid()
      ensures r.None? ==> blocks == old(blocks) && ranges == old(ranges)
      ensures size > 0 && old(blocks)[|old(blocks)| - 1].used + size <= |old(blocks)[|old(blocks)| - 1].data| ==> r.Some?
      ensures r.Some? ==> size > 0 && r.value.size == size && ranges == old(ranges) + [r.value]
      ensures KeptBytes(old(blocks), old(ranges), blocks)
    {
      if size == 0 {
        return None;
      }
      var block := blocks[|blocks| - 1];
      AlignUpRounds(block.used);
      if AlignUp(block.used) + size > |block.data| {
        var ok := AddBlock(size, memory);
        if !ok {
          return None;
        }
      }
      var given := Bump(size);
      return Some(given);
    }

    /** A new, empty block with room for `size`. */
    method AddBlock(size: nat, memory: nat -> Option<seq<char>>) returns (ok: bool)
      requires Valid() && size <= SIZE_MAX && (forall n :: memory(n).Some? ==> |memory(n).value| == n)
      modifies this`blocks
      ensures Valid() && KeptBytes(old(blocks), ranges, blocks)
      ensures if ok then blocks[|blocks| - 1].used == 0 && size <= |blocks[|blocks| - 1].data| else blocks == old(blocks)
    {
      var capacity := GrowCapacity(blockSize, size);
      if capacity > SIZE_MAX - HEADER {
        return false;
      }
      var data := memory(capacity);
      if data.None? {
        return false;
      }
      NewBlockIsSound(blocks, ranges, data.value);
      blocks := blocks + [Block(data.value, 0)];
      return true;
    }

    method Bump(size: nat) returns (r: Range)
      requires Valid() && size > 0 && blocks[|blocks| - 1].used + size <= |blocks[|blocks| - 1].data|
      modifies this`blocks, this`ranges
      ensures Valid() && r.size == size && ranges == old(ranges) + [r] && KeptBytes(old(blocks), old(ranges), blocks)
    {
      BumpIsSound(blocks, ranges, size);
      var n := |blocks| - 1;
      var b := blocks[n];
      AlignUpRounds(b.used);
      var offset := AlignUp(b.used);
      r := Range(n, offset, size);
      blocks := blocks[n := b.(used := offset + AlignUp(size))];
      ranges := ranges + [r];
    }

    /** The realloc interface: a fresh range, the common prefix copied, the old range left alone.
        A new size of zero stands for freeing, which does nothing. */
    method Realloc(ghost k: nat, from: Option<Range>, newSize: nat, memory: nat -> Option<seq<char>>) returns (r: Option<Range>)
      requires Valid() && (forall n :: memory(n).Some? ==> |memory(n).value| == n)
      requires from.Some? ==> k < |ranges| && from.value == ranges[k]
      requires blocks[|blocks| - 1].used + newSize <= SIZE_MAX
      modifies this`blocks, this`ranges
      ensures Valid() && (r.None? ==> ranges == old(ranges))
      ensures r.Some? ==> newSize > 0 && r.value.size == newSize && ranges == old(ranges) + [r.value]
      ensures r.Some? && from.Some? ==>
                (var n := if from.value.size < newSize then from.value.size else newSize;
                 Inside(blocks, r.value) && Bytes(blocks, r.value)[..n] == Bytes(old(blocks), from.value)[..n])
      ensures KeptBytes(old(blocks), old(ranges), blocks)
    {
      if newSize == 0 {
        return None;
      }
      r := Alloc(newSize, memory);
      if r.None? || from.None? {
        return;
      }
      assert Inside(blocks, ranges[k]) && Inside(blocks, ranges[|ranges| - 1]);
      var n := if from.value.size < newSize then from.value.size else newSize;
      var s := Bytes(blocks, from.value)[..n];
      OverwritingStaysInside(blocks, ranges, |ranges| - 1, s);
      blocks := Overwritten(blocks, r.value, s);
    }

    /** `arena_reset` keeps the newest block only; every range is given up. */
    method Reset()
      requires Valid()
      modifies this`blocks, this`ranges
      ensures Valid() && ranges == [] && |blocks| == 1 && blocks[0].data == old(blocks)[|old(blocks)| - 1].data
    {
      blocks := [Block(blocks[|blocks| - 1].data, 0)];
      ranges := [];
    }

    /** `arena_bytes_used` is the sum of all sizes handed out, each rounded up: nothing is lost. */
    method BytesUsed() returns (total: nat)
      requires Valid()
      ensures total == TotalPadded(ranges)
    {
      total := 0;
      for i := 0 to |blocks|
        invariant total == TotalUsed(blocks[..i])
      {
        assert blocks[..i + 1][..i] == blocks[..i];
        total := total + blocks[i].used;
      }
      assert blocks[..|blocks|] == blocks;
    }
  }

  /** Every range keeps its place and its contents. */
  ghost predicate KeptBytes(was: seq<Block>, ranges: seq<Range>, blocks: seq<Block>) {
    AllInside(was, ranges) && AllInside(blocks, ranges) &&
    forall i :: 0 <= i < |ranges| ==> Bytes(blocks, ranges[i]) == Bytes(was, ranges[i])
  }
}
