/**
  The fixed-block pool of memory_pool.h.  The caller's region of
  `totalSize` bytes is cut into `totalSize / blockSize` blocks; free blocks
  form a singly linked list whose links live in the blocks themselves.
  Here a block is named by its index, the link word of block `b` is
  `next[b]`, and NULL is -1.
*/
module MemoryPool {
  import opened Types

  const Null: int := -1

  /** The block indices lo, lo + 1, ..., hi - 1. */
  function Span(lo: nat, hi: nat): (r: seq<nat>)
    requires lo <= hi
    ensures |r| == hi - lo && forall i :: 0 <= i < |r| ==> r[i] == lo + i
    decreases hi - lo
  {
    if lo == hi then [] else [lo] + Span(lo + 1, hi)
  }

  /** No block index occurs twice. */
  predicate Distinct(s: seq<nat>)
  {
    forall i, j :: 0 <= i < j < |s| ==> s[i] != s[j]
  }

  /** Each block of `list` links to the one after it, the last one to Null. */
  ghost predicate Linked(list: seq<nat>, next: array<int>)
    reads next
  {
    forall i :: 0 <= i < |list| ==> LinkAt(list, next, i)
  }

  ghost predicate LinkAt(list: seq<nat>, next: array<int>, i: int)
    reads next
    requires 0 <= i < |list|
  {
    list[i] < next.Length && next[list[i]] == if i + 1 < |list| then list[i + 1] else Null
  }

  lemma LinkedTail(list: seq<nat>, next: array<int>)
    requires list != [] && Linked(list, next)
    ensures Linked(list[1..], next)
  {
    forall i | 0 <= i < |list| - 1
      ensures LinkAt(list[1..], next, i)
    {
      assert LinkAt(list, next, i + 1);
    }
  }

  class Pool {
    const totalSize: nat
    const blockSize: nat
    const numBlocks: nat
    /** The link word of every block (meaningful for free blocks only). */
    const next: array<int>
    /** The head of the free list, or Null. */
    var freeHead: int
    /** The free list, head first. */
    ghost var FreeList: seq<nat>

    ghost predicate Valid()
      reads this, next
    {
      0 < blockSize && numBlocks == totalSize / blockSize && 0 < numBlocks &&
      next.Length == numBlocks &&
      (forall i :: 0 <= i < |FreeList| ==> FreeList[i] < numBlocks) &&
      Distinct(FreeList) &&
      (if FreeList == [] then freeHead == Null else freeHead == FreeList[0]) &&
      Linked(FreeList, next)
    }

    /**
      The byte offset at which block `b` starts.  Every block ends inside the
      region, so the remainder bytes past the last block are never handed out.
    */
    function BlockOffset(b: nat): (offset: nat)
      requires 0 < blockSize && numBlocks == totalSize / blockSize && b < numBlocks
      ensures offset + blockSize <= totalSize
      ensures offset == b * blockSize
    {
      BlocksFit(b + 1, blockSize, totalSize);
      b * blockSize
    }

    /**
      mp_init: every block links to its successor, the last one to NULL, and
      the free list starts at block 0.  Each link is a pointer stored at the
      start of its block, so a block must be at least a pointer wide.
    */
    constructor (totalSize: nat, blockSize: nat)
      requires PointerSize <= blockSize <= totalSize
      ensures Valid() && fresh(next)
      ensures this.totalSize == totalSize && this.blockSize == blockSize
      ensures numBlocks == totalSize / blockSize
      ensures FreeList == Span(0, numBlocks)
    {
      this.totalSize := totalSize;
      this.blockSize := blockSize;
      var n := totalSize / blockSize;
      assert n >= 1;
      numBlocks := n;
      var links := new int[n];
      var i := 0;
      while i < n - 1
        invariant 0 <= i <= n - 1
        invariant forall k :: 0 <= k < i ==> links[k] == k + 1
      {
        links[i] := i + 1;
        i := i + 1;
      }
      links[n - 1] := Null;
      next := links;
      freeHead := 0;
      FreeList := Span(0, n);
      new;
      assert Distinct(FreeList);
    }

    /** mp_alloc: NULL when the free list is empty, otherwise pop its head. */
    method Alloc() returns (r: Option<nat>)
      requires Valid()
      modifies this
      ensures Valid()
      ensures r.None? <==> old(FreeList) == []
      ensures r.None? ==> FreeList == old(FreeList) && freeHead == old(freeHead)
      ensures r.Some? ==> r.value == old(FreeList)[0] && FreeList == old(FreeList)[1..]
    {
      if freeHead == Null {
        return None;
      }
      var block := freeHead;
      ghost var rest := FreeList[1..];
      assert LinkAt(FreeList, next, 0);
      LinkedTail(FreeList, next);
      freeHead := next[block];
      FreeList := rest;
      return Some(block);
    }

    /**
      mp_free: push `block` back as the new head.  The pool cannot detect a
      double free or a foreign block, so the caller must pass a block that is
      allocated and not yet freed.
    */
    method Free(block: nat)
      requires Valid()
      requires block < numBlocks && block !in FreeList
      modifies this, next
      ensures Valid()
      ensures FreeList == [block] + old(FreeList) && freeHead == block
    {
      next[block] := freeHead;
      freeHead := block;
      FreeList := [block] + FreeList;
      forall i | 0 <= i < |FreeList|
        ensures LinkAt(FreeList, next, i)
      {
        if i > 0 {
          assert old(LinkAt(FreeList, next, i - 1));
          assert FreeList[i] == old(FreeList)[i - 1] != block;
        }
      }
    }
  }

  /** `count` whole blocks fit in the region exactly when count <= total / size. */
  lemma BlocksFit(count: nat, size: nat, total: nat)
    requires 0 < size && count <= total / size
    ensures count * size <= total
  {
  }

  /** Allocate until the pool reports NULL; the blocks come in free-list order. */
  method Drain(pool: Pool) returns (got: seq<nat>)
    requires pool.Valid()
    modifies pool
    ensures pool.Valid() && pool.FreeList == [] && got == old(pool.FreeList)
  {
    got := [];
    var r := pool.Alloc();
    while r.Some?
      invariant pool.Valid()
      invariant r.Some? ==> got + [r.value] + pool.FreeList == old(pool.FreeList)
      invariant r.None? ==> got == old(pool.FreeList) && pool.FreeList == []
      decreases |pool.FreeList| + (if r.Some? then 1 else 0)
    {
      got := got + [r.value];
      r := pool.Alloc();
    }
  }

  /**
    From a fresh pool exactly `numBlocks` allocations succeed, handing out
    the blocks in address order, and the next one returns NULL.
  */
  method DrainFreshPool(totalSize: nat, blockSize: nat) returns (got: seq<nat>, last: Option<nat>)
    requires PointerSize <= blockSize <= totalSize
    ensures got == Span(0, totalSize / blockSize) && last.None?
  {
    var pool := new Pool(totalSize, blockSize);
    got := Drain(pool);
    last := pool.Alloc();
  }

  /**
    The scenario of the test driver: a 200-byte region in 32-byte blocks
    (six blocks, eight bytes left over); two allocations return blocks 0
    and 1; freeing block 0 and allocating again returns block 0.
  */
  method Scenario() returns (b1: Option<nat>, b2: Option<nat>, b3: Option<nat>)
    ensures b1 == Some(0) && b2 == Some(1) && b3 == b1
  {
    var pool := new Pool(200, 32);
    b1 := pool.Alloc();
    b2 := pool.Alloc();
    pool.Free(b1.value);
    b3 := pool.Alloc();
  }

  /**
    After every block of a fresh pool is allocated, freeing one of them
    allows exactly one more successful allocation, which returns that block.
  */
  method ExhaustThenFreeOne(totalSize: nat, blockSize: nat, freed: nat)
    returns (reused: Option<nat>, after: Option<nat>)
    requires PointerSize <= blockSize <= totalSize && freed < totalSize / blockSize
    ensures reused == Some(freed) && after.None?
  {
    var pool := new Pool(totalSize, blockSize);
    var got := Drain(pool);
    pool.Free(freed);
    reused := pool.Alloc();
    after := pool.Alloc();
  }
}
