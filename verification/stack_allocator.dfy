/**
  The bump-pointer (stack) allocator of stack_allocator.h.  The allocator
  never reads or writes the bytes of its region, so only the cursor `top`
  and the region's `size` are modelled; a pointer into the region is its
  offset from the start of the region.
*/
module StackAllocator {
  import opened Types

  /**
    The offsets that successive allocations of `sizes` return, starting with
    the cursor at `top`: None for a request that does not fit.
  */
  function Offsets(top: nat, size: nat, sizes: seq<nat>): (r: seq<Option<nat>>)
    ensures |r| == |sizes|
    decreases sizes
  {
    if sizes == [] then []
    else if top + sizes[0] > size then [None] + Offsets(top, size, sizes[1..])
    else [Some(top)] + Offsets(top + sizes[0], size, sizes[1..])
  }

  /** Where the cursor stands after the allocations of `sizes`. */
  function Cursor(top: nat, size: nat, sizes: seq<nat>): (cursor: nat)
    decreases sizes
  {
    if sizes == [] then top
    else if top + sizes[0] > size then Cursor(top, size, sizes[1..])
    else Cursor(top + sizes[0], size, sizes[1..])
  }

  /**
    Every successful allocation of a run lies in [top, size), at or past the
    end of every earlier successful allocation (so no two overlap), and ends
    at or below the final cursor; the cursor never passes `size` nor moves back.
  */
  lemma {:induction false} OffsetsDisjoint(top: nat, size: nat, sizes: seq<nat>)
    requires top <= size
    ensures var r := Offsets(top, size, sizes);
      forall i :: 0 <= i < |r| && r[i].Some? ==>
        top <= r[i].value && r[i].value + sizes[i] <= Cursor(top, size, sizes) <= size
    ensures var r := Offsets(top, size, sizes);
      forall i, j :: 0 <= i < j < |r| && r[i].Some? && r[j].Some? ==>
        r[i].value + sizes[i] <= r[j].value
    ensures top <= Cursor(top, size, sizes) <= size
    decreases sizes
  {
    if sizes != [] {
      var top' := if top + sizes[0] > size then top else top + sizes[0];
      OffsetsDisjoint(top', size, sizes[1..]);
      var r := Offsets(top, size, sizes);
      var r' := Offsets(top', size, sizes[1..]);
      assert forall i :: 1 <= i < |r| ==> r[i] == r'[i - 1];
    }
  }

  /**
    Two successful allocations in a row are adjacent: the second starts
    exactly where the first ends.
  */
  lemma {:induction false} OffsetsAdjacent(top: nat, size: nat, sizes: seq<nat>, i: nat)
    requires i + 1 < |sizes|
    requires Offsets(top, size, sizes)[i].Some? && Offsets(top, size, sizes)[i + 1].Some?
    ensures Offsets(top, size, sizes)[i + 1].value ==
            Offsets(top, size, sizes)[i].value + sizes[i]
    decreases sizes
  {
    var top' := if top + sizes[0] > size then top else top + sizes[0];
    assert Offsets(top, size, sizes)[1..] == Offsets(top', size, sizes[1..]);
    if i > 0 {
      OffsetsAdjacent(top', size, sizes[1..], i - 1);
    }
  }

  class Allocator {
    /** Size of the caller's region. */
    const size: nat
    /** Offset of the first free byte. */
    var top: nat

    ghost predicate Valid()
      reads this
    {
      top <= size
    }

    /** stack_init */
    constructor (size: nat)
      ensures Valid() && this.size == size && top == 0
    {
      this.size := size;
      top := 0;
    }

    /**
      stack_alloc: NULL (None) when the request does not fit; otherwise the
      old cursor, which then moves past the request.  The cursor arithmetic
      must not wrap around size_t.
    */
    method Alloc(bytes: nat) returns (r: Option<nat>)
      requires top + bytes < SizeModulus
      modifies this
      ensures r.None? <==> old(top) + bytes > size
      ensures r.None? ==> top == old(top)
      ensures r.Some? ==> r.value == old(top) && top == old(top) + bytes
      ensures old(top) <= size ==> Valid()
      ensures [r] == Offsets(old(top), size, [bytes]) && top == Cursor(old(top), size, [bytes])
    {
      if top + bytes > size {
        return None;
      }
      r := Some(top);
      top := top + bytes;
    }

    /**
      stack_free_to: the cursor goes back to `mark` unconditionally.  The
      caller must pass a mark inside the region (one returned by Alloc).
    */
    method FreeTo(mark: nat)
      requires mark <= size
      modifies this
      ensures Valid() && top == mark
    {
      top := mark;
    }

    /** stack_reset */
    method Reset()
      modifies this
      ensures Valid() && top == 0
    {
      top := 0;
    }
  }

  /**
    Running the requests `sizes` through a fresh allocator of `size` bytes
    returns exactly the offsets that `Offsets` predicts.
  */
  method AllocateAll(size: nat, sizes: seq<nat>) returns (offsets: seq<Option<nat>>)
    requires size < SizeModulus
    requires forall i :: 0 <= i < |sizes| ==> sizes[i] < SizeModulus - size
    ensures offsets == Offsets(0, size, sizes)
  {
    var a := new Allocator(size);
    offsets := [];
    var i := 0;
    while i < |sizes|
      invariant 0 <= i <= |sizes| && a.Valid() && a.size == size
      invariant offsets + Offsets(a.top, size, sizes[i..]) == Offsets(0, size, sizes)
    {
      assert sizes[i..] == [sizes[i]] + sizes[i + 1..];
      var r := a.Alloc(sizes[i]);
      offsets := offsets + [r];
      i := i + 1;
    }
  }

  /**
    The scenario of the test driver: over 100 bytes, allocations of 20 and
    30 succeed at offsets 0 and 20; after a reset an allocation of 50
    starts at offset 0 again.
  */
  method Scenario() returns (p1: Option<nat>, p2: Option<nat>, p3: Option<nat>)
    ensures p1 == Some(0) && p2 == Some(20) && p3 == Some(0)
  {
    var a := new Allocator(100);
    p1 := a.Alloc(20);
    p2 := a.Alloc(30);
    a.Reset();
    p3 := a.Alloc(50);
  }
}
