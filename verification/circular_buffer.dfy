/**
  The FIFO byte ring buffer of circular_buffer.h.  The buffer works over
  caller-supplied storage; `head` is where the next byte is written, `tail`
  where the next byte is read, and `count` alone says whether the buffer is
  empty or full.
*/
module CircularBuffer {
  import opened Types

  class Buffer {
    /** The caller's storage; only cells below `size` are used. */
    const buffer: array<Byte>
    const size: nat
    var head: nat
    var tail: nat
    var count: nat
    /** The queued bytes, oldest first. */
    ghost var Contents: seq<Byte>

    ghost predicate Valid()
      reads this, buffer
    {
      size <= buffer.Length && count <= size && |Contents| == count &&
      (size == 0 ==> head == 0 && tail == 0) &&
      (0 < size ==>
        head < size && tail < size && head == Wrap(tail + count, size) &&
        forall i :: 0 <= i < count ==> Contents[i] == buffer[Wrap(tail + i, size)])
    }

    /**
      cb_init: attach the caller's storage and start empty.  A buffer of size
      0 is both empty and full, so every write and read on it is refused.
    */
    constructor (storage: array<Byte>, size: nat)
      requires size <= storage.Length
      ensures Valid() && buffer == storage && this.size == size
      ensures head == 0 && tail == 0 && count == 0 && Contents == []
      ensures IsEmpty() && (IsFull() <==> size == 0)
    {
      buffer := storage;
      this.size := size;
      head, tail, count := 0, 0, 0;
      Contents := [];
    }

    /** cb_is_empty */
    function IsEmpty(): (r: bool)
      reads this, buffer
      requires Valid()
      ensures r <==> Contents == []
    {
      count == 0
    }

    /** cb_is_full */
    function IsFull(): (r: bool)
      reads this, buffer
      requires Valid()
      ensures r <==> |Contents| == size
    {
      count == size
    }

    /** cb_write: refuse when full, otherwise store at `head` and advance it. */
    method Write(data: Byte) returns (ok: bool)
      requires Valid()
      modifies this, buffer
      ensures Valid()
      ensures ok <==> old(count) < size
      ensures ok ==> Contents == old(Contents) + [data]
      ensures ok ==> buffer[old(head)] == data && head == (old(head) + 1) % size &&
                     count == old(count) + 1 && tail == old(tail)
      ensures ok ==> forall j :: 0 <= j < buffer.Length && j != old(head) ==> buffer[j] == old(buffer[j])
      ensures !ok ==> Contents == old(Contents) && head == old(head) && tail == old(tail) &&
                      count == old(count) && buffer[..] == old(buffer[..])
    {
      if IsFull() {
        return false;
      }
      ghost var next := Wrap(head + 1, size);
      assert next == Wrap(tail + count + 1, size);
      buffer[head] := data;
      head := (head + 1) % size;
      count := count + 1;
      Contents := Contents + [data];
      assert forall i :: 0 <= i < count ==> Contents[i] == buffer[Wrap(tail + i, size)] by {
        forall i | 0 <= i < count ensures Contents[i] == buffer[Wrap(tail + i, size)] {
          if i < count - 1 {
            assert Wrap(tail + i, size) != old(head);
          }
        }
      }
      return true;
    }

    /** cb_read: refuse when empty, otherwise take the byte at `tail` and advance it. */
    method Read() returns (ok: bool, data: Byte)
      requires Valid()
      modifies this
      ensures Valid()
      ensures ok <==> old(count) != 0
      ensures ok ==> data == old(Contents)[0] && Contents == old(Contents)[1..]
      ensures ok ==> data == buffer[old(tail)] && tail == (old(tail) + 1) % size &&
                     count == old(count) - 1 && head == old(head)
      ensures !ok ==> Contents == old(Contents) && head == old(head) && tail == old(tail) &&
                      count == old(count)
    {
      if IsEmpty() {
        return false, 0;
      }
      data := buffer[tail];
      ghost var next := Wrap(tail + 1, size);
      assert head == Wrap(next + count - 1, size);
      forall j | 1 <= j < count
        ensures Contents[j] == buffer[Wrap(next + j - 1, size)]
      {
        assert Wrap(next + j - 1, size) == Wrap(tail + j, size);
      }
      tail := (tail + 1) % size;
      count := count - 1;
      Contents := Contents[1..];
      return true, data;
    }

    /** cb_available_space */
    function AvailableSpace(): (r: nat)
      reads this, buffer
      requires Valid()
      ensures r + |Contents| == size
    {
      size - count
    }

    /** cb_data_count */
    function DataCount(): (r: nat)
      reads this, buffer
      requires Valid()
      ensures r == |Contents| && r + AvailableSpace() == size
    {
      count
    }
  }

  /** Write every byte of `xs`, which fit, in order. */
  method WriteAll(cb: Buffer, xs: seq<Byte>)
    requires cb.Valid() && |cb.Contents| + |xs| <= cb.size
    modifies cb, cb.buffer
    ensures cb.Valid() && cb.Contents == old(cb.Contents) + xs
  {
    var i := 0;
    while i < |xs|
      invariant 0 <= i <= |xs|
      invariant cb.Valid() && cb.Contents == old(cb.Contents) + xs[..i]
    {
      var ok := cb.Write(xs[i]);
      assert xs[..i + 1] == xs[..i] + [xs[i]];
      i := i + 1;
    }
    assert xs[..i] == xs;
  }

  /** Read until the buffer is empty; the bytes come out oldest first. */
  method ReadAll(cb: Buffer) returns (ys: seq<Byte>)
    requires cb.Valid()
    modifies cb
    ensures cb.Valid() && ys == old(cb.Contents) && cb.Contents == []
  {
    ys := [];
    while !cb.IsEmpty()
      invariant cb.Valid() && ys + cb.Contents == old(cb.Contents)
      decreases |cb.Contents|
    {
      var ok, b := cb.Read();
      assert ys + [b] + cb.Contents == old(cb.Contents);
      ys := ys + [b];
    }
  }

  /**
    Writing up to `size` bytes into a fresh buffer and reading as many back
    returns them in the order written and leaves the buffer empty.
  */
  method WriteThenRead(size: nat, xs: seq<Byte>) returns (ys: seq<Byte>, emptyAfter: bool)
    requires |xs| <= size
    ensures ys == xs && emptyAfter
  {
    var storage := new Byte[size];
    var cb := new Buffer(storage, size);
    WriteAll(cb, xs);
    ys := ReadAll(cb);
    emptyAfter := cb.IsEmpty();
  }

  /**
    The scenario of the test driver: capacity 5; write 42 and 100, read them
    back in order; fill with 0..4, after which the buffer is full and a
    further write of 99 is refused; draining then yields 0..4 unchanged.
  */
  method Scenario() returns (first: Byte, second: Byte, emptyAfterReads: bool,
                             fullAfterFill: bool, overflowWrite: bool, kept: seq<Byte>)
    ensures first == 42 && second == 100 && emptyAfterReads
    ensures fullAfterFill && !overflowWrite && kept == [0, 1, 2, 3, 4]
  {
    var storage := new Byte[5];
    var cb := new Buffer(storage, 5);
    var ok := cb.Write(42);
    ok := cb.Write(100);
    assert cb.Contents == [42, 100];
    ok, first := cb.Read();
    ok, second := cb.Read();
    emptyAfterReads := cb.IsEmpty();
    WriteAll(cb, [0, 1, 2, 3, 4]);
    fullAfterFill := cb.IsFull();
    overflowWrite := cb.Write(99);
    kept := ReadAll(cb);
  }

  /**
    A buffer of size 0 is at once empty and full: a write is refused, and so
    is a read, without the index arithmetic ever dividing by the size.
  */
  method ZeroSize(data: Byte) returns (empty: bool, full: bool, wrote: bool, read: bool)
    ensures empty && full && !wrote && !read
  {
    var storage := new Byte[0];
    var cb := new Buffer(storage, 0);
    empty := cb.IsEmpty();
    full := cb.IsFull();
    wrote := cb.Write(data);
    var b;
    read, b := cb.Read();
  }
}
