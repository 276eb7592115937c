/**
  The fixed-capacity hash table of fixed_hash_table.h: open addressing with
  linear probing over `tableSize` buckets.  Each bucket holds a key (stored
  truncated to maxKeyLength - 1 bytes), a value of `valueSize` bytes and an
  occupied flag.  Removal only clears the flag (there are no tombstones),
  and lookups stop at the first unoccupied bucket; both are kept as written.
  Keys are the bytes of a C string without its terminating NUL.
*/
module FixedHashTable {
  import opened Types

  /** The bytes of a C string: no NUL inside. */
  predicate IsKey(s: seq<Byte>)
  {
    forall i :: 0 <= i < |s| ==> s[i] != 0
  }

  /**
    hash_function: hash := hash * 31 + c over the key's bytes, wrapping
    around like size_t.  Written as a fold from the left.
  */
  function Hash(key: seq<Byte>): (h: nat)
    ensures h < SizeModulus
  {
    if key == [] then 0 else (Hash(key[..|key| - 1]) * 31 + key[|key| - 1]) % SizeModulus
  }

  /** The loop of hash_function computes the fold. */
  method HashFunction(key: seq<Byte>) returns (h: nat)
    ensures h == Hash(key)
  {
    h := 0;
    var i := 0;
    while i < |key|
      invariant 0 <= i <= |key|
      invariant h == Hash(key[..i])
    {
      assert key[..i + 1][..i] == key[..i];
      h := (h * 31 + key[i]) % SizeModulus;
      i := i + 1;
    }
    assert key[..|key|] == key;
  }

  /** One bucket: the occupied flag, the stored key and the stored value. */
  datatype Bucket = Bucket(occupied: bool, key: seq<Byte>, value: seq<Byte>)

  /** What ht_put stores of a key: at most maxKeyLength - 1 bytes of it. */
  function Truncate(key: seq<Byte>, maxKeyLength: nat): (stored: seq<Byte>)
    requires 1 <= maxKeyLength
    ensures |stored| < maxKeyLength && stored <= key
    ensures |key| < maxKeyLength ==> stored == key
    ensures |key| >= maxKeyLength ==> |stored| == maxKeyLength - 1 && stored != key
  {
    if |key| < maxKeyLength then key else key[..maxKeyLength - 1]
  }

  /** The bucket of the i-th probe from `start`: (start + i) % n. */
  function Probe(start: nat, i: nat, n: nat): (j: nat)
    requires start < n && i < n
    ensures j < n && j == (start + i) % n
  {
    Wrap(start + i, n)
  }

  /** The first bucket probed for `key`. */
  function Start(key: seq<Byte>, n: nat): (start: nat)
    requires 0 < n
    ensures start < n
  {
    Hash(key) % n
  }

  /** Different probe steps of one probe sequence visit different buckets. */
  lemma ProbeInjective(start: nat, i: nat, k: nat, n: nat)
    requires start < n && i < n && k < n && i != k
    ensures Probe(start, i, n) != Probe(start, k, n)
  {
  }

  /** Every bucket is visited by some probe step. */
  lemma ProbeCovers(start: nat, j: nat, n: nat) returns (i: nat)
    requires start < n && j < n
    ensures i < n && Probe(start, i, n) == j
  {
    i := if start <= j then j - start else j + n - start;
  }

  /** A probe stops at a bucket that is unoccupied or holds the key. */
  predicate Stops(b: Bucket, key: seq<Byte>)
  {
    !b.occupied || b.key == key
  }

  /**
    The first probe step at or after `i` whose bucket stops the probe for
    `key`, or None when every remaining step passes an occupied bucket
    holding a different key.
  */
  function FirstStop(bs: seq<Bucket>, key: seq<Byte>, start: nat, i: nat): (r: Option<nat>)
    requires start < |bs| && i <= |bs|
    ensures r.Some? ==> i <= r.value < |bs| && Stops(bs[Probe(start, r.value, |bs|)], key)
    ensures forall m :: i <= m < |bs| && (r.None? || m < r.value) ==>
      !Stops(bs[Probe(start, m, |bs|)], key)
    decreases |bs| - i
  {
    if i == |bs| then None
    else if Stops(bs[Probe(start, i, |bs|)], key) then Some(i)
    else FirstStop(bs, key, start, i + 1)
  }

  /** The step of the probe for `key` that stops it, from the key's start bucket. */
  function StopStep(bs: seq<Bucket>, key: seq<Byte>): (step: Option<nat>)
    requires 0 < |bs|
  {
    FirstStop(bs, key, Start(key, |bs|), 0)
  }

  /** The bucket ht_put writes `key` into, or None when the table is full for it. */
  function Slot(bs: seq<Bucket>, key: seq<Byte>): (slot: Option<nat>)
    requires 0 < |bs|
  {
    match StopStep(bs, key)
    case None => None
    case Some(k) => Some(Probe(Start(key, |bs|), k, |bs|))
  }

  /** The bucket in which ht_get finds `key`, or None when it reports not found. */
  function Find(bs: seq<Bucket>, key: seq<Byte>): (found: Option<nat>)
    requires 0 < |bs|
  {
    match Slot(bs, key)
    case None => None
    case Some(j) => if bs[j].occupied then Some(j) else None
  }

  /** FirstStop is the only step that is a stop with no stop before it. */
  lemma FirstStopIs(bs: seq<Bucket>, key: seq<Byte>, start: nat, i: nat, k: nat)
    requires start < |bs| && i <= k < |bs|
    requires Stops(bs[Probe(start, k, |bs|)], key)
    requires forall m :: i <= m < k ==> !Stops(bs[Probe(start, m, |bs|)], key)
    ensures FirstStop(bs, key, start, i) == Some(k)
  {
  }

  /**
    ht_put fails exactly when every bucket is occupied by a key different
    from the one being put.
  */
  lemma PutFailsIffFull(bs: seq<Bucket>, key: seq<Byte>)
    requires 0 < |bs|
    ensures Slot(bs, key).None? <==>
      forall j :: 0 <= j < |bs| ==> bs[j].occupied && bs[j].key != key
  {
    var start := Start(key, |bs|);
    if Slot(bs, key).None? {
      forall j | 0 <= j < |bs| ensures bs[j].occupied && bs[j].key != key {
        var i := ProbeCovers(start, j, |bs|);
      }
    }
  }

  /**
    Putting `key` and then looking it up finds it, in the bucket the put
    wrote, with the value put, provided the key was short enough to be
    stored whole.
  */
  lemma PutThenGet(bs: seq<Bucket>, key: seq<Byte>, value: seq<Byte>, maxKeyLength: nat)
    requires 0 < |bs| && 1 <= maxKeyLength && |key| < maxKeyLength
    requires Slot(bs, key).Some?
    ensures var j := Slot(bs, key).value;
      var bs' := bs[j := Bucket(true, Truncate(key, maxKeyLength), value)];
      Find(bs', key) == Some(j) && bs'[j].value == value
  {
    var n, start := |bs|, Start(key, |bs|);
    var k := StopStep(bs, key).value;
    var j := Probe(start, k, n);
    var bs' := bs[j := Bucket(true, Truncate(key, maxKeyLength), value)];
    forall m | 0 <= m < k ensures !Stops(bs'[Probe(start, m, n)], key) {
      ProbeInjective(start, m, k, n);
    }
    FirstStopIs(bs', key, start, 0, k);
  }

  /**
    Looking up a key that is present finds it in the bucket ht_put would
    write: putting an existing key overwrites it in place and does not
    take a new bucket.
  */
  lemma FoundIsPutSlot(bs: seq<Bucket>, key: seq<Byte>)
    requires 0 < |bs| && Find(bs, key).Some?
    ensures Slot(bs, key) == Find(bs, key)
    ensures bs[Find(bs, key).value].occupied && bs[Find(bs, key).value].key == key
  {
  }

  /**
    The converse: when the bucket ht_put would write is already occupied,
    it is the bucket lookup finds, so put overwrites in place only a key
    that lookup would find.
  */
  lemma PutSlotOccupiedIsFound(bs: seq<Bucket>, key: seq<Byte>)
    requires 0 < |bs| && Slot(bs, key).Some? && bs[Slot(bs, key).value].occupied
    ensures Find(bs, key) == Slot(bs, key)
  {
  }

  /** After ht_remove clears the flag of the bucket holding `key`, it is no longer found. */
  lemma RemoveThenAbsent(bs: seq<Bucket>, key: seq<Byte>)
    requires 0 < |bs| && Find(bs, key).Some?
    ensures var j := Find(bs, key).value;
      Find(bs[j := bs[j].(occupied := false)], key).None?
  {
    var n, start := |bs|, Start(key, |bs|);
    var k := StopStep(bs, key).value;
    var j := Probe(start, k, n);
    var bs' := bs[j := bs[j].(occupied := false)];
    forall m | 0 <= m < k ensures !Stops(bs'[Probe(start, m, n)], key) {
      ProbeInjective(start, m, k, n);
    }
    FirstStopIs(bs', key, start, 0, k);
  }

  /**
    The missing tombstone: once the probe for `key` reaches an unoccupied
    bucket before any bucket holding `key`, the key is reported absent, even
    when an occupied bucket further along the probe sequence holds it.
  */
  lemma HoleHidesKey(bs: seq<Bucket>, key: seq<Byte>, m: nat)
    requires 0 < |bs| && m < |bs|
    requires !bs[Probe(Start(key, |bs|), m, |bs|)].occupied
    requires forall l :: 0 <= l < m ==>
      var b := bs[Probe(Start(key, |bs|), l, |bs|)]; !(b.occupied && b.key == key)
    ensures Find(bs, key).None?
  {
    var start := Start(key, |bs|);
    var k := StopStep(bs, key).value;
    assert k <= m;
  }

  /**
    The stored key is truncated but lookups compare the full key: a key of
    maxKeyLength bytes or more is never found, whatever the table holds.
  */
  lemma OverlongKeyNeverFound(bs: seq<Bucket>, key: seq<Byte>, maxKeyLength: nat)
    requires 0 < |bs|
    requires forall j :: 0 <= j < |bs| ==> |bs[j].key| < maxKeyLength
    requires |key| >= maxKeyLength
    ensures Find(bs, key).None?
  {
  }

  /**
    Because an over-long key is never found, every successful ht_put of it
    writes a bucket that was unoccupied: putting it again takes a new bucket.
  */
  lemma OverlongKeyTakesFreeBucket(bs: seq<Bucket>, key: seq<Byte>, maxKeyLength: nat)
    requires 0 < |bs|
    requires forall j :: 0 <= j < |bs| ==> |bs[j].key| < maxKeyLength
    requires |key| >= maxKeyLength
    ensures Slot(bs, key).Some? ==> !bs[Slot(bs, key).value].occupied
  {
    OverlongKeyNeverFound(bs, key, maxKeyLength);
    if Slot(bs, key).Some? && bs[Slot(bs, key).value].occupied {
      PutSlotOccupiedIsFound(bs, key);
    }
  }

  /** A bucket as ht_put, ht_get and ht_remove leave it: a stored key and a full value. */
  predicate WellFormed(b: Bucket, maxKeyLength: nat, valueSize: nat)
  {
    IsKey(b.key) && |b.key| < maxKeyLength && |b.value| == valueSize
  }

  class Table {
    const tableSize: nat
    const maxKeyLength: nat
    const valueSize: nat
    const bucketSize: nat
    /** One record per bucket, allocated by the constructor. */
    const buckets: array<Bucket>

    ghost predicate Valid()
      reads this, buckets
    {
      0 < tableSize && 1 <= maxKeyLength && buckets.Length == tableSize &&
      bucketSize == maxKeyLength + valueSize + 1 &&
      forall j :: 0 <= j < tableSize ==> WellFormed(buckets[j], maxKeyLength, valueSize)
    }

    /** ht_init: every bucket zeroed, hence unoccupied. */
    constructor (tableSize: nat, maxKeyLength: nat, valueSize: nat)
      requires 0 < tableSize && 1 <= maxKeyLength
      ensures Valid() && fresh(buckets)
      ensures this.tableSize == tableSize && this.maxKeyLength == maxKeyLength
      ensures this.valueSize == valueSize && bucketSize == maxKeyLength + valueSize + 1
      ensures forall j :: 0 <= j < tableSize ==> !buckets[j].occupied
    {
      this.tableSize := tableSize;
      this.maxKeyLength := maxKeyLength;
      this.valueSize := valueSize;
      bucketSize := maxKeyLength + valueSize + 1;
      var zeros: seq<Byte> := seq(valueSize, _ => 0);
      buckets := new Bucket[tableSize](_ => Bucket(false, [], zeros));
    }

    /**
      ht_put: probe from the key's start bucket for the first bucket that is
      unoccupied or holds the key; store the truncated key and the value
      there and mark it occupied.  Fails, changing nothing, when no probed
      bucket qualifies.
    */
    method Put(key: seq<Byte>, value: seq<Byte>) returns (ok: bool)
      requires Valid() && IsKey(key) && |value| == valueSize
      modifies buckets
      ensures Valid()
      ensures ok <==> Slot(old(buckets[..]), key).Some?
      ensures ok ==> buckets[..] == old(buckets[..])[Slot(old(buckets[..]), key).value :=
                                       Bucket(true, Truncate(key, maxKeyLength), value)]
      ensures !ok ==> buckets[..] == old(buckets[..])
    {
      var h := HashFunction(key);
      var index := h % tableSize;
      var i := 0;
      while i < tableSize
        invariant 0 <= i <= tableSize
        invariant FirstStop(buckets[..], key, index, i) == FirstStop(buckets[..], key, index, 0)
      {
        var current := (index + i) % tableSize;
        assert current == Probe(index, i, tableSize);
        var b := buckets[current];
        if !b.occupied || b.key == key {
          buckets[current] := Bucket(true, Truncate(key, maxKeyLength), value);
          return true;
        }
        i := i + 1;
      }
      return false;
    }

    /**
      ht_get: probe from the key's start bucket; report not found at the
      first unoccupied bucket, found with the stored value at the first
      bucket holding the key.  The table is not changed.
    */
    method Get(key: seq<Byte>) returns (found: bool, value: seq<Byte>)
      requires Valid() && IsKey(key)
      ensures found <==> Find(buckets[..], key).Some?
      ensures found ==> value == buckets[Find(buckets[..], key).value].value && |value| == valueSize
    {
      var h := HashFunction(key);
      var index := h % tableSize;
      var i := 0;
      while i < tableSize
        invariant 0 <= i <= tableSize
        invariant FirstStop(buckets[..], key, index, i) == FirstStop(buckets[..], key, index, 0)
      {
        var current := (index + i) % tableSize;
        assert current == Probe(index, i, tableSize);
        var b := buckets[current];
        if !b.occupied {
          return false, [];
        }
        if b.key == key {
          return true, b.value;
        }
        i := i + 1;
      }
      return false, [];
    }

    /**
      ht_remove: probe as ht_get does; when the key is found, clear only the
      occupied flag of its bucket (the stale key and value stay).
    */
    method Remove(key: seq<Byte>) returns (ok: bool)
      requires Valid() && IsKey(key)
      modifies buckets
      ensures Valid()
      ensures ok <==> Find(old(buckets[..]), key).Some?
      ensures ok ==> var j := Find(old(buckets[..]), key).value;
        buckets[..] == old(buckets[..])[j := old(buckets[j]).(occupied := false)]
      ensures !ok ==> buckets[..] == old(buckets[..])
    {
      var h := HashFunction(key);
      var index := h % tableSize;
      var i := 0;
      while i < tableSize
        invariant 0 <= i <= tableSize
        invariant FirstStop(buckets[..], key, index, i) == FirstStop(buckets[..], key, index, 0)
      {
        var current := (index + i) % tableSize;
        assert current == Probe(index, i, tableSize);
        var b := buckets[current];
        if !b.occupied {
          return false;
        }
        if b.key == key {
          buckets[current] := b.(occupied := false);
          return true;
        }
        i := i + 1;
      }
      return false;
    }

    /**
      ht_contains: the found flag of ht_get.  The source copies the value
      into a 16-byte scratch buffer, so values may be at most 16 bytes.
    */
    method Contains(key: seq<Byte>) returns (r: bool)
      requires Valid() && IsKey(key) && valueSize <= 16
      ensures r <==> Find(buckets[..], key).Some?
    {
      var value;
      r, value := Get(key);
    }
  }

  /** A key that no occupied bucket holds is reported absent. */
  lemma AbsentKeyNotFound(bs: seq<Bucket>, key: seq<Byte>)
    requires 0 < |bs|
    requires forall j :: 0 <= j < |bs| && bs[j].occupied ==> bs[j].key != key
    ensures Find(bs, key).None?
  {
  }

  /**
    The scenario of the test driver: 10 buckets, 16-byte keys, 4-byte
    values; put "temp" -> 25, get it back, "missing" is absent, and after
    removing "temp" it is absent too.
  */
  method Scenario() returns (put: bool, got: bool, value: seq<Byte>, has: bool,
                             hasMissing: bool, removed: bool, hasAfter: bool)
    ensures put && got && value == [25, 0, 0, 0] && has && !hasMissing
    ensures removed && !hasAfter
  {
    var temp: seq<Byte> := [116, 101, 109, 112];
    var missing: seq<Byte> := [109, 105, 115, 115, 105, 110, 103];
    var t := new Table(10, 16, 4);
    ghost var empty := t.buckets[..];
    PutFailsIffFull(empty, temp);
    put := t.Put(temp, [25, 0, 0, 0]);
    PutThenGet(empty, temp, [25, 0, 0, 0], 16);
    got, value := t.Get(temp);
    has := t.Contains(temp);
    AbsentKeyNotFound(t.buckets[..], missing);
    hasMissing := t.Contains(missing);
    ghost var full := t.buckets[..];
    removed := t.Remove(temp);
    RemoveThenAbsent(full, temp);
    hasAfter := t.Contains(temp);
  }

  /**
    The missing tombstone at work: in a table of two buckets the keys [1]
    and [3] both start at bucket 1, so [3] lands in bucket 0.  Removing [1]
    empties bucket 1, after which [3] is reported absent although bucket 0
    still holds it.
  */
  method RemoveHidesLaterKey() returns (putA: bool, putB: bool, removedA: bool,
                                        foundB: bool, storedB: bool)
    ensures putA && putB && removedA && !foundB && storedB
  {
    var a: seq<Byte> := [1];
    var b: seq<Byte> := [3];
    var t := new Table(2, 4, 1);
    assert Start(a, 2) == 1 && Start(b, 2) == 1;
    putA := t.Put(a, [10]);
    assert t.buckets[1] == Bucket(true, a, [10]);
    assert !Stops(t.buckets[..][Probe(1, 0, 2)], b) && Stops(t.buckets[..][Probe(1, 1, 2)], b);
    FirstStopIs(t.buckets[..], b, 1, 0, 1);
    putB := t.Put(b, [20]);
    assert t.buckets[0] == Bucket(true, b, [20]);
    removedA := t.Remove(a);
    assert !t.buckets[1].occupied;
    foundB := t.Contains(b);
    var b0 := t.buckets[0];
    storedB := b0.occupied && b0.key == b;
  }

  /**
    A key of maxKeyLength bytes or more is stored truncated, so it is never
    found again and a second put of it takes another bucket: with 2-byte
    keys, [7, 7] goes to bucket 0 as [7], and putting it again fills bucket 1
    instead of overwriting bucket 0.
  */
  method OverlongKeyScenario() returns (put1: bool, found: bool, put2: bool,
                                        first: Bucket, second: Bucket)
    ensures put1 && !found && put2
    ensures first == Bucket(true, [7], [1]) && second == Bucket(true, [7], [2])
  {
    var key: seq<Byte> := [7, 7];
    var t := new Table(4, 2, 1);
    assert key[..1] == [7] && [7][..0] == [];
    assert Hash([7]) == 7;
    assert Hash(key) == 224;
    assert Start(key, 4) == 0;
    put1 := t.Put(key, [1]);
    assert t.buckets[0] == Bucket(true, [7], [1]);
    assert !Stops(t.buckets[..][Probe(0, 0, 4)], key) && Stops(t.buckets[..][Probe(0, 1, 4)], key);
    FirstStopIs(t.buckets[..], key, 0, 0, 1);
    OverlongKeyNeverFound(t.buckets[..], key, 2);
    found := t.Contains(key);
    put2 := t.Put(key, [2]);
    first, second := t.buckets[0], t.buckets[1];
  }

  /** The number of occupied buckets. */
  function CountOccupied(bs: seq<Bucket>): (c: nat)
    ensures c <= |bs|
  {
    if bs == [] then 0 else (if bs[0].occupied then 1 else 0) + CountOccupied(bs[1..])
  }

  /** Every bucket is occupied exactly when the count reaches the table size. */
  lemma {:induction false} CountFullIffAllOccupied(bs: seq<Bucket>)
    ensures CountOccupied(bs) == |bs| <==> forall j :: 0 <= j < |bs| ==> bs[j].occupied
  {
    if bs != [] {
      CountFullIffAllOccupied(bs[1..]);
      assert forall j :: 1 <= j < |bs| ==> bs[j] == bs[1..][j - 1];
    }
  }

  /** Occupying an unoccupied bucket raises the count by one. */
  lemma {:induction false} CountOccupyOne(bs: seq<Bucket>, j: nat, b: Bucket)
    requires j < |bs| && !bs[j].occupied && b.occupied
    ensures CountOccupied(bs[j := b]) == CountOccupied(bs) + 1
  {
    if j == 0 {
      assert bs[j := b][1..] == bs[1..];
    } else {
      assert bs[j := b][1..] == bs[1..][j - 1 := b];
      CountOccupyOne(bs[1..], j - 1, b);
    }
  }

  /** A table with no occupied bucket counts none. */
  lemma {:induction false} CountNone(bs: seq<Bucket>)
    requires forall j :: 0 <= j < |bs| ==> !bs[j].occupied
    ensures CountOccupied(bs) == 0
  {
    if bs != [] {
      assert forall j :: 0 <= j < |bs| - 1 ==> bs[1..][j] == bs[j + 1];
      CountNone(bs[1..]);
    }
  }

  /**
    Putting `tableSize` distinct keys into a fresh table of `tableSize`
    buckets succeeds every time, and a further put of a new key then fails
    because the table is full.
  */
  method FillThenOverflow(tableSize: nat, maxKeyLength: nat, valueSize: nat,
                          keys: seq<seq<Byte>>, extra: seq<Byte>)
    returns (results: seq<bool>, last: bool)
    requires 0 < tableSize && 1 <= maxKeyLength && |keys| == tableSize
    requires forall i :: 0 <= i < |keys| ==> IsKey(keys[i]) && |keys[i]| < maxKeyLength
    requires forall i, j :: 0 <= i < j < |keys| ==> keys[i] != keys[j]
    requires IsKey(extra) && extra !in keys
    ensures |results| == tableSize && (forall i :: 0 <= i < |results| ==> results[i]) && !last
  {
    var value: seq<Byte> := seq(valueSize, _ => 0);
    var t := new Table(tableSize, maxKeyLength, valueSize);
    CountNone(t.buckets[..]);
    results := [];
    var k := 0;
    while k < tableSize
      invariant 0 <= k <= tableSize && |results| == k
      invariant forall i :: 0 <= i < k ==> results[i]
      invariant t.Valid() && t.tableSize == tableSize && t.maxKeyLength == maxKeyLength
      invariant t.valueSize == valueSize
      invariant CountOccupied(t.buckets[..]) == k
      invariant forall j :: 0 <= j < tableSize && t.buckets[j].occupied ==> t.buckets[j].key in keys[..k]
    {
      var key := keys[k];
      ghost var before := t.buckets[..];
      assert forall j :: 0 <= j < tableSize && before[j].occupied ==> before[j].key != key;
      CountFullIffAllOccupied(before);
      PutFailsIffFull(before, key);
      var ok := t.Put(key, value);
      CountOccupyOne(before, Slot(before, key).value, Bucket(true, key, value));
      assert keys[..k + 1] == keys[..k] + [key];
      results := results + [ok];
      k := k + 1;
    }
    assert keys[..k] == keys;
    CountFullIffAllOccupied(t.buckets[..]);
    PutFailsIffFull(t.buckets[..], extra);
    last := t.Put(extra, value);
  }
}
