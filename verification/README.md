# Fixed-capacity containers over caller-supplied storage

A Dafny model of four small containers meant for firmware that may not
allocate from a heap. Each works only over storage its caller hands it,
reports failure through its return value and does no I/O:

- `CircularBuffer` (circular_buffer.h): a FIFO byte ring buffer. `head` is
  where the next byte is written and `tail` where the next byte is read.
  Both wrap modulo `size`, and `count` alone decides empty and full. The
  class `Buffer` keeps the queued bytes in a ghost sequence `Contents`. Its
  invariant `Valid()` ties `Contents` to the storage cells from `tail` on
  and gives `head == (tail + count) % size`.
- `StackAllocator` (stack_allocator.h): a bump allocator with one cursor
  `top`. A pointer into the region is an offset. `Offsets` predicts what a
  run of allocations returns, and the lemmas prove that successful
  allocations are disjoint and adjacent.
- `MemoryPool` (memory_pool.h): `totalSize / blockSize` equal blocks and an
  intrusive free list. A block is named by its index and its link word is
  `next[b]`, with NULL as -1. The ghost `FreeList` is the list the links
  spell out, head first. It holds distinct indices, so allocation pops its
  head and freeing pushes a new head (LIFO reuse).
- `FixedHashTable` (fixed_hash_table.h): open addressing with linear
  probing over `tableSize` records `Bucket(occupied, key, value)`. The hash
  is `hash * 31 + c`, wrapping modulo 2^64. `FirstStop` is the first probe
  step whose bucket is unoccupied or holds the key. Put writes that bucket
  (`Slot`). Get and remove report the key only when that bucket is
  occupied (`Find`). Two behaviours of the code are kept as written and
  proved as lemmas. First, removal clears only the flag and there are no
  tombstones, so a removed key hides later keys of its probe chain. Second,
  the key is stored truncated to `maxKeyLength - 1` bytes but compared in
  full, so an over-long key is never found again.

`Types` holds the byte type, the size_t modulus, the pointer width,
`Option`, where None stands for a NULL result, and `Wrap`, the one-step
wrap-around shared by the ring indices and the probe sequence.

Two behaviours of the code that are easy to overlook are kept as written:
- Putting an existing key overwrites it in place exactly when lookup
  would find it: a found key's bucket is put's slot (`FoundIsPutSlot`), and
  an occupied slot is the found bucket (`PutSlotOccupiedIsFound`). So an
  over-long key takes a new, unoccupied bucket on every successful put
  (`OverlongKeyTakesFreeBucket`, `OverlongKeyScenario`), and a key that
  sits past a bucket freed by a removal is put into that earlier bucket,
  because put stops at the first unoccupied bucket.
- A ring buffer of size 0 is well defined: it is always both empty and
  full, every write and every read is refused, and the `% size` is never
  reached (`ZeroSize`).

One behaviour is changed: hash_function adds each `char` of the key, and
`char` may be signed, while the model adds every key byte as unsigned. On
a signed-`char` target a key with a byte of 128 or more can start at a
different bucket than the model's.

## Model

| member | source | states |
|---|---|---|
| `Types.Wrap` | circular_buffer.h:67 | an index that has run past the end at most once wraps to `x % n`, below `n`; used by the ring indices and by the probe sequence |
| `CircularBuffer.Buffer.constructor` | circular_buffer.h:44-50 | cb_init attaches the caller's storage; head, tail and count are 0; the buffer is empty, and full exactly when its size is 0 |
| `CircularBuffer.Buffer.IsEmpty` | circular_buffer.h:52-54 | true iff no byte is queued |
| `CircularBuffer.Buffer.IsFull` | circular_buffer.h:56-58 | true iff `size` bytes are queued |
| `CircularBuffer.Buffer.Write` | circular_buffer.h:61-72 | fails iff full and then changes nothing (indices, count, storage); otherwise stores the byte at the old head, advances head modulo size, increments count, leaves every other cell alone, and the queue becomes old queue + [byte]; the invariant is kept |
| `CircularBuffer.Buffer.Read` | circular_buffer.h:75-84 | fails iff empty with no state change; otherwise returns the cell at the old tail, which is the oldest queued byte (FIFO), advances tail modulo size, decrements count and drops that byte from the queue |
| `CircularBuffer.Buffer.AvailableSpace` | circular_buffer.h:87-89 | free space plus queued bytes equals `size` |
| `CircularBuffer.Buffer.DataCount` | circular_buffer.h:91-93 | equals the number of queued bytes, and plus the free space gives `size` |
| `CircularBuffer.WriteAll` | circular_buffer.h:61-72 | writing bytes that fit appends them, in order, to the queue |
| `CircularBuffer.ReadAll` | circular_buffer.h:75-84 | reading until empty returns the queued bytes oldest first |
| `CircularBuffer.WriteThenRead` | circular_buffer.h:60-84 | writing up to `size` bytes into a fresh buffer and reading as many back returns them in write order and leaves it empty |
| `CircularBuffer.ZeroSize` | circular_buffer.h:53-84 | a buffer of size 0 is both empty and full, and refuses a write and a read |
| `CircularBuffer.Scenario` | test_embedded_ds.cpp:7-36 | capacity 5: 42 then 100 are read back in order; after writing 0..4 the buffer is full, writing 99 fails and the contents stay 0..4 |
| `StackAllocator.Allocator.constructor` | stack_allocator.h:28-32 | stack_init sets `top` to 0 |
| `StackAllocator.Allocator.Alloc` | stack_allocator.h:36-45 | NULL iff `top + bytes > size`, leaving `top` unchanged; otherwise returns the old `top` and advances it by `bytes`; `top <= size` is kept; the result is the first step of `Offsets` |
| `StackAllocator.Allocator.FreeTo` | stack_allocator.h:48-50 | sets `top` to the given mark exactly; a mark inside the region keeps `top <= size` |
| `StackAllocator.Allocator.Reset` | stack_allocator.h:52-54 | sets `top` to 0 |
| `StackAllocator.OffsetsDisjoint` | stack_allocator.h:36-45 | every successful allocation of a run lies in [start, size) and ends at or before every later one begins (no overlap); the cursor never passes `size` |
| `StackAllocator.OffsetsAdjacent` | stack_allocator.h:41-44 | two successive successful allocations are adjacent: the second starts where the first ends |
| `StackAllocator.AllocateAll` | stack_allocator.h:28-45 | a fresh allocator fed a run of requests returns exactly what `Offsets` predicts |
| `StackAllocator.Scenario` | test_embedded_ds.cpp:37-56 | over 100 bytes, allocations of 20 and 30 return offsets 0 and 20; after a reset an allocation of 50 returns offset 0 |
| `MemoryPool.Pool.constructor` | memory_pool.h:29-46 | for blocks at least a pointer wide, mp_init links block i to i + 1 and the last block to NULL: the free list is 0, 1, ..., numBlocks - 1 |
| `MemoryPool.Pool.BlockOffset` | memory_pool.h:35-38 | block b starts at `b * blockSize` and ends inside the region, so remainder bytes belong to no block |
| `MemoryPool.Pool.Alloc` | memory_pool.h:49-60 | NULL iff the free list is empty, with no change; otherwise returns the head and the free list loses its head; distinctness and the links are kept |
| `MemoryPool.Pool.Free` | memory_pool.h:62-68 | for an allocated block, the block becomes the head, followed by the old free list |
| `MemoryPool.Drain` | memory_pool.h:49-60 | allocating until NULL hands out exactly the free list, in order |
| `MemoryPool.DrainFreshPool` | memory_pool.h:29-60 | from a fresh pool exactly numBlocks allocations succeed, in address order, then one fails |
| `MemoryPool.ExhaustThenFreeOne` | memory_pool.h:49-68 | after exhausting the pool, freeing one block allows exactly one more allocation, which returns that block |
| `MemoryPool.Scenario` | test_embedded_ds.cpp:57-76 | 200 bytes in 32-byte blocks: allocations return blocks 0 and 1; freeing block 0 and allocating again returns block 0 (LIFO reuse) |
| `FixedHashTable.Hash` | fixed_hash_table.h:41-48 | the polynomial hash stays within size_t |
| `FixedHashTable.HashFunction` | fixed_hash_table.h:41-48 | the accumulation loop computes the wrapping fold `hash * 31 + c` |
| `FixedHashTable.Truncate` | fixed_hash_table.h:67-68 | the stored key has fewer than maxKeyLength bytes and is a prefix of the key; it is the key itself iff the key is shorter than maxKeyLength |
| `FixedHashTable.Start` | fixed_hash_table.h:53 | the start bucket is a valid bucket index |
| `FixedHashTable.Probe` | fixed_hash_table.h:57 | the i-th probe visits `(start + i) % tableSize`, a valid bucket index |
| `FixedHashTable.ProbeInjective` | fixed_hash_table.h:56-57 | different probe steps visit different buckets |
| `FixedHashTable.ProbeCovers` | fixed_hash_table.h:56-57 | every bucket is visited by some probe step below tableSize |
| `FixedHashTable.FirstStop` | fixed_hash_table.h:56-65 | the step it returns has a bucket that is unoccupied or holds the key, and every earlier step passes an occupied bucket holding another key; with None, every step does |
| `FixedHashTable.FirstStopIs` | fixed_hash_table.h:56-65 | a stopping step with no stopping step before it is the one the probe finds |
| `FixedHashTable.PutFailsIffFull` | fixed_hash_table.h:56-81 | put fails iff every bucket is occupied by a different key |
| `FixedHashTable.PutThenGet` | fixed_hash_table.h:52-104 | after a put of a key shorter than maxKeyLength, lookup finds it in the bucket written, with the value put |
| `FixedHashTable.FoundIsPutSlot` | fixed_hash_table.h:65-100 | a key that lookup finds is overwritten in place by put, so no new bucket is taken |
| `FixedHashTable.PutSlotOccupiedIsFound` | fixed_hash_table.h:56-100 | when the bucket put would write is occupied, it is the bucket lookup finds: put overwrites in place only a key that lookup would find |
| `FixedHashTable.OverlongKeyTakesFreeBucket` | fixed_hash_table.h:56-77 | when every stored key is shorter than maxKeyLength, a successful put of a key of maxKeyLength bytes or more writes an unoccupied bucket |
| `FixedHashTable.RemoveThenAbsent` | fixed_hash_table.h:111-131 | after the flag of the found bucket is cleared, the key is not found |
| `FixedHashTable.HoleHidesKey` | fixed_hash_table.h:89-97 | an unoccupied bucket met before any bucket holding the key ends the lookup with not-found, whatever lies further along the chain |
| `FixedHashTable.OverlongKeyNeverFound` | fixed_hash_table.h:65-68 | since stored keys are truncated and lookup compares the full key (line 100), a key of maxKeyLength bytes or more is never found |
| `FixedHashTable.AbsentKeyNotFound` | fixed_hash_table.h:94-104 | a key no occupied bucket holds is reported absent |
| `FixedHashTable.Table.constructor` | fixed_hash_table.h:30-38 | ht_init leaves every bucket unoccupied and sets bucketSize to maxKeyLength + valueSize + 1 |
| `FixedHashTable.Table.Put` | fixed_hash_table.h:52-82 | succeeds iff a probed bucket is unoccupied or holds the key; then that first such bucket, and no other, becomes occupied with the truncated key and the value; on failure nothing changes |
| `FixedHashTable.Table.Get` | fixed_hash_table.h:85-108 | finds the key iff the first stopping bucket is occupied, returns that bucket's value, and never changes the table |
| `FixedHashTable.Table.Remove` | fixed_hash_table.h:111-131 | when the key is found, clears only that bucket's flag (stale key and value stay); otherwise returns false and changes nothing |
| `FixedHashTable.Table.Contains` | fixed_hash_table.h:133-136 | equals the found result of ht_get |
| `FixedHashTable.Scenario` | test_embedded_ds.cpp:77-101 | 10 buckets, 16-byte keys, 4-byte values: put "temp" = 25, get returns 25, "missing" is absent, after remove "temp" is absent |
| `FixedHashTable.RemoveHidesLaterKey` | fixed_hash_table.h:123-126 | keys [1] and [3] collide in two buckets; after removing [1], [3] is reported absent though still stored |
| `FixedHashTable.OverlongKeyScenario` | fixed_hash_table.h:65-77 | putting an over-long key twice fills two buckets with the same truncated key, and it is never found |
| `FixedHashTable.CountFullIffAllOccupied` | fixed_hash_table.h:56-81 | the occupied count equals the table size iff every bucket is occupied |
| `FixedHashTable.CountOccupyOne` | fixed_hash_table.h:75 | setting the flag of an unoccupied bucket raises the occupied count by one |
| `FixedHashTable.FillThenOverflow` | fixed_hash_table.h:52-82 | tableSize distinct short keys all go into a fresh table; a further new key is refused |

## Left out

- Raw pointers are not modelled. Pool blocks are indices and allocator
  results are offsets. The casts `*(void **)block` (memory_pool.h:42, :64)
  become the `next` array, and the pointer subtraction in stack_free_to
  becomes a mark.
- The contents of the stack allocator's region are not modelled, because
  the allocator never reads or writes them.
- Pool payload bytes are not modelled. A caller that writes into an
  allocated block overwrites its link word, and that link is meaningless
  while the block is allocated.
- The hash table's flat byte layout (key region, value region, flag byte)
  is a record per bucket. `memset`, `strncpy`, `strcmp` and `memcpy`
  become sequence construction, truncation, comparison and copying on
  NUL-free keys. The storage is allocated by the constructor rather than
  passed in.
- The pool's link words are likewise a fresh array, not part of the
  caller's region.
- MemoryPool.Pool.Free: it requires the block to be allocated and not yet
  freed. The code cannot detect a double free or a foreign pointer, and
  both are undefined behaviour.
- StackAllocator.Allocator.FreeTo: it requires a mark inside the region.
  Any mark from an earlier allocation qualifies. Other marks are undefined
  behaviour.
- StackAllocator.Allocator.Alloc: it requires that `top + bytes` does not
  overflow size_t. The code's bounds check is wrong when it overflows.
- MemoryPool.Pool.constructor: it requires at least one whole block.
  With none, mp_init's `num_blocks - 1` wraps around size_t and the loop
  writes past the region (memory_pool.h:36).
- FixedHashTable.Table.constructor: it requires at least one bucket and a
  `maxKeyLength` of at least 1. ht_init itself is well defined for both,
  but with no buckets every put, get and remove takes `% 0` (lines 53, 86
  and 112), and with `maxKeyLength` 0 ht_put's `max_key_length - 1` wraps
  around size_t so that strncpy writes past the bucket (lines 67-68); get,
  remove and contains on such a table would report the key absent.
- MemoryPool.Pool.constructor: it requires blocks of at least 8 bytes, the
  pointer width of the 64-bit target. The code stores a pointer at the start
  of every block, so with smaller blocks each link store overwrites part of
  the previous block's link, and the final NULL store can write past the
  region (when fewer than 8 bytes remain from the last block's start).
  The model keeps the links in a separate array, which cannot show that
  corruption, so it leaves such pools out.
- FixedHashTable.Table.Contains: it requires values of at most 16 bytes,
  the size of its scratch buffer.
- CircularBuffer.Buffer.Read: on failure it returns 0, where the code
  leaves the caller's byte untouched.
- FixedHashTable.Table.Get: on failure it returns an empty value, where
  the code leaves the caller's buffer untouched.
- The single-producer/single-consumer use of the ring buffer is not
  modelled. The code has no synchronisation, so the model is sequential.
- Signed `char` is not modelled: key bytes are unsigned in the hash.
- The test driver and the aggregating header are not part of this model.
  Their scenarios appear as the `Scenario` methods.
