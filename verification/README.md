# BlobIdSet in Dafny

A verified model of `BlobIdSet` from noseyparker: a membership set of blob IDs
(20-byte SHA-1 digests) split into 256 buckets, where the bucket of an ID is its
first byte. In the Rust code each bucket is a `HashSet` behind a `Mutex`; here
each bucket is a finite `set<BlobId>` and every operation is one atomic step.

The model is a data-structure refinement:

- concrete state: `BlobIdSet(buckets: seq<set<BlobId>>)`;
- representation invariant `Valid`: exactly 256 buckets, and every ID in bucket
  `i` has first byte `i` (`Partitioned`);
- abstract view `Abs`: the union of the buckets.

`New`, `Insert`, `Contains` and `Len` are proved against `Abs`. `Len` is the
sum of the bucket sizes, and because the invariant makes the buckets pairwise
disjoint, that sum is the cardinality of the abstract set.

Files:

- `blob_id.dfy` (module `BlobIds`): the `byte` type, `BlobId` as a 20-byte
  sequence, and `BucketOf`, the first-byte bucket function.
- `blob_id_set.dfy` (module `BlobIdSets`): the state, the invariant, the
  abstraction, the four operations, and the lemmas relating them.
- `insert_sequence.dfy` (module `InsertSequences`): runs of inserts made one
  after another, the distinct-count and first-insert-wins properties, and a
  worked scenario with three IDs.

## Model

| member | source | states |
|---|---|---|
| BlobIds.BucketOf | src/blob_id_set.rs:30 | the first byte of an ID, read as an unsigned 8-bit value, is always a valid index into the 256 buckets |
| BlobIdSets.New | src/blob_id_set.rs:17-24 | `new` builds 256 empty buckets: the result satisfies the invariant, represents the empty set, and `contains` is false for every ID |
| BlobIdSets.Insert | src/blob_id_set.rs:26-32 | `insert` keeps the invariant, returns true exactly when the ID was not in the set, makes the abstract set grow by exactly that ID, changes no bucket other than the ID's own, and leaves the set unchanged when it returns false |
| BlobIdSets.Contains | src/blob_id_set.rs:34-39 | `contains`, which looks only in the bucket of the ID's first byte, answers membership in the union of all buckets |
| BlobIdSets.Len | src/blob_id_set.rs:41-45 | `len` sums the bucket sizes, and that sum is the cardinality of the abstract set |
| BlobIdSets.InOwnBucket | src/blob_id_set.rs:8-11 | under the partition invariant an ID is in the union of the buckets exactly when it is in the bucket of its first byte |
| BlobIdSets.SumSizesIsCardinality | src/blob_id_set.rs:43-44 | for partitioned buckets the sum of the sizes equals the size of the union, because the buckets are pairwise disjoint |
| BlobIdSets.InsertThenContains | src/blob_id_set.rs:29-38 | after `insert(x)`, `contains(x)` holds, and every ID that was contained is still contained (no removal) |
| BlobIdSets.InsertIdempotent | src/blob_id_set.rs:26-31 | inserting an ID a second time returns false and leaves the state as the first insert left it |
| BlobIdSets.LenAfterInsert | src/blob_id_set.rs:29-44 | the sum of bucket sizes grows by one when `insert` returns true and is unchanged when it returns false |
| InsertSequences.InsertAll | src/blob_id_set.rs:26-31 | a run of inserts keeps the invariant, yields one result per call, makes the abstract set the start set plus the inserted IDs, and the number of true results is how much the set grew |
| InsertSequences.InsertAllResults | src/blob_id_set.rs:26-31 | the k-th insert of a run returns true exactly when its ID was neither in the start set nor inserted earlier in the run |
| InsertSequences.LenCountsDistinct | src/blob_id_set.rs:26-45 | inserting a sequence with duplicates into a new set gives a length equal to the number of distinct IDs, and `contains` is true exactly for the inserted IDs |
| InsertSequences.RepeatedInsertFirstWins | src/blob_id_set.rs:26-31 | inserting an absent ID n times returns true on the first call and false on every later call |
| InsertSequences.Scenario | src/blob_id_set.rs:17-45 | with A = 00..01 and C = 00..03 in bucket 0 and B = FF..02 in bucket 255: insert A and C return true, a second insert of A returns false, B is not contained before its insert, the size is 2 and then 3 after B is inserted |

## Left out

- The `Mutex` around each bucket and the panic of `.lock().unwrap()` on a poisoned lock (src/blob_id_set.rs:31, 38, 44): concurrency and runtime failure; each operation is modelled as one atomic, sequential step.
- The fact that `len` is not a consistent snapshot while other threads insert: it is only about concurrent interleavings. The concurrent "N racing inserts, exactly one wins" property is modelled in its sequential form by `RepeatedInsertFirstWins`.
- The `HashSet::with_capacity(1024)` capacity hint and the array-initialisation idiom (src/blob_id_set.rs:19-22): no effect on behaviour.
- The internals of `BlobId` and its hashing (`src/blob_id.rs` is not part of this model): a blob ID is an opaque 20-byte sequence compared by equality.
- The argument that SHA-1 first bytes are uniformly distributed, so buckets are balanced (src/blob_id_set.rs:10-11): a probabilistic performance claim, not a correctness one.
- BlobIdSets.Len: the result is an unbounded `nat`; the `usize` sum in the source cannot overflow in practice because it counts values held in memory, so no wrap-around is modelled.
