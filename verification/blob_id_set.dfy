/** A set of blob IDs split into 256 buckets by first byte.

    Concrete state: a sequence of 256 finite sets (the per-bucket hash sets).
    Representation invariant: every ID in bucket `i` has first byte `i`.
    Abstract view: the union of the buckets.

    Each bucket's mutex is left out; every operation is one atomic step. */
module BlobIdSets {
  import opened BlobIds

  datatype BlobIdSet = BlobIdSet(buckets: seq<set<BlobId>>)

  /** Outcome of `Insert`: the updated set and whether the ID was newly added. */
  datatype Inserted = Inserted(next: BlobIdSet, added: bool)

  /** Every ID stored at position `i` belongs to bucket `i`. */
  predicate Partitioned(bs: seq<set<BlobId>>)
  {
    forall i, id | 0 <= i < |bs| && id in bs[i] :: BucketOf(id) == i
  }

  /** The representation invariant: one bucket per first-byte value, and each
      ID sits in the bucket of its first byte. */
  predicate Valid(s: BlobIdSet)
  {
    |s.buckets| == NumBuckets && Partitioned(s.buckets)
  }

  /** The union of a sequence of buckets. */
  function Union(bs: seq<set<BlobId>>): set<BlobId>
  {
    if |bs| == 0 then {} else Union(bs[..|bs| - 1]) + bs[|bs| - 1]
  }

  /** The sum of the bucket sizes. */
  function SumSizes(bs: seq<set<BlobId>>): nat
  {
    if |bs| == 0 then 0 else SumSizes(bs[..|bs| - 1]) + |bs[|bs| - 1]|
  }

  /** The abstract set a `BlobIdSet` represents. */
  function Abs(s: BlobIdSet): set<BlobId>
  {
    Union(s.buckets)
  }

  // ---------------------------------------------------------------------
  // Facts about unions of partitioned buckets
  // ---------------------------------------------------------------------

  /** An ID lies in the union exactly when it lies in one of the buckets. */
  lemma {:induction false} UnionMembership(bs: seq<set<BlobId>>, id: BlobId)
    ensures id in Union(bs) <==> exists i :: 0 <= i < |bs| && id in bs[i]
  {
    if |bs| > 0 {
      var front := bs[..|bs| - 1];
      UnionMembership(front, id);
      if id in Union(bs) && id !in bs[|bs| - 1] {
        var i :| 0 <= i < |front| && id in front[i];
        assert id in bs[i];
      }
    }
  }

  /** Every member of the union of partitioned buckets has a first byte below
      the number of buckets. */
  lemma UnionBound(bs: seq<set<BlobId>>, id: BlobId)
    requires Partitioned(bs)
    requires id in Union(bs)
    ensures BucketOf(id) < |bs|
  {
    UnionMembership(bs, id);
  }

  /** In partitioned buckets an ID can only be found in its own bucket. */
  lemma InOwnBucket(bs: seq<set<BlobId>>, id: BlobId)
    requires Partitioned(bs)
    requires BucketOf(id) < |bs|
    ensures id in Union(bs) <==> id in bs[BucketOf(id)]
  {
    UnionMembership(bs, id);
  }

  /** Partitioned buckets are pairwise disjoint, so the sum of their sizes is
      the size of their union. */
  lemma {:induction false} SumSizesIsCardinality(bs: seq<set<BlobId>>)
    requires Partitioned(bs)
    ensures SumSizes(bs) == |Union(bs)|
  {
    if |bs| > 0 {
      var front := bs[..|bs| - 1];
      var last := bs[|bs| - 1];
      assert Partitioned(front);
      SumSizesIsCardinality(front);
      forall id | id in Union(front)
        ensures id !in last
      {
        UnionBound(front, id);
      }
      assert Union(front) !! last;
    }
  }

  /** Adding an ID to one bucket adds exactly that ID to the union. */
  lemma {:induction false} UnionAfterAdd(bs: seq<set<BlobId>>, i: nat, id: BlobId)
    requires i < |bs|
    ensures Union(bs[i := bs[i] + {id}]) == Union(bs) + {id}
  {
    var bs' := bs[i := bs[i] + {id}];
    var n := |bs|;
    if i == n - 1 {
      assert bs'[..n - 1] == bs[..n - 1];
    } else {
      assert bs'[..n - 1] == bs[..n - 1][i := bs[i] + {id}];
      UnionAfterAdd(bs[..n - 1], i, id);
    }
  }

  /** Buckets that are all empty have an empty union and a zero size sum. */
  lemma {:induction false} AllEmpty(bs: seq<set<BlobId>>)
    requires forall i | 0 <= i < |bs| :: bs[i] == {}
    ensures Union(bs) == {}
    ensures SumSizes(bs) == 0
  {
    if |bs| > 0 {
      AllEmpty(bs[..|bs| - 1]);
    }
  }

  // ---------------------------------------------------------------------
  // Operations
  // ---------------------------------------------------------------------

  /** `BlobIdSet::new`: 256 empty buckets. It satisfies the invariant and
      represents the empty set, so nothing is a member. */
  function New(): (r: BlobIdSet)
    ensures Valid(r)
    ensures Abs(r) == {}
    ensures forall i | 0 <= i < |r.buckets| :: r.buckets[i] == {}
    ensures forall id :: !Contains(r, id)
  {
    var r := BlobIdSet(seq(NumBuckets, _ => {}));
    AllEmpty(r.buckets);
    r
  }

  /** `BlobIdSet::insert`: add `id` to the bucket of its first byte, reporting
      whether it was absent. Only that one bucket changes. */
  function Insert(s: BlobIdSet, id: BlobId): (r: Inserted)
    requires Valid(s)
    ensures Valid(r.next)
    ensures r.added <==> id !in Abs(s)
    ensures Abs(r.next) == Abs(s) + {id}
    ensures forall i | 0 <= i < NumBuckets && i != BucketOf(id) ::
              r.next.buckets[i] == s.buckets[i]
    ensures !r.added ==> r.next == s
  {
    var b := BucketOf(id);
    var bucket := s.buckets[b];
    InOwnBucket(s.buckets, id);
    UnionAfterAdd(s.buckets, b, id);
    assert id in bucket ==> bucket + {id} == bucket;
    assert s.buckets[b := bucket] == s.buckets;
    Inserted(BlobIdSet(s.buckets[b := bucket + {id}]), id !in bucket)
  }

  /** `BlobIdSet::contains`: look in the bucket of the ID's first byte. The
      answer is membership in the abstract set. */
  function Contains(s: BlobIdSet, id: BlobId): (r: bool)
    requires Valid(s)
    ensures r <==> id in Abs(s)
  {
    InOwnBucket(s.buckets, id);
    id in s.buckets[BucketOf(id)]
  }

  /** `BlobIdSet::len`: sum the sizes of the buckets one by one. Because the
      buckets are disjoint, the total is the size of the abstract set. */
  method Len(s: BlobIdSet) returns (n: nat)
    requires Valid(s)
    ensures n == SumSizes(s.buckets)
    ensures n == |Abs(s)|
  {
    var bs := s.buckets;
    n := 0;
    var i := 0;
    while i < |bs|
      invariant 0 <= i <= |bs|
      invariant n == SumSizes(bs[..i])
    {
      assert bs[..i + 1][..i] == bs[..i];
      n := n + |bs[i]|;
      i := i + 1;
    }
    assert bs[..i] == bs;
    SumSizesIsCardinality(bs);
  }

  // ---------------------------------------------------------------------
  // Properties relating several calls
  // ---------------------------------------------------------------------

  /** After `insert(id)`, `contains(id)` holds, and nothing that was a member
      stops being one. */
  lemma InsertThenContains(s: BlobIdSet, id: BlobId, other: BlobId)
    requires Valid(s)
    ensures Contains(Insert(s, id).next, id)
    ensures Contains(s, other) ==> Contains(Insert(s, id).next, other)
  {
  }

  /** Inserting the same ID twice: the second call reports `false` and leaves
      the set as the first call left it. */
  lemma InsertIdempotent(s: BlobIdSet, id: BlobId)
    requires Valid(s)
    ensures !Insert(Insert(s, id).next, id).added
    ensures Insert(Insert(s, id).next, id).next == Insert(s, id).next
  {
  }

  /** The sum of bucket sizes grows by one exactly when `insert` reports a new
      ID, and is unchanged otherwise. */
  lemma LenAfterInsert(s: BlobIdSet, id: BlobId)
    requires Valid(s)
    ensures var r := Insert(s, id);
            SumSizes(r.next.buckets) == SumSizes(s.buckets) + (if r.added then 1 else 0)
  {
    var r := Insert(s, id);
    SumSizesIsCardinality(s.buckets);
    SumSizesIsCardinality(r.next.buckets);
  }
}
