/** Sequences of `insert` calls made one after another, and the set-level
    facts callers rely on: the final size counts distinct IDs, and among
    repeated inserts of one ID exactly the first reports `true`. */
module InsertSequences {
  import opened BlobIds
  import opened BlobIdSets

  /** The state after a run of inserts, and each call's return value in order. */
  datatype Run = Run(final: BlobIdSet, results: seq<bool>)

  /** The number of `true` values in a sequence of results. */
  function CountTrue(bs: seq<bool>): nat
  {
    if |bs| == 0 then 0 else CountTrue(bs[..|bs| - 1]) + (if bs[|bs| - 1] then 1 else 0)
  }

  /** The distinct IDs occurring in a sequence. */
  function Elems(ids: seq<BlobId>): set<BlobId>
  {
    set id | id in ids
  }

  /** Insert `ids[0]`, then `ids[1]`, and so on. The `k`-th call reports `true`
      exactly when `ids[k]` was neither in the starting set nor earlier in the
      run, and the number of `true` results is the growth of the set. */
  function InsertAll(s: BlobIdSet, ids: seq<BlobId>): (r: Run)
    requires Valid(s)
    ensures Valid(r.final)
    ensures |r.results| == |ids|
    ensures Abs(r.final) == Abs(s) + Elems(ids)
    ensures CountTrue(r.results) + |Abs(s)| == |Abs(r.final)|
  {
    if |ids| == 0 then Run(s, [])
    else
      var n := |ids| - 1;
      var p := InsertAll(s, ids[..n]);
      var step := Insert(p.final, ids[n]);
      var results := p.results + [step.added];
      assert Elems(ids) == Elems(ids[..n]) + {ids[n]} by {
        assert ids == ids[..n] + [ids[n]];
      }
      assert CountTrue(results) == CountTrue(p.results) + (if step.added then 1 else 0) by {
        assert results[..n] == p.results;
      }
      assert |Abs(step.next)| == |Abs(p.final)| + (if step.added then 1 else 0);
      Run(step.next, results)
  }

  /** The `k`-th insert of a run reports `true` exactly when `ids[k]` was
      neither in the starting set nor earlier in the run. */
  lemma {:induction false} InsertAllResults(s: BlobIdSet, ids: seq<BlobId>, k: nat)
    requires Valid(s)
    requires k < |ids|
    ensures InsertAll(s, ids).results[k] <==> ids[k] !in Abs(s) && ids[k] !in ids[..k]
  {
    var n := |ids| - 1;
    var p := InsertAll(s, ids[..n]);
    assert InsertAll(s, ids).results == p.results + [Insert(p.final, ids[n]).added];
    if k < n {
      InsertAllResults(s, ids[..n], k);
      assert ids[..n][..k] == ids[..k];
    } else {
      assert ids[n] in Elems(ids[..n]) <==> ids[n] in ids[..n];
    }
  }

  /** With no concurrent mutation, the length after inserting a collection of
      IDs (duplicates allowed) into a fresh set is the number of distinct IDs. */
  lemma LenCountsDistinct(ids: seq<BlobId>)
    ensures SumSizes(InsertAll(New(), ids).final.buckets) == |Elems(ids)|
    ensures CountTrue(InsertAll(New(), ids).results) == |Elems(ids)|
    ensures forall x :: Contains(InsertAll(New(), ids).final, x) <==> x in ids
  {
    var r := InsertAll(New(), ids);
    SumSizesIsCardinality(r.final.buckets);
  }

  /** Repeatedly inserting one ID that is not yet present: the first call
      reports `true`, every later one `false`. */
  lemma {:induction false} RepeatedInsertFirstWins(s: BlobIdSet, id: BlobId, n: nat)
    requires Valid(s)
    requires id !in Abs(s)
    requires n > 0
    ensures var r := InsertAll(s, seq(n, _ => id));
            r.results[0] && (forall k | 1 <= k < n :: !r.results[k]) && CountTrue(r.results) == 1
  {
    var ids := seq(n, _ => id);
    var r := InsertAll(s, ids);
    assert Elems(ids) == {id} by {
      assert ids[0] == id;
    }
    InsertAllResults(s, ids, 0);
    forall k | 1 <= k < n
      ensures !r.results[k]
    {
      InsertAllResults(s, ids, k);
      assert ids[..k][0] == id;
    }
  }

  /** A first byte followed by nineteen filler bytes and a final byte. */
  function Id(first: byte, last: byte): (id: BlobId)
    ensures id[0] == first && id[DigestLen - 1] == last
  {
    [first] + seq(DigestLen - 2, _ => 0) + [last]
  }

  /** A worked sequence of calls: A = 00..01 and C = 00..03 share bucket 0,
      B = FF..02 lives in bucket 255. */
  lemma Scenario()
    ensures var a, b, c := Id(0x00, 0x01), Id(0xFF, 0x02), Id(0x00, 0x03);
            var s0 := New();
            var r1 := Insert(s0, a);
            var r2 := Insert(r1.next, c);
            var r3 := Insert(r2.next, a);
            var r4 := Insert(r3.next, b);
            && r1.added && r2.added && !r3.added
            && !Contains(r3.next, b)
            && |Abs(r3.next)| == 2
            && r4.added && |Abs(r4.next)| == 3
            && BucketOf(a) == BucketOf(c) != BucketOf(b)
  {
  }
}
