/** A concrete merge: four entries that arrive with start times 5, 3, 5 and
    1 come out as 1, 3, 5, 5, the two entries of time 5 in arrival order. */
module MergeVectors {
  import opened Entry
  import opened Merge

  lemma KeysOfExample(a: HistoryEntry, b: HistoryEntry, c: HistoryEntry, d: HistoryEntry)
    requires a.startTime == 5 && b.startTime == 3 && c.startTime == 5 && d.startTime == 1
    ensures Keys([a, b, c, d]) == {1, 3, 5}
  {
    var es := [a, b, c, d];
    assert es[0].startTime == 5 && es[1].startTime == 3 && es[3].startTime == 1;
  }

  /** The smallest of 1, 3 and 5 is visited first, and so on. */
  lemma AscendingOfExample()
    ensures Ascending({1, 3, 5}) == [1, 3, 5]
  {
    AscendingStep({1, 3, 5});
    assert MinKey({1, 3, 5}) == 1;
    assert {1, 3, 5} - {1} == {3, 5};
    AscendingStep({3, 5});
    assert MinKey({3, 5}) == 3;
    assert {3, 5} - {3} == {5};
    AscendingStep({5});
    assert MinKey({5}) == 5;
    assert {5} - {5} == {};
  }

  /** The bucket of one more entry. */
  lemma BucketSnoc(es: seq<HistoryEntry>, e: HistoryEntry, k: int)
    ensures Bucket(es + [e], k) == Bucket(es, k) + (if e.startTime == k then [e] else [])
  {
    assert (es + [e])[..|es|] == es;
  }

  /** The bucket of a key in four entries: each entry that has the key, in order. */
  lemma BucketOfFour(a: HistoryEntry, b: HistoryEntry, c: HistoryEntry, d: HistoryEntry, k: int)
    ensures Bucket([a, b, c, d], k) ==
      (if a.startTime == k then [a] else []) + (if b.startTime == k then [b] else []) +
      (if c.startTime == k then [c] else []) + (if d.startTime == k then [d] else [])
  {
    var s1: seq<HistoryEntry> := [] + [a];
    var s2 := s1 + [b];
    var s3 := s2 + [c];
    BucketSnoc([], a, k);
    BucketSnoc(s1, b, k);
    BucketSnoc(s2, c, k);
    BucketSnoc(s3, d, k);
    assert s3 + [d] == [a, b, c, d];
  }

  lemma BucketsOfExample(a: HistoryEntry, b: HistoryEntry, c: HistoryEntry, d: HistoryEntry)
    requires a.startTime == 5 && b.startTime == 3 && c.startTime == 5 && d.startTime == 1
    ensures Bucket([a, b, c, d], 1) == [d]
    ensures Bucket([a, b, c, d], 3) == [b]
    ensures Bucket([a, b, c, d], 5) == [a, c]
  {
    BucketOfFour(a, b, c, d, 1);
    BucketOfFour(a, b, c, d, 3);
    BucketOfFour(a, b, c, d, 5);
  }

  /** Emitting the buckets of 1, 3 and 5 in that order. */
  lemma EmitOfExample(m: map<int, seq<HistoryEntry>>, a: HistoryEntry, b: HistoryEntry, c: HistoryEntry, d: HistoryEntry)
    requires Get(m, 1) == [d] && Get(m, 3) == [b] && Get(m, 5) == [a, c]
    ensures Emit(m, [1, 3, 5]) == [d, b, a, c]
  {
    assert [1, 3, 5][1..] == [3, 5] && [3, 5][1..] == [5] && [5][1..] == [];
    assert Emit(m, [5]) == [a, c] + Emit(m, []);
    assert Emit(m, [3, 5]) == [b] + Emit(m, [5]);
    assert Emit(m, [1, 3, 5]) == [d] + Emit(m, [3, 5]);
  }

  /** The merged order of the example: by start time, ties in arrival order. */
  lemma MergeExample(a: HistoryEntry, b: HistoryEntry, c: HistoryEntry, d: HistoryEntry)
    requires a.startTime == 5 && b.startTime == 3 && c.startTime == 5 && d.startTime == 1
    ensures Merged([a, b, c, d]) == [d, b, a, c]
  {
    var es := [a, b, c, d];
    KeysOfExample(a, b, c, d);
    AscendingOfExample();
    BucketsOfExample(a, b, c, d);
    var m := Buckets(es);
    assert 1 in Keys(es) && 3 in Keys(es) && 5 in Keys(es);
    EmitOfExample(m, a, b, c, d);
  }
}
