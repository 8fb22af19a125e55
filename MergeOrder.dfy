/** What the merge promises about its output: it is a stable sort of the
    parsed entries by start time (sorted, a permutation, and entries with
    equal start times in arrival order), every record is either merged or
    reported, and the output is complete exactly when every entry has a
    non-negative duration. */
module MergeOrder {
  import opened Bytes
  import opened Entry
  import opened Merge

  predicate StrictlyIncreasing(keys: seq<int>)
  {
    forall i, j | 0 <= i < j < |keys| :: keys[i] < keys[j]
  }

  predicate SortedByStart(es: seq<HistoryEntry>)
  {
    forall i, j | 0 <= i < j < |es| :: es[i].startTime <= es[j].startTime
  }

  // ---------------------------------------------------------------------
  // The ascending key order

  /** The ascending order lists exactly the keys of the set. */
  lemma {:induction false} AscendingMembers(s: set<int>)
    ensures forall k :: k in Ascending(s) <==> k in s
    decreases |s|
  {
    if s != {} {
      var k := MinKey(s);
      AscendingStep(s);
      AscendingMembers(s - {k});
    }
  }

  /** The ascending order is strictly increasing, so no key is visited twice. */
  lemma {:induction false} AscendingSorted(s: set<int>)
    ensures StrictlyIncreasing(Ascending(s))
    decreases |s|
  {
    if s != {} {
      var k := MinKey(s);
      var rest := Ascending(s - {k});
      AscendingStep(s);
      AscendingSorted(s - {k});
      AscendingMembers(s - {k});
      var r := [k] + rest;
      forall i, j | 0 <= i < j < |r| ensures r[i] < r[j] {
        if i == 0 {
          assert r[j] == rest[j - 1] && rest[j - 1] in s - {k};
        } else {
          assert r[i] == rest[i - 1] && r[j] == rest[j - 1];
        }
      }
    }
  }

  // ---------------------------------------------------------------------
  // Buckets

  /** The bucket of a concatenation is the concatenation of the buckets. */
  lemma {:induction false} BucketAppend(a: seq<HistoryEntry>, b: seq<HistoryEntry>, k: int)
    ensures Bucket(a + b, k) == Bucket(a, k) + Bucket(b, k)
  {
    if b == [] {
      assert a + b == a;
    } else {
      var init := b[..|b| - 1];
      assert (a + b)[..|a + b| - 1] == a + init;
      assert (a + b)[|a + b| - 1] == b[|b| - 1];
      BucketAppend(a, init, k);
    }
  }

  /** A run of entries that all start at `k` is its own bucket of `k`... */
  lemma {:induction false} BucketOfRunSame(es: seq<HistoryEntry>, k: int)
    requires forall i | 0 <= i < |es| :: es[i].startTime == k
    ensures Bucket(es, k) == es
  {
    if es != [] {
      var init := es[..|es| - 1];
      var e := es[|es| - 1];
      assert forall i | 0 <= i < |init| :: init[i] == es[i];
      BucketOfRunSame(init, k);
      assert e.startTime == k;
      assert init + [e] == es;
    }
  }

  /** ... and contributes nothing to any other bucket. */
  lemma {:induction false} BucketOfRunOther(es: seq<HistoryEntry>, k: int, k': int)
    requires k' != k && forall i | 0 <= i < |es| :: es[i].startTime == k
    ensures Bucket(es, k') == []
  {
    if es != [] {
      var init := es[..|es| - 1];
      assert forall i | 0 <= i < |init| :: init[i] == es[i];
      BucketOfRunOther(init, k, k');
      assert es[|es| - 1].startTime == k;
    }
  }

  /** The buckets the first phase builds hold only entries of their own key. */
  lemma BucketsHomogeneous(es: seq<HistoryEntry>)
    ensures Homogeneous(Buckets(es))
  {
  }

  /** A bucket of the emitted sequence, for distinct keys: the bucket of the
      map when its key is emitted, nothing otherwise. */
  lemma {:induction false} EmitBucket(m: map<int, seq<HistoryEntry>>, keys: seq<int>, k: int)
    requires Homogeneous(m) && StrictlyIncreasing(keys)
    ensures Bucket(Emit(m, keys), k) == if k in keys then Get(m, k) else []
  {
    if keys != [] {
      var k0 := keys[0];
      var rest := keys[1..];
      TailIncreasing(keys);
      EmitBucket(m, rest, k);
      BucketAppend(Get(m, k0), Emit(m, rest), k);
      if k == k0 {
        BucketOfRunSame(Get(m, k0), k0);
        HeadNotInTail(keys);
        assert Get(m, k0) + [] == Get(m, k0);
      } else {
        BucketOfRunOther(Get(m, k0), k0, k);
        assert keys == [k0] + rest;
      }
    }
  }

  /** The keys after the first are still strictly increasing. */
  lemma TailIncreasing(keys: seq<int>)
    requires keys != [] && StrictlyIncreasing(keys)
    ensures StrictlyIncreasing(keys[1..])
  {
    var rest := keys[1..];
    forall i, j | 0 <= i < j < |rest| ensures rest[i] < rest[j] {
      assert rest[i] == keys[i + 1] && rest[j] == keys[j + 1];
    }
  }

  /** The first of strictly increasing keys does not come again. */
  lemma HeadNotInTail(keys: seq<int>)
    requires keys != [] && StrictlyIncreasing(keys)
    ensures keys[0] !in keys[1..]
  {
    forall j | 0 <= j < |keys[1..]| ensures keys[1..][j] != keys[0] {
      assert keys[1..][j] == keys[j + 1];
    }
  }

  /** Stability: in the merged order the entries of each start time are
      exactly those of the input, in their order of arrival. */
  lemma MergedBucket(es: seq<HistoryEntry>, k: int)
    ensures Bucket(Merged(es), k) == Bucket(es, k)
  {
    BucketsHomogeneous(es);
    AscendingSorted(Keys(es));
    AscendingMembers(Keys(es));
    EmitBucket(Buckets(es), Ascending(Keys(es)), k);
    if k !in Keys(es) {
      BucketAbsent(es, k);
    }
  }

  /** An entry occurs in a sequence as often as in the bucket of its start
      time. */
  lemma {:induction false} BucketCount(es: seq<HistoryEntry>, e: HistoryEntry)
    ensures multiset(Bucket(es, e.startTime))[e] == multiset(es)[e]
  {
    if es != [] {
      var init := es[..|es| - 1];
      BucketCount(init, e);
      assert es == init + [es[|es| - 1]];
    }
  }

  /** The merged order is a permutation of the input entries. */
  lemma MergedPermutation(es: seq<HistoryEntry>)
    ensures multiset(Merged(es)) == multiset(es)
  {
    forall e | true ensures multiset(Merged(es))[e] == multiset(es)[e] {
      BucketCount(Merged(es), e);
      BucketCount(es, e);
      MergedBucket(es, e.startTime);
    }
  }

  // ---------------------------------------------------------------------
  // Ascending start times

  /** Every emitted entry starts at one of the emitted keys. */
  lemma {:induction false} EmitStarts(m: map<int, seq<HistoryEntry>>, keys: seq<int>, i: nat)
    requires Homogeneous(m) && i < |Emit(m, keys)|
    ensures Emit(m, keys)[i].startTime in keys
  {
    var b := Get(m, keys[0]);
    if i < |b| {
      assert Emit(m, keys)[i] == b[i];
    } else {
      assert Emit(m, keys)[i] == Emit(m, keys[1..])[i - |b|];
      EmitStarts(m, keys[1..], i - |b|);
      var j :| 0 <= j < |keys[1..]| && keys[1..][j] == Emit(m, keys)[i].startTime;
      assert keys[j + 1] == Emit(m, keys)[i].startTime;
    }
  }

  /** Emitting the buckets of increasing keys gives entries in start time
      order. */
  lemma {:induction false} EmitSorted(m: map<int, seq<HistoryEntry>>, keys: seq<int>)
    requires Homogeneous(m) && StrictlyIncreasing(keys)
    ensures SortedByStart(Emit(m, keys))
  {
    if keys != [] {
      var k0 := keys[0];
      var rest := keys[1..];
      var b := Get(m, k0);
      var out := Emit(m, keys);
      TailIncreasing(keys);
      EmitSorted(m, rest);
      assert out == b + Emit(m, rest);
      forall i, j | 0 <= i < j < |out| ensures out[i].startTime <= out[j].startTime {
        if j < |b| {
          assert out[i] == b[i] && out[j] == b[j];
        } else if i < |b| {
          assert out[i] == b[i];
          assert out[j] == Emit(m, rest)[j - |b|];
          EmitStarts(m, rest, j - |b|);
          var t :| 0 <= t < |rest| && rest[t] == out[j].startTime;
          assert keys[t + 1] == rest[t];
        } else {
          assert out[i] == Emit(m, rest)[i - |b|] && out[j] == Emit(m, rest)[j - |b|];
        }
      }
    }
  }

  /** The merged order is sorted by start time. */
  lemma MergedSorted(es: seq<HistoryEntry>)
    ensures SortedByStart(Merged(es))
  {
    BucketsHomogeneous(es);
    AscendingSorted(Keys(es));
    EmitSorted(Buckets(es), Ascending(Keys(es)));
  }

  // ---------------------------------------------------------------------
  // Records and output

  /** Every record of a file is either merged or reported, never both. */
  lemma {:induction false} RecordsAccounted(records: seq<seq<byte>>)
    ensures |Parsed(records)| + |Rejected(records)| == |records|
  {
    if records != [] {
      RecordsAccounted(records[..|records| - 1]);
    }
  }

  /** No entry finishes before it starts: the condition under which the
      encoder accepts every entry. */
  predicate Durations(es: seq<HistoryEntry>)
  {
    forall i | 0 <= i < |es| :: es[i].startTime <= es[i].finishTime
  }

  /** Continuing a complete output writes everything exactly when no entry
      has a negative duration. */
  lemma {:induction false} WriteAllOk(o: Output, es: seq<HistoryEntry>)
    requires o.ok
    ensures WriteAll(o, es).ok <==> Durations(es)
  {
    if es != [] {
      var init := es[..|es| - 1];
      var e := es[|es| - 1];
      WriteAllOk(o, init);
      assert es == init + [e];
      WriteAllStep(o, init, e);
      assert EntryBytes(e).Err? <==> e.finishTime < e.startTime;
      assert forall i | 0 <= i < |init| :: init[i] == es[i];
      assert Durations(es) <==> Durations(init) && e.startTime <= e.finishTime;
    }
  }

  /** Sequences with the same multiset have the same members. */
  lemma SameMembers(a: seq<HistoryEntry>, b: seq<HistoryEntry>)
    requires multiset(a) == multiset(b)
    ensures forall e :: e in a <==> e in b
  {
    forall e ensures e in a <==> e in b {
      assert e in a <==> e in multiset(a);
      assert e in b <==> e in multiset(b);
    }
  }

  /** Whether every duration is non-negative depends only on the members. */
  lemma DurationsByMembers(a: seq<HistoryEntry>, b: seq<HistoryEntry>)
    requires forall e :: e in a <==> e in b
    requires Durations(b)
    ensures Durations(a)
  {
    forall i | 0 <= i < |a| ensures a[i].startTime <= a[i].finishTime {
      assert a[i] in b;
      var j :| 0 <= j < |b| && b[j] == a[i];
    }
  }

  /** The merge writes every entry exactly when every parsed entry of every
      file has a non-negative duration; otherwise it stops at the first one
      in merged order that has not. */
  lemma MergeComplete(es: seq<HistoryEntry>)
    ensures WriteAll(Start, Merged(es)).ok <==> Durations(es)
  {
    var out := Merged(es);
    WriteAllOk(Start, out);
    MergedPermutation(es);
    SameMembers(out, es);
    if Durations(es) {
      DurationsByMembers(out, es);
    } else if Durations(out) {
      DurationsByMembers(es, out);
    }
  }
}
