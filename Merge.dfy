/** The merge of several history files into one (`printMergedHistories`,
    lib/command/merge.ts:23-46): every record of every file is parsed, the
    entries are bucketed by start time in an ordered map, and the buckets
    are written out in ascending key order. */
module Merge {
  import opened Bytes
  import opened Entry
  import opened Reassembler

  // ---------------------------------------------------------------------
  // What the first phase collects

  /** The entries of the records that parse, in record order. */
  function Parsed(records: seq<seq<byte>>): seq<HistoryEntry>
  {
    if records == [] then []
    else
      var r := records[|records| - 1];
      Parsed(records[..|records| - 1]) + (match ParseHistoryLine(r) case Some(e) => [e] case None => [])
  }

  /** The records that do not parse, in record order: the ones the source
      reports as "failed to parse". */
  function Rejected(records: seq<seq<byte>>): seq<seq<byte>>
  {
    if records == [] then []
    else
      var r := records[|records| - 1];
      Rejected(records[..|records| - 1]) + (if ParseHistoryLine(r).None? then [r] else [])
  }

  /** The parsed entries of all files, in arrival order: file by file, and
      record by record within a file. */
  function Arrivals(files: seq<seq<seq<byte>>>): seq<HistoryEntry>
  {
    if files == [] then []
    else Arrivals(files[..|files| - 1]) + Parsed(Reassemble(files[|files| - 1], []))
  }

  /** The rejected records of all files, in the same order. */
  function Failures(files: seq<seq<seq<byte>>>): seq<seq<byte>>
  {
    if files == [] then []
    else Failures(files[..|files| - 1]) + Rejected(Reassemble(files[|files| - 1], []))
  }

  /** The entries of `es` that start at `k`, in their order in `es`. */
  function Bucket(es: seq<HistoryEntry>, k: int): (b: seq<HistoryEntry>)
    ensures forall i | 0 <= i < |b| :: b[i].startTime == k
  {
    if es == [] then []
    else
      var e := es[|es| - 1];
      Bucket(es[..|es| - 1], k) + (if e.startTime == k then [e] else [])
  }

  function Keys(es: seq<HistoryEntry>): set<int>
  {
    set i | 0 <= i < |es| :: es[i].startTime
  }

  /** The ordered map of the source holds, under every start time that
      occurs, the entries with that start time in arrival order. */
  predicate Bucketed(m: map<int, seq<HistoryEntry>>, es: seq<HistoryEntry>)
  {
    m.Keys == Keys(es) && forall k | k in m :: m[k] == Bucket(es, k)
  }

  /** `m` with `e` appended to the bucket of its start time. */
  function Insert(m: map<int, seq<HistoryEntry>>, e: HistoryEntry): map<int, seq<HistoryEntry>>
  {
    m[e.startTime := (if e.startTime in m then m[e.startTime] else []) + [e]]
  }

  /** Every bucket holds entries of its own key only. */
  predicate Homogeneous(m: map<int, seq<HistoryEntry>>)
  {
    forall k | k in m :: forall i | 0 <= i < |m[k]| :: m[k][i].startTime == k
  }

  // ---------------------------------------------------------------------
  // What the second phase writes

  /** The bucket of `k`: empty when the map has none. */
  function Get(m: map<int, seq<HistoryEntry>>, k: int): seq<HistoryEntry>
  {
    if k in m then m[k] else []
  }

  /** The buckets of the keys in `keys`, one after the other. */
  function Emit(m: map<int, seq<HistoryEntry>>, keys: seq<int>): seq<HistoryEntry>
  {
    if keys == [] then [] else Get(m, keys[0]) + Emit(m, keys[1..])
  }

  /** The smallest key of a non-empty set. */
  ghost function MinKey(s: set<int>): (m: int)
    requires s != {}
    ensures m in s && forall x | x in s :: m <= x
  {
    MinExists(s);
    var m :| m in s && forall x | x in s :: m <= x; m
  }

  /** Some element of a non-empty set. */
  lemma Pick(s: set<int>) returns (y: int)
    requires s != {}
    ensures y in s
  {
    if forall x :: x !in s {
      assert false;
    }
    y :| y in s;
  }

  lemma {:induction false} MinExists(s: set<int>)
    requires s != {}
    ensures exists m :: m in s && forall x | x in s :: m <= x
    decreases |s|
  {
    var y := Pick(s);
    var t := s - {y};
    if t == {} {
      forall x | x in s ensures y <= x {
        assert x !in t;
      }
    } else {
      MinExists(t);
      var m :| m in t && forall x | x in t :: m <= x;
      var least := if y < m then y else m;
      forall x | x in s ensures least <= x {
        if x != y {
          assert x in t;
        }
      }
      assert least in s;
    }
  }

  /** The keys of `s` in ascending order, as the ordered map visits them. */
  ghost function Ascending(s: set<int>): seq<int>
    decreases |s|
  {
    if s == {} then []
    else
      var k := MinKey(s);
      [k] + Ascending(s - {k})
  }

  /** The buckets of the entries, keyed by start time. */
  function Buckets(es: seq<HistoryEntry>): map<int, seq<HistoryEntry>>
  {
    map k | k in Keys(es) :: Bucket(es, k)
  }

  /** The merged order of a sequence of entries: the buckets in ascending
      start time order. */
  ghost function Merged(es: seq<HistoryEntry>): seq<HistoryEntry>
  {
    Emit(Buckets(es), Ascending(Keys(es)))
  }

  /** What reaches standard output, and whether the whole merge completed. */
  datatype Output = Output(bytes: seq<byte>, ok: bool)

  /** Writing entries one after the other, continuing from the output `o`:
      once an entry fails to encode, nothing more is written. */
  function WriteAll(o: Output, es: seq<HistoryEntry>): Output
  {
    if es == [] then o
    else
      var prev := WriteAll(o, es[..|es| - 1]);
      if !prev.ok then prev
      else match EntryBytes(es[|es| - 1])
        case Ok(b) => Output(prev.bytes + b, true)
        case Err(_) => Output(prev.bytes, false)
  }

  /** Nothing written yet. */
  const Start := Output([], true)

  // ---------------------------------------------------------------------
  // The merge as the source runs it

  /** `printMergedHistories` with files given as their physical lines: the
      bytes written, whether every entry could be written, and the records
      reported as unparsable. */
  method MergeHistories(files: seq<seq<seq<byte>>>) returns (out: seq<byte>, ok: bool, rejected: seq<seq<byte>>)
    ensures Output(out, ok) == WriteAll(Start, Merged(Arrivals(files)))
    ensures rejected == Failures(files)
  {
    var linesMap;
    linesMap, rejected := CollectBuckets(files);
    BucketedIsBuckets(linesMap, Arrivals(files));
    out, ok := WriteBuckets(linesMap);
  }

  /** The first loop of `printMergedHistories`: the records of each file,
      in argument order. */
  method CollectBuckets(files: seq<seq<seq<byte>>>) returns (linesMap: map<int, seq<HistoryEntry>>, rejected: seq<seq<byte>>)
    ensures Bucketed(linesMap, Arrivals(files))
    ensures rejected == Failures(files)
  {
    linesMap := map[];
    rejected := [];
    assert files[..0] == [];
    for f := 0 to |files|
      invariant Bucketed(linesMap, Arrivals(files[..f]))
      invariant rejected == Failures(files[..f])
    {
      var records := ReadHistoryLines(files[f]);
      ArrivalsStep(files, f);
      linesMap, rejected := CollectRecords(records, linesMap, Arrivals(files[..f]), rejected);
    }
    assert files[..|files|] == files;
  }

  /** The inner loop over one file's records: an entry is appended to the
      bucket of its start time, a record that does not parse is reported
      and skipped. */
  method CollectRecords(records: seq<seq<byte>>, linesMap0: map<int, seq<HistoryEntry>>, ghost before: seq<HistoryEntry>,
                        rejected0: seq<seq<byte>>)
    returns (linesMap: map<int, seq<HistoryEntry>>, rejected: seq<seq<byte>>)
    requires Bucketed(linesMap0, before)
    ensures Bucketed(linesMap, before + Parsed(records))
    ensures rejected == rejected0 + Rejected(records)
  {
    linesMap, rejected := linesMap0, rejected0;
    assert records[..0] == [];
    assert before + Parsed(records[..0]) == before;
    assert rejected0 + Rejected(records[..0]) == rejected0;
    for r := 0 to |records|
      invariant Bucketed(linesMap, before + Parsed(records[..r]))
      invariant rejected == rejected0 + Rejected(records[..r])
    {
      var entry := ParseHistoryLine(records[r]);
      if entry.None? {
        CollectFailure(records, r);
        rejected := rejected + [records[r]];
        continue;
      }
      var key := entry.value.startTime;
      var lines := if key in linesMap then linesMap[key] else [];
      CollectEntry(records, r, before, linesMap, entry.value);
      linesMap := linesMap[key := lines + [entry.value]];
    }
    assert records[..|records|] == records;
  }

  /** The second loop of `printMergedHistories`: the buckets in ascending key
      order, each entry encoded and written; an entry that does not encode
      ends the output. */
  method WriteBuckets(linesMap: map<int, seq<HistoryEntry>>) returns (out: seq<byte>, ok: bool)
    ensures Output(out, ok) == WriteAll(Start, Emit(linesMap, Ascending(linesMap.Keys)))
  {
    out := [];
    ok := true;
    var pending := linesMap.Keys;
    ghost var done: seq<int> := [];
    while pending != {}
      invariant pending <= linesMap.Keys
      invariant Ascending(linesMap.Keys) == done + Ascending(pending)
      invariant Output(out, true) == WriteAll(Start, Emit(linesMap, done))
      decreases |pending|
    {
      MinExists(pending);
      var key :| key in pending && forall x | x in pending :: key <= x;
      NextKey(linesMap.Keys, done, pending, key);
      var bucketOk;
      out, bucketOk := WriteBucket(linesMap[key], out);
      WrittenStep(linesMap, done, key);
      if !bucketOk {
        ok := false;
        MergeAborts(linesMap, done + [key], Ascending(pending - {key}));
        return;
      }
      done := done + [key];
      pending := pending - {key};
    }
    assert Ascending(pending) == [];
    assert done + [] == done;
  }

  /** The inner loop of the second phase: the entries of one bucket, in
      order, written after the bytes `out0`. */
  method WriteBucket(lines: seq<HistoryEntry>, out0: seq<byte>) returns (out: seq<byte>, ok: bool)
    ensures Output(out, ok) == WriteAll(Output(out0, true), lines)
  {
    out := out0;
    for j := 0 to |lines|
      invariant Output(out, true) == WriteAll(Output(out0, true), lines[..j])
    {
      var r := HistoryEntryToBytes(lines[j]);
      WriteAllStep(Output(out0, true), lines[..j], lines[j]);
      assert lines[..j + 1] == lines[..j] + [lines[j]];
      if r.Err? {
        WriteAllStops(Output(out, false), lines[j + 1..]);
        WriteAllAppend(Output(out0, true), lines[..j + 1], lines[j + 1..]);
        assert lines[..j + 1] + lines[j + 1..] == lines;
        return out, false;
      }
      out := out + r.value;
    }
    assert lines[..|lines|] == lines;
    return out, true;
  }

  // ---------------------------------------------------------------------
  // Facts the method's proof uses

  /** A record that parses: its entry joins the bucket of its start time. */
  lemma CollectEntry(records: seq<seq<byte>>, r: nat, before: seq<HistoryEntry>, m: map<int, seq<HistoryEntry>>,
                     e: HistoryEntry)
    requires r < |records| && ParseHistoryLine(records[r]) == Some(e)
    requires Bucketed(m, before + Parsed(records[..r]))
    ensures Bucketed(Insert(m, e), before + Parsed(records[..r + 1]))
    ensures Rejected(records[..r + 1]) == Rejected(records[..r])
  {
    ParsedStep(records, r);
    BucketedAppend(m, before + Parsed(records[..r]), e);
    assert before + Parsed(records[..r + 1]) == before + Parsed(records[..r]) + [e];
  }

  /** A record that does not parse: no entry, one more rejected record. */
  lemma CollectFailure(records: seq<seq<byte>>, r: nat)
    requires r < |records| && ParseHistoryLine(records[r]).None?
    ensures Parsed(records[..r + 1]) == Parsed(records[..r])
    ensures Rejected(records[..r + 1]) == Rejected(records[..r]) + [records[r]]
  {
    ParsedStep(records, r);
  }

  lemma ParsedStep(records: seq<seq<byte>>, r: nat)
    requires r < |records|
    ensures Parsed(records[..r + 1]) == Parsed(records[..r]) +
      (match ParseHistoryLine(records[r]) case Some(e) => [e] case None => [])
    ensures Rejected(records[..r + 1]) == Rejected(records[..r]) +
      (if ParseHistoryLine(records[r]).None? then [records[r]] else [])
  {
    assert records[..r + 1][..r] == records[..r];
  }

  lemma ArrivalsStep(files: seq<seq<seq<byte>>>, f: nat)
    requires f < |files|
    ensures Arrivals(files[..f + 1]) == Arrivals(files[..f]) + Parsed(Reassemble(files[f], []))
    ensures Failures(files[..f + 1]) == Failures(files[..f]) + Rejected(Reassemble(files[f], []))
  {
    assert files[..f + 1][..f] == files[..f];
  }

  lemma WriteAllStep(o: Output, es: seq<HistoryEntry>, e: HistoryEntry)
    ensures WriteAll(o, es + [e]) ==
      if !WriteAll(o, es).ok then WriteAll(o, es)
      else match EntryBytes(e)
        case Ok(b) => Output(WriteAll(o, es).bytes + b, true)
        case Err(_) => Output(WriteAll(o, es).bytes, false)
  {
    assert (es + [e])[..|es|] == es;
  }

  /** The key the second phase takes next is the smallest pending one, and
      the keys still to come are the rest of the ascending order. */
  lemma NextKey(keys: set<int>, done: seq<int>, pending: set<int>, key: int)
    requires key in pending && forall x | x in pending :: key <= x
    requires Ascending(keys) == done + Ascending(pending)
    ensures key == MinKey(pending)
    ensures Ascending(keys) == (done + [key]) + Ascending(pending - {key})
  {
    AscendingStep(pending);
  }

  /** Writing the buckets of `done` and then that of `key`. */
  lemma WrittenStep(m: map<int, seq<HistoryEntry>>, done: seq<int>, key: int)
    ensures WriteAll(Start, Emit(m, done + [key])) == WriteAll(WriteAll(Start, Emit(m, done)), Get(m, key))
  {
    EmitAppend(m, done, [key]);
    assert Emit(m, [key]) == Get(m, key) + Emit(m, []);
    assert Emit(m, [key]) == Get(m, key);
    WriteAllAppend(Start, Emit(m, done), Get(m, key));
  }

  lemma AscendingStep(s: set<int>)
    requires s != {}
    ensures Ascending(s) == [MinKey(s)] + Ascending(s - {MinKey(s)})
  {
  }

  lemma BucketedAppend(m: map<int, seq<HistoryEntry>>, es: seq<HistoryEntry>, e: HistoryEntry)
    requires Bucketed(m, es)
    ensures Bucketed(Insert(m, e), es + [e])
  {
    var k := e.startTime;
    var es' := es + [e];
    assert es'[..|es'| - 1] == es;
    assert Keys(es') == Keys(es) + {k} by {
      forall x | x in Keys(es') ensures x in Keys(es) + {k} {
        var i :| 0 <= i < |es'| && es'[i].startTime == x;
        if i < |es| {
          assert es[i].startTime == x;
        }
      }
      forall x | x in Keys(es) ensures x in Keys(es') {
        var i :| 0 <= i < |es| && es[i].startTime == x;
        assert es'[i].startTime == x;
      }
      assert es'[|es|].startTime == k;
    }
    if k !in m {
      BucketAbsent(es, k);
    }
  }

  /** A key that no entry has has an empty bucket. */
  lemma {:induction false} BucketAbsent(es: seq<HistoryEntry>, k: int)
    requires k !in Keys(es)
    ensures Bucket(es, k) == []
  {
    if es != [] {
      var init := es[..|es| - 1];
      assert Keys(init) <= Keys(es) by {
        forall x | x in Keys(init) ensures x in Keys(es) {
          var i :| 0 <= i < |init| && init[i].startTime == x;
          assert es[i].startTime == x;
        }
      }
      BucketAbsent(init, k);
      assert es[|es| - 1].startTime in Keys(es);
    }
  }

  lemma BucketedIsBuckets(m: map<int, seq<HistoryEntry>>, es: seq<HistoryEntry>)
    requires Bucketed(m, es)
    ensures m == Buckets(es)
  {
  }

  lemma {:induction false} EmitAppend(m: map<int, seq<HistoryEntry>>, a: seq<int>, b: seq<int>)
    ensures Emit(m, a + b) == Emit(m, a) + Emit(m, b)
  {
    if a == [] {
      assert a + b == b;
    } else {
      assert (a + b)[1..] == a[1..] + b;
      EmitAppend(m, a[1..], b);
    }
  }

  /** Once an entry has failed, nothing more is written. */
  lemma {:induction false} WriteAllStops(o: Output, es: seq<HistoryEntry>)
    requires !o.ok
    ensures WriteAll(o, es) == o
  {
    if es != [] {
      WriteAllStops(o, es[..|es| - 1]);
    }
  }

  /** Writing `a + b` is writing `a`, then continuing with `b`. */
  lemma {:induction false} WriteAllAppend(o: Output, a: seq<HistoryEntry>, b: seq<HistoryEntry>)
    ensures WriteAll(o, a + b) == WriteAll(WriteAll(o, a), b)
  {
    if b == [] {
      assert a + b == a;
    } else {
      var init := b[..|b| - 1];
      assert (a + b)[..|a + b| - 1] == a + init;
      WriteAllAppend(o, a, init);
    }
  }

  /** The early return of the second phase: once the buckets of a prefix
      of the keys have failed to write, the buckets of the rest change
      nothing. */
  lemma MergeAborts(m: map<int, seq<HistoryEntry>>, prefix: seq<int>, rest: seq<int>)
    requires !WriteAll(Start, Emit(m, prefix)).ok
    ensures WriteAll(Start, Emit(m, prefix + rest)) == WriteAll(Start, Emit(m, prefix))
  {
    EmitAppend(m, prefix, rest);
    WriteAllAppend(Start, Emit(m, prefix), Emit(m, rest));
    WriteAllStops(WriteAll(Start, Emit(m, prefix)), Emit(m, rest));
  }
}
