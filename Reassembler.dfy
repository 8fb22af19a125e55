/** Reassembly of logical records from physical lines (`readHistoryLines`,
    lib/zsh.ts:153-188, duplicated verbatim in zsh-history.ts:30-65). */
module Reassembler {
  import opened Bytes
  import opened Entry

  /** A physical line whose last byte is a backslash continues on the next one. */
  predicate IsContinuation(line: seq<byte>)
  {
    line != [] && Last(line) == BACKSLASH
  }

  /** The legacy marker fix for a line that is not a continuation: when it
      ends in a backslash followed by one or more spaces, one trailing byte
      (a space) is dropped. */
  function Trimmed(line: seq<byte>): seq<byte>
  {
    if line != [] && Last(line) == SPACE && EndsBackslashed(line) then line[..|line| - 1] else line
  }

  /** The records produced from `lines` when `acc` is already pending. */
  function Reassemble(lines: seq<seq<byte>>, acc: seq<byte>): seq<seq<byte>>
  {
    if lines == [] then (if acc == [] then [] else [acc])
    else if IsContinuation(lines[0]) then
      Reassemble(lines[1..], acc + lines[0][..|lines[0]| - 1] + [LF])
    else [acc + Trimmed(lines[0])] + Reassemble(lines[1..], [])
  }

  /** `readHistoryLines` as the source runs it: a pending buffer, the `more`
      flag, and a backwards scan over trailing spaces. */
  method ReadHistoryLines(lines: seq<seq<byte>>) returns (records: seq<seq<byte>>)
    ensures records == Reassemble(lines, [])
  {
    var buffer: seq<byte> := [];
    var more := false;
    records := [];
    assert lines[0..] == lines;
    for k := 0 to |lines|
      invariant records + Reassemble(lines[k..], buffer) == Reassemble(lines, [])
    {
      var line := lines[k];
      ReassembleStep(lines, k, buffer);
      more := |line| > 0 && line[|line| - 1] == BACKSLASH;
      if more {
        // remove the line continuation marker
        line := line[..|line| - 1];
      } else {
        line := TrimMarker(line);
      }
      buffer := buffer + line;
      if more {
        buffer := buffer + [LF];
      } else {
        assert records + [buffer] + Reassemble(lines[k + 1..], []) ==
          records + ([buffer] + Reassemble(lines[k + 1..], []));
        records := records + [buffer];
        buffer := [];
      }
    }
    if buffer != [] {
      records := records + [buffer];
    }
  }

  /** The else branch of the loop: a backwards scan over trailing spaces;
      when a backslash precedes them, one trailing space is dropped. */
  method TrimMarker(line: seq<byte>) returns (trimmed: seq<byte>)
    ensures trimmed == Trimmed(line)
  {
    var spaceIndex := |line| - 1;
    assert line[..|line|] == line;
    while spaceIndex >= 0 && line[spaceIndex] == SPACE
      invariant -1 <= spaceIndex < |line|
      invariant spaceIndex < |line| - 1 ==> line[|line| - 1] == SPACE
      invariant EndsBackslashed(line) == EndsBackslashed(line[..spaceIndex + 1])
    {
      assert line[..spaceIndex + 1][..spaceIndex] == line[..spaceIndex];
      spaceIndex := spaceIndex - 1;
    }
    assert spaceIndex >= 0 ==> line[..spaceIndex + 1][..spaceIndex] == line[..spaceIndex];
    trimmed := line;
    if spaceIndex != |line| - 1 && spaceIndex >= 0 && line[spaceIndex] == BACKSLASH {
      trimmed := line[..|line| - 1];
    }
  }

  /** One step of the reassembly, at line `k`. */
  lemma ReassembleStep(lines: seq<seq<byte>>, k: nat, acc: seq<byte>)
    requires k < |lines|
    ensures var line := lines[k];
      Reassemble(lines[k..], acc) ==
        if IsContinuation(line) then Reassemble(lines[k + 1..], acc + line[..|line| - 1] + [LF])
        else [acc + Trimmed(line)] + Reassemble(lines[k + 1..], [])
  {
    assert lines[k..][1..] == lines[k + 1..];
  }

  // ---------------------------------------------------------------------
  // The physical lines

  /** A CR right before the line's LF is not part of the line. */
  function DropCR(line: seq<byte>): seq<byte>
  {
    if line != [] && Last(line) == CR then line[..|line| - 1] else line
  }

  /** The line splitter the reassembler reads from (lib/buffer.ts): lines end
      at LF, a CR right before that LF is dropped, and a last line without
      LF is kept when it is not empty. */
  function SplitLines(b: seq<byte>): (lines: seq<seq<byte>>)
    ensures forall k :: 0 <= k < |lines| ==> LF !in lines[k]
    decreases |b|
  {
    if b == [] then []
    else match IndexOf(b, LF)
      case None => [b]
      case Some(i) => [DropCR(b[..i])] + SplitLines(b[i + 1..])
  }

  lemma SplitLinesAt(a: seq<byte>, b: seq<byte>)
    requires LF !in a
    ensures SplitLines(a + [LF] + b) == [DropCR(a)] + SplitLines(b)
  {
    IndexOfAfter(a, LF, b);
    assert (a + [LF] + b)[..|a|] == a;
    assert (a + [LF] + b)[|a| + 1..] == b;
  }

  // ---------------------------------------------------------------------
  // Counting lines and records

  predicate AllContinuations(lines: seq<seq<byte>>)
  {
    forall k :: 0 <= k < |lines| ==> IsContinuation(lines[k])
  }

  function Continuations(lines: seq<seq<byte>>): nat
  {
    if lines == [] then 0
    else (if IsContinuation(lines[0]) then 1 else 0) + Continuations(lines[1..])
  }

  function NonContinuations(lines: seq<seq<byte>>): nat
  {
    if lines == [] then 0
    else (if IsContinuation(lines[0]) then 0 else 1) + NonContinuations(lines[1..])
  }

  /** What a run of continuation lines contributes to a record: each line
      without its backslash, followed by LF. */
  function Joined(conts: seq<seq<byte>>): seq<byte>
    requires AllContinuations(conts)
  {
    if conts == [] then []
    else conts[0][..|conts[0]| - 1] + [LF] + Joined(conts[1..])
  }

  function Flatten(records: seq<seq<byte>>): seq<byte>
  {
    if records == [] then [] else records[0] + Flatten(records[1..])
  }

  // ---------------------------------------------------------------------
  // Properties of the marker fix

  /** A line ending in a backslash and one or more spaces is not a
      continuation and loses exactly its last space; what is left still ends
      in the backslash and the remaining spaces. */
  lemma TrimmedDropsMarker(line: seq<byte>, j: nat)
    requires j < |line| - 1 && line[j] == BACKSLASH && AllSpaces(line[j + 1..])
    ensures !IsContinuation(line)
    ensures Trimmed(line) + [SPACE] == line
    ensures EndsBackslashed(Trimmed(line))
  {
    assert line[j + 1..][|line| - 2 - j] == Last(line);
    EndsBackslashedAt(line, j);
    var t := line[..|line| - 1];
    assert t[j + 1..] == line[j + 1..|line| - 1];
    EndsBackslashedAt(t, j);
  }

  /** A line in which no backslash is followed by spaces only to the end is
      kept unchanged. */
  lemma TrimmedKeepsOthers(line: seq<byte>)
    requires forall j :: 0 <= j < |line| - 1 && line[j] == BACKSLASH ==> !AllSpaces(line[j + 1..])
    ensures Trimmed(line) == line
  {
    if line != [] && Last(line) == SPACE && EndsBackslashed(line) {
      var j := EndsBackslashedWitness(line);
      assert false;
    }
  }

  /** A line made only of spaces is kept unchanged. */
  lemma {:induction false} TrimmedAllSpaces(line: seq<byte>)
    requires AllSpaces(line)
    ensures !EndsBackslashed(line)
    ensures Trimmed(line) == line
  {
    if line != [] {
      TrimmedAllSpaces(line[..|line| - 1]);
    }
  }

  // ---------------------------------------------------------------------
  // Properties of the reassembly

  /** A run of continuation lines closed by a non-continuation line gives
      exactly one record: the pending bytes, the joined run and the trimmed
      closing line; the buffer is then empty again. */
  lemma {:induction false} LogicalRecord(conts: seq<seq<byte>>, line: seq<byte>, rest: seq<seq<byte>>, acc: seq<byte>)
    requires AllContinuations(conts) && !IsContinuation(line)
    ensures Reassemble(conts + [line] + rest, acc) ==
      [acc + Joined(conts) + Trimmed(line)] + Reassemble(rest, [])
  {
    if conts == [] {
      assert conts + [line] + rest == [line] + rest;
      assert ([line] + rest)[1..] == rest;
      assert acc + Joined(conts) == acc;
    } else {
      var c := conts[0][..|conts[0]| - 1];
      assert (conts + [line] + rest)[0] == conts[0];
      assert (conts + [line] + rest)[1..] == conts[1..] + [line] + rest;
      LogicalRecord(conts[1..], line, rest, acc + c + [LF]);
      assert acc + c + [LF] + Joined(conts[1..]) == acc + Joined(conts);
    }
  }

  /** Continuation lines at the end of the input still give one record, the
      pending bytes plus the joined run, which ends in LF. */
  lemma {:induction false} TrailingContinuation(conts: seq<seq<byte>>, acc: seq<byte>)
    requires AllContinuations(conts) && conts != []
    ensures Reassemble(conts, acc) == [acc + Joined(conts)]
    ensures Last(acc + Joined(conts)) == LF
  {
    var c := conts[0][..|conts[0]| - 1];
    if |conts| == 1 {
      assert conts[1..] == [];
      assert Joined(conts) == c + [LF] + [];
      assert acc + Joined(conts) == acc + c + [LF];
    } else {
      TrailingContinuation(conts[1..], acc + c + [LF]);
      assert acc + c + [LF] + Joined(conts[1..]) == acc + Joined(conts);
    }
  }

  lemma {:induction false} RecordCountFrom(lines: seq<seq<byte>>, acc: seq<byte>)
    ensures |Reassemble(lines, acc)| == NonContinuations(lines) +
      (if lines == [] then (if acc == [] then 0 else 1)
       else if IsContinuation(lines[|lines| - 1]) then 1 else 0)
  {
    if lines != [] {
      var l := lines[0];
      if IsContinuation(l) {
        RecordCountFrom(lines[1..], acc + l[..|l| - 1] + [LF]);
      } else {
        RecordCountFrom(lines[1..], []);
      }
      if |lines| > 1 {
        assert lines[1..][|lines| - 2] == lines[|lines| - 1];
      }
    }
  }

  /** One record per non-continuation line, plus one when the input ends
      in a continuation line. */
  lemma RecordCount(lines: seq<seq<byte>>)
    ensures |Reassemble(lines, [])| == NonContinuations(lines) +
      (if lines != [] && IsContinuation(lines[|lines| - 1]) then 1 else 0)
  {
    RecordCountFrom(lines, []);
  }

  lemma {:induction false} FlattenAppend(a: seq<seq<byte>>, b: seq<seq<byte>>)
    ensures Flatten(a + b) == Flatten(a) + Flatten(b)
  {
    if a == [] {
      assert a + b == b;
    } else {
      assert (a + b)[1..] == a[1..] + b;
      FlattenAppend(a[1..], b);
    }
  }

  lemma {:induction false} NewlinesFrom(lines: seq<seq<byte>>, acc: seq<byte>)
    requires forall k :: 0 <= k < |lines| ==> LF !in lines[k]
    ensures Count(Flatten(Reassemble(lines, acc)), LF) == Count(acc, LF) + Continuations(lines)
  {
    if lines == [] {
      if acc != [] {
        assert [acc][1..] == [];
        assert Flatten([acc]) == acc + [] == acc;
      }
    } else {
      var l := lines[0];
      assert LF !in l;
      if IsContinuation(l) {
        var c := l[..|l| - 1];
        assert LF !in c;
        NewlinesFrom(lines[1..], acc + c + [LF]);
        CountAppend(acc + c, [LF], LF);
        CountAppend(acc, c, LF);
        CountAbsent(c, LF);
      } else {
        var t := Trimmed(l);
        assert LF !in t;
        NewlinesFrom(lines[1..], []);
        var r := Reassemble(lines[1..], []);
        assert Flatten([acc + t] + r) == acc + t + Flatten(r);
        CountAppend(acc + t, Flatten(r), LF);
        CountAppend(acc, t, LF);
        CountAbsent(t, LF);
      }
    }
  }

  /** With physical lines free of LF, the records hold exactly one LF per
      continuation backslash that was removed. */
  lemma NewlinesFromContinuations(lines: seq<seq<byte>>)
    requires forall k :: 0 <= k < |lines| ==> LF !in lines[k]
    ensures Count(Flatten(Reassemble(lines, [])), LF) == Continuations(lines)
  {
    NewlinesFrom(lines, []);
  }
}
