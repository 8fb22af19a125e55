/** The encoder and the decoder pipeline together: the bytes
    `historyEntryToBytes` writes, split into physical lines and reassembled
    by `readHistoryLines`, give back one logical record, and
    `parseHistoryLine` of that record gives back the entry. */
module RoundTrip {
  import opened Bytes
  import opened Meta
  import opened Decimal
  import opened Entry
  import opened Reassembler

  /** Text without LF is written as one physical line that reassembles to
      the text itself. */
  lemma LastLine(t: seq<byte>, acc: seq<byte>)
    requires LF !in t
    requires t == [] || Last(t) != CR
    ensures Reassemble(SplitLines(EscapeNewlines(t) + Terminator(t)), acc) == [acc + t]
  {
    var line := TrailedLine(t);
    SplitLinesAt(line, []);
    OneLine(line, acc);
  }

  /** The physical line that holds text without LF: the text, and the marker
      space when it ends backslashed. It reads back as the text. */
  function TrailedLine(t: seq<byte>): (line: seq<byte>)
    requires LF !in t
    requires t == [] || Last(t) != CR
    ensures LF !in line && DropCR(line) == line
    ensures !IsContinuation(line) && Trimmed(line) == t
    ensures line + [LF] + [] == EscapeNewlines(t) + Terminator(t)
  {
    EscapeNewlinesNoLF(t);
    if EndsBackslashed(t) then
      var line := t + [SPACE];
      assert line[..|line| - 1] == t;
      line
    else t
  }

  /** A single physical line that is not a continuation is one record. */
  lemma OneLine(line: seq<byte>, acc: seq<byte>)
    requires !IsContinuation(line)
    ensures Reassemble([line] + SplitLines([]), acc) == [acc + Trimmed(line)]
  {
    assert [line] + SplitLines([]) == [line];
    assert [line][1..] == [];
  }

  /** Escaping text that has an LF: the part before it, an escaping
      backslash, the LF, then the rest escaped as if on its own. */
  lemma EscapedSplit(s: seq<byte>, rest: seq<byte>)
    requires LF !in s
    ensures EscapeNewlines(s + [LF] + rest) + Terminator(s + [LF] + rest) ==
      (s + [BACKSLASH]) + [LF] + (EscapeNewlines(rest) + Terminator(rest))
  {
    EscapeNewlinesAppend(s + [LF], rest);
    EscapeLineBreak(s);
    EndsBackslashedAfterNewline(s, rest);
    Regroup(s, EscapeNewlines(rest), Terminator(rest));
  }

  /** The first line and its LF escape to the line, a backslash and the LF. */
  lemma EscapeLineBreak(s: seq<byte>)
    requires LF !in s
    ensures EscapeNewlines(s + [LF]) == s + [BACKSLASH, LF]
  {
    assert (s + [LF])[..|s|] == s;
    EscapeNewlinesNoLF(s);
  }

  lemma Regroup(s: seq<byte>, a: seq<byte>, b: seq<byte>)
    ensures s + [BACKSLASH, LF] + a + b == (s + [BACKSLASH]) + [LF] + (a + b)
  {
  }

  /** A physical line written with an escaping backslash is read as a
      continuation that adds the line and an LF to what is pending. */
  lemma ContinuationFirst(s: seq<byte>, tail: seq<byte>, acc: seq<byte>)
    requires LF !in s
    ensures Reassemble(SplitLines((s + [BACKSLASH]) + [LF] + tail), acc) ==
      Reassemble(SplitLines(tail), acc + s + [LF])
  {
    var first := s + [BACKSLASH];
    SplitLinesAt(first, tail);
    assert DropCR(first) == first;
    assert IsContinuation(first) && first[..|first| - 1] == s;
    assert ([first] + SplitLines(tail))[1..] == SplitLines(tail);
  }

  /** The escaped text and its terminator split into lines that reassemble
      into exactly the text, after whatever was pending. */
  lemma {:induction false} ReassembleEscaped(t: seq<byte>, acc: seq<byte>)
    requires t == [] || Last(t) != CR
    ensures Reassemble(SplitLines(EscapeNewlines(t) + Terminator(t)), acc) == [acc + t]
    decreases |t|
  {
    match IndexOf(t, LF)
    case None =>
      LastLine(t, acc);
    case Some(i) =>
      var s, rest := t[..i], t[i + 1..];
      SplitAtNewline(t, i, acc);
      EscapedSplit(s, rest);
      ContinuationFirst(s, EscapeNewlines(rest) + Terminator(rest), acc);
      ReassembleEscaped(rest, acc + s + [LF]);
  }

  /** Cutting text at an LF: the part after it still does not end in CR, and
      the pending bytes with the part before and the LF, followed by the part
      after, are the pending bytes followed by the text. */
  lemma SplitAtNewline(t: seq<byte>, i: nat, acc: seq<byte>)
    requires i < |t| && t[i] == LF
    requires t == [] || Last(t) != CR
    ensures t == t[..i] + [LF] + t[i + 1..]
    ensures t[i + 1..] == [] || Last(t[i + 1..]) != CR
    ensures acc + t[..i] + [LF] + t[i + 1..] == acc + t
  {
    assert t == t[..i] + [LF] + t[i + 1..];
  }

  /** The encoder's bytes, read back through the line splitter and the
      reassembler, form exactly one logical record: the header followed by
      the raw command. Needs a command that does not end in CR, which the
      line splitter would take for part of the line ending. */
  lemma EncodedRecord(e: HistoryEntry)
    requires e.finishTime >= e.startTime
    requires e.command == [] || Last(e.command) != CR
    ensures EntryBytes(e).Ok?
    ensures Reassemble(SplitLines(EntryBytes(e).value), []) ==
      [Header(e.startTime, e.finishTime - e.startTime) + e.command]
  {
    var line := Header(e.startTime, e.finishTime - e.startTime) + e.command;
    assert EntryBytes(e) == Ok(EscapeNewlines(line) + Terminator(line));
    HeaderEndsInSemicolon(e.startTime, e.finishTime - e.startTime, e.command);
    ReassembleEscaped(line, []);
    assert [] + line == line;
  }

  lemma HeaderEndsInSemicolon(startTime: int, duration: int, command: seq<byte>)
    requires command == [] || Last(command) != CR
    ensures Last(Header(startTime, duration) + command) != CR
  {
    var h := Header(startTime, duration);
    if command == [] {
      assert h + command == h;
    } else {
      assert Last(h + command) == Last(command);
    }
  }

  /** The round trip of an entry through the on-disk format: one record,
      which parses back to the same entry. It holds for every entry with a
      non-negative duration whose command has no 0x83 byte and does not end
      in CR. */
  lemma EntryRoundTrip(e: HistoryEntry)
    requires e.finishTime >= e.startTime
    requires META !in e.command
    requires e.command == [] || Last(e.command) != CR
    ensures EntryBytes(e).Ok?
    ensures var records := Reassemble(SplitLines(EntryBytes(e).value), []);
      |records| == 1 && ParseHistoryLine(records[0]) == Some(e)
  {
    EncodedRecord(e);
    ParseHeader(e);
  }

  /** Conversely, a command holding an 0x83 byte never survives the round
      trip: the parser unmetafies what the encoder did not metafy. */
  lemma MarkerBreaksRoundTrip(e: HistoryEntry)
    requires e.finishTime >= e.startTime
    requires META in e.command
    ensures EntryBytes(e).Ok?
    ensures var records := Reassemble(SplitLines(EntryBytes(e).value), []);
      |records| == 1 && ParseHistoryLine(records[0]) != Some(e)
  {
    if Last(e.command) != CR {
      EncodedRecord(e);
      ParseHeader(e);
    } else {
      MarkerEndingInCR(e);
    }
  }

  // ---------------------------------------------------------------------
  // Text that ends in CR

  /** What the line splitter and the reassembler leave of text `t` that ends
      in CR: the text without its CR, then possibly one byte less, dropped by
      the marker fix, or with the backslash that now ends it read as a
      continuation and replaced by LF. */
  predicate CutCR(t: seq<byte>, v: seq<byte>)
  {
    |t| >= 1 && (v == t[..|t| - 1] || (|t| >= 2 && (v == t[..|t| - 2] || v == t[..|t| - 2] + [LF])))
  }

  lemma CutCRAfter(p: seq<byte>, rest: seq<byte>, v: seq<byte>)
    requires CutCR(rest, v)
    ensures CutCR(p + rest, p + v)
  {
    var t := p + rest;
    assert t[..|t| - 1] == p + rest[..|rest| - 1];
    if |rest| >= 2 {
      assert t[..|t| - 2] == p + rest[..|rest| - 2];
      assert p + (rest[..|rest| - 2] + [LF]) == t[..|t| - 2] + [LF];
    }
  }

  /** Text without LF that ends in CR is written as one physical line, which
      the splitter reads without the CR. */
  lemma LastLineCR(t: seq<byte>, acc: seq<byte>) returns (v: seq<byte>)
    requires LF !in t && t != [] && Last(t) == CR
    ensures Reassemble(SplitLines(EscapeNewlines(t) + Terminator(t)), acc) == [acc + v]
    ensures CutCR(t, v)
  {
    WrittenAsIs(t);
    SplitLinesAt(t, []);
    assert DropCR(t) == t[..|t| - 1];
    v := OneLineCut(t, acc);
  }

  /** Text without LF that ends in CR is written as itself and LF. */
  lemma WrittenAsIs(t: seq<byte>)
    requires LF !in t && t != [] && Last(t) == CR
    ensures EscapeNewlines(t) + Terminator(t) == t + [LF] + []
  {
    EscapeNewlinesNoLF(t);
    assert !EndsBackslashed(t);
  }

  /** The one line left of text after dropping its CR is one record. */
  lemma OneLineCut(t: seq<byte>, acc: seq<byte>) returns (v: seq<byte>)
    requires t != [] && Last(t) == CR
    ensures Reassemble([t[..|t| - 1]] + SplitLines([]), acc) == [acc + v]
    ensures CutCR(t, v)
  {
    var l := t[..|t| - 1];
    assert [l] + SplitLines([]) == [l];
    assert [l][1..] == [];
    if IsContinuation(l) {
      v := l[..|l| - 1] + [LF];
      assert l[..|l| - 1] == t[..|t| - 2];
      assert acc + l[..|l| - 1] + [LF] == acc + v;
    } else {
      v := Trimmed(l);
      if l != [] {
        assert l[..|l| - 1] == t[..|t| - 2];
      }
    }
  }

  /** Escaped text that ends in CR, split and reassembled, is one record:
      what was pending, then the text cut as `CutCR` says. */
  lemma {:induction false} ReassembleEscapedCR(t: seq<byte>, acc: seq<byte>) returns (v: seq<byte>)
    requires t != [] && Last(t) == CR
    ensures Reassemble(SplitLines(EscapeNewlines(t) + Terminator(t)), acc) == [acc + v]
    ensures CutCR(t, v)
    decreases |t|
  {
    match IndexOf(t, LF)
    case None =>
      v := LastLineCR(t, acc);
    case Some(i) =>
      var s, rest := t[..i], t[i + 1..];
      SplitAtNewlineCR(t, i);
      EscapedSplit(s, rest);
      ContinuationFirst(s, EscapeNewlines(rest) + Terminator(rest), acc);
      var w := ReassembleEscapedCR(rest, acc + s + [LF]);
      v := JoinCut(acc, s, rest, w);
  }

  /** Cutting text that ends in CR at an LF leaves a non-empty rest that
      still ends in CR. */
  lemma SplitAtNewlineCR(t: seq<byte>, i: nat)
    requires i < |t| && t[i] == LF && Last(t) == CR
    ensures t == t[..i] + [LF] + t[i + 1..]
    ensures t[i + 1..] != [] && Last(t[i + 1..]) == CR
  {
    assert t == t[..i] + [LF] + t[i + 1..];
  }

  /** The record of the first line and the rest, as a cut of the whole. */
  lemma JoinCut(acc: seq<byte>, s: seq<byte>, rest: seq<byte>, w: seq<byte>) returns (v: seq<byte>)
    requires CutCR(rest, w)
    ensures [acc + s + [LF] + w] == [acc + v]
    ensures CutCR(s + [LF] + rest, v)
  {
    v := s + [LF] + w;
    assert acc + s + [LF] + w == acc + v;
    CutCRAfter(s + [LF], rest, w);
  }

  /** A cut of a header followed by a command of at least two bytes keeps
      the header and shortens the command. */
  lemma CommandCut(h: seq<byte>, c: seq<byte>, v: seq<byte>) returns (w: seq<byte>)
    requires |c| >= 2 && CutCR(h + c, v)
    ensures v == h + w && |w| < |c|
  {
    var t := h + c;
    assert t[..|t| - 1] == h + c[..|c| - 1];
    assert t[..|t| - 2] == h + c[..|c| - 2];
    if v == t[..|t| - 1] {
      w := c[..|c| - 1];
    } else if v == t[..|t| - 2] {
      w := c[..|c| - 2];
    } else {
      w := c[..|c| - 2] + [LF];
    }
  }

  /** A command holding 0x83 and ending in CR: the splitter drops the CR, so
      the record holds a shorter command, which unmetafying cannot lengthen. */
  lemma MarkerEndingInCR(e: HistoryEntry)
    requires e.finishTime >= e.startTime
    requires META in e.command && Last(e.command) == CR
    ensures EntryBytes(e).Ok?
    ensures var records := Reassemble(SplitLines(EntryBytes(e).value), []);
      |records| == 1 && ParseHistoryLine(records[0]) != Some(e)
  {
    var d := e.finishTime - e.startTime;
    var h := Header(e.startTime, d);
    var c := e.command;
    var t := h + c;
    assert EntryBytes(e) == Ok(EscapeNewlines(t) + Terminator(t));
    assert Last(t) == CR;
    var j :| 0 <= j < |c| && c[j] == META;
    assert j != |c| - 1;
    var v := ReassembleEscapedCR(t, []);
    assert [] + v == v;
    var w := CommandCut(h, c, v);
    ParseEncodedHeader(e.startTime, d, w);
    if Fields(IntText(e.startTime), IntText(d), w).Some? {
      UnmetafiedShrinks(w);
    }
  }
}
