/** One history entry and its on-disk record ": <start>:<duration>;<command>"
    (lib/zsh.ts:82-151): the encoder `historyEntryToBytes` and the parser
    `parseHistoryLine`. */
module Entry {
  import opened Bytes
  import opened Meta
  import opened Decimal

  /** A history entry; the command is kept as the bytes of its text. */
  datatype HistoryEntry = HistoryEntry(command: seq<byte>, startTime: int, finishTime: int)

  /** The header text ": <start>:<duration>;". */
  function Header(startTime: int, duration: int): seq<byte>
  {
    [COLON, SPACE] + IntText(startTime) + [COLON] + IntText(duration) + [SEMICOLON]
  }

  /** What the encoder emits for one byte: a backslash in front of every LF. */
  function EscapeByte(t: byte): seq<byte>
  {
    if t == LF then [BACKSLASH, LF] else [t]
  }

  /** The text with a backslash inserted before each LF. */
  function EscapeNewlines(t: seq<byte>): seq<byte>
  {
    if t == [] then [] else EscapeNewlines(t[..|t| - 1]) + EscapeByte(Last(t))
  }

  /** The running flag `endBackslashed`: the text ends in a backslash
      followed by zero or more spaces. */
  predicate EndsBackslashed(t: seq<byte>)
  {
    t != [] && (Last(t) == BACKSLASH || (Last(t) == SPACE && EndsBackslashed(t[..|t| - 1])))
  }

  /** What follows the escaped text: the marker space when the text ends
      backslashed, then the record's LF. */
  function Terminator(t: seq<byte>): seq<byte>
  {
    (if EndsBackslashed(t) then [SPACE] else []) + [LF]
  }

  /** The specification of `historyEntryToBytes`. */
  function EntryBytes(e: HistoryEntry): Result<seq<byte>>
  {
    var duration := e.finishTime - e.startTime;
    if duration < 0 then Err("negative duration detected")
    else
      var line := Header(e.startTime, duration) + e.command;
      Ok(EscapeNewlines(line) + Terminator(line))
  }

  /** `historyEntryToBytes` as the source runs it: the duration check, then
      the header and the command written out by `WriteEscaped`. */
  method HistoryEntryToBytes(entry: HistoryEntry) returns (r: Result<seq<byte>>)
    ensures r == EntryBytes(entry)
  {
    var duration := entry.finishTime - entry.startTime;
    if duration < 0 {
      return Err("negative duration detected");
    }
    var header := Header(entry.startTime, duration);
    var buffer := WriteEscaped(header + entry.command);
    r := Ok(buffer);
  }

  /** The loop of `historyEntryToBytes`: one pass over the bytes of header
      plus command, keeping the `endBackslashed` flag, then the marker space
      and the LF. */
  method WriteEscaped(line: seq<byte>) returns (buffer: seq<byte>)
    ensures buffer == EscapeNewlines(line) + Terminator(line)
  {
    buffer := [];
    var endBackslashed := false;
    for i := 0 to |line|
      invariant buffer == EscapeNewlines(line[..i])
      invariant endBackslashed == EndsBackslashed(line[..i])
    {
      var t := line[i];
      EscapeStep(line, i);
      endBackslashed := t == BACKSLASH || (endBackslashed && t == SPACE);
      if t == LF {
        buffer := buffer + [BACKSLASH];
      }
      buffer := buffer + [t];
    }
    assert line[..|line|] == line;
    ghost var escaped := buffer;
    if endBackslashed {
      buffer := buffer + [SPACE];
    }
    buffer := buffer + [LF];
    assert buffer == escaped + Terminator(line);
  }

  /** One byte further into the text: its escape is appended and the flag
      is updated from the byte. */
  lemma EscapeStep(line: seq<byte>, i: nat)
    requires i < |line|
    ensures EscapeNewlines(line[..i + 1]) == EscapeNewlines(line[..i]) + EscapeByte(line[i])
    ensures EndsBackslashed(line[..i + 1]) <==>
      line[i] == BACKSLASH || (EndsBackslashed(line[..i]) && line[i] == SPACE)
  {
    assert line[..i + 1][..i] == line[..i];
  }

  // ---------------------------------------------------------------------
  // Properties of the escape and of the backslash flag

  lemma {:induction false} EscapeNewlinesAppend(a: seq<byte>, b: seq<byte>)
    ensures EscapeNewlines(a + b) == EscapeNewlines(a) + EscapeNewlines(b)
  {
    if b == [] {
      assert a + b == a;
    } else {
      assert (a + b)[..|a + b| - 1] == a + b[..|b| - 1];
      EscapeNewlinesAppend(a, b[..|b| - 1]);
    }
  }

  lemma {:induction false} EscapeNewlinesNoLF(t: seq<byte>)
    requires LF !in t
    ensures EscapeNewlines(t) == t
  {
    if t != [] {
      EscapeNewlinesNoLF(t[..|t| - 1]);
      assert t == t[..|t| - 1] + [Last(t)];
    }
  }

  /** The escape inserts exactly one backslash per LF and otherwise keeps
      every byte: the count of each other byte is unchanged. */
  lemma {:induction false} EscapeNewlinesCounts(t: seq<byte>, x: byte)
    ensures |EscapeNewlines(t)| == |t| + Count(t, LF)
    ensures x != BACKSLASH ==> Count(EscapeNewlines(t), x) == Count(t, x)
    ensures Count(EscapeNewlines(t), BACKSLASH) == Count(t, BACKSLASH) + Count(t, LF)
  {
    if t != [] {
      var p := t[..|t| - 1];
      EscapeNewlinesCounts(p, x);
      assert t == p + [Last(t)];
      CountAppend(p, [Last(t)], x);
      CountAppend(p, [Last(t)], LF);
      CountAppend(p, [Last(t)], BACKSLASH);
      CountAppend(EscapeNewlines(p), EscapeByte(Last(t)), x);
      CountAppend(EscapeNewlines(p), EscapeByte(Last(t)), BACKSLASH);
      assert [BACKSLASH, LF][1..] == [LF];
    }
  }

  /** Every LF of the escaped text has a backslash right before it. */
  lemma {:induction false} EscapedNewlinesPreceded(t: seq<byte>)
    ensures forall i :: 0 <= i < |EscapeNewlines(t)| && EscapeNewlines(t)[i] == LF ==>
      i > 0 && EscapeNewlines(t)[i - 1] == BACKSLASH
  {
    if t != [] {
      var p := t[..|t| - 1];
      EscapedNewlinesPreceded(p);
      var ep := EscapeNewlines(p);
      var e := EscapeNewlines(t);
      assert e == ep + EscapeByte(Last(t));
      forall i | 0 <= i < |e| && e[i] == LF ensures i > 0 && e[i - 1] == BACKSLASH {
        if i < |ep| {
          assert e[i] == ep[i] && e[i - 1] == ep[i - 1];
        }
      }
    }
  }

  lemma {:induction false} EndsBackslashedAt(t: seq<byte>, j: nat)
    requires j < |t| && t[j] == BACKSLASH && AllSpaces(t[j + 1..])
    ensures EndsBackslashed(t)
    decreases |t| - j
  {
    if j < |t| - 1 {
      var p := t[..|t| - 1];
      assert t[j + 1..][|t| - 2 - j] == Last(t);
      assert p[j + 1..] == t[j + 1..|t| - 1];
      EndsBackslashedAt(p, j);
    }
  }

  lemma {:induction false} EndsBackslashedWitness(t: seq<byte>) returns (j: nat)
    requires EndsBackslashed(t)
    ensures j < |t| && t[j] == BACKSLASH && AllSpaces(t[j + 1..])
  {
    if Last(t) == BACKSLASH {
      j := |t| - 1;
    } else {
      var p := t[..|t| - 1];
      j := EndsBackslashedWitness(p);
      assert t[j + 1..] == p[j + 1..] + [SPACE];
    }
  }

  /** The flag's meaning, independent of how it is computed: some backslash
      is followed only by spaces up to the end. */
  lemma EndsBackslashedIff(t: seq<byte>)
    ensures EndsBackslashed(t) <==>
      exists j :: 0 <= j < |t| && t[j] == BACKSLASH && AllSpaces(t[j + 1..])
  {
    if EndsBackslashed(t) {
      var j := EndsBackslashedWitness(t);
    } else if exists j :: 0 <= j < |t| && t[j] == BACKSLASH && AllSpaces(t[j + 1..]) {
      var j :| 0 <= j < |t| && t[j] == BACKSLASH && AllSpaces(t[j + 1..]);
      EndsBackslashedAt(t, j);
    }
  }

  /** The flag only looks at what follows the last LF. */
  lemma {:induction false} EndsBackslashedAfterNewline(a: seq<byte>, b: seq<byte>)
    ensures EndsBackslashed(a + [LF] + b) == EndsBackslashed(b)
  {
    if b == [] {
      assert a + [LF] + b == a + [LF];
    } else {
      assert (a + [LF] + b)[..|a + [LF] + b| - 1] == a + [LF] + b[..|b| - 1];
      EndsBackslashedAfterNewline(a, b[..|b| - 1]);
    }
  }

  lemma HeaderHasNoNewline(startTime: int, duration: int)
    ensures LF !in Header(startTime, duration)
  {
    IntTextBytes(startTime);
    IntTextBytes(duration);
  }

  /** Encoding fails exactly on a negative duration. */
  lemma EntryBytesFails(e: HistoryEntry)
    ensures EntryBytes(e).Err? <==> e.finishTime < e.startTime
  {
  }

  /** An entry that encodes gives the unescaped header first and LF last. */
  lemma EntryBytesShape(e: HistoryEntry)
    requires e.startTime <= e.finishTime
    ensures var h := Header(e.startTime, e.finishTime - e.startTime);
      var out := EntryBytes(e).value;
      |out| > |h| && out[..|h|] == h && Last(out) == LF
  {
    var h := Header(e.startTime, e.finishTime - e.startTime);
    var line := h + e.command;
    assert EntryBytes(e) == Ok(EscapeNewlines(line) + Terminator(line));
    HeaderHasNoNewline(e.startTime, e.finishTime - e.startTime);
    EncodedLine(h, e.command);
  }

  /** The escaped text of a line whose head has no LF, with its terminator:
      the head comes first and LF last. */
  lemma EncodedLine(h: seq<byte>, c: seq<byte>)
    requires LF !in h
    ensures var out := EscapeNewlines(h + c) + Terminator(h + c);
      |out| > |h| && out[..|h|] == h && Last(out) == LF
  {
    var t := Terminator(h + c);
    var escaped := EscapeNewlines(c);
    EscapedAfterPlainPrefix(h, c);
    assert (h + escaped) + t == h + (escaped + t);
    TerminatorEndsLF(h + c);
    PrefixThenLF(escaped, t);
    PrefixThenLF(h, escaped + t);
  }

  lemma TerminatorEndsLF(t: seq<byte>)
    ensures Terminator(t) != [] && Last(Terminator(t)) == LF
  {
  }

  /** Escaping a text whose prefix has no LF keeps that prefix in front. */
  lemma EscapedAfterPlainPrefix(h: seq<byte>, c: seq<byte>)
    requires LF !in h
    ensures EscapeNewlines(h + c) == h + EscapeNewlines(c)
  {
    EscapeNewlinesAppend(h, c);
    EscapeNewlinesNoLF(h);
  }

  /** A prefix followed by bytes that end in LF. */
  lemma PrefixThenLF(h: seq<byte>, rest: seq<byte>)
    requires rest != [] && Last(rest) == LF
    ensures |h + rest| > |h| && (h + rest)[..|h|] == h && Last(h + rest) == LF
  {
    assert (h + rest)[|h + rest| - 1] == rest[|rest| - 1];
  }

  // ---------------------------------------------------------------------
  // The parser

  /** The entry three parsed fields give: the start time, the duration
      added to it as the finish time, and the unmetafied command. */
  function Fields(st: seq<byte>, du: seq<byte>, payload: seq<byte>): Option<HistoryEntry>
  {
    var start, duration, command := ParseInt(st), ParseInt(du), Unmetafied(payload);
    if start.Some? && duration.Some? && command.Ok? then
      Some(HistoryEntry(command.value, start.value, start.value + duration.value))
    else None
  }

  /** Everything after the ": " prefix: a run up to the first ':' as the
      start time, a run up to the next ';' as the duration, the rest as the
      metafied command. */
  function ParseAfterPrefix(rest: seq<byte>): (r: Option<HistoryEntry>)
    ensures r.Some? ==> |rest| >= 2 && COLON in rest && SEMICOLON in rest
  {
    match IndexOf(rest, COLON)
    case None => None
    case Some(i) =>
      var tail := rest[i + 1..];
      match IndexOf(tail, SEMICOLON)
      case None => None
      case Some(j) =>
        assert rest[i + 1 + j] == SEMICOLON;
        Fields(rest[..i], tail[..j], tail[j + 1..])
  }

  /** The specification of `parseHistoryLine`; `None` stands for its `null`. */
  function ParseHistoryLine(line: seq<byte>): (r: Option<HistoryEntry>)
    ensures r.Some? ==> |line| >= 4 && line[0] == COLON && line[1] == SPACE
    ensures r.Some? ==> COLON in line[2..] && SEMICOLON in line[2..]
  {
    if |line| < 2 || line[0] != COLON || line[1] != SPACE then None
    else ParseAfterPrefix(line[2..])
  }

  /** A record that is the prefix, a start run without ':', a duration run
      without ';' and a payload parses into exactly the entry those fields
      give (and fails exactly when one of them fails). */
  lemma ParseFields(st: seq<byte>, du: seq<byte>, payload: seq<byte>)
    requires COLON !in st && SEMICOLON !in du
    ensures ParseHistoryLine([COLON, SPACE] + st + [COLON] + du + [SEMICOLON] + payload) == Fields(st, du, payload)
  {
    var rest := st + [COLON] + (du + [SEMICOLON] + payload);
    var line := [COLON, SPACE] + rest;
    assert line == [COLON, SPACE] + st + [COLON] + du + [SEMICOLON] + payload;
    assert line[0] == COLON && line[1] == SPACE && line[2..] == rest;
    FieldsAfterPrefix(st, du, payload);
  }

  /** The part after ": " splits at the first ':' and the next ';'. */
  lemma FieldsAfterPrefix(st: seq<byte>, du: seq<byte>, payload: seq<byte>)
    requires COLON !in st && SEMICOLON !in du
    ensures ParseAfterPrefix(st + [COLON] + (du + [SEMICOLON] + payload)) == Fields(st, du, payload)
  {
    var tail := du + [SEMICOLON] + payload;
    var rest := st + [COLON] + tail;
    IndexOfAfter(st, COLON, tail);
    assert rest[..|st|] == st && rest[|st| + 1..] == tail;
    IndexOfAfter(du, SEMICOLON, payload);
    assert tail[..|du|] == du && tail[|du| + 1..] == payload;
  }

  /** A record without the ": " prefix, or without the ';' that ends the
      duration, is rejected. */
  lemma ParseRejects(line: seq<byte>, st: seq<byte>, tail: seq<byte>)
    ensures (|line| < 2 || line[..2] != [COLON, SPACE]) ==> ParseHistoryLine(line).None?
    ensures COLON !in st ==> ParseHistoryLine([COLON, SPACE] + st).None?
    ensures COLON !in st && SEMICOLON !in tail ==> ParseHistoryLine([COLON, SPACE] + st + [COLON] + tail).None?
  {
    if |line| >= 2 && line[..2] != [COLON, SPACE] {
      assert line[0] != COLON || line[1] != SPACE;
    }
    assert ([COLON, SPACE] + st)[2..] == st;
    if COLON !in st {
      var l := [COLON, SPACE] + st + [COLON] + tail;
      assert l[2..] == st + [COLON] + tail;
      IndexOfAfter(st, COLON, tail);
      assert l[2..][|st| + 1..] == tail;
    }
  }

  /** The header the encoder writes always parses back to its two numbers. */
  lemma ParseEncodedHeader(startTime: int, duration: int, command: seq<byte>)
    ensures ParseHistoryLine(Header(startTime, duration) + command) ==
      Fields(IntText(startTime), IntText(duration), command)
    ensures ParseInt(IntText(startTime)) == Some(startTime)
    ensures ParseInt(IntText(duration)) == Some(duration)
  {
    var st, du := IntText(startTime), IntText(duration);
    IntTextBytes(startTime);
    IntTextBytes(duration);
    ParseIntText(startTime);
    ParseIntText(duration);
    ParseFields(st, du, command);
    assert Header(startTime, duration) + command == [COLON, SPACE] + st + [COLON] + du + [SEMICOLON] + command;
  }

  lemma ParseHeaderPlain(e: HistoryEntry)
    requires e.finishTime >= e.startTime && META !in e.command
    ensures ParseHistoryLine(Header(e.startTime, e.finishTime - e.startTime) + e.command) == Some(e)
  {
    var d := e.finishTime - e.startTime;
    ParseEncodedHeader(e.startTime, d, e.command);
    UnmetafiedIdentity(e.command);
    var f := Fields(IntText(e.startTime), IntText(d), e.command);
    FieldsOk(IntText(e.startTime), IntText(d), e.command, e.startTime, d, e.command);
    assert HistoryEntry(e.command, e.startTime, e.startTime + d) == e;
    var line := Header(e.startTime, d) + e.command;
    assert ParseHistoryLine(line) == f;
  }

  lemma ParseHeaderMarker(e: HistoryEntry)
    requires e.finishTime >= e.startTime && META in e.command
    ensures ParseHistoryLine(Header(e.startTime, e.finishTime - e.startTime) + e.command) != Some(e)
  {
    var d := e.finishTime - e.startTime;
    ParseEncodedHeader(e.startTime, d, e.command);
    UnmetafiedIdentity(e.command);
    var f := Fields(IntText(e.startTime), IntText(d), e.command);
    if f.Some? {
      assert f.value.command == Unmetafied(e.command).value != e.command;
    }
  }

  /** Three fields that each read successfully make an entry. */
  lemma FieldsOk(st: seq<byte>, du: seq<byte>, payload: seq<byte>, start: int, duration: int, command: seq<byte>)
    requires ParseInt(st) == Some(start) && ParseInt(du) == Some(duration)
    requires Unmetafied(payload) == Ok(command)
    ensures Fields(st, du, payload) == Some(HistoryEntry(command, start, start + duration))
  {
  }

  /** A header followed by a metafied command, the form zsh itself writes,
      parses back to the entry for every command. */
  lemma ParseMetafiedHeader(e: HistoryEntry)
    requires e.finishTime >= e.startTime
    ensures ParseHistoryLine(Header(e.startTime, e.finishTime - e.startTime) + Metafied(e.command)) == Some(e)
  {
    var d := e.finishTime - e.startTime;
    var payload := Metafied(e.command);
    ParseEncodedHeader(e.startTime, d, payload);
    UnmetafyMetafy(e.command);
    var f := Fields(IntText(e.startTime), IntText(d), payload);
    FieldsOk(IntText(e.startTime), IntText(d), payload, e.startTime, d, e.command);
    assert HistoryEntry(e.command, e.startTime, e.startTime + d) == e;
    var line := Header(e.startTime, d) + payload;
    assert ParseHistoryLine(line) == f;
  }

  /** The logical record the encoder writes for an entry (header plus raw
      command) parses back to that entry exactly when the command holds no
      0x83 marker byte: the encoder does not metafy, the parser unmetafies. */
  lemma ParseHeader(e: HistoryEntry)
    requires e.finishTime >= e.startTime
    ensures ParseHistoryLine(Header(e.startTime, e.finishTime - e.startTime) + e.command) == Some(e)
      <==> META !in e.command
  {
    if META in e.command {
      ParseHeaderMarker(e);
    } else {
      ParseHeaderPlain(e);
    }
  }
}
