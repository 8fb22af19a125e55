/** The concrete cases of the codec tests (lib/zsh_test.ts), stated on the
    model: the metafication table and the three history line cases. */
module CodecVectors {
  import opened Bytes
  import opened Meta
  import opened Decimal
  import opened Entry
  import opened Reassembler
  import opened RoundTrip

  // ---------------------------------------------------------------------
  // metafy / unmetafy

  // "🐲" in UTF-8, and its metafied form.
  const Dragon: seq<byte> := [240, 159, 144, 178]
  const DragonMetafied: seq<byte> := [240, 131, 191, 131, 176, 178]

  // The family emoji: man, ZWJ, man, ZWJ, girl, ZWJ, boy in UTF-8, and its
  // metafied form.
  const Man: seq<byte> := [240, 159, 145, 168]
  const Zwj: seq<byte> := [226, 128, 141]
  const Girl: seq<byte> := [240, 159, 145, 167]
  const Boy: seq<byte> := [240, 159, 145, 166]
  const Family: seq<byte> := Man + Zwj + Man + Zwj + Girl + Zwj + Boy
  const FamilyMetafied: seq<byte> :=
    [240, 131, 191, 131, 177, 168, 226, 128, 131, 173, 240, 131,
     191, 131, 177, 168, 226, 128, 131, 173, 240, 131, 191, 131,
     177, 167, 226, 128, 131, 173, 240, 131, 191, 131, 177, 166]

  /** The people of the family share their first three bytes, two of them
      meta characters; the last byte is plain. */
  lemma Person(last: byte)
    requires 0xA3 <= last
    ensures Metafied([240, 159, 145, last]) == [240, 131, 191, 131, 177, last]
  {
    var p: seq<byte> := [240, 159, 145, last];
    assert p[1..] == [159, 145, last] && p[2..] == [145, last] && p[3..] == [last];
    assert Metafied(p[3..]) == [last];
    assert Metafied(p[2..]) == [131, 177, last];
    assert Metafied(p[1..]) == [131, 191, 131, 177, last];
  }

  lemma FamilyLetters()
    ensures Metafied(Man) == [240, 131, 191, 131, 177, 168]
    ensures Metafied(Zwj) == [226, 128, 131, 173]
    ensures Metafied(Girl) == [240, 131, 191, 131, 177, 167]
    ensures Metafied(Boy) == [240, 131, 191, 131, 177, 166]
  {
    Person(168);
    Person(167);
    Person(166);
    assert Zwj[1..] == [128, 141] && Zwj[2..] == [141];
  }

  lemma FamilyJoin()
    ensures [240, 131, 191, 131, 177, 168] + [226, 128, 131, 173] + [240, 131, 191, 131, 177, 168] +
      [226, 128, 131, 173] + [240, 131, 191, 131, 177, 167] + [226, 128, 131, 173] +
      [240, 131, 191, 131, 177, 166] == FamilyMetafied
  {
  }

  lemma FamilyCase()
    ensures Metafied(Family) == FamilyMetafied
    ensures Unmetafied(FamilyMetafied) == Ok(Family)
  {
    FamilyLetters();
    MetafiedAppend(Man + Zwj + Man + Zwj + Girl + Zwj, Boy);
    MetafiedAppend(Man + Zwj + Man + Zwj + Girl, Zwj);
    MetafiedAppend(Man + Zwj + Man + Zwj, Girl);
    MetafiedAppend(Man + Zwj + Man, Zwj);
    MetafiedAppend(Man + Zwj, Man);
    MetafiedAppend(Man, Zwj);
    FamilyJoin();
    UnmetafyMetafy(Family);
  }

  // "ペンギン" in UTF-8, one character at a time, and its metafied form.
  const Pe: seq<byte> := [227, 131, 154]
  const N: seq<byte> := [227, 131, 179]
  const Gi: seq<byte> := [227, 130, 174]
  const Penguin: seq<byte> := Pe + N + Gi + N
  const PenguinMetafied: seq<byte> :=
    [227, 131, 163, 131, 186, 227, 131, 163, 179, 227, 130, 174, 227, 131, 163, 179]

  lemma DragonCase()
    ensures Metafied(Dragon) == DragonMetafied
    ensures Unmetafied(DragonMetafied) == Ok(Dragon)
  {
    UnmetafyMetafy(Dragon);
  }

  lemma PenguinLetters()
    ensures Metafied(Pe) == [227, 131, 163, 131, 186]
    ensures Metafied(N) == [227, 131, 163, 179]
    ensures Metafied(Gi) == Gi
  {
  }

  lemma PenguinJoin()
    ensures [227, 131, 163, 131, 186] + [227, 131, 163, 179] + Gi + [227, 131, 163, 179] == PenguinMetafied
  {
  }

  lemma PenguinCase()
    ensures Metafied(Penguin) == PenguinMetafied
    ensures Unmetafied(PenguinMetafied) == Ok(Penguin)
  {
    PenguinLetters();
    MetafiedAppend(Pe + N + Gi, N);
    MetafiedAppend(Pe + N, Gi);
    MetafiedAppend(Pe, N);
    PenguinJoin();
    UnmetafyMetafy(Penguin);
  }

  // ---------------------------------------------------------------------
  // The "simple entry" case

  const Sleep := HistoryEntry(FromString("sleep 2"), 1639320933, 1639320935)
  const SleepRecord := FromString(": ") + FromString("1639320933") + FromString(":2;") + FromString("sleep 2")

  lemma SleepStart()
    ensures IntText(1639320933) == FromString("1639320933")
  {
    DigitsStep(1, 6);
    DigitsStep(16, 3);
    DigitsStep(163, 9);
    DigitsStep(1639, 3);
    DigitsStep(16393, 2);
    DigitsStep(163932, 0);
    DigitsStep(1639320, 9);
    DigitsStep(16393209, 3);
    DigitsStep(163932093, 3);
    assert IntText(1639320933) == [49, 54, 51, 57, 51, 50, 48, 57, 51, 51];
  }

  lemma SleepPieces()
    ensures FromString(": ") == [COLON, SPACE]
    ensures FromString(":2;") == [COLON, 50, SEMICOLON]
    ensures IntText(2) == [50]
    ensures FromString("sleep 2") == [115, 108, 101, 101, 112, 32, 50]
  {
  }

  lemma SleepHeader()
    ensures Header(Sleep.startTime, Sleep.finishTime - Sleep.startTime) + Sleep.command == SleepRecord
  {
    SleepStart();
    SleepPieces();
  }

  /** A line without LF that does not end in a backslash or a space is
      written as itself followed by LF. */
  lemma PlainLine(line: seq<byte>)
    requires LF !in line && line != [] && Last(line) != BACKSLASH && Last(line) != SPACE
    ensures EscapeNewlines(line) + Terminator(line) == line + [LF]
  {
    EscapeNewlinesNoLF(line);
  }

  lemma SleepRecordShape()
    ensures LF !in SleepRecord && SleepRecord != [] && Last(SleepRecord) == 50
  {
    SleepStart();
    SleepPieces();
    IntTextBytes(1639320933);
  }

  /** Encoding the simple entry gives ": 1639320933:2;sleep 2" and LF. */
  lemma SleepEncode()
    ensures EntryBytes(Sleep) == Ok(SleepRecord + [LF])
  {
    SleepHeader();
    SleepRecordShape();
    PlainLine(SleepRecord);
  }

  /** That line is one record, which parses back to the simple entry. */
  lemma SleepDecode()
    ensures Reassemble(SplitLines(SleepRecord + [LF]), []) == [SleepRecord]
    ensures ParseHistoryLine(SleepRecord) == Some(Sleep)
  {
    SleepHeader();
    SleepPieces();
    SleepEncode();
    EncodedRecord(Sleep);
    ParseHeader(Sleep);
  }

  // ---------------------------------------------------------------------
  // The "multi line entry" case

  const EchoFirst := FromString("echo one \\")
  const EchoSecond := FromString("  echo two")
  const Echo := HistoryEntry(EchoFirst + [LF] + EchoSecond, 1111, 1111)
  const EchoHeader := FromString(": 1111:0;")

  lemma EchoNumbers()
    ensures IntText(1111) == [49, 49, 49, 49] && IntText(0) == [48]
  {
    DigitsStep(1, 1);
    DigitsStep(11, 1);
    DigitsStep(111, 1);
  }

  lemma EchoPieces()
    ensures EchoHeader == Header(1111, 0)
    ensures EchoFirst == [101, 99, 104, 111, 32, 111, 110, 101, 32, 92]
    ensures EchoSecond == [32, 32, 101, 99, 104, 111, 32, 116, 119, 111]
  {
    EchoNumbers();
    assert EchoHeader == [COLON, SPACE, 49, 49, 49, 49, COLON, 48, SEMICOLON];
  }

  /** Encoding the multi line entry escapes its LF and nothing else:
      ": 1111:0;echo one \\", backslash, LF, "  echo two", LF. */
  lemma EchoEncode()
    ensures EntryBytes(Echo) == Ok(EchoHeader + EchoFirst + [BACKSLASH, LF] + EchoSecond + [LF])
  {
    EchoPieces();
    var s := EchoHeader + EchoFirst;
    var line := Header(1111, 0) + Echo.command;
    assert Header(1111, 0) == EchoHeader;
    assert line == s + [LF] + EchoSecond;
    assert EntryBytes(Echo) == Ok(EscapeNewlines(line) + Terminator(line));
    HeaderHasNoNewline(1111, 0);
    assert LF !in s;
    EscapedSplit(s, EchoSecond);
    PlainLine(EchoSecond);
    assert (s + [BACKSLASH]) + [LF] + (EchoSecond + [LF]) == EchoHeader + EchoFirst + [BACKSLASH, LF] + EchoSecond + [LF];
  }

  /** The encoded bytes are one record that parses back to the entry. */
  lemma EchoDecode()
    ensures var records := Reassemble(SplitLines(EntryBytes(Echo).value), []);
      |records| == 1 && ParseHistoryLine(records[0]) == Some(Echo)
  {
    EchoPieces();
    EntryRoundTrip(Echo);
  }

  // ---------------------------------------------------------------------
  // The "meta" case

  const EchoPenguin := HistoryEntry(FromString("echo ") + Penguin, 1, 1)
  const PenguinHeader := FromString(": 1:0;")

  lemma PenguinHeaderText()
    ensures Header(1, 0) == PenguinHeader
    ensures PenguinHeader == [COLON, SPACE, 49, COLON, 48, SEMICOLON]
  {
  }

  lemma EchoText()
    ensures FromString("echo ") == [101, 99, 104, 111, 32]
    ensures Metafied(FromString("echo ")) == FromString("echo ")
  {
    var echo := FromString("echo ");
    assert echo == [101, 99, 104, 111, 32];
    assert echo[1..] == [99, 104, 111, 32];
    assert echo[2..] == [104, 111, 32];
    assert echo[3..] == [111, 32];
    assert echo[4..] == [32];
  }

  lemma PenguinNoNewline()
    ensures LF !in PenguinHeader + FromString("echo ") + Penguin
  {
    PenguinHeaderText();
    EchoText();
    assert LF !in Penguin;
    assert LF !in PenguinHeader + FromString("echo ") + Penguin;
  }

  /** The encoder writes the command's bytes unmetafied, so its line is not
      the metafied line the repository's test expects. */
  lemma PenguinEncode()
    ensures EntryBytes(EchoPenguin) == Ok(PenguinHeader + FromString("echo ") + Penguin + [LF])
    ensures EntryBytes(EchoPenguin) != Ok(PenguinHeader + FromString("echo ") + PenguinMetafied + [LF])
  {
    PenguinHeaderText();
    EchoText();
    var line := PenguinHeader + FromString("echo ") + Penguin;
    assert Header(1, 0) + EchoPenguin.command == line;
    assert EntryBytes(EchoPenguin) == Ok(EscapeNewlines(line) + Terminator(line));
    PenguinNoNewline();
    assert Last(line) == Last(Penguin) == 179;
    PlainLine(line);
    var expected := PenguinHeader + FromString("echo ") + PenguinMetafied + [LF];
    assert |line + [LF]| != |expected|;
  }

  /** The test's metafied line is the header and the metafied command. */
  lemma PenguinLine()
    ensures PenguinHeader + FromString("echo ") + PenguinMetafied == Header(1, 0) + Metafied(EchoPenguin.command)
  {
    PenguinHeaderText();
    EchoText();
    PenguinCase();
    MetafiedAppend(FromString("echo "), Penguin);
  }

  /** The test's metafied line, with its LF, is one record, and that record
      parses back to the entry. */
  lemma PenguinDecode()
    ensures Reassemble(SplitLines(PenguinHeader + FromString("echo ") + PenguinMetafied + [LF]), []) ==
      [PenguinHeader + FromString("echo ") + PenguinMetafied]
    ensures ParseHistoryLine(PenguinHeader + FromString("echo ") + PenguinMetafied) == Some(EchoPenguin)
  {
    PenguinRecord();
    PenguinLine();
    ParseMetafiedHeader(EchoPenguin);
  }

  lemma PenguinRecord()
    ensures Reassemble(SplitLines(PenguinHeader + FromString("echo ") + PenguinMetafied + [LF]), []) ==
      [PenguinHeader + FromString("echo ") + PenguinMetafied]
  {
    PenguinHeaderText();
    EchoText();
    var h := PenguinHeader + FromString("echo ");
    assert LF !in h && LF !in PenguinMetafied;
    assert Last(h + PenguinMetafied) == 179;
    PlainRecord(h + PenguinMetafied);
  }

  /** A line without LF that ends in a byte other than backslash, space or
      CR reads back, with its LF, as exactly that one record. */
  lemma PlainRecord(t: seq<byte>)
    requires LF !in t && t != [] && Last(t) != BACKSLASH && Last(t) != SPACE && Last(t) != CR
    ensures Reassemble(SplitLines(t + [LF]), []) == [t]
  {
    PlainLine(t);
    LastLine(t, []);
    assert [] + t == t;
  }

}
