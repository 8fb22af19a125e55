# zsh history codec and merge, modelled in Dafny

This project models the core of `zsh-history-utils`, a set of tools that read and write
zsh's extended history file. Each record in that file looks like
`: <start>:<duration>;<command>`. The model covers four parts:

- **Metafication** (`Meta`). zsh stores each internal token byte as the marker 0x83
  followed by the byte with bit 5 flipped. `metafy` escapes bytes this way and `unmetafy`
  undoes it. The model includes the table of meta characters the source builds.
- **Record codec** (`Decimal`, `Entry`).
  - `historyEntryToBytes` writes the header and the command. It puts a backslash before
    every LF, adds a marker space when the text ends in a backslash followed only by
    spaces, and ends the record with LF. It fails on a negative duration.
  - `parseHistoryLine` requires the `": "` prefix. It splits the start time at the first
    `:` and the duration at the next `;`. It unmetafies the rest as the command and
    returns `null` on any failure.
- **Line reassembly** (`Reassembler`). `readHistoryLines` joins physical lines that end in
  a backslash into one logical record. It also applies the legacy marker fix: on a line
  ending in a backslash and spaces, the last space is dropped. The same function appears
  twice in the source, in `lib/zsh.ts` and in `zsh-history.ts`. The two copies are
  identical, so the model defines it once.
- **Merge** (`Merge`, `MergeOrder`). `printMergedHistories` does the following:
  - It reassembles and parses every record of every file. Unparsable records are reported
    and skipped.
  - It buckets the entries by start time in an ordered map.
  - It writes the buckets in ascending key order. The first entry that fails to encode
    ends the output.

Each loop of the source is a `method` proved against a specification function on its
inputs: `Metafy`, `Unmetafy`, `BuildMetaChars`, `WriteEscaped`, `ReadHistoryLines`,
`TrimMarker`, and the merge loops `CollectBuckets`, `CollectRecords`, `WriteBuckets` and
`WriteBucket`. Lemmas then state what the source promises about those functions:

- `unmetafy` undoes `metafy`.
- An encoded entry reads back as one record that parses to the same entry, provided its duration is non-negative and its command neither holds 0x83 nor ends in CR. The source's text decoder also drops a leading byte-order mark, which the model does not capture (see "Left out").
- An entry whose command holds 0x83 never survives the round trip.
- The merge is a stable sort by start time that loses no entry.

The cases of the repository's tests (lib/zsh_test.ts and zsh-history_test.ts) are stated as
lemmas in `Vectors` and `CodecVectors`. No test of the repository covers the merge.
`MergeVectors` is a worked example of the merge order instead.

File reading, the line splitter and the output stream are replaced by plain values:

- A file is given as its sequence of physical lines.
- `SplitLines` is the line splitter's contract (lib/buffer.ts). It is used only to state
  the round trip.
- The output is the sequence of bytes written, together with a flag that says whether
  every entry could be written.
- The "failed to parse" messages are returned as the list of rejected records.

## Model

| member | source | states |
|---|---|---|
| Meta.IsMetaChar | lib/zsh.ts:39-41 | membership in the META_CHARS table; `Meta.MetaCharRange` states which bytes these are |
| Meta.MetaCharRange | lib/zsh.ts:16-41 | a byte is a meta character exactly when it is 0x00 or lies in 0x83..0xA2 |
| Meta.BuildMetaChars | lib/zsh.ts:16-35 | the table holds 33 bytes, and its members are exactly the meta characters |
| Meta.Xor20Involutive | lib/zsh.ts:55 | flipping bit 5 twice restores the byte |
| Meta.EscapedIsPlain | lib/zsh.ts:49-55 | the byte after a marker is never a meta character and never 0 |
| Meta.Metafy | lib/zsh.ts:43-59 | the loop's buffer is the byte-by-byte escape of the input |
| Meta.MetafiedAppend | lib/zsh.ts:46-56 | metafication distributes over concatenation |
| Meta.MetafiedLength | lib/zsh.ts:49-55 | the output is longer than the input by one byte per meta character |
| Meta.MetafiedHasOnlyMarkers | lib/zsh.ts:49-55 | the only meta byte in a metafied text is the marker, and it is always followed by a plain byte |
| Meta.Unmetafy | lib/zsh.ts:61-80 | the loop returns the specification's result, including the "unreachable" error on a dangling marker |
| Meta.UnmetafiedAppend | lib/zsh.ts:64-77 | decoding a well-formed prefix and then the rest is decoding the whole |
| Meta.DanglingMarker | lib/zsh.ts:66-71 | a marker as the last byte, or a marker followed by 0x00, makes decoding fail |
| Meta.UnmetafyMetafy | lib/zsh.ts:43-80 | unmetafy(metafy(s)) == s for every byte sequence |
| Meta.UnmetafiedShrinks | lib/zsh.ts:68-76 | decoding never lengthens the text, and shortens it when a marker is present |
| Meta.UnmetafiedIdentity | lib/zsh.ts:61-80 | a text decodes to itself exactly when it holds no 0x83 |
| Decimal.Digits | lib/zsh.ts:94 | the decimal text of a natural number is non-empty and made of digits |
| Decimal.DigitsNoLeadingZero | lib/zsh.ts:94 | only zero is printed with a leading '0' |
| Decimal.DigitsValueOfDigits | lib/zsh.ts:140-141 | reading the digits of n gives back n |
| Decimal.ParseIntText | lib/zsh.ts:140-141 | parsing the printed text of any integer gives back that integer |
| Decimal.IntTextBytes | lib/zsh.ts:94 | a printed integer is a sign and digits only, so it holds no ':', ';', LF or backslash |
| Entry.HistoryEntryToBytes | lib/zsh.ts:88-115 | fails on a negative duration; otherwise returns the escaped header and command followed by the terminator |
| Entry.WriteEscaped | lib/zsh.ts:97-112 | the loop writes each byte with a backslash before LF, keeps the endBackslashed flag, then writes the marker space if needed and LF |
| Entry.EscapeNewlinesAppend | lib/zsh.ts:100-107 | escaping distributes over concatenation |
| Entry.EscapeNewlinesNoLF | lib/zsh.ts:103-106 | text without LF is written unchanged |
| Entry.EscapeNewlinesCounts | lib/zsh.ts:103-106 | escaping adds exactly one backslash per LF and keeps the count of every other byte |
| Entry.EscapedNewlinesPreceded | lib/zsh.ts:103-106 | every LF in the escaped text has a backslash right before it |
| Entry.EndsBackslashedIff | lib/zsh.ts:101 | the running flag holds exactly when some backslash is followed only by spaces up to the end |
| Entry.EndsBackslashedAfterNewline | lib/zsh.ts:101 | the flag depends only on the bytes after the last LF |
| Entry.HeaderHasNoNewline | lib/zsh.ts:94 | the header holds no LF |
| Entry.EntryBytesFails | lib/zsh.ts:89-92 | encoding fails exactly when finishTime < startTime |
| Entry.EntryBytesShape | lib/zsh.ts:94-112 | a successful encoding starts with the unescaped header, is longer than it and ends in LF |
| Entry.ParseHistoryLine | lib/zsh.ts:117-151 | a line parses only if it starts with ": " and holds a ':' and a ';' after that prefix; `Entry.ParseFields` and `Entry.ParseRejects` state its full behaviour |
| Entry.ParseFields | lib/zsh.ts:117-146 | a line made of ": ", a start run without ':', a duration run without ';' and a payload parses to the entry those three fields give, and fails when a field fails |
| Entry.ParseRejects | lib/zsh.ts:117-130 | a line without the ": " prefix, without the ':' after the start time, or without the ';' after the duration is rejected |
| Entry.ParseEncodedHeader | lib/zsh.ts:135-146 | the header the encoder prints is split back into its two numbers |
| Entry.ParseMetafiedHeader | lib/zsh.ts:135-146 | a header followed by a metafied command parses back to the entry, for every command |
| Entry.ParseHeader | lib/zsh.ts:135-146 | a header followed by the raw command parses back to the entry exactly when the command holds no 0x83 |
| Reassembler.ReadHistoryLines | lib/zsh.ts:153-188 | the loop yields the records of the reassembly function, including the trailing pending record |
| Reassembler.TrimMarker | lib/zsh.ts:165-173 | the backwards scan over trailing spaces drops one space exactly when a backslash precedes them |
| Reassembler.SplitLines | lib/buffer.ts:5-24 | no physical line holds an LF |
| Reassembler.SplitLinesAt | lib/buffer.ts:5-24 | text up to the first LF is one line, with a CR right before the LF dropped |
| Reassembler.TrimmedDropsMarker | zsh-history.ts:41-50 | a line ending in a backslash and one or more spaces is not a continuation, loses exactly its last space and still ends backslashed |
| Reassembler.TrimmedKeepsOthers | lib/zsh.ts:165-173 | a line in which no backslash is followed by spaces only is kept as it is |
| Reassembler.TrimmedAllSpaces | lib/zsh.ts:165-170 | a line of spaces only is kept as it is |
| Reassembler.LogicalRecord | zsh-history.ts:36-60 | a run of continuation lines closed by another line gives one record: what was pending, each continuation without its backslash and with an LF, then the trimmed closing line |
| Reassembler.TrailingContinuation | zsh-history.ts:62-64 | continuation lines at end of input still give one record, which ends in LF |
| Reassembler.RecordCount | lib/zsh.ts:153-188 | there is one record per non-continuation line, plus one when the input ends in a continuation |
| Reassembler.NewlinesFromContinuations | lib/zsh.ts:159-182 | the records hold exactly one LF per continuation backslash removed |
| RoundTrip.TrailedLine | lib/zsh.ts:109-112 | text without LF is written as one line that is not a continuation and that the marker fix trims back to the text |
| RoundTrip.ReassembleEscaped | lib/zsh.ts:97-112 | for text that does not end in CR, the escaped text and its terminator, split into lines and reassembled, give exactly the text |
| RoundTrip.ReassembleEscapedCR | lib/zsh.ts:97-112 | for text that ends in CR, the same steps give exactly one record, which is the text without its final CR, without its last two bytes, or with its last two bytes replaced by one LF |
| RoundTrip.EncodedRecord | lib/zsh.ts:88-115 | an encoded entry whose command does not end in CR reads back as exactly one record: the header followed by the raw command |
| RoundTrip.EntryRoundTrip | lib/zsh_test.ts:137-149 | encode, split, reassemble and parse gives one record and the same entry, for every entry with a non-negative duration whose command holds no 0x83 and does not end in CR |
| RoundTrip.MarkerBreaksRoundTrip | lib/zsh.ts:143 | an entry whose command holds 0x83 reads back as one record that does not parse to the entry, whether or not the command ends in CR |
| RoundTrip.MarkerEndingInCR | lib/buffer.ts:5-24 | an entry whose command holds 0x83 and ends in CR reads back as one record that does not parse to the entry |
| Vectors.MarkerLines | lib/zsh_test.ts:172-181 | the legacy lines "…\\ " lose their marker space and are not continuations |
| Vectors.JoinedLines | lib/zsh_test.ts:178-180 | the continuation lines of the fourth expected record join with LF |
| Vectors.MultipleLines | lib/zsh_test.ts:171-197 | the eight lines of the "multiple lines" test give the five expected records |
| Vectors.SimpleLines | zsh-history_test.ts:44-61 | the three lines of the "simple" test give three records equal to them |
| CodecVectors.DragonCase | lib/zsh_test.ts:38-42 | the dragon emoji metafies to the listed bytes and back |
| CodecVectors.FamilyCase | lib/zsh_test.ts:43-58 | the family emoji (man, ZWJ, man, ZWJ, girl, ZWJ, boy) metafies to the listed 36 bytes and back |
| CodecVectors.PenguinCase | lib/zsh_test.ts:59-69 | the penguin text metafies to the listed bytes and back |
| CodecVectors.SleepEncode | lib/zsh_test.ts:89-97 | the simple entry encodes to ": 1639320933:2;sleep 2" and LF |
| CodecVectors.SleepDecode | lib/zsh_test.ts:137-149 | that line is one record and parses back to the simple entry |
| CodecVectors.EchoEncode | lib/zsh_test.ts:98-106 | the multi-line entry encodes with a backslash before its LF and nothing else changed |
| CodecVectors.EchoDecode | lib/zsh_test.ts:98-106 | those bytes read back as one record that parses to the multi-line entry |
| CodecVectors.PenguinEncode | lib/zsh_test.ts:107-121 | the encoder writes the command unmetafied, so its output differs from the metafied line the test lists |
| CodecVectors.PenguinDecode | lib/zsh_test.ts:137-149 | the metafied line the test lists, with its LF, reassembles to exactly one record, and that record parses back to the entry |
| Merge.Bucket | lib/command/merge.ts:35-37 | every entry of a bucket has the bucket's start time |
| Merge.MinKey | lib/command/merge.ts:41 | the key visited next is in the set and is its smallest element |
| Merge.MergeHistories | lib/command/merge.ts:23-46 | the bytes written and the completion flag are the writing of the merged order of all parsed entries; the reported records are all those that did not parse |
| Merge.CollectBuckets | lib/command/merge.ts:26-39 | the map holds, under each start time that occurs, the entries with that time in arrival order; the rejected records are listed file by file |
| Merge.CollectRecords | lib/command/merge.ts:28-38 | each parsed record appends its entry to the bucket of its start time, and each record that fails to parse is reported |
| Merge.CollectEntry | lib/command/merge.ts:35-37 | inserting a parsed entry keeps the map equal to the buckets of the arrivals so far |
| Merge.CollectFailure | lib/command/merge.ts:29-33 | a record that does not parse adds no entry and one reported record |
| Merge.WriteBuckets | lib/command/merge.ts:41-45 | the buckets are written in ascending key order, and output stops at the first entry that fails to encode |
| Merge.WriteBucket | lib/command/merge.ts:42-44 | the entries of one bucket are encoded and written in order, stopping at a failure |
| Merge.BucketedIsBuckets | lib/command/merge.ts:24-38 | the map the first phase builds is the bucketing function of the arrivals |
| Merge.WriteAllStops | lib/command/merge.ts:43 | once an entry has failed to encode, nothing more is written |
| Merge.WriteAllAppend | lib/command/merge.ts:41-45 | writing two sequences is writing the first and then continuing with the second |
| Merge.MergeAborts | lib/command/merge.ts:41-45 | once a prefix of the buckets has failed, the remaining buckets change nothing |
| MergeOrder.AscendingMembers | lib/command/merge.ts:41 | the ascending key order visits exactly the keys of the map |
| MergeOrder.AscendingSorted | lib/command/merge.ts:41 | the ascending key order is strictly increasing |
| MergeOrder.MergedBucket | lib/command/merge.ts:35-45 | for every start time, the merged entries with that time are those of the input, in arrival order |
| MergeOrder.MergedPermutation | lib/command/merge.ts:26-45 | the merged order is a permutation of the parsed entries |
| MergeOrder.MergedSorted | lib/command/merge.ts:41-45 | the merged order is sorted by start time |
| MergeOrder.RecordsAccounted | lib/command/merge.ts:28-33 | every record is either parsed or reported |
| MergeOrder.WriteAllOk | lib/command/merge.ts:42-44 | writing completes exactly when no entry has a negative duration |
| MergeOrder.MergeComplete | lib/command/merge.ts:41-45 | the merge writes every entry exactly when no parsed entry has a negative duration |
| MergeVectors.MergeExample | lib/command/merge.ts:35-45 | entries that arrive with start times 5, 3, 5, 1 are written as 1, 3, 5, 5, and the two entries with time 5 keep their arrival order |

## Left out

- File opening, `Deno.stdout.write`, async generators and the command-line wrapper are left out. A file is its sequence of physical lines, and the output is a byte sequence.
- `BufReader.readLine` and the chunk joining in lib/buffer.ts are not modelled as code. Only their contract, `Reassembler.SplitLines`, is stated.
- `TextEncoder` and `TextDecoder` are left out. A command is the bytes of its text, so invalid UTF-8 replacement is not modelled. Nor is the decoder's removal of a leading byte-order mark: `new TextDecoder("utf-8")` at lib/zsh.ts:139 drops EF BB BF at the start of the command it decodes at lib/zsh.ts:143.
- Decimal.ParseInt: accepts only an optional sign followed by one or more digits. JavaScript's `parseInt` also skips leading whitespace, ignores trailing bytes and yields NaN for a run without digits. The parser in lib/zsh.ts:123-130 keeps the delimiter inside each run, and `parseInt` ignores it there. The model splits the runs at the delimiter instead, which gives the same numbers for runs made of digits. Runs that `parseInt` reads leniently, or that give NaN, are rejected in the model, whereas the source accepts them.
- Entry.HistoryEntry: start and finish times are unbounded integers. JavaScript numbers are doubles, so precision loss above 2^53 is not modelled. Number formatting is `IntText`, a sign and decimal digits, so exponent notation is not modelled.
- Entry.HistoryEntryToBytes: writes the command unmetafied, as the code does. The test at lib/zsh_test.ts:107-121 expects metafied output. The model follows the code, and `CodecVectors.PenguinEncode` shows the difference.
- RoundTrip.EntryRoundTrip: requires a command with no 0x83 byte, because the encoder does not metafy while the parser unmetafies. It also requires a command that does not end in CR, because the line splitter drops a CR before LF. In the source a command that starts with U+FEFF (the bytes EF BB BF) does not survive either, because the decoder drops that byte-order mark; the model works on bytes and proves the round trip for such a command.
- The ordered map (`sorted-btree`) is a `map` from start time to bucket. Its ascending iteration is modelled by repeatedly extracting the smallest remaining key.
- Merge.MergeHistories: the exception thrown by `historyEntryToBytes` ends the merge. The model represents it as `ok == false`, with the bytes written so far kept.
- The `console.error` calls for unparsable records are the returned list of rejected records. The error object that `parseHistoryLine` logs is not modelled.
- Merge.Emit: a key absent from the map counts as an empty bucket. The merge only visits keys of the map, so this case never arises in the source.
