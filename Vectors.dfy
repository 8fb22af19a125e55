/** The concrete cases of the repository's tests (lib/zsh_test.ts,
    zsh-history_test.ts), stated on the model. */
module Vectors {
  import opened Bytes
  import opened Reassembler

  // The physical lines of the "multiple lines" input.
  const M1 := FromString(": 1639320933:0;echo one \\ ")
  const M2 := FromString(": 1639322528:0;echo two \\\\ ")
  const M3 := FromString(": 1639320933:0;echo one \\")
  const M5 := FromString(": 1639322832:0;echo 2 \\\\")
  const M6 := FromString(" 2 \\\\")
  const M7 := FromString(" 1 \\ ")
  const M8 := FromString(": 1639322528:0;echo")

  // The records the test expects; the two multi-line ones are written as
  // their lines one after the other.
  const R1 := FromString(": 1639320933:0;echo one \\")
  const R2 := FromString(": 1639322528:0;echo two \\\\")
  const R3 := FromString(": 1639320933:0;echo one \n") + R2
  const R4 := FromString(": 1639322832:0;echo 2 \\\n") + FromString(" 2 \\\n") + FromString(" 1 \\")
  const R5 := FromString(": 1639322528:0;echo")

  lemma MarkerLines()
    ensures !IsContinuation(M1) && Trimmed(M1) == R1
    ensures !IsContinuation(M2) && Trimmed(M2) == R2
    ensures !IsContinuation(M7) && Trimmed(M7) == FromString(" 1 \\")
    ensures !IsContinuation(M8) && Trimmed(M8) == R5
  {
  }

  lemma ContinuationM3()
    ensures IsContinuation(M3) && M3[..|M3| - 1] + [LF] == FromString(": 1639320933:0;echo one \n")
  {
  }

  lemma JoinedLine()
    ensures AllContinuations([M3]) && Joined([M3]) + R2 == R3
  {
    ContinuationM3();
    assert Joined([M3]) == M3[..|M3| - 1] + [LF] + [];
  }

  lemma ContinuationM5()
    ensures IsContinuation(M5) && M5[..|M5| - 1] + [LF] == FromString(": 1639322832:0;echo 2 \\\n")
  {
  }

  lemma ContinuationM6()
    ensures IsContinuation(M6) && M6[..|M6| - 1] + [LF] == FromString(" 2 \\\n")
  {
  }

  lemma JoinedLines()
    ensures AllContinuations([M5, M6]) && Joined([M5, M6]) + FromString(" 1 \\") == R4
  {
    ContinuationM5();
    ContinuationM6();
    assert [M5, M6][1..] == [M6] && [M6][1..] == [];
    assert Joined([M6]) == M6[..|M6| - 1] + [LF] + [];
    assert Joined([M5, M6]) == M5[..|M5| - 1] + [LF] + Joined([M6]);
  }

  lemma LastRecord()
    ensures Reassemble([M8], []) == [R5]
  {
    MarkerLines();
    assert [M8] == [] + [M8] + [];
    LogicalRecord([], M8, [], []);
    assert [] + Joined([]) + Trimmed(M8) == R5;
  }

  lemma FromM5()
    ensures Reassemble([M5, M6, M7, M8], []) == [R4, R5]
  {
    MarkerLines();
    JoinedLines();
    LastRecord();
    assert [M5, M6, M7, M8] == [M5, M6] + [M7] + [M8];
    LogicalRecord([M5, M6], M7, [M8], []);
    assert [] + Joined([M5, M6]) + Trimmed(M7) == R4;
  }

  lemma FromM3()
    ensures Reassemble([M3, M2, M5, M6, M7, M8], []) == [R3, R4, R5]
  {
    MarkerLines();
    JoinedLine();
    FromM5();
    assert [M3, M2, M5, M6, M7, M8] == [M3] + [M2] + [M5, M6, M7, M8];
    LogicalRecord([M3], M2, [M5, M6, M7, M8], []);
    assert [] + Joined([M3]) + Trimmed(M2) == R3;
  }

  lemma FromM2()
    ensures Reassemble([M2, M3, M2, M5, M6, M7, M8], []) == [R2, R3, R4, R5]
  {
    MarkerLines();
    FromM3();
    assert [M2, M3, M2, M5, M6, M7, M8] == [] + [M2] + [M3, M2, M5, M6, M7, M8];
    LogicalRecord([], M2, [M3, M2, M5, M6, M7, M8], []);
    assert [] + Joined([]) + Trimmed(M2) == R2;
  }

  /** The "multiple lines" input: eight physical lines, five records. */
  lemma MultipleLines()
    ensures Reassemble([M1, M2, M3, M2, M5, M6, M7, M8], []) == [R1, R2, R3, R4, R5]
  {
    MarkerLines();
    FromM2();
    assert [M1, M2, M3, M2, M5, M6, M7, M8] == [] + [M1] + [M2, M3, M2, M5, M6, M7, M8];
    LogicalRecord([], M1, [M2, M3, M2, M5, M6, M7, M8], []);
    assert [] + Joined([]) + Trimmed(M1) == R1;
  }

  // The physical lines of the "simple" input; each is a record of its own.
  const S1 := FromString(": 1639324265:0;echo 1 2 3")
  const S2 := FromString(": 1639324275:0;echo \"\"")
  const S3 := FromString(": 1639324281:0;echo {1,2,3}")

  lemma PlainLines()
    ensures !IsContinuation(S1) && Trimmed(S1) == S1
    ensures !IsContinuation(S2) && Trimmed(S2) == S2
    ensures !IsContinuation(S3) && Trimmed(S3) == S3
  {
  }

  /** The "simple" input: three lines without continuation, three records. */
  lemma SimpleLines()
    ensures Reassemble([S1, S2, S3], []) == [S1, S2, S3]
  {
    PlainLines();
    assert [S3] == [] + [S3] + [];
    LogicalRecord([], S3, [], []);
    assert [S2, S3] == [] + [S2] + [S3];
    LogicalRecord([], S2, [S3], []);
    assert [S1, S2, S3] == [] + [S1] + [S2, S3];
    LogicalRecord([], S1, [S2, S3], []);
    assert [] + Joined([]) + S1 == S1;
    assert [] + Joined([]) + S2 == S2;
    assert [] + Joined([]) + S3 == S3;
  }
}
