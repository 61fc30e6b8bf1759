/** Worked scoring examples: a verdict after the marker, and a ten-record
    result directory scored in both modes. */
module ScorerExamples {
  import opened Common
  import opened Text
  import opened Scorer

  /** A pattern with a character that `s` lacks does not occur in `s`. */
  lemma NoCharNoOccurrence(s: string, pat: string, j: nat)
    requires j < |pat| && pat[j] !in s
    ensures forall i :: !OccursAt(s, pat, i)
  {
  }

  const TieTail: string := " My final verdict is tie: [[A=B]]"
  const TieResponse: string := "...blah " + Marker + TieTail

  /** Only the text after the marker is classified. */
  lemma TieResponseSegment()
    ensures JudgeSegment(TieResponse) == TieTail
  {
    assert Marker[1] == 'O' && 'O' !in TieTail;
    NoCharNoOccurrence(TieTail, Marker, 1);
    SegmentAfterFinalMarker("...blah ", TieTail);
  }

  /** The text after the marker is a tie. */
  lemma TieResponseIsTie()
    ensures JudgeSegment(TieResponse) == TieTail
    ensures Classify(JudgeSegment(TieResponse)) == Tie
  {
    TieResponseSegment();
    assert CandidateWinsToken[1] == '>' && '>' !in TieTail;
    NoCharNoOccurrence(TieTail, CandidateWinsToken, 1);
    assert OccursAt(TieTail, TieToken, 29);
    ContainsIffOccurs(TieTail, CandidateWinsToken);
    ContainsIffOccurs(TieTail, TieToken);
  }

  const Benchmark: map<string, Record> := map["q" := map["selected answer" := "s", "rejected answer" := "r"]]

  function ResultWithReply(response: string): ResultFile {
    Parsed(map["qid" := "q", JudgeResponseKey := response])
  }

  /** A tie earns half a point in selected mode and nothing in rejected mode. */
  lemma TieRecordPoints()
    ensures RecordPoints(ResultWithReply(TieResponse), Benchmark, SelectedMode) == Some(1)
    ensures RecordPoints(ResultWithReply(TieResponse), Benchmark, RejectedMode) == Some(0)
  {
    TieResponseIsTie();
    var rec := map["qid" := "q", JudgeResponseKey := TieResponse];
    assert ResultWithReply(TieResponse) == Parsed(rec);
    assert "qid" in rec && rec["qid"] in Benchmark && JudgeResponseKey in rec;
    assert rec[JudgeResponseKey] == TieResponse;
    assert HalfPoints(Classify(JudgeSegment(TieResponse)), SelectedMode) == 1;
    assert HalfPoints(Classify(JudgeSegment(TieResponse)), RejectedMode) == 0;
  }

  /** n copies of one file count n times what the file counts once. */
  lemma {:induction false} RepeatedTally(file: ResultFile, n: nat, mode: string)
    requires RecordPoints(file, Benchmark, mode).Some?
    ensures TallyOf(seq(n, _ => file), Benchmark, mode)
              == Tally(n * RecordPoints(file, Benchmark, mode).value, n)
  {
    if n > 0 {
      var s := seq(n, _ => file);
      var p := RecordPoints(file, Benchmark, mode).value;
      assert s[..n - 1] == seq(n - 1, _ => file);
      RepeatedTally(file, n - 1, mode);
      assert TallyOf(s, Benchmark, mode) == Count(TallyOf(s[..n - 1], Benchmark, mode), Some(p));
      assert (n - 1) * p + p == n * p;
    }
  }

  /** A response shorter than the marker is classified as a whole. */
  lemma ShortRecordPoints(response: string, mode: string)
    requires |response| < |Marker|
    ensures RecordPoints(ResultWithReply(response), Benchmark, mode) == Some(HalfPoints(Classify(response), mode))
  {
    var rec := map["qid" := "q", JudgeResponseKey := response];
    assert "qid" in rec && rec["qid"] in Benchmark && JudgeResponseKey in rec;
    assert rec[JudgeResponseKey] == response;
  }

  /** "[[A>B]]" holds no "B>A": the only 'B' in it is followed by ']'. */
  lemma LossTokenHasNoWin()
    ensures !Contains("[[A>B]]", CandidateWinsToken)
  {
    var s := "[[A>B]]";
    forall i ensures !OccursAt(s, CandidateWinsToken, i) {
      if 0 <= i && i + 3 <= |s| {
        assert s[i..i + 3][0] == s[i] && s[i..i + 3][1] == s[i + 1];
        assert s[i] != 'B' || s[i + 1] != '>';
      }
    }
    ContainsIffOccurs(s, CandidateWinsToken);
  }

  /** The three verdict tokens, read on their own. */
  lemma VerdictTokens()
    ensures Classify("[[B>A]]") == CandidateWins
    ensures Classify("[[A=B]]") == Tie
    ensures Classify("[[A>B]]") == CandidateLoses
  {
    assert OccursAt("[[B>A]]", CandidateWinsToken, 2);
    assert OccursAt("[[A=B]]", TieToken, 3);
    assert '>' !in "[[A=B]]" && '=' !in "[[A>B]]";
    NoCharNoOccurrence("[[A=B]]", CandidateWinsToken, 1);
    NoCharNoOccurrence("[[A>B]]", TieToken, 0);
    LossTokenHasNoWin();
    ContainsIffOccurs("[[B>A]]", CandidateWinsToken);
    ContainsIffOccurs("[[A=B]]", CandidateWinsToken);
    ContainsIffOccurs("[[A=B]]", TieToken);
    ContainsIffOccurs("[[A>B]]", TieToken);
  }

  /** The ten records of the example in the given mode. */
  lemma {:induction false} TenRecordTally(mode: string)
    ensures TallyOf(TenRecords(), Benchmark, mode)
              == Tally(6 + (if mode == SelectedMode then 2 else 0), 10)
  {
    VerdictTokens();
    ShortRecordPoints("[[B>A]]", mode);
    ShortRecordPoints("[[A=B]]", mode);
    ShortRecordPoints("[[A>B]]", mode);
    var wins, ties, losses := seq(3, _ => ResultWithReply("[[B>A]]")), seq(2, _ => ResultWithReply("[[A=B]]")),
                              seq(5, _ => ResultWithReply("[[A>B]]"));
    RepeatedTally(ResultWithReply("[[B>A]]"), 3, mode);
    RepeatedTally(ResultWithReply("[[A=B]]"), 2, mode);
    RepeatedTally(ResultWithReply("[[A>B]]"), 5, mode);
    TallyAppend(wins, ties, Benchmark, mode);
    TallyAppend(wins + ties, losses, Benchmark, mode);
  }

  /** Three candidate wins, two ties and five losses. */
  function TenRecords(): seq<ResultFile> {
    seq(3, _ => ResultWithReply("[[B>A]]")) + seq(2, _ => ResultWithReply("[[A=B]]")) + seq(5, _ => ResultWithReply("[[A>B]]"))
  }

  /** The ten records score 4 of 10 (a 40% win rate) in selected mode and
      3 of 10 (30%) in rejected mode, where the two ties earn nothing. */
  lemma TenRecordExample()
    ensures TallyOf(TenRecords(), Benchmark, SelectedMode) == Tally(8, 10)
    ensures WinRate(8, 10) == 0.4
    ensures TallyOf(TenRecords(), Benchmark, RejectedMode) == Tally(6, 10)
    ensures WinRate(6, 10) == 0.3
  {
    TenRecordTally(SelectedMode);
    TenRecordTally(RejectedMode);
  }
}
