/** How the runner's output feeds the scorer: every record the runner saves
    is a record the scorer counts. */
module Pipeline {
  import opened Common
  import opened JudgeClient
  import opened Runner
  import opened Scorer

  /** A record saved for a qid the benchmark knows is counted, with the points
      of the judge's reply. When every call failed, the stored reply is empty
      and the record is counted as a loss; it is not left out of the total. */
  lemma SavedRecordIsScored(files: map<string, Record>, sample: Record, outputDir: string,
                            media: string -> Option<seq<VideoInput>>, outcomes: seq<Option<string>>,
                            writeOk: bool, benchmark: map<string, Record>, mode: string)
    requires Step(files, sample, outputDir, media, outcomes, writeOk).outcome == Success(Saved)
    requires "qid" in sample && sample["qid"] in benchmark
    ensures var rec := Step(files, sample, outputDir, media, outcomes, writeOk).files[OutputPath(outputDir, sample["qid"])];
            RecordPoints(Parsed(rec), benchmark, mode)
              == Some(HalfPoints(Classify(JudgeSegment(JudgeReply(outcomes))), mode))
    ensures (forall j :: 0 <= j < MaxAttempts ==> Attempt(outcomes, j).None?) ==>
              var rec := Step(files, sample, outputDir, media, outcomes, writeOk).files[OutputPath(outputDir, sample["qid"])];
              RecordPoints(Parsed(rec), benchmark, mode) == Some(0)
  {
    StepSavesOneRecord(files, sample, outputDir, media, outcomes, writeOk);
    var rec := Step(files, sample, outputDir, media, outcomes, writeOk).files[OutputPath(outputDir, sample["qid"])];
    assert rec["qid"] == sample["qid"];
    if forall j :: 0 <= j < MaxAttempts ==> Attempt(outcomes, j).None? {
      ExhaustedRetriesGiveEmptyReply(outcomes);
      EmptyResponseCountsAsLoss(rec, benchmark, mode);
    }
  }
}
