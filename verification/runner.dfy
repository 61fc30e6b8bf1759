/** The judge runner: builds one work item per answered question, renders the
    comparison prompt, and runs the per-item judge step against a result store
    that holds one record per output path and is never overwritten. */
module Runner {
  import opened Common
  import opened JudgeClient

  // ---------------------------------------------------------------------
  // Sample builder

  datatype BuildError =
    | InvalidMode                    // the mode names neither benchmark answer
    | MissingReference(qid: string)  // the benchmark has no entry or no such answer for qid

  predicate ValidMode(mode: string) {
    mode == SelectedMode || mode == RejectedMode
  }

  /** The benchmark field that becomes the reference answer (answer A). */
  function ReferenceField(mode: string): string
    requires ValidMode(mode)
  {
    if mode == SelectedMode then "selected answer" else "rejected answer"
  }

  /** The benchmark can supply the reference answer for `qid`. */
  predicate HasReference(benchmark: map<string, Record>, qid: string, field: string) {
    qid in benchmark && field in benchmark[qid]
  }

  /** `item` is the answer entry under `qid` with "reference" and "qid" set
      and every other field of the entry kept. */
  ghost predicate IsWorkItem(item: Record, qid: string, answer: Record, reference: string) {
    && item.Keys == answer.Keys + {"reference", "qid"}
    && item["qid"] == qid
    && item["reference"] == reference
    && forall k :: k in answer && k != "qid" && k != "reference" ==> item[k] == answer[k]
  }

  /** Joins the answers (a JSON object given as its entries in file order) with
      the benchmark on qid. The mode is checked once per entry, so an invalid
      mode fails only when there is at least one answer; a qid the benchmark
      cannot resolve fails the whole build. */
  method MakeSampleData(benchmark: map<string, Record>, answers: seq<(string, Record)>, mode: string)
    returns (r: Result<seq<Record>, BuildError>)
    ensures |answers| == 0 ==> r == Success([])
    ensures |answers| > 0 && !ValidMode(mode) ==> r == Failure(InvalidMode)
    ensures ValidMode(mode) ==>
              (r.Success? <==> forall i :: 0 <= i < |answers| ==>
                                 HasReference(benchmark, answers[i].0, ReferenceField(mode)))
    ensures r.Success? ==>
              && |r.value| == |answers|
              && forall i :: 0 <= i < |answers| ==>
                   IsWorkItem(r.value[i], answers[i].0, answers[i].1,
                              benchmark[answers[i].0][ReferenceField(mode)])
    ensures ValidMode(mode) && r.Failure? ==>
              exists i :: && 0 <= i < |answers|
                          && r.error == MissingReference(answers[i].0)
                          && !HasReference(benchmark, answers[i].0, ReferenceField(mode))
                          && forall j :: 0 <= j < i ==> HasReference(benchmark, answers[j].0, ReferenceField(mode))
  {
    var data: seq<Record> := [];
    for i := 0 to |answers|
      invariant i > 0 ==> ValidMode(mode)
      invariant |data| == i
      invariant forall j :: 0 <= j < i ==> HasReference(benchmark, answers[j].0, ReferenceField(mode))
      invariant forall j :: 0 <= j < i ==>
                  IsWorkItem(data[j], answers[j].0, answers[j].1,
                             benchmark[answers[j].0][ReferenceField(mode)])
    {
      var (qid, sample) := answers[i];
      if mode == SelectedMode {
        if !HasReference(benchmark, qid, "selected answer") {
          return Failure(MissingReference(qid));
        }
        sample := sample["reference" := benchmark[qid]["selected answer"]];
      } else if mode == RejectedMode {
        if !HasReference(benchmark, qid, "rejected answer") {
          return Failure(MissingReference(qid));
        }
        sample := sample["reference" := benchmark[qid]["rejected answer"]];
      } else {
        return Failure(InvalidMode);
      }
      sample := sample["qid" := qid];
      data := data + [sample];
    }
    return Success(data);
  }

  // ---------------------------------------------------------------------
  // Prompt rendering

  /** A prompt template with four slots: the fixed text before the persona,
      between the persona and the question, between the question and answer A,
      between answer A and answer B, and after answer B. */
  datatype Template = Template(lead: string, beforeQuestion: string, beforeAnswerA: string,
                               beforeAnswerB: string, tail: string)

  /** The judge instruction. Its wording is abbreviated here; only the fenced
      slots and the closing "[Overall Judge]" block the scorer relies on are kept. */
  const RoleTemplate: Template := Template(
    "<persona preamble>\n```persona\n",
    "\n```\n<question preamble>\n```question\n",
    "\n```\n<answer A preamble>\n```model_a\n",
    "\n```\n<answer B preamble>\n```model_b\n",
    "\n```\n<criteria and output format>\n```[Overall Judge]\n[Your Judge]\n```")

  /** Fills the four slots, as Python's `str.format` does for plain text. */
  function Render(t: Template, persona: string, question: string, answerA: string, answerB: string): string
  {
    t.lead + persona + t.beforeQuestion + question + t.beforeAnswerA + answerA + t.beforeAnswerB + answerB + t.tail
  }

  /** The rendered prompt holds the template text and the four values, in the
      order persona, question, answer A, answer B, each at the place its slot
      takes in the template. */
  lemma RenderPlacesSlots(t: Template, persona: string, question: string, answerA: string, answerB: string)
    ensures var p := Render(t, persona, question, answerA, answerB);
            var o1 := |t.lead|;
            var o2 := o1 + |persona| + |t.beforeQuestion|;
            var o3 := o2 + |question| + |t.beforeAnswerA|;
            var o4 := o3 + |answerA| + |t.beforeAnswerB|;
            && |p| == o4 + |answerB| + |t.tail|
            && p[..o1] == t.lead
            && p[o1..o1 + |persona|] == persona
            && p[o1 + |persona|..o2] == t.beforeQuestion
            && p[o2..o2 + |question|] == question
            && p[o2 + |question|..o3] == t.beforeAnswerA
            && p[o3..o3 + |answerA|] == answerA
            && p[o3 + |answerA|..o4] == t.beforeAnswerB
            && p[o4..o4 + |answerB|] == answerB
            && p[o4 + |answerB|..] == t.tail
  {
  }

  // ---------------------------------------------------------------------
  // Result paths

  /** The directory part that `os.path.join(outputDir, name)` puts before a
      relative name. */
  function DirPrefix(outputDir: string): string
  {
    if outputDir == "" || outputDir[|outputDir| - 1] == '/' then outputDir else outputDir + "/"
  }

  /** `os.path.join(outputDir, qid + ".jsonl")`; an absolute name discards the
      directory. */
  function OutputPath(outputDir: string, qid: string): string
  {
    var name := qid + ".jsonl";
    if name[0] == '/' then name else DirPrefix(outputDir) + name
  }

  /** Within one output directory, distinct qids that hold no '/' name
      distinct files: each is a plain file name ending in ".jsonl", never "."
      or "..", directly inside that directory. */
  lemma OutputPathDistinct(outputDir: string, qid1: string, qid2: string)
    requires '/' !in qid1 && '/' !in qid2
    requires qid1 != qid2
    ensures OutputPath(outputDir, qid1) != OutputPath(outputDir, qid2)
  {
    var d := DirPrefix(outputDir);
    var n1, n2 := qid1 + ".jsonl", qid2 + ".jsonl";
    assert n1[0] != '/' && n2[0] != '/' by {
      if qid1 != "" { assert n1[0] == qid1[0]; }
      if qid2 != "" { assert n2[0] == qid2[0]; }
    }
    assert (d + n1)[|d|..] == n1 && (d + n2)[|d|..] == n2;
    assert n1[..|qid1|] == qid1 && n2[..|qid2|] == qid2;
  }

  /** An absolute qid escapes the output directory and can land on the file
      of another qid. */
  lemma AbsoluteQidCanCollide()
    ensures OutputPath("/out", "/out/q1") == OutputPath("/out", "q1")
  {
  }

  // ---------------------------------------------------------------------
  // The per-item judge step

  /** The fields read from a work item before the result path is checked, in
      the order they are read. */
  const RunKeys: seq<string> := ["qid", "video_id", "persona", "question", "reference", "response"]

  /** The first of `keys` that `sample` lacks, if any. */
  function FirstMissingKey(sample: Record, keys: seq<string>): (r: Option<string>)
    ensures r.None? <==> forall i :: 0 <= i < |keys| ==> keys[i] in sample
    ensures r.Some? ==> exists i :: && 0 <= i < |keys| && keys[i] == r.value
                                   && r.value !in sample
                                   && forall j :: 0 <= j < i ==> keys[j] in sample
  {
    if keys == [] then None
    else if keys[0] !in sample then Some(keys[0])
    else
      var r := FirstMissingKey(sample, keys[1..]);
      assert r.Some? ==> exists i :: 0 <= i < |keys| - 1 && keys[1..][i] == r.value
                                   && forall j :: 0 <= j < i ==> keys[1..][j] in sample;
      r
  }

  datatype StepOutcome = Skipped | Saved | WriteFailed

  /** Failures that escape the step: a missing field of the work item, or a
      video the media adapter cannot resolve (both happen before the guarded
      part of the step). */
  datatype RunError = MissingKey(key: string) | MediaUnavailable(videoId: string)

  /** What one step reports, the store after it, and how many judge calls it made. */
  datatype StepResult = StepResult(outcome: Result<StepOutcome, RunError>,
                                   files: map<string, Record>, attempts: nat)

  /** The judge step for one work item against the store `files`. `media` is
      the media adapter, `outcomes` the judge-call oracle and `writeOk` whether
      writing the record succeeds; a failure inside the guarded part is caught
      and leaves the store as it was. */
  function Step(files: map<string, Record>, sample: Record, outputDir: string,
                media: string -> Option<seq<VideoInput>>, outcomes: seq<Option<string>>,
                writeOk: bool): StepResult
  {
    match FirstMissingKey(sample, RunKeys)
    case Some(k) => StepResult(Failure(MissingKey(k)), files, 0)
    case None =>
      assert "qid" == RunKeys[0] && "video_id" == RunKeys[1];
      var path := OutputPath(outputDir, sample["qid"]);
      if path in files then StepResult(Success(Skipped), files, 0)
      else if media(sample["video_id"]).None? then
        StepResult(Failure(MediaUnavailable(sample["video_id"])), files, 0)
      else if writeOk then
        StepResult(Success(Saved), files[path := sample[JudgeResponseKey := JudgeReply(outcomes)]],
                   AttemptsMade(outcomes))
      else StepResult(Success(WriteFailed), files, AttemptsMade(outcomes))
  }

  /** Write-once: a step never changes or removes a record already stored and
      adds at most the record at the work item's own path. */
  lemma StepNeverOverwrites(files: map<string, Record>, sample: Record, outputDir: string,
                            media: string -> Option<seq<VideoInput>>, outcomes: seq<Option<string>>,
                            writeOk: bool)
    ensures var r := Step(files, sample, outputDir, media, outcomes, writeOk);
            && (forall p :: p in files ==> p in r.files && r.files[p] == files[p])
            && ("qid" !in sample ==> r.files == files)
            && ("qid" in sample ==> r.files.Keys <= files.Keys + {OutputPath(outputDir, sample["qid"])})
  {
  }

  /** A step that saves a record writes exactly one new record at the item's
      path: the work item with the judge's reply added, after at least one call. */
  lemma StepSavesOneRecord(files: map<string, Record>, sample: Record, outputDir: string,
                           media: string -> Option<seq<VideoInput>>, outcomes: seq<Option<string>>,
                           writeOk: bool)
    requires Step(files, sample, outputDir, media, outcomes, writeOk).outcome == Success(Saved)
    ensures "qid" in sample && OutputPath(outputDir, sample["qid"]) !in files
    ensures var r := Step(files, sample, outputDir, media, outcomes, writeOk);
            var path := OutputPath(outputDir, sample["qid"]);
            && r.files.Keys == files.Keys + {path}
            && r.files[path].Keys == sample.Keys + {JudgeResponseKey}
            && r.files[path][JudgeResponseKey] == JudgeReply(outcomes)
            && (forall k :: k in sample && k != JudgeResponseKey ==> r.files[path][k] == sample[k])
            && 1 <= r.attempts <= MaxAttempts
  {
    assert "qid" == RunKeys[0];
  }

  /** Every outcome other than Saved leaves the store unchanged; the judge is
      called exactly when the guarded part is reached; a missing field fails
      whether or not the result exists, a missing video only when it does not. */
  lemma StepFailuresLeaveStoreUnchanged(files: map<string, Record>, sample: Record, outputDir: string,
                                        media: string -> Option<seq<VideoInput>>,
                                        outcomes: seq<Option<string>>, writeOk: bool)
    ensures var r := Step(files, sample, outputDir, media, outcomes, writeOk);
            && (r.outcome != Success(Saved) ==> r.files == files)
            && (r.attempts > 0 <==> r.outcome == Success(Saved) || r.outcome == Success(WriteFailed))
            && (r.outcome.Failure? && r.outcome.error.MediaUnavailable? ==>
                  "qid" in sample && OutputPath(outputDir, sample["qid"]) !in files)
            && (FirstMissingKey(sample, RunKeys).Some? ==>
                  r.outcome == Failure(MissingKey(FirstMissingKey(sample, RunKeys).value)))
  {
    assert "qid" == RunKeys[0];
  }

  /** A work item whose result file already exists, from this run or an earlier
      one, is skipped: no judge call, no media lookup, no write. */
  lemma StepSkipsExisting(files: map<string, Record>, sample: Record, outputDir: string,
                          media: string -> Option<seq<VideoInput>>, outcomes: seq<Option<string>>,
                          writeOk: bool)
    requires FirstMissingKey(sample, RunKeys).None?
    requires "qid" in sample && OutputPath(outputDir, sample["qid"]) in files
    ensures Step(files, sample, outputDir, media, outcomes, writeOk) == StepResult(Success(Skipped), files, 0)
  {
  }

  /** Running the step again after it saved or skipped makes no judge call and
      writes nothing, whatever the media adapter, the judge and the disk do
      the second time. */
  lemma StepIsIdempotent(files: map<string, Record>, sample: Record, outputDir: string,
                         media: string -> Option<seq<VideoInput>>, outcomes: seq<Option<string>>,
                         writeOk: bool,
                         media2: string -> Option<seq<VideoInput>>, outcomes2: seq<Option<string>>,
                         writeOk2: bool)
    requires var r := Step(files, sample, outputDir, media, outcomes, writeOk);
             r.outcome == Success(Saved) || r.outcome == Success(Skipped)
    ensures var r := Step(files, sample, outputDir, media, outcomes, writeOk);
            Step(r.files, sample, outputDir, media2, outcomes2, writeOk2)
              == StepResult(Success(Skipped), r.files, 0)
  {
  }

  /** The store of result records: one JSON object per output path. */
  class ResultStore {
    var files: map<string, Record>

    constructor (existing: map<string, Record>)
      ensures files == existing
    {
      files := existing;
    }

    /** Judges one work item unless its result already exists, and stores the
        work item with the judge's reply. Reading the fields, the existence
        check and the media lookup are unguarded; rendering, the judge request
        and the write are guarded, and a failure there is swallowed. When the
        judge is asked, `prompt` is the rendered prompt, with the benchmark's
        reference as answer A and the evaluated response as answer B, and
        `sent` is the request carrying it and the video inputs. */
    method RunOnePrompt(sample: Record, outputDir: string, media: string -> Option<seq<VideoInput>>,
                        encode: Frame -> string, outcomes: seq<Option<string>>, writeOk: bool)
      returns (r: Result<StepOutcome, RunError>, attempts: nat, prompt: Option<string>, sent: seq<Message>)
      modifies this
      ensures StepResult(r, files, attempts) == Step(old(files), sample, outputDir, media, outcomes, writeOk)
      ensures prompt.Some? <==> attempts > 0
      ensures prompt.Some? ==>
                && "persona" in sample && "question" in sample
                && "reference" in sample && "response" in sample
                && prompt.value == Render(RoleTemplate, sample["persona"], sample["question"],
                                          sample["reference"], sample["response"])
      ensures prompt.Some? ==>
                && "video_id" in sample && media(sample["video_id"]).Some?
                && RequestMessages(sent, prompt.value, media(sample["video_id"]).value, encode)
    {
      prompt, sent := None, [];
      var missing := FirstMissingKey(sample, RunKeys);
      if missing.Some? {
        return Failure(MissingKey(missing.value)), 0, prompt, sent;
      }
      assert "qid" == RunKeys[0] && "video_id" == RunKeys[1] && "persona" == RunKeys[2];
      assert "question" == RunKeys[3] && "reference" == RunKeys[4] && "response" == RunKeys[5];
      var qid, videoId := sample["qid"], sample["video_id"];
      var outputPath := OutputPath(outputDir, qid);
      if outputPath in files {
        return Success(Skipped), 0, prompt, sent;
      }
      var videoInputs := media(videoId);
      if videoInputs.None? {
        return Failure(MediaUnavailable(videoId)), 0, prompt, sent;
      }
      var chosen := Render(RoleTemplate, sample["persona"], sample["question"],
                           sample["reference"], sample["response"]);
      var response, tryCount;
      response, tryCount, sent := Request(chosen, videoInputs.value, encode, outcomes);
      prompt := Some(chosen);
      attempts := if tryCount < MaxAttempts then tryCount + 1 else tryCount;
      if writeOk {
        files := files[outputPath := sample[JudgeResponseKey := response]];
        r := Success(Saved);
      } else {
        r := Success(WriteFailed);
      }
    }
  }
}
