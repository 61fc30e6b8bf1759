# Pairwise video-answer judging pipeline: a Dafny model

This project models the sequential core of a pairwise judge for video
question answering. A judge model compares a candidate answer (B) with a
reference answer (A) from a benchmark, and the results are reduced to a
win rate. It has three parts:

- **Scorer** (`scorer.dfy`, module `Scorer`). This models `load_data` and the
  win-rate expression of `src/get_score.py`. Each result record is
  classified by what follows the last `[Overall Judge]` marker in the
  judge's reply: `"B>A"` wins, otherwise `"="` ties, otherwise the
  candidate loses. Records that cannot be scored are dropped. The rest are
  folded into a tally. Wins are kept in half points (`nat`), so the 0.5 a
  tie earns in selected mode stays exact. The win rate is a Dafny `real`.
  The method `LoadData` is proved against the specification function
  `TallyOf`. The lemmas beside it prove the bounds, that dropped records
  change nothing, and that the tally does not depend on file order.
  `scorer_examples.dfy` works through a tie verdict after the marker, and a
  ten-record directory scored in both modes.
- **Judge client** (`judge_client.dfy`, module `JudgeClient`). This models
  `request` of `src/call_gpt4o.py`. It assembles the two chat messages,
  then makes at most ten calls, stopping at the first success. The judge
  model is an oracle: call *k* has the outcome given as element *k* of a
  sequence of `Option<string>`, where `None` is a failed call. Image
  encoding is a function parameter (`encode`).
- **Runner** (`runner.dfy`, module `Runner`). This models `make_sample_data`,
  the prompt template and `run_one_prompt` of `src/lmm_judge.py`. The
  result directory is a class `ResultStore` holding a
  `map<string, Record>` keyed by output path. Its method `RunOnePrompt` is
  proved against the pure function `Step`. The lemmas about `Step` state
  write-once, skip-if-exists, idempotence and error containment.
  `pipeline.dfy` links the runner to the scorer: every saved record is
  counted.

`common.dfy` holds `Option`, `Result` and `Record`. A JSON object is
modelled as `map<string, string>`. `text.dfy` holds Python's substring
test and the last piece of `str.split`, each characterised by occurrence
positions.

An empty judge reply, which the client returns once all ten calls fail,
contains neither token. It is therefore counted in `total` as a loss, not
excluded (`src/get_score.py:29-37`). The same holds for a reply without the
marker and without either token. `Scorer.EmptyResponseCountsAsLoss` and
`Pipeline.SavedRecordIsScored` state this behaviour.

## Model

| member | source | states |
|---|---|---|
| Text.ContainsIffOccurs | src/get_score.py:31-33 | The left-to-right scan behind Python's `in` is true exactly when the pattern occurs at some index. |
| Text.AfterLastIsLastOccurrence | src/get_score.py:29 | `split(sep)[-1]`, read as a separate case when `sep` is present, for a `sep` whose first character appears nowhere else in it (as in "[Overall Judge]"): none is returned exactly when `sep` never occurs. Otherwise the result is the suffix after an occurrence, and no occurrence starts later. |
| Text.AfterLastOfSepAndTail | src/get_score.py:29 | Splitting `prefix + sep + tail` on `sep`, where `tail` holds no `sep`, gives `tail` as the last piece, whatever `prefix` holds. |
| Scorer.SegmentAfterFinalMarker | src/get_score.py:29 | In `prefix + marker + tail`, where `tail` holds no marker, the classified segment is exactly `tail`. |
| Scorer.SegmentWithoutMarker | src/get_score.py:29 | A reply in which the marker never occurs is classified as a whole, since `split` then returns it unchanged as its only piece. |
| Scorer.HalfPoints | src/get_score.py:31-35 | A verdict earns at most a full point (2 half points). Outside selected mode, a verdict never earns an odd number of half points. |
| Scorer.SegmentPoints | src/get_score.py:31-35 | "B>A" anywhere gives a full point, even with "=" also present. Otherwise "=" gives half a point in selected mode and nothing in any other mode. Otherwise the segment gives nothing. |
| Scorer.RecordPoints | src/get_score.py:21-40 | A counted file earns at most a full point (2 half points). Outside selected mode it never earns an odd number of half points. |
| Scorer.EmptyResponseCountsAsLoss | src/get_score.py:29-37 | A benchmark record with an empty judge response is counted with 0 points. It is not dropped. |
| Scorer.TallyAppend | src/get_score.py:17-37 | Reading two batches in sequence adds their wins and their totals. |
| Scorer.InsertRecord | src/get_score.py:19-37 | A file anywhere in the listing contributes exactly as it would if read last. |
| Scorer.DroppedRecordIsIgnored | src/get_score.py:21-40 | A file that is not JSON, lacks "qid", names a qid outside the benchmark, or lacks the judge response changes neither wins nor total, wherever it sits, and scoring continues. |
| Scorer.CountedRecordAddsOne | src/get_score.py:24-37 | A parsed file with a benchmark qid and a judge response adds exactly 1 to total, and to wins the points of the verdict read after the reply's last marker, wherever it sits. |
| Scorer.TallyBounds | src/get_score.py:17-37 | 0 <= wins <= total. Outside selected mode, wins is a whole number. |
| Scorer.TallyIgnoresOrder | src/get_score.py:19-37 | Two listings with the same files in any order give the same (wins, total). |
| Scorer.LoadData | src/get_score.py:5-42 | The accumulation loop returns the tally `TallyOf` of the files in listing order, with wins bounded by total and whole outside selected mode. |
| Scorer.WinRate | src/get_score.py:62 | The rate is 0 when total is 0, with no division. Otherwise rate times total equals wins. |
| Scorer.WinRateInUnitInterval | src/get_score.py:62 | The rate lies in [0, 1] whenever wins <= total, which every tally meets. |
| ScorerExamples.TieResponseIsTie | src/get_score.py:29-35 | In "...blah [Overall Judge] My final verdict is tie: [[A=B]]", only the text after the marker is classified, and it is a tie. |
| ScorerExamples.TieRecordPoints | src/get_score.py:21-37 | That tie response scores half a point in selected mode and none in rejected mode. |
| ScorerExamples.TenRecordExample | src/get_score.py:5-62 | 3 "B>A", 2 "=" and 5 other records give 4 of 10 wins (rate 0.4) in selected mode and 3 of 10 (rate 0.3) in rejected mode. |
| JudgeClient.BuildMessages | src/call_gpt4o.py:39-83 | The result satisfies `RequestMessages`: exactly two messages, system first. The user content has one item per video input in order, plus the prompt text last. A string input passes through as a text item. Any other input becomes an image item whose URL is the JPEG data-URL prefix followed by its encoding. |
| JudgeClient.FirstSuccess | src/call_gpt4o.py:88-103 | It finds the first successful call within the ten-call budget, and all calls before it failed. If none is found, every call in the budget failed. |
| JudgeClient.AttemptsMade | src/call_gpt4o.py:88-103 | Between 1 and 10 calls are made: the failures plus the final success, if there is one. |
| JudgeClient.FirstSuccessDecides | src/call_gpt4o.py:88-99 | If call k is the first success within the budget, the reply is its content, with k failures and k + 1 calls. |
| JudgeClient.ExhaustedRetriesGiveEmptyReply | src/call_gpt4o.py:86-105 | If all ten calls fail, the reply is "" after 10 failures and 10 calls. |
| JudgeClient.Request | src/call_gpt4o.py:23-105 | The messages sent are the two-message request for the prompt and video inputs, as in `BuildMessages`. The retry loop makes at most 10 tries. Every call before `tryCount` failed. If `tryCount` < 10, call `tryCount` succeeded and its content is returned. Otherwise the result is "". `tryCount` counts failures, which equal sleeps. |
| Runner.MakeSampleData | src/lmm_judge.py:159-184 | Empty answers give `[]` in any mode. A mode other than "selected" or "rejected" fails as soon as there is one answer. In a valid mode the build succeeds exactly when every qid has the mode's reference, and otherwise fails on the first qid that lacks it. On success there is one item per answer, in order. Each item has "qid" equal to its key, "reference" equal to the mode's benchmark answer, and every other field kept. |
| Runner.RenderPlacesSlots | src/lmm_judge.py:106-111 | The rendered prompt holds the template text with persona, question, answer A and answer B, in that order, each at its slot's position. |
| Runner.OutputPathDistinct | src/lmm_judge.py:97 | In one output directory, distinct qids that hold no '/' get distinct result paths. Each is a plain file name ending in ".jsonl" directly inside the directory, so they are distinct files. |
| Runner.AbsoluteQidCanCollide | src/lmm_judge.py:97 | `os.path.join` discards the directory for an absolute name, so qid "/out/q1" lands on the path of "q1" in "/out". |
| Runner.FirstMissingKey | src/lmm_judge.py:91-96 | It returns none exactly when all the fields read are present. Otherwise it returns the first field, in reading order, that the item lacks. |
| Runner.StepNeverOverwrites | src/lmm_judge.py:97-117 | A step never changes or removes an existing record, and adds at most the record at the item's own path. |
| Runner.StepSavesOneRecord | src/lmm_judge.py:97-117 | A save adds exactly one record, at a path that was absent. The record is the work item with "GPT4o Judge response" set to the judge's reply and every other field kept. The step made between 1 and 10 calls. |
| Runner.StepFailuresLeaveStoreUnchanged | src/lmm_judge.py:90-123 | Every outcome other than a save leaves the store unchanged. The judge is called exactly when the guarded block is reached. A missing field fails whether or not the result exists. A missing video fails only when the result does not exist. |
| Runner.StepSkipsExisting | src/lmm_judge.py:97-101 | A work item with all its fields whose result path is already in the store, from this run or an earlier one, is skipped. No judge call is made and nothing is written, whatever the adapter, judge and disk would do. |
| Runner.StepIsIdempotent | src/lmm_judge.py:97-101 | After a step saved or skipped, running it again skips: no call, no write, whatever the adapter, judge and disk do the second time. |
| Runner.ResultStore.RunOnePrompt | src/lmm_judge.py:83-123 | The method's outcome, number of calls and new store are those of `Step` on the old store. A prompt is rendered exactly when the judge is called. It is the role template filled with persona, question, the reference as answer A and the response as answer B. The messages sent carry that prompt after the item's video inputs. |
| Pipeline.SavedRecordIsScored | src/get_score.py:24-37 | A saved record for a benchmark qid is counted with the points of the judge's reply. When every call failed, it is counted with 0 points. |

## Left out

- The process pool, `as_completed` and the throughput and ETA printing of `multi_process_request` (`src/lmm_judge.py:126-156`). These are concurrency and floating-point timing. Each work item is modelled as one `Step` on the store, which is what a worker does.
- The media adapter (`LongVideoBenchDataset.get_w_video_id`) is not part of this model. It is a function parameter `media` that may fail (`None`). That failure escapes the step as `MediaUnavailable`, because the lookup sits outside the `try` block.
- `encode_image` (resize, JPEG, base64) is the function parameter `encode`, assumed total. An encoding error inside `request` would be swallowed by `run_one_prompt`'s `try`, and the model does not produce one.
- `OpenAI(api_key=os.getenv('OPENAI_API_KEY'))` (`src/call_gpt4o.py:85`) raises before any call when the key is unset. This happens inside `run_one_prompt`'s `try`, so the source then makes no call and writes nothing. The model has no such failure: a step that reaches the guarded part always makes between 1 and 10 calls.
- The store compares result paths as strings, without normalisation, while `os.path.exists` asks the file system. A qid such as `"./q"` or one holding `"//"` names the same file as another qid's path. The source then skips, but the model judges and saves a second record under the other spelling. `Runner.OutputPathDistinct` therefore assumes qids without '/'.
- The OpenAI client, the network, the 60-second sleeps and the environment variables are replaced by the outcome sequence. A call past its end fails. The outcomes do not depend on the messages. The messages are instead returned by `Request` and `RunOnePrompt`, and their contracts fix what they hold.
- A failure of `dump_jsonl` is the boolean `writeOk`. The model treats it as atomic (nothing stored). A file left partly written after `open(..., "w")` is not modelled.
- The prompt's wording (`src/lmm_judge.py:11-76`) and the system instruction are abbreviated constants. Only the slot structure and the closing `[Overall Judge]` block are kept.
- JSON values are strings, so a non-string value cannot be expressed. In the source, a number, boolean or `null` qid is not among the benchmark's string keys, so `get_score.py:26` raises the caught `ValueError` and the file is dropped. The model covers this as a qid missing from the benchmark. A list or object qid raises an uncaught `TypeError` (unhashable), and so does a non-object JSON file. A non-string judge response raises an uncaught `AttributeError` at `.split`. Those uncaught errors, a `null` message content and the key order of the written objects are not modelled.
- Python's float `w` is exact for halves at any realistic count. The model keeps wins as a whole number of half points.
- `argparse`, `os.makedirs`, file opening, printing and `src/utils.py` are I/O plumbing. A result directory is a sequence of `ResultFile`s in listing order, and the answers file is its sequence of (qid, entry) pairs.
