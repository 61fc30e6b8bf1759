/** Shared vocabulary of the judging pipeline: optional values, results with
    an error side, and the JSON objects that flow between its stages. */
module Common {

  datatype Option<+T> = None | Some(value: T)

  datatype Result<+T, +E> = Success(value: T) | Failure(error: E)

  /** A JSON object whose field values are strings (answers entries,
      benchmark entries, work items and result records). */
  type Record = map<string, string>

  /** The field under which the judge's raw reply is stored in a result record. */
  const JudgeResponseKey: string := "GPT4o Judge response"

  /** The mode in which ties earn half a point and the selected answer is the reference. */
  const SelectedMode: string := "selected"

  /** The mode in which the rejected answer is the reference. */
  const RejectedMode: string := "rejected"
}
