/** The scorer: reads every result record of a run, extracts the verdict the
    judge gave after its last "[Overall Judge]" marker, and folds the records
    into a tally of candidate wins (in half points) and compared items. */
module Scorer {
  import opened Common
  import opened Text

  /** The heading the judge is asked to put before its final verdict. */
  const Marker: string := "[Overall Judge]"

  /** Substring that marks a win for the candidate (answer B). */
  const CandidateWinsToken: string := "B>A"

  /** Substring that marks a tie, once a candidate win has been ruled out. */
  const TieToken: string := "="

  datatype Verdict = CandidateWins | Tie | CandidateLoses

  /** One file of the result directory: either it did not parse as JSON, or it
      holds one JSON object. */
  datatype ResultFile = Unparsable | Parsed(record: Record)

  /** Wins counted in half points, so that a tie in selected mode stays exact,
      and the number of records that were compared. */
  datatype Tally = Tally(halfWins: nat, total: nat)

  // ---------------------------------------------------------------------
  // Verdict extraction

  /** The part of a judge response that is classified: the text after the last
      marker, or the whole response when the marker is absent. */
  function JudgeSegment(response: string): string
  {
    match AfterLast(response, Marker)
    case Some(t) => t
    case None => response
  }

  /** A response without the marker is classified as a whole. */
  lemma SegmentWithoutMarker(response: string)
    requires forall i :: !OccursAt(response, Marker, i)
    ensures JudgeSegment(response) == response
  {
    assert LeadsUniquely(Marker);
    AfterLastIsLastOccurrence(response, Marker);
  }

  /** A response whose text after some marker holds no further marker is
      classified on exactly that text. */
  lemma SegmentAfterFinalMarker(prefix: string, tail: string)
    requires forall i :: !OccursAt(tail, Marker, i)
    ensures JudgeSegment(prefix + Marker + tail) == tail
  {
    assert LeadsUniquely(Marker);
    AfterLastOfSepAndTail(prefix, Marker, tail);
  }

  /** The verdict, by the fixed precedence: a candidate win first, then a tie,
      otherwise a loss. */
  function Classify(segment: string): Verdict
  {
    if Contains(segment, CandidateWinsToken) then CandidateWins
    else if Contains(segment, TieToken) then Tie
    else CandidateLoses
  }

  /** Half points a verdict earns the candidate under `mode`. */
  function HalfPoints(v: Verdict, mode: string): (p: nat)
    ensures p <= 2
    ensures mode != SelectedMode ==> p % 2 == 0
  {
    match v
    case CandidateWins => 2
    case Tie => if mode == SelectedMode then 1 else 0
    case CandidateLoses => 0
  }

  /** The points a segment earns, stated by where the tokens occur in it:
      "B>A" anywhere wins outright, even beside "="; otherwise "=" is half a
      point in selected mode and nothing in any other mode; otherwise nothing. */
  lemma SegmentPoints(segment: string, mode: string)
    ensures (exists i :: OccursAt(segment, CandidateWinsToken, i)) ==>
              HalfPoints(Classify(segment), mode) == 2
    ensures (forall i :: !OccursAt(segment, CandidateWinsToken, i)) &&
            (exists i :: OccursAt(segment, TieToken, i)) ==>
              HalfPoints(Classify(segment), mode) == (if mode == SelectedMode then 1 else 0)
    ensures (forall i :: !OccursAt(segment, CandidateWinsToken, i)) &&
            (forall i :: !OccursAt(segment, TieToken, i)) ==>
              HalfPoints(Classify(segment), mode) == 0
  {
    ContainsIffOccurs(segment, CandidateWinsToken);
    ContainsIffOccurs(segment, TieToken);
  }

  // ---------------------------------------------------------------------
  // Per-record scoring and the tally

  /** What one result file contributes: None when it is dropped (not JSON, no
      "qid", a qid missing from the benchmark, or no judge response), else the
      half points it earns; a counted record always adds one to the total. */
  function RecordPoints(file: ResultFile, benchmark: map<string, Record>, mode: string): (p: Option<nat>)
    ensures p.Some? ==> p.value <= 2 && (mode != SelectedMode ==> p.value % 2 == 0)
  {
    match file
    case Unparsable => None
    case Parsed(rec) =>
      if "qid" !in rec || rec["qid"] !in benchmark || JudgeResponseKey !in rec then None
      else Some(HalfPoints(Classify(JudgeSegment(rec[JudgeResponseKey])), mode))
  }

  /** An empty judge response (exhausted retries) is still counted, as a loss. */
  lemma EmptyResponseCountsAsLoss(rec: Record, benchmark: map<string, Record>, mode: string)
    requires "qid" in rec && rec["qid"] in benchmark
    requires JudgeResponseKey in rec && rec[JudgeResponseKey] == ""
    ensures RecordPoints(Parsed(rec), benchmark, mode) == Some(0)
  {
    assert JudgeSegment("") == "";
    ContainsIffOccurs("", CandidateWinsToken);
    ContainsIffOccurs("", TieToken);
  }

  function Count(t: Tally, points: Option<nat>): Tally
  {
    match points
    case None => t
    case Some(p) => Tally(t.halfWins + p, t.total + 1)
  }

  function Plus(a: Tally, b: Tally): Tally
  {
    Tally(a.halfWins + b.halfWins, a.total + b.total)
  }

  /** The tally after the files have been read in the given order. */
  function TallyOf(files: seq<ResultFile>, benchmark: map<string, Record>, mode: string): Tally
    decreases |files|
  {
    if files == [] then Tally(0, 0)
    else Count(TallyOf(files[..|files| - 1], benchmark, mode),
               RecordPoints(files[|files| - 1], benchmark, mode))
  }

  /** Reading two batches one after the other adds their tallies. */
  lemma {:induction false} TallyAppend(a: seq<ResultFile>, b: seq<ResultFile>, benchmark: map<string, Record>, mode: string)
    ensures TallyOf(a + b, benchmark, mode) == Plus(TallyOf(a, benchmark, mode), TallyOf(b, benchmark, mode))
    decreases |b|
  {
    if b == [] {
      assert a + b == a;
    } else {
      var b', x := b[..|b| - 1], b[|b| - 1];
      var ab := a + b;
      assert ab[..|ab| - 1] == a + b';
      assert ab[|ab| - 1] == x;
      TallyAppend(a, b', benchmark, mode);
      var p := RecordPoints(x, benchmark, mode);
      assert TallyOf(ab, benchmark, mode) == Count(TallyOf(a + b', benchmark, mode), p);
      assert TallyOf(b, benchmark, mode) == Count(TallyOf(b', benchmark, mode), p);
    }
  }

  /** Reading one more file anywhere in the listing counts it exactly as
      reading it last would. */
  lemma InsertRecord(before: seq<ResultFile>, file: ResultFile, after: seq<ResultFile>,
                     benchmark: map<string, Record>, mode: string)
    ensures TallyOf(before + [file] + after, benchmark, mode)
              == Count(TallyOf(before + after, benchmark, mode), RecordPoints(file, benchmark, mode))
  {
    TallyAppend(before + [file], after, benchmark, mode);
    TallyAppend(before, after, benchmark, mode);
    assert (before + [file])[..|before + [file]| - 1] == before;
  }

  /** A dropped record changes neither the wins nor the total, wherever it sits. */
  lemma DroppedRecordIsIgnored(before: seq<ResultFile>, file: ResultFile, after: seq<ResultFile>,
                               benchmark: map<string, Record>, mode: string)
    requires || file.Unparsable?
             || "qid" !in file.record
             || file.record["qid"] !in benchmark
             || JudgeResponseKey !in file.record
    ensures TallyOf(before + [file] + after, benchmark, mode) == TallyOf(before + after, benchmark, mode)
  {
    InsertRecord(before, file, after, benchmark, mode);
  }

  /** A counted record adds exactly one to the total and its points to the wins. */
  lemma CountedRecordAddsOne(before: seq<ResultFile>, file: ResultFile, after: seq<ResultFile>,
                             benchmark: map<string, Record>, mode: string)
    requires file.Parsed? && "qid" in file.record && file.record["qid"] in benchmark
    requires JudgeResponseKey in file.record
    ensures var t := TallyOf(before + after, benchmark, mode);
            var v := Classify(JudgeSegment(file.record[JudgeResponseKey]));
            TallyOf(before + [file] + after, benchmark, mode)
              == Tally(t.halfWins + HalfPoints(v, mode), t.total + 1)
  {
    InsertRecord(before, file, after, benchmark, mode);
  }

  /** The wins never exceed the total, and outside selected mode, where a tie
      earns nothing, the wins are a whole number. */
  lemma {:induction false} TallyBounds(files: seq<ResultFile>, benchmark: map<string, Record>, mode: string)
    ensures TallyOf(files, benchmark, mode).halfWins <= 2 * TallyOf(files, benchmark, mode).total
    ensures mode != SelectedMode ==> TallyOf(files, benchmark, mode).halfWins % 2 == 0
    decreases |files|
  {
    if files != [] {
      var prev := files[..|files| - 1];
      TallyBounds(prev, benchmark, mode);
      assert TallyOf(files, benchmark, mode)
               == Count(TallyOf(prev, benchmark, mode), RecordPoints(files[|files| - 1], benchmark, mode));
    }
  }

  /** Taking one element out of a sequence takes it out of its multiset. */
  lemma RemoveAt<T>(s: seq<T>, j: nat)
    requires j < |s|
    ensures s == s[..j] + [s[j]] + s[j + 1..]
    ensures multiset(s[..j] + s[j + 1..]) == multiset(s) - multiset{s[j]}
  {
    assert s == s[..j] + [s[j]] + s[j + 1..];
    assert multiset(s) == multiset(s[..j]) + multiset{s[j]} + multiset(s[j + 1..]);
  }

  /** The tally does not depend on the order in which the directory listing
      yields the files. */
  lemma {:induction false} TallyIgnoresOrder(a: seq<ResultFile>, b: seq<ResultFile>, benchmark: map<string, Record>, mode: string)
    requires multiset(a) == multiset(b)
    ensures TallyOf(a, benchmark, mode) == TallyOf(b, benchmark, mode)
    decreases |a|
  {
    if a == [] {
      assert |b| == |multiset(b)| == 0;
    } else {
      var x := a[|a| - 1];
      var a' := a[..|a| - 1];
      RemoveAt(a, |a| - 1);
      assert x in multiset(b);
      var j :| 0 <= j < |b| && b[j] == x;
      var b' := b[..j] + b[j + 1..];
      RemoveAt(b, j);
      TallyIgnoresOrder(a', b', benchmark, mode);
      InsertRecord(b[..j], x, b[j + 1..], benchmark, mode);
    }
  }

  // ---------------------------------------------------------------------
  // The scoring loop and the win rate

  /** Reads the result files in listing order, dropping the ones that cannot
      be scored and accumulating half points and the number compared. */
  method LoadData(files: seq<ResultFile>, benchmark: map<string, Record>, mode: string)
    returns (halfWins: nat, total: nat)
    ensures Tally(halfWins, total) == TallyOf(files, benchmark, mode)
    ensures halfWins <= 2 * total
    ensures mode != SelectedMode ==> halfWins % 2 == 0
  {
    halfWins, total := 0, 0;
    var i := 0;
    while i < |files|
      invariant 0 <= i <= |files|
      invariant Tally(halfWins, total) == TallyOf(files[..i], benchmark, mode)
    {
      assert files[..i + 1][..i] == files[..i];
      match files[i] {
        case Unparsable =>
        case Parsed(rec) =>
          if "qid" in rec && rec["qid"] in benchmark && JudgeResponseKey in rec {
            var judge := JudgeSegment(rec[JudgeResponseKey]);
            if Contains(judge, CandidateWinsToken) {
              halfWins := halfWins + 2;
            } else if Contains(judge, TieToken) {
              if mode == SelectedMode {
                halfWins := halfWins + 1;
              }
            }
            total := total + 1;
          }
      }
      i := i + 1;
    }
    assert files[..|files|] == files;
    TallyBounds(files, benchmark, mode);
  }

  /** The win rate reported for a tally, guarded against an empty run. */
  function WinRate(halfWins: nat, total: nat): (rate: real)
    ensures total == 0 ==> rate == 0.0
    ensures total > 0 ==> rate * (total as real) == (halfWins as real) / 2.0
  {
    if total > 0 then ((halfWins as real) / 2.0) / (total as real) else 0.0
  }

  /** A tally whose wins do not exceed its total has a rate between 0 and 1. */
  lemma WinRateInUnitInterval(halfWins: nat, total: nat)
    requires halfWins <= 2 * total
    ensures 0.0 <= WinRate(halfWins, total) <= 1.0
  {
    if total > 0 {
      var w, t, r := (halfWins as real) / 2.0, total as real, WinRate(halfWins, total);
      assert r * t == w && 0.0 <= w <= t;
      assert (1.0 - r) * t == t - w;
    }
  }
}
