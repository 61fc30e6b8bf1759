/** Substring search on strings, as Python's `in` operator performs it, and
    the last piece of Python's `str.split`. */
module Text {
  import opened Common

  /** `pat` occurs in `s` starting at index `i`. */
  ghost predicate OccursAt(s: string, pat: string, i: int) {
    0 <= i && i + |pat| <= |s| && s[i..i + |pat|] == pat
  }

  /** Python's `pat in s`: scan `s` from the left for a copy of `pat`. */
  function Contains(s: string, pat: string): bool
    decreases |s|
  {
    if |s| < |pat| then false
    else if s[..|pat|] == pat then true
    else Contains(s[1..], pat)
  }

  /** An occurrence in a suffix of `s` is an occurrence in `s`, shifted. */
  lemma OccursShift(s: string, pat: string, k: nat, i: int)
    requires k <= |s|
    ensures OccursAt(s[k..], pat, i) <==> 0 <= i && OccursAt(s, pat, i + k)
  {
    if 0 <= i && i + |pat| <= |s| - k {
      assert s[k..][i..i + |pat|] == s[i + k..i + k + |pat|];
    }
  }

  /** The scan finds `pat` exactly when `pat` occurs somewhere in `s`. */
  lemma {:induction false} ContainsIffOccurs(s: string, pat: string)
    ensures Contains(s, pat) <==> exists i :: OccursAt(s, pat, i)
    decreases |s|
  {
    if |s| < |pat| {
    } else if s[..|pat|] == pat {
      assert OccursAt(s, pat, 0);
    } else {
      ContainsIffOccurs(s[1..], pat);
      if Contains(s[1..], pat) {
        var j :| OccursAt(s[1..], pat, j);
        OccursShift(s, pat, 1, j);
      }
      if exists i :: OccursAt(s, pat, i) {
        var i :| OccursAt(s, pat, i);
        OccursShift(s, pat, 1, i - 1);
      }
    }
  }

  // ---------------------------------------------------------------------
  // The last piece of a split

  /** The first character of `sep` appears nowhere else in it, so two copies
      of `sep` can never overlap. */
  ghost predicate LeadsUniquely(sep: string) {
    |sep| > 0 && forall i :: 0 < i < |sep| ==> sep[i] != sep[0]
  }

  /** The last piece of Python's `s.split(sep)` when `sep` occurs in `s`, and
      None when it does not. The split scans from the left and never lets two
      copies of `sep` overlap. */
  function AfterLast(s: string, sep: string): Option<string>
    requires |sep| > 0
    decreases |s|
  {
    if |s| < |sep| then None
    else if s[..|sep|] == sep then
      match AfterLast(s[|sep|..], sep)
      case Some(t) => Some(t)
      case None => Some(s[|sep|..])
    else AfterLast(s[1..], sep)
  }

  /** `sep` occurs in `s` at index `k` and at no later index. */
  ghost predicate IsLastOccurrence(s: string, sep: string, k: int) {
    OccursAt(s, sep, k) && forall i :: OccursAt(s, sep, i) ==> i <= k
  }

  /** `r` is what follows the last occurrence of `sep` in `s`, or None when
      `sep` does not occur in `s` at all. */
  ghost predicate FollowsLast(s: string, sep: string, r: Option<string>) {
    match r
    case None => forall i :: !OccursAt(s, sep, i)
    case Some(t) =>
      && |t| + |sep| <= |s|
      && s[|s| - |t|..] == t
      && IsLastOccurrence(s, sep, |s| - |t| - |sep|)
  }

  /** A copy of `sep` at index `k` of `s` hides no other copy inside it. */
  lemma NoOverlapInside(s: string, sep: string, k: nat)
    requires LeadsUniquely(sep)
    requires k + |sep| <= |s| && s[k..k + |sep|] == sep
    ensures forall i :: k < i < k + |sep| ==> !OccursAt(s, sep, i)
  {
    forall i | k < i < k + |sep|
      ensures !OccursAt(s, sep, i)
    {
      assert s[k..k + |sep|][i - k] == s[i];
      if i + |sep| <= |s| {
        assert s[i..i + |sep|][0] == s[i];
      }
    }
  }

  /** Behind a copy of `sep` at the front of `s`, every other occurrence lies
      in the rest of `s`. */
  lemma OccurrencesAfterLeading(s: string, sep: string)
    requires LeadsUniquely(sep)
    requires |sep| <= |s| && s[..|sep|] == sep
    ensures OccursAt(s, sep, 0)
    ensures forall i :: OccursAt(s, sep, i) && i != 0 ==>
              |sep| <= i && OccursAt(s[|sep|..], sep, i - |sep|)
  {
    assert s[0..|sep|] == s[..|sep|];
    NoOverlapInside(s, sep, 0);
    OccurrencesInSuffix(s, sep, |sep|);
  }

  /** A leading `sep` followed by text whose last `sep` is known: the last
      `sep` of the whole is that one. */
  lemma LeadingSepThenLast(s: string, sep: string, t: string)
    requires LeadsUniquely(sep)
    requires |sep| <= |s| && s[..|sep|] == sep
    requires FollowsLast(s[|sep|..], sep, Some(t))
    ensures FollowsLast(s, sep, Some(t))
  {
    var rest := s[|sep|..];
    var last := |rest| - |t| - |sep|;
    OccurrencesAfterLeading(s, sep);
    OccursShift(s, sep, |sep|, last);
    assert s[|s| - |t|..] == rest[|rest| - |t|..];
    assert IsLastOccurrence(s, sep, last + |sep|);
  }

  /** A leading `sep` followed by text without `sep`: the text is the last
      piece. */
  lemma LeadingSepOnly(s: string, sep: string)
    requires LeadsUniquely(sep)
    requires |sep| <= |s| && s[..|sep|] == sep
    requires FollowsLast(s[|sep|..], sep, None)
    ensures FollowsLast(s, sep, Some(s[|sep|..]))
  {
    OccurrencesAfterLeading(s, sep);
    assert IsLastOccurrence(s, sep, 0);
  }

  /** The step of the scan that consumes a copy of `sep` at the front. */
  lemma LeadingSepStep(s: string, sep: string)
    requires LeadsUniquely(sep)
    requires |sep| <= |s| && s[..|sep|] == sep
    requires FollowsLast(s[|sep|..], sep, AfterLast(s[|sep|..], sep))
    ensures FollowsLast(s, sep, AfterLast(s, sep))
  {
    match AfterLast(s[|sep|..], sep)
    case Some(t) =>
      LeadingSepThenLast(s, sep, t);
    case None =>
      LeadingSepOnly(s, sep);
  }

  /** Without `sep` at the front, the occurrences in `s` are those in `s[1..]`,
      one place further on. */
  lemma OccurrencesAfterFirstChar(s: string, sep: string)
    requires 1 <= |s|
    ensures forall i :: OccursAt(s, sep, i) && i != 0 ==> OccursAt(s[1..], sep, i - 1)
    ensures forall i :: OccursAt(s[1..], sep, i) ==> OccursAt(s, sep, i + 1)
  {
    forall i | OccursAt(s, sep, i) && i != 0
      ensures OccursAt(s[1..], sep, i - 1)
    {
      OccursShift(s, sep, 1, i - 1);
    }
    forall i | OccursAt(s[1..], sep, i)
      ensures OccursAt(s, sep, i + 1)
    {
      OccursShift(s, sep, 1, i);
    }
  }

  /** Prepending a character that starts no `sep` keeps the last piece. */
  lemma SkipCharKeeps(s: string, sep: string, r: Option<string>)
    requires 1 <= |s| && !OccursAt(s, sep, 0)
    requires FollowsLast(s[1..], sep, r)
    ensures FollowsLast(s, sep, r)
  {
    OccurrencesAfterFirstChar(s, sep);
    match r
    case Some(t) =>
      var last := |s| - 1 - |t| - |sep|;
      assert s[|s| - |t|..] == s[1..][|s| - 1 - |t|..];
      assert IsLastOccurrence(s, sep, last + 1);
    case None =>
  }

  /** The step of the scan that skips a character that starts no `sep`. */
  lemma SkipCharStep(s: string, sep: string)
    requires |sep| > 0
    requires |sep| <= |s| && s[..|sep|] != sep
    requires FollowsLast(s[1..], sep, AfterLast(s[1..], sep))
    ensures FollowsLast(s, sep, AfterLast(s, sep))
  {
    assert !OccursAt(s, sep, 0);
    SkipCharKeeps(s, sep, AfterLast(s[1..], sep));
  }

  /** When `sep` occurs, the last piece of the split is what follows its last
      occurrence; when it does not, there is no last piece to take. */
  lemma {:induction false} AfterLastIsLastOccurrence(s: string, sep: string)
    requires LeadsUniquely(sep)
    ensures FollowsLast(s, sep, AfterLast(s, sep))
    decreases |s|
  {
    if |s| < |sep| {
    } else if s[..|sep|] == sep {
      AfterLastIsLastOccurrence(s[|sep|..], sep);
      LeadingSepStep(s, sep);
    } else {
      AfterLastIsLastOccurrence(s[1..], sep);
      SkipCharStep(s, sep);
    }
  }

  /** A copy of `sep` followed by a tail without `sep` is the last copy. */
  lemma LastSepBeforeTail(prefix: string, sep: string, tail: string)
    requires LeadsUniquely(sep)
    requires forall i :: !OccursAt(tail, sep, i)
    ensures IsLastOccurrence(prefix + sep + tail, sep, |prefix|)
  {
    var s := prefix + sep + tail;
    var k := |prefix|;
    assert s[k..][..|sep|] == sep;
    assert s[k + |sep|..] == tail;
    assert s[k..k + |sep|] == sep;
    OccursShift(s, sep, k, 0);
    NoOverlapInside(s, sep, k);
    OccurrencesInSuffix(s, sep, k + |sep|);
  }

  /** Every occurrence at or after index `n` is an occurrence in `s[n..]`. */
  lemma OccurrencesInSuffix(s: string, sep: string, n: nat)
    requires n <= |s|
    ensures forall i :: OccursAt(s, sep, i) && n <= i ==> OccursAt(s[n..], sep, i - n)
  {
    forall i | OccursAt(s, sep, i) && n <= i
      ensures OccursAt(s[n..], sep, i - n)
    {
      OccursShift(s, sep, n, i - n);
    }
  }

  /** The last piece of splitting `prefix + sep + tail` on `sep`, when `tail`
      holds no `sep`, is exactly `tail`. */
  lemma AfterLastOfSepAndTail(prefix: string, sep: string, tail: string)
    requires LeadsUniquely(sep)
    requires forall i :: !OccursAt(tail, sep, i)
    ensures AfterLast(prefix + sep + tail, sep) == Some(tail)
  {
    var s := prefix + sep + tail;
    LastSepBeforeTail(prefix, sep, tail);
    AfterLastIsLastOccurrence(s, sep);
    var t := AfterLast(s, sep).value;
    assert |s| - |t| - |sep| == |prefix|;
    assert s[|s| - |t|..] == tail;
  }
}
