/** Question ids as the pattern `\d+|P\d+` captures them: a number for a
    regular question, `P` and a number for a preview question. The same
    group appears in the score lines of the scoring script and in the
    question and solution headers. */
module QuestionIds {
  import opened Wrappers
  import opened Strings

  predicate IsQuestionId(id: string) {
    IsDigits(id) || (|id| > 1 && id[0] == 'P' && IsDigits(id[1..]))
  }

  /** `(\d+|P\d+)` at position `p`: the end of the id. The first
      alternative fails at once on a `P`, and a shorter digit run could
      only be followed by another digit, so no backtracking is needed. */
  function IdRun(t: string, p: nat): (r: Option<nat>)
    requires p <= |t|
    ensures r.Some? ==> p < r.value <= |t| && IsQuestionId(t[p..r.value])
    ensures r.Some? ==> r.value < |t| ==> !IsDigit(t[r.value])
  {
    var start := if p < |t| && t[p] == 'P' then p + 1 else p;
    match NonEmptyRun(t, start, Digit)
    case None => None
    case Some(e) =>
      RunDigits(t, start, e);
      assert start == p + 1 ==> t[p..e][1..] == t[start..e];
      Some(e)
  }

  /** Completeness of `IdRun`: an id followed by a non-digit is found
      exactly. */
  lemma IdRunComplete(t: string, p: nat, e: nat)
    requires p < e <= |t| && IsQuestionId(t[p..e])
    requires e < |t| ==> !IsDigit(t[e])
    ensures IdRun(t, p) == Some(e)
  {
    assert t[p..e][0] == t[p];
    if t[p] == 'P' {
      assert t[p..e][1..] == t[p + 1..e];
      AllDigitsRun(t, p + 1, e);
      NonEmptyRunStops(t, p + 1, e, Digit);
    } else {
      AllDigitsRun(t, p, e);
      NonEmptyRunStops(t, p, e, Digit);
    }
  }
}
