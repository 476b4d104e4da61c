/** The scoring pipeline of `web/server.py`: `run_scoring_script` turns the
    captured standard output of `scripts/ckad-score.sh` into a score result.
    The script is never run: its outcome is an input of `RunScoring`. */
module ScoreOutput {
  import opened Wrappers
  import opened Strings
  import opened Numbers
  import opened QuestionIds

  /** One graded question, from a line `Q<id> <scored>/<possible> <topic>`. */
  datatype ScoreItem = ScoreItem(id: string, score: nat, maxScore: nat, topic: string, passed: bool)

  /** The three numbers of a `TOTAL SCORE: <a> / <b> (<c>%)` summary. */
  datatype Total = Total(score: nat, maxScore: nat, percentage: nat)

  /** How the scoring script invocation ended. */
  datatype ScoringRun =
    | ScriptMissing             // `scripts/ckad-score.sh` does not exist
    | TimedOut                  // the 60 second timeout expired
    | Crashed(message: string)  // any other exception, with `str(e)`
    | Completed(stdout: string) // the script ran; its captured stdout

  /** The dictionary `run_scoring_script` returns. `error` is present only
      on failure, `output` only on success. */
  datatype ScoreResult = ScoreResult(
    success: bool,
    error: Option<string>,
    questions: seq<ScoreItem>,
    totalScore: nat,
    maxScore: nat,
    percentage: nat,
    passed: bool,
    output: Option<string>)

  /** The pass mark, hard-coded in the source (not read from the exam's
      configuration). */
  const PassPercentage := 66

  /** Where the groups of a matched score line begin and end: the id is
      `t[1..idEnd]`, the scored points `t[scoreStart..slash]`, the possible
      points `t[slash + 1..maxEnd]` and the topic group `t[topicStart..]`. */
  datatype ScoreLineCut = ScoreLineCut(idEnd: nat, scoreStart: nat, slash: nat, maxEnd: nat, topicStart: nat)

  /** The shape the pattern `^Q(\d+|P\d+)\s+(\d+)/(\d+)\s+(.+)$` demands. */
  predicate WellCut(t: string, c: ScoreLineCut) {
    && |t| > 1 && t[0] == 'Q'
    && 1 < c.idEnd < c.scoreStart < c.slash && c.slash + 1 < c.maxEnd < c.topicStart < |t|
    && IsQuestionId(t[1..c.idEnd])
    && Run(t, c.idEnd, c.scoreStart, Whitespace)
    && Run(t, c.scoreStart, c.slash, Digit)
    && t[c.slash] == '/'
    && Run(t, c.slash + 1, c.maxEnd, Digit)
    && Run(t, c.maxEnd, c.topicStart, Whitespace)
    && Run(t, c.topicStart, |t|, NoneOf("\n"))
  }

  /** The tail `\s+(.+)$` after the possible points, from `maxEnd`: where
      the topic group starts. The greedy `\s+` gives back one character
      when `.+` would otherwise be empty. */
  function TopicStart(t: string, maxEnd: nat): (r: Option<nat>)
    requires maxEnd <= |t|
    ensures r.Some? ==> maxEnd < r.value < |t|
    ensures r.Some? ==> Run(t, maxEnd, r.value, Whitespace) && Run(t, r.value, |t|, NoneOf("\n"))
  {
    if maxEnd + 2 > |t| || !IsSpace(t[maxEnd]) then None
    else
      var w := SkipWhile(t, maxEnd, Whitespace);
      var topicStart := if w < |t| then w else |t| - 1;
      if SkipWhile(t, topicStart, NoneOf("\n")) < |t| then None
      else
        RunSplit(t, maxEnd, topicStart, w, Whitespace);
        Some(topicStart)
  }

  /** Completeness of `TopicStart`: a tail of the right shape is accepted,
      with the topic group starting no further left. */
  lemma TopicStartComplete(t: string, maxEnd: nat, start: nat)
    requires maxEnd < start < |t|
    requires Run(t, maxEnd, start, Whitespace) && Run(t, start, |t|, NoneOf("\n"))
    ensures TopicStart(t, maxEnd).Some?
    ensures start <= TopicStart(t, maxEnd).value
  {
    assert In(Whitespace, t[maxEnd]);
    SkipWhileCovers(t, maxEnd, start, Whitespace);
    var w := SkipWhile(t, maxEnd, Whitespace);
    var topicStart := if w < |t| then w else |t| - 1;
    RunSplit(t, start, topicStart, |t|, NoneOf("\n"));
    SkipWhileCovers(t, topicStart, |t|, NoneOf("\n"));
  }

  /** `(\d+)/(\d+)` from `i`: the position of the slash and the end of the
      possible points. */
  function PointsAt(t: string, i: nat): (r: Option<(nat, nat)>)
    requires i <= |t|
    ensures r.Some? ==> i < r.value.0 && r.value.0 + 1 < r.value.1 <= |t|
    ensures r.Some? ==> Run(t, i, r.value.0, Digit) && t[r.value.0] == '/'
    ensures r.Some? ==> Run(t, r.value.0 + 1, r.value.1, Digit)
    ensures r.Some? ==> r.value.1 < |t| ==> !IsDigit(t[r.value.1])
  {
    match NonEmptyRun(t, i, Digit)
    case None => None
    case Some(slash) =>
      if slash == |t| || t[slash] != '/' then None
      else
        match NonEmptyRun(t, slash + 1, Digit)
        case None => None
        case Some(maxEnd) => Some((slash, maxEnd))
  }

  /** Completeness of `PointsAt`: two digit runs around a slash, followed
      by a non-digit, are found exactly there. */
  lemma PointsAtComplete(t: string, i: nat, slash: nat, maxEnd: nat)
    requires i < slash && slash + 1 < maxEnd < |t|
    requires Run(t, i, slash, Digit) && t[slash] == '/' && Run(t, slash + 1, maxEnd, Digit)
    requires !IsDigit(t[maxEnd])
    ensures PointsAt(t, i) == Some((slash, maxEnd))
  {
    SkipWhileStops(t, i, slash, Digit);
    assert NonEmptyRun(t, i, Digit) == Some(slash);
    SkipWhileStops(t, slash + 1, maxEnd, Digit);
    assert NonEmptyRun(t, slash + 1, Digit) == Some(maxEnd);
  }

  /** `Q(\d+|P\d+)` at the start of `t`: the end of the id group. */
  function IdEnd(t: string): (r: Option<nat>)
    ensures r.Some? ==> |t| > 1 && t[0] == 'Q' && 1 < r.value <= |t| && IsQuestionId(t[1..r.value])
    ensures r.Some? ==> r.value < |t| ==> !IsDigit(t[r.value])
  {
    if |t| < 2 || t[0] != 'Q' then None else IdRun(t, 1)
  }

  /** `re.match(r'^Q(\d+|P\d+)\s+(\d+)/(\d+)\s+(.+)$', t)` on a stripped
      line `t`. Every quantifier of the pattern is greedy, and no
      backtracking could rescue a failed attempt except in the tail
      (see `TopicStart`). */
  function CutScoreLine(t: string): (r: Option<ScoreLineCut>)
    ensures r.Some? ==> WellCut(t, r.value)
  {
    match IdEnd(t)
    case None => None
    case Some(idEnd) =>
      match NonEmptyRun(t, idEnd, Whitespace)
      case None => None
      case Some(scoreStart) =>
        match PointsAt(t, scoreStart)
        case None => None
        case Some((slash, maxEnd)) =>
          match TopicStart(t, maxEnd)
          case None => None
          case Some(topicStart) => Some(ScoreLineCut(idEnd, scoreStart, slash, maxEnd, topicStart))
  }

  /** Completeness of `CutScoreLine`: every line of the pattern's shape is
      matched, and the match splits it at the same places; only the start
      of the topic group may lie further right, past whitespace. */
  lemma CutScoreLineComplete(t: string, c: ScoreLineCut)
    requires WellCut(t, c)
    ensures CutScoreLine(t).Some?
    ensures var d := CutScoreLine(t).value;
      && d.idEnd == c.idEnd && d.scoreStart == c.scoreStart
      && d.slash == c.slash && d.maxEnd == c.maxEnd
      && c.topicStart <= d.topicStart && Run(t, c.maxEnd, d.topicStart, Whitespace)
  {
    assert In(Whitespace, t[c.idEnd]) && In(Digit, t[c.scoreStart]) && In(Whitespace, t[c.maxEnd]);
    IdRunComplete(t, 1, c.idEnd);
    SkipWhileStops(t, c.idEnd, c.scoreStart, Whitespace);
    PointsAtComplete(t, c.scoreStart, c.slash, c.maxEnd);
    TopicStartComplete(t, c.maxEnd, c.topicStart);
  }

  /** The value of the digit run `t[i..j]`. */
  function DigitsAt(t: string, i: nat, j: nat): nat
    requires i <= j <= |t| && Run(t, i, j, Digit)
  {
    RunDigits(t, i, j);
    DigitsValue(t[i..j])
  }

  /** Reading one more digit: the value so far, times ten, plus the digit. */
  lemma DigitsAtStep(t: string, i: nat, j: nat)
    requires i <= j < |t| && Run(t, i, j, Digit) && IsDigit(t[j])
    ensures Run(t, i, j + 1, Digit)
    ensures DigitsAt(t, i, j + 1) == DigitsAt(t, i, j) * 10 + DigitValue(t[j])
  {
    RunSplit(t, i, j, j + 1, Digit);
    assert t[i..j + 1][..j - i] == t[i..j];
  }

  /** The item a matched score line spells out (lines 83-95): the topic
      group is stripped, and the question passed exactly when it scored all
      its points. */
  function ItemOf(t: string, c: ScoreLineCut): (item: ScoreItem)
    requires WellCut(t, c)
    ensures IsQuestionId(item.id)
    ensures item.passed == (item.score == item.maxScore)
    ensures |item.topic| > 0 ==> !IsSpace(item.topic[0]) && !IsSpace(item.topic[|item.topic| - 1])
  {
    var scored := DigitsAt(t, c.scoreStart, c.slash);
    var possible := DigitsAt(t, c.slash + 1, c.maxEnd);
    var id := t[1..c.idEnd];
    ScoreItem(id, scored, possible, Strip(t[c.topicStart..]), scored == possible)
  }

  /** The item of a stripped output line, if it is a score line: the item
      of the cut the scanner finds. */
  function MatchScoreLine(t: string): (r: Option<ScoreItem>)
    ensures r.Some? <==> CutScoreLine(t).Some?
    ensures r.Some? ==> r.value == ItemOf(t, CutScoreLine(t).value)
  {
    match CutScoreLine(t)
    case None => None
    case Some(c) => Some(ItemOf(t, c))
  }

  /** Soundness of `MatchScoreLine`: an item is only ever the one the
      groups of a cut of the pattern's shape spell out. */
  lemma MatchScoreLineSound(t: string)
    ensures MatchScoreLine(t).Some? ==> exists c :: WellCut(t, c) && MatchScoreLine(t).value == ItemOf(t, c)
  {
  }

  /** Completeness of `MatchScoreLine`: a line of the pattern's shape yields
      the item its groups spell out, whichever way the shape is cut. */
  lemma MatchScoreLineComplete(t: string, c: ScoreLineCut)
    requires WellCut(t, c)
    ensures MatchScoreLine(t) == Some(ItemOf(t, c))
  {
    CutScoreLineComplete(t, c);
    var d := CutScoreLine(t).value;
    RunSplit(t, c.maxEnd, c.topicStart, d.topicStart, Whitespace);
    StripSuffixSkips(t, c.topicStart, d.topicStart);
    ItemOfSameGroups(t, c, d);
  }

  /** Both directions: a line is a score line exactly when it has the
      pattern's shape. */
  lemma MatchScoreLineIff(t: string)
    ensures MatchScoreLine(t).Some? <==> exists c :: WellCut(t, c)
  {
    if c :| WellCut(t, c) {
      MatchScoreLineComplete(t, c);
    }
  }

  /** Two cuts that agree on every group but where the topic group starts,
      and whose topics strip alike, give the same item. */
  lemma ItemOfSameGroups(t: string, c: ScoreLineCut, d: ScoreLineCut)
    requires WellCut(t, c) && WellCut(t, d)
    requires c.idEnd == d.idEnd && c.scoreStart == d.scoreStart && c.slash == d.slash && c.maxEnd == d.maxEnd
    requires Strip(t[c.topicStart..]) == Strip(t[d.topicStart..])
    ensures ItemOf(t, c) == ItemOf(t, d)
  {
  }

  /** What every parsed item satisfies: a well-formed id, and `passed`
      exactly when all points were scored. */
  predicate ValidItem(item: ScoreItem) {
    IsQuestionId(item.id) && item.passed == (item.score == item.maxScore)
  }

  /** The item of one output line, stripped first, if it is a score line. */
  function LineItems(line: string): (r: seq<ScoreItem>)
    ensures |r| <= 1
    ensures forall item :: item in r ==> ValidItem(item)
  {
    match MatchScoreLine(Strip(line))
    case Some(item) => [item]
    case None => []
  }

  /** The items of the output's lines, in line order (lines 82-95). */
  function ScoreItems(lines: seq<string>): (r: seq<ScoreItem>)
    ensures |r| <= |lines|
    ensures forall item :: item in r ==> ValidItem(item)
  {
    if |lines| == 0 then [] else LineItems(lines[0]) + ScoreItems(lines[1..])
  }

  function SumScores(items: seq<ScoreItem>): nat {
    if |items| == 0 then 0 else items[0].score + SumScores(items[1..])
  }

  function SumMaxScores(items: seq<ScoreItem>): nat {
    if |items| == 0 then 0 else items[0].maxScore + SumMaxScores(items[1..])
  }

  /** Lines are scored independently: the items of two blocks of lines are
      the items of the first block followed by those of the second. */
  lemma {:induction false} ScoreItemsAppend(a: seq<string>, b: seq<string>)
    ensures ScoreItems(a + b) == ScoreItems(a) + ScoreItems(b)
    decreases |a|
  {
    if |a| == 0 {
      assert a + b == b;
    } else {
      var x := a[0];
      var xs := a[1..];
      assert a + b == [x] + (xs + b);
      ScoreItemsAppend(xs, b);
      assert ScoreItems(a + b) == LineItems(x) + ScoreItems(xs + b);
    }
  }

  /** A question scored in full counts its points on both sides. */
  predicate AllPassed(items: seq<ScoreItem>) {
    forall k :: 0 <= k < |items| ==> items[k].passed
  }

  /** When every valid item passed, the items scored every possible point. */
  lemma {:induction false} AllPassedSums(items: seq<ScoreItem>)
    requires forall item :: item in items ==> ValidItem(item)
    requires AllPassed(items)
    ensures SumScores(items) == SumMaxScores(items)
    decreases |items|
  {
    if |items| > 0 {
      assert items[0] in items;
      assert forall item :: item in items[1..] ==> item in items;
      assert AllPassed(items[1..]) by {
        forall k | 0 <= k < |items| - 1 ensures items[1..][k].passed {
          assert items[1..][k] == items[k + 1];
        }
      }
      AllPassedSums(items[1..]);
    }
  }

  const TotalLabel: string := "TOTAL SCORE:"

  /** A number found before a closing character: its digits are
      `s[start..end]` and the closing character stands at `at`. */
  datatype Span = Span(start: nat, end: nat, at: nat)

  /** `\s*(\d+)\s*` then the character `close`, from `i`, laid out as `n`
      says. */
  predicate NumberShape(s: string, i: nat, n: Span, close: char) {
    && i <= n.start < n.end <= n.at < |s| && s[n.at] == close
    && Run(s, i, n.start, Whitespace) && Run(s, n.start, n.end, Digit) && Run(s, n.end, n.at, Whitespace)
  }

  /** Finds `\s*(\d+)\s*` followed by `close` from position `i`. */
  function NumberBefore(s: string, i: nat, close: char): (r: Option<Span>)
    requires i <= |s|
    ensures r.Some? ==> NumberShape(s, i, r.value, close)
  {
    var start := SkipWhile(s, i, Whitespace);
    match NonEmptyRun(s, start, Digit)
    case None => None
    case Some(end) =>
      var c := SkipWhile(s, end, Whitespace);
      if c < |s| && s[c] == close then Some(Span(start, end, c)) else None
  }

  /** Completeness of `NumberBefore` for a closing character that is
      neither whitespace nor a digit: the runs are found exactly where they
      are. */
  lemma NumberBeforeComplete(s: string, i: nat, n: Span, close: char)
    requires NumberShape(s, i, n, close) && !IsSpace(close) && !IsDigit(close)
    ensures NumberBefore(s, i, close) == Some(n)
  {
    assert In(Digit, s[n.start]);
    SkipWhileStops(s, i, n.start, Whitespace);
    SkipWhileStops(s, n.start, n.end, Digit);
    assert NonEmptyRun(s, n.start, Digit) == Some(n.end);
    SkipWhileStops(s, n.end, n.at, Whitespace);
  }

  /** The label `TOTAL SCORE:` occurs at `p`. */
  predicate LabelAt(s: string, p: nat) {
    p + 12 <= |s| && s[p..p + 12] == TotalLabel
  }

  /** Where the groups of a matched summary lie: the total score is
      `score`, followed by the slash; the possible score is `max`, followed
      by the parenthesis; the percentage is `s[max.at + 1..percentEnd]`. */
  datatype TotalCut = TotalCut(score: Span, max: Span, percentEnd: nat)

  // `(\d+)%\)` from `j`, the digits being `s[j..e]`.
  predicate PercentShape(s: string, j: nat, e: nat) {
    j < e && e + 2 <= |s| && Run(s, j, e, Digit) && s[e] == '%' && s[e + 1] == ')'
  }

  // The shape the summary pattern `TOTAL SCORE:\s*(\d+)\s*/\s*(\d+)\s*\((\d+)%\)`
  // demands after its label, from `i`. No whitespace may precede the digits
  // of the percentage or follow them.
  predicate WellTotalFrom(s: string, i: nat, k: TotalCut) {
    && NumberShape(s, i, k.score, '/')
    && NumberShape(s, k.score.at + 1, k.max, '(')
    && PercentShape(s, k.max.at + 1, k.percentEnd)
  }

  /** The whole summary pattern at position `p`. */
  predicate WellTotal(s: string, p: nat, k: TotalCut) {
    LabelAt(s, p) && WellTotalFrom(s, p + 12, k)
  }

  /** `(\d+)%\)` from `j`: the end of the digits. */
  function PercentAt(s: string, j: nat): (r: Option<nat>)
    requires j <= |s|
    ensures r.Some? ==> PercentShape(s, j, r.value)
  {
    match NonEmptyRun(s, j, Digit)
    case None => None
    case Some(e) => if e + 2 <= |s| && s[e] == '%' && s[e + 1] == ')' then Some(e) else None
  }

  /** Completeness of `PercentAt`. */
  lemma PercentAtComplete(s: string, j: nat, e: nat)
    requires PercentShape(s, j, e)
    ensures PercentAt(s, j) == Some(e)
  {
    SkipWhileStops(s, j, e, Digit);
    assert NonEmptyRun(s, j, Digit) == Some(e);
  }

  /** The summary pattern after its label, from `i`. */
  function TotalFrom(s: string, i: nat): (r: Option<TotalCut>)
    ensures r.Some? ==> WellTotalFrom(s, i, r.value)
  {
    if i > |s| then None
    else
      match NumberBefore(s, i, '/')
      case None => None
      case Some(score) =>
        match NumberBefore(s, score.at + 1, '(')
        case None => None
        case Some(max) =>
          match PercentAt(s, max.at + 1)
          case None => None
          case Some(e) => Some(TotalCut(score, max, e))
  }

  /** Completeness of `TotalFrom`: the groups are found exactly where the
      shape puts them. */
  lemma TotalFromComplete(s: string, i: nat, k: TotalCut)
    requires WellTotalFrom(s, i, k)
    ensures TotalFrom(s, i) == Some(k)
  {
    NumberBeforeComplete(s, i, k.score, '/');
    NumberBeforeComplete(s, k.score.at + 1, k.max, '(');
    PercentAtComplete(s, k.max.at + 1, k.percentEnd);
    TotalFromOfParts(s, i, k);
  }

  lemma TotalFromOfParts(s: string, i: nat, k: TotalCut)
    requires i <= |s| && NumberBefore(s, i, '/') == Some(k.score)
    requires k.score.at < |s| && NumberBefore(s, k.score.at + 1, '(') == Some(k.max)
    requires k.max.at < |s| && PercentAt(s, k.max.at + 1) == Some(k.percentEnd)
    ensures TotalFrom(s, i) == Some(k)
  {
  }

  /** The summary pattern tried at position `p`, as `re.search` does at
      each position in turn. */
  function CutTotal(s: string, p: nat): (r: Option<TotalCut>)
    ensures r.Some? ==> WellTotal(s, p, r.value)
  {
    if LabelAt(s, p) then TotalFrom(s, p + 12) else None
  }

  /** Completeness of `CutTotal`: a summary of the pattern's shape is
      matched at `p`, cut exactly where its shape puts the groups. */
  lemma CutTotalComplete(s: string, p: nat, k: TotalCut)
    requires WellTotal(s, p, k)
    ensures CutTotal(s, p) == Some(k)
  {
    TotalFromComplete(s, p + 12, k);
  }

  /** The numbers the summary at `p` captures, if it matches there: they
      are only ever the values of the three digit groups of a summary of
      the pattern's shape starting at `p` (`TotalAtComplete` gives the
      converse). */
  function TotalAt(s: string, p: nat): (r: Option<Total>)
    ensures r.Some? ==> exists k :: WellTotal(s, p, k) && r.value == TotalOfCut(s, p, k)
  {
    match CutTotal(s, p)
    case None => None
    case Some(k) => Some(TotalOfCut(s, p, k))
  }

  /** The three numbers a summary's digit groups spell. */
  function TotalOfCut(s: string, p: nat, k: TotalCut): Total
    requires WellTotal(s, p, k)
  {
    Total(DigitsAt(s, k.score.start, k.score.end), DigitsAt(s, k.max.start, k.max.end), DigitsAt(s, k.max.at + 1, k.percentEnd))
  }

  /** Completeness of `TotalAt`: a summary of the pattern's shape at `p`
      yields the values of its digit groups. */
  lemma TotalAtComplete(s: string, p: nat, k: TotalCut)
    requires WellTotal(s, p, k)
    ensures TotalAt(s, p) == Some(TotalOfCut(s, p, k))
  {
    CutTotalComplete(s, p, k);
  }

  /** Both directions: a summary is read at `p` exactly when one of the
      pattern's shape starts there. */
  lemma TotalAtIff(s: string, p: nat)
    ensures TotalAt(s, p).Some? <==> exists k :: WellTotal(s, p, k)
  {
    if k :| WellTotal(s, p, k) {
      TotalAtComplete(s, p, k);
    }
  }

  /** The summary line in the format the scoring script prints (line 100). */
  const ExampleSummary: string := "TOTAL SCORE: 87 / 113 (77%)"

  lemma ExampleSummaryShape()
    ensures WellTotal(ExampleSummary, 0, TotalCut(Span(13, 15, 16), Span(18, 21, 22), 25))
  {
  }

  /** The example summary line is read back as the numbers it shows. */
  lemma TotalOfExample()
    ensures TotalAt(ExampleSummary, 0) == Some(Total(87, 113, 77))
  {
    var s := ExampleSummary;
    var k := TotalCut(Span(13, 15, 16), Span(18, 21, 22), 25);
    ExampleSummaryShape();
    CutTotalComplete(s, 0, k);
    ExampleSummaryNumbers();
  }

  lemma ExampleSummaryNumbers()
    ensures Run(ExampleSummary, 13, 15, Digit) && DigitsAt(ExampleSummary, 13, 15) == 87
    ensures Run(ExampleSummary, 18, 21, Digit) && DigitsAt(ExampleSummary, 18, 21) == 113
    ensures Run(ExampleSummary, 23, 25, Digit) && DigitsAt(ExampleSummary, 23, 25) == 77
  {
    TwoDigits(ExampleSummary, 13, 8, 7);
    TwoDigits(ExampleSummary, 23, 7, 7);
    TwoDigits(ExampleSummary, 18, 1, 1);
    DigitsAtStep(ExampleSummary, 18, 20);
  }

  /** A two-digit number at `i`. */
  lemma TwoDigits(t: string, i: nat, d: nat, e: nat)
    requires i + 2 <= |t| && IsDigit(t[i]) && IsDigit(t[i + 1])
    requires DigitValue(t[i]) == d && DigitValue(t[i + 1]) == e
    ensures Run(t, i, i + 2, Digit) && DigitsAt(t, i, i + 2) == 10 * d + e
  {
    DigitsAtStep(t, i, i);
    DigitsAtStep(t, i, i + 1);
  }

  /** The leftmost position in `lo..hi` at which `f` yields a value, with
      that value. */
  function FirstSome<T>(f: nat -> Option<T>, lo: nat, hi: nat): (r: Option<(nat, T)>)
    requires lo <= hi
    ensures r.Some? ==> lo <= r.value.0 <= hi && f(r.value.0) == Some(r.value.1)
    ensures r.Some? ==> forall q: nat :: lo <= q < r.value.0 ==> f(q).None?
    ensures r.None? ==> forall q: nat :: lo <= q <= hi ==> f(q).None?
    decreases hi - lo
  {
    match f(lo)
    case Some(v) => Some((lo, v))
    case None => if lo == hi then None else FirstSome(f, lo + 1, hi)
  }

  /** `re.search` for the summary: the leftmost position where the pattern
      matches, with the numbers it captures there; `None` when it matches
      nowhere. */
  function FindTotal(s: string): (r: Option<(nat, Total)>)
    ensures r.Some? ==> r.value.0 <= |s| && TotalAt(s, r.value.0) == Some(r.value.1)
    ensures r.Some? ==> forall q: nat :: q < r.value.0 ==> TotalAt(s, q).None?
    ensures r.None? ==> forall q: nat :: q <= |s| ==> TotalAt(s, q).None?
  {
    var f := (p: nat) => TotalAt(s, p);
    assert forall q: nat :: f(q) == TotalAt(s, q);
    FirstSome(f, 0, |s|)
  }

  /** `int(total / max * 100)` when `max > 0`, else 0, computed exactly:
      the largest whole percentage not above the ratio. */
  function FloorPercentage(total: nat, max: nat): (p: nat)
    ensures max == 0 ==> p == 0
    ensures max > 0 ==> p * max <= 100 * total < (p + 1) * max
  {
    if max > 0 then
      var p := (100 * total) / max;
      assert 100 * total == p * max + (100 * total) % max;
      p
    else 0
  }

  /** The floor percentage reaches a mark `q` exactly when the ratio does. */
  lemma FloorPercentageReaches(total: nat, max: nat, q: nat)
    requires max > 0
    ensures FloorPercentage(total, max) >= q <==> 100 * total >= q * max
  {
    var p := FloorPercentage(total, max);
    if p >= q {
      MulMono(q, p, max);
    } else {
      MulMono(p + 1, q, max);
    }
  }

  lemma MulMono(a: nat, b: nat, m: nat)
    requires a <= b
    ensures a * m <= b * m
  {
    assert b * m == a * m + (b - a) * m;
  }

  /** All the possible points scored is 100%. */
  lemma FloorPercentageOfWhole(max: nat)
    requires max > 0
    ensures FloorPercentage(max, max) == 100
  {
    FloorPercentageReaches(max, max, 100);
    FloorPercentageReaches(max, max, 101);
  }

  /** The result every failure path returns (lines 49-58 and 123-142). */
  function FailedScore(message: string): ScoreResult {
    ScoreResult(false, Some(message), [], 0, 0, 0, false, None)
  }

  /** The success path of `run_scoring_script` (lines 73-121): the items of
      the output's lines with their running sums, overridden by the first
      `TOTAL SCORE` summary anywhere in the output; the pass mark is applied
      to the resulting percentage. */
  function ScoreOfOutput(out: string): (r: ScoreResult)
    ensures r.success && r.error.None? && r.output == Some(out)
    ensures r.questions == ScoreItems(Split(out, '\n'))
    ensures r.passed == (r.percentage >= PassPercentage)
    ensures FindTotal(out).Some? ==>
      var t := FindTotal(out).value.1;
      r.totalScore == t.score && r.maxScore == t.maxScore && r.percentage == t.percentage
    ensures FindTotal(out).None? ==>
      && r.totalScore == SumScores(r.questions)
      && r.maxScore == SumMaxScores(r.questions)
      && r.percentage == FloorPercentage(r.totalScore, r.maxScore)
  {
    var items := ScoreItems(Split(out, '\n'));
    var t: Total :=
      match FindTotal(out)
      case Some((_, summary)) => summary
      case None => Total(SumScores(items), SumMaxScores(items), FloorPercentage(SumScores(items), SumMaxScores(items)));
    ScoreResult(true, None, items, t.score, t.maxScore, t.percentage, t.percentage >= PassPercentage, Some(out))
  }

  /** Without a summary line, the result passes exactly when the scored
      points reach 66% of the possible ones. */
  lemma PassedWithoutSummary(out: string)
    requires FindTotal(out).None?
    requires SumMaxScores(ScoreItems(Split(out, '\n'))) > 0
    ensures var r := ScoreOfOutput(out);
      r.passed <==> 100 * r.totalScore >= PassPercentage * r.maxScore
  {
    var r := ScoreOfOutput(out);
    FloorPercentageReaches(r.totalScore, r.maxScore, PassPercentage);
  }

  /** Without a summary line, an output on which every question scored in
      full is a 100% pass, provided it has any points to score. */
  lemma AllPassedIsFullMarks(out: string)
    requires FindTotal(out).None?
    requires SumMaxScores(ScoreItems(Split(out, '\n'))) > 0
    requires AllPassed(ScoreItems(Split(out, '\n')))
    ensures ScoreOfOutput(out).percentage == 100 && ScoreOfOutput(out).passed
  {
    AllPassedSums(ScoreItems(Split(out, '\n')));
    var r := ScoreOfOutput(out);
    FloorPercentageOfWhole(r.maxScore);
  }

  /** `run_scoring_script`: every way the invocation can fail yields the
      same empty, failed result; a completed run is scored from its output. */
  function RunScoring(run: ScoringRun): (r: ScoreResult)
    ensures !run.Completed? ==>
      && !r.success && r.error.Some? && r.questions == [] && r.output.None?
      && r.totalScore == 0 && r.maxScore == 0 && r.percentage == 0 && !r.passed
    ensures run.Completed? ==> r == ScoreOfOutput(run.stdout)
  {
    match run
    case ScriptMissing => FailedScore("Scoring script not found")
    case TimedOut => FailedScore("Scoring script timed out")
    case Crashed(message) => FailedScore(message)
    case Completed(out) => ScoreOfOutput(out)
  }
}
