/** `parse_exam_config` and `get_exam_info` of `ckad_dojo.py`: the command
    line's own reading of an exam's `exam.conf`. Unlike the web server it
    keeps every `KEY=value` assignment whose key is a word of capitals and
    underscores, as text, in a dictionary where a later assignment
    replaces an earlier one. */
module DojoConfig {
  import opened Wrappers
  import opened Strings

  // ---------------------------------------------------------------------
  // str.splitlines

  /** The characters `str.splitlines` breaks at (ASCII and the three
      others Python counts); `\r\n` counts as one break. */
  predicate IsLineBreak(c: char) {
    c == '\n' || c == '\r' || c == '\U{000B}' || c == '\U{000C}'
    || c == '\U{001C}' || c == '\U{001D}' || c == '\U{001E}'
    || c == '\U{0085}' || c == '\U{2028}' || c == '\U{2029}'
  }

  predicate NoBreak(line: string) {
    forall i :: 0 <= i < |line| ==> !IsLineBreak(line[i])
  }

  /** The position of the first line break, or the length. */
  function BreakAt(s: string): (k: nat)
    ensures k <= |s| && NoBreak(s[..k])
    ensures k < |s| ==> IsLineBreak(s[k])
  {
    if |s| == 0 || IsLineBreak(s[0]) then 0
    else
      var k := BreakAt(s[1..]);
      assert s[..k + 1] == [s[0]] + s[1..][..k];
      k + 1
  }

  /** `s.splitlines()`: no empty last line after a final break. */
  function SplitLines(s: string): (r: seq<string>)
    ensures forall i :: 0 <= i < |r| ==> NoBreak(r[i])
    decreases |s|
  {
    if |s| == 0 then []
    else
      var k := BreakAt(s);
      if k == |s| then [s]
      else
        var next := if s[k] == '\r' && k + 1 < |s| && s[k + 1] == '\n' then k + 2 else k + 1;
        [s[..k]] + SplitLines(s[next..])
  }

  /** Lines each ended by a newline. */
  function Terminated(lines: seq<string>): string {
    if |lines| == 0 then "" else lines[0] + "\n" + Terminated(lines[1..])
  }

  lemma BreakAtFirst(s: string, k: nat)
    requires k < |s| && NoBreak(s[..k]) && IsLineBreak(s[k])
    ensures BreakAt(s) == k
  {
  }

  /** `splitlines` takes apart what `Terminated` puts together. */
  lemma {:induction false} SplitLinesTerminated(lines: seq<string>)
    requires forall i :: 0 <= i < |lines| ==> NoBreak(lines[i])
    ensures SplitLines(Terminated(lines)) == lines
    decreases |lines|
  {
    if |lines| > 0 {
      var l := lines[0];
      var rest := Terminated(lines[1..]);
      var s := Terminated(lines);
      assert s == l + "\n" + rest;
      assert BreakAt(s) == |l| by {
        assert s[..|l|] == l && s[|l|] == '\n';
        BreakAtFirst(s, |l|);
      }
      assert SplitLines(s) == [l] + SplitLines(rest) by {
        assert s[..|l|] == l && s[|l| + 1..] == rest;
      }
      SplitLinesTerminated(lines[1..]);
    }
  }

  // ---------------------------------------------------------------------
  // One line

  /** A `KEY=value` assignment kept from the file. */
  datatype Assignment = Assignment(key: string, value: string)

  predicate IsQuote(c: char) {
    c == '"' || c == '\''
  }

  /** A character `[^"'\n]` does not admit. */
  predicate StopsValue(c: char) {
    IsQuote(c) || c == '\n'
  }

  const Quotes := "\"'"
  const ValueStops := "\"'\n"

  /** Where the groups of a matched assignment lie: the key is `t[..eq]`,
      the value `t[start..end]`. */
  datatype AssignmentCut = AssignmentCut(eq: nat, start: nat, end: nat)

  /** The shape `^([A-Z_]+)=["']?([^"'\n]*)` demands, with the greedy
      choices the matcher makes: an opening quote is always taken, and the
      value runs up to the first character it cannot hold. What follows
      the value does not matter. */
  predicate WellAssignment(t: string, c: AssignmentCut) {
    && 0 < c.eq < |t| && t[c.eq] == '='
    && Run(t, 0, c.eq, KeyChar)
    && (c.start == c.eq + 1 || (c.start == c.eq + 2 && c.eq + 1 < |t| && IsQuote(t[c.eq + 1])))
    && (c.start == c.eq + 1 && c.start < |t| ==> !IsQuote(t[c.start]))
    && c.start <= c.end <= |t|
    && Run(t, c.start, c.end, NoneOf(ValueStops))
    && (c.end < |t| ==> StopsValue(t[c.end]))
  }

  /** Matching the pattern: where its groups lie, if it matches. */
  function CutAssignment(t: string): (r: Option<AssignmentCut>)
    ensures r.Some? ==> WellAssignment(t, r.value)
  {
    var k := SkipWhile(t, 0, KeyChar);
    if k == 0 || k == |t| || t[k] != '=' then None
    else
      var p := if k + 1 < |t| && IsQuote(t[k + 1]) then k + 2 else k + 1;
      var e := SkipWhile(t, p, NoneOf(ValueStops));
      Some(AssignmentCut(k, p, e))
  }

  /** Completeness of `CutAssignment`: a text of the pattern's shape is
      matched, and cut at the same places. */
  lemma CutAssignmentComplete(t: string, c: AssignmentCut)
    requires WellAssignment(t, c)
    ensures CutAssignment(t) == Some(c)
  {
    SkipWhileStops(t, 0, c.eq, KeyChar);
    SkipWhileStops(t, c.start, c.end, NoneOf(ValueStops));
  }

  /** The value group holds no quote, so `strip('"\'')` leaves it alone. */
  lemma ValueUnquoted(t: string, c: AssignmentCut)
    requires WellAssignment(t, c)
    ensures forall i :: c.start <= i < c.end ==> !StopsValue(t[i])
    ensures Trim(t[c.start..c.end], AnyOf(Quotes)) == t[c.start..c.end]
  {
    forall i | c.start <= i < c.end ensures !StopsValue(t[i]) {
      RunAt(t, c.start, c.end, NoneOf(ValueStops), i);
    }
    var v := t[c.start..c.end];
    if |v| > 0 {
      assert v[0] == t[c.start] && v[|v| - 1] == t[c.end - 1];
      TrimNoEnds(v, AnyOf(Quotes));
    }
  }

  /** `re.match(r'^([A-Z_]+)=["']?([^"'\n]*)["']?', t)`, then
      `value.strip('"\'')`. The key is a word of capitals and underscores,
      and the value holds no quote: it stops at the first one of either
      kind. */
  function MatchAssignment(t: string): (r: Option<Assignment>)
    ensures r.Some? <==> CutAssignment(t).Some?
    ensures r.Some? ==> IsKeyWord(r.value.key) && StartsWith(t, r.value.key + "=")
    ensures r.Some? ==> forall i :: 0 <= i < |r.value.value| ==> !StopsValue(r.value.value[i])
  {
    match CutAssignment(t)
    case None => None
    case Some(c) =>
      ValueUnquoted(t, c);
      KeyGroup(t, c);
      Some(Assignment(t[..c.eq], Trim(t[c.start..c.end], AnyOf(Quotes))))
  }

  lemma KeyGroup(t: string, c: AssignmentCut)
    requires WellAssignment(t, c)
    ensures IsKeyWord(t[..c.eq]) && StartsWith(t, t[..c.eq] + "=")
  {
    forall i | 0 <= i < c.eq ensures In(KeyChar, t[..c.eq][i]) {
      RunAt(t, 0, c.eq, KeyChar, i);
    }
    assert t[..c.eq + 1] == t[..c.eq] + "=";
  }

  /** The value of a matched assignment is its value group. */
  lemma MatchAssignmentValue(t: string, c: AssignmentCut)
    requires WellAssignment(t, c)
    ensures MatchAssignment(t) == Some(Assignment(t[..c.eq], t[c.start..c.end]))
  {
    CutAssignmentComplete(t, c);
    ValueUnquoted(t, c);
  }

  /** `KEY="value` followed by anything that starts with a quote or a
      newline (such as the closing quote) is read as that key and value. */
  lemma QuotedAssignment(key: string, value: string, rest: string)
    requires IsKeyWord(key)
    requires forall i :: 0 <= i < |value| ==> !StopsValue(value[i])
    requires |rest| > 0 ==> StopsValue(rest[0])
    ensures MatchAssignment(key + "=\"" + value + rest) == Some(Assignment(key, value))
  {
    var t := key + "=\"" + value + rest;
    var k := |key|;
    var e := k + 2 + |value|;
    assert t[..k] == key && t[k] == '=' && t[k + 1] == '"';
    assert t[k + 2..e] == value;
    forall i | 0 <= i < k ensures In(KeyChar, t[i]) {
      assert t[i] == key[i];
    }
    RunOfAll(t, 0, k, KeyChar);
    forall i | k + 2 <= i < e ensures In(NoneOf(ValueStops), t[i]) {
      assert t[i] == value[i - k - 2];
    }
    RunOfAll(t, k + 2, e, NoneOf(ValueStops));
    if e < |t| {
      assert t[e] == rest[0];
    }
    MatchAssignmentValue(t, AssignmentCut(k, k + 2, e));
  }

  /** `EXAM_NAME="Bob's"` names the exam `Bob`: the value stops at the
      first quote of either kind. */
  lemma ApostropheEndsValue(line: string)
    requires line == "EXAM_NAME=\"Bob's\""
    ensures MatchAssignment(line) == Some(Assignment("EXAM_NAME", "Bob"))
  {
    assert IsKeyWord("EXAM_NAME");
    assert line == "EXAM_NAME" + "=\"" + "Bob" + "'s\"";
    QuotedAssignment("EXAM_NAME", "Bob", "'s\"");
  }

  /** The loop body of `parse_exam_config`: the stripped line, unless it is
      empty, a comment or has no `=`, must match the assignment pattern. */
  function AssignmentOf(line: string): Option<Assignment> {
    var t := Strip(line);
    if |t| == 0 || StartsWith(t, "#") || '=' !in t then None
    else MatchAssignment(t)
  }

  /** A line `KEY="value"` is kept as that key and value. */
  lemma AssignmentOfQuoted(key: string, value: string)
    requires IsKeyWord(key)
    requires forall i :: 0 <= i < |value| ==> !StopsValue(value[i])
    ensures AssignmentOf(key + "=\"" + value + "\"") == Some(Assignment(key, value))
  {
    var t := key + "=\"" + value + "\"";
    KeyWordShape(key);
    assert t[0] == key[0] && t[|t| - 1] == '"' && t[|key|] == '=';
    StripNoSpaceEnds(t);
    assert !StartsWith(t, "#") by { assert t[..1][0] == t[0]; }
    QuotedAssignment(key, value, "\"");
  }

  /** The assignments of the file's lines, in order. */
  function Assignments(lines: seq<string>): seq<Assignment> {
    if |lines| == 0 then []
    else (match AssignmentOf(lines[0]) case Some(a) => [a] case None => []) + Assignments(lines[1..])
  }

  /** `config[key] = value` for each assignment in turn. */
  function Record(assigns: seq<Assignment>): map<string, string> {
    if |assigns| == 0 then map[]
    else
      var last := assigns[|assigns| - 1];
      Record(assigns[..|assigns| - 1])[last.key := last.value]
  }

  /** A key is recorded exactly when it is assigned, and holds the value of
      its last assignment. */
  lemma {:induction false} RecordSpec(assigns: seq<Assignment>, key: string)
    ensures key in Record(assigns) <==> exists i :: 0 <= i < |assigns| && assigns[i].key == key
    ensures key in Record(assigns) ==> exists i ::
      && 0 <= i < |assigns| && assigns[i].key == key && Record(assigns)[key] == assigns[i].value
      && forall j :: i < j < |assigns| ==> assigns[j].key != key
    decreases |assigns|
  {
    if |assigns| > 0 {
      var n := |assigns| - 1;
      var init := assigns[..n];
      RecordSpec(init, key);
      if assigns[n].key != key {
        if exists i :: 0 <= i < |assigns| && assigns[i].key == key {
          var i :| 0 <= i < |assigns| && assigns[i].key == key;
          assert init[i].key == key;
        }
        if key in Record(assigns) {
          var i :| && 0 <= i < |init| && init[i].key == key && Record(init)[key] == init[i].value
                   && forall j :: i < j < |init| ==> init[j].key != key;
          assert assigns[i] == init[i];
          forall j | i < j < |assigns| ensures assigns[j].key != key {
            if j < n { assert assigns[j] == init[j]; }
          }
        }
      }
    }
  }

  /** `parse_exam_config(exam_id)`, given the file's text; `None` stands
      for a file that is missing or cannot be read. */
  function ParseExamConfig(file: Option<string>): Option<map<string, string>> {
    match file
    case None => None
    case Some(content) => Some(Record(Assignments(SplitLines(content))))
  }

  /** A file written one line at a time records the assignments of its
      lines. */
  lemma ParseExamConfigOfLines(lines: seq<string>)
    requires forall i :: 0 <= i < |lines| ==> NoBreak(lines[i])
    ensures ParseExamConfig(Some(Terminated(lines))) == Some(Record(Assignments(lines)))
  {
    SplitLinesTerminated(lines);
  }

  // ---------------------------------------------------------------------
  // get_exam_info

  /** The dictionary `get_exam_info` returns. */
  datatype ExamInfo = ExamInfo(
    id: string,
    name: string,
    questions: string,
    points: string,
    duration: string,
    passing: string)

  /** `config.get(key, fallback)`. */
  function Get(m: map<string, string>, key: string, fallback: string): string {
    if key in m then m[key] else fallback
  }

  /** `get_exam_info`: nothing for a missing or empty configuration;
      otherwise the recorded values, with fallbacks for absent keys. */
  function GetExamInfo(examId: string, config: Option<map<string, string>>): (r: Option<ExamInfo>)
    ensures r.None? <==> config.None? || |config.value| == 0
  {
    match config
    case None => None
    case Some(m) =>
      if |m| == 0 then None
      else Some(ExamInfo(examId, Get(m, "EXAM_NAME", examId), Get(m, "TOTAL_QUESTIONS", "?"),
                         Get(m, "TOTAL_POINTS", "?"), Get(m, "EXAM_DURATION", "120"),
                         Get(m, "PASSING_PERCENTAGE", "66")))
  }

  /** For a file of one assignment per line, each field of the information
      is the value of the last assignment to its key, or the fallback when
      the key is never assigned. */
  lemma InfoFieldSpec(examId: string, assigns: seq<Assignment>, key: string, fallback: string)
    requires |assigns| > 0
    ensures GetExamInfo(examId, Some(Record(assigns))).Some?
    ensures (forall i :: 0 <= i < |assigns| ==> assigns[i].key != key) ==> Get(Record(assigns), key, fallback) == fallback
    ensures (exists i :: 0 <= i < |assigns| && assigns[i].key == key) ==>
      exists i :: 0 <= i < |assigns| && assigns[i].key == key && Get(Record(assigns), key, fallback) == assigns[i].value
        && forall j :: i < j < |assigns| ==> assigns[j].key != key
  {
    RecordSpec(assigns, key);
    var last := assigns[|assigns| - 1];
    RecordSpec(assigns, last.key);
    assert last.key in Record(assigns);
  }
}
