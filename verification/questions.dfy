/** `parse_questions_md` of `web/server.py`: an exam's `questions.md` is
    read line by line; each `## Question <id> | <topic>` header opens a
    question, metadata table rows set its points, namespace, resources and
    files, and every other line belongs to its text.

    `ParseQuestions` runs the source's loop (`Sections.Parse`) with the
    handling of lines below. `QuestionOf` describes a question directly from
    its section, and `ParseQuestionsSpec` proves the loop yields exactly
    those questions. */
module Questions {
  import opened Wrappers
  import opened Strings
  import opened Numbers
  import opened QuestionIds
  import opened Headers
  import opened Sections

  /** One question of the exam, with the keys of the source's dictionary. */
  datatype Question = Question(
    id: string,
    number: QuestionNumber,
    topic: string,
    content: string,
    points: int,
    namespace: string,
    resources: string,
    files: string)

  const QuestionPrefix := "## Question "

  /** `re.match(r'^## Question (\d+|P\d+) \| (.+?)$', line)`. */
  function QuestionHeader(line: string): (r: Option<Header>)
    ensures r.Some? ==> IsQuestionId(r.value.id) && IsTopic(r.value.topic)
    ensures r.Some? ==> (line == QuestionPrefix + HeaderText(r.value) || line == QuestionPrefix + HeaderText(r.value) + "\n")
  {
    HeaderAfter(line, QuestionPrefix)
  }

  /** Every question header is recognised, with or without a final
      newline. */
  lemma QuestionHeaderComplete(h: Header, newline: bool)
    requires IsQuestionId(h.id) && IsTopic(h.topic)
    ensures QuestionHeader(QuestionPrefix + HeaderText(h) + (if newline then "\n" else "")) == Some(h)
  {
    HeaderAfterComplete(QuestionPrefix, h, newline);
  }

  /** How a line inside a question is treated. A table row with at least
      four cells carries metadata: the points, when `int()` accepts the
      first cell, then the namespace, resources and files. */
  datatype BodyLine =
    | Ignored   // the table's heading or separator row, or a shorter row
    | Metadata(points: Option<int>, namespace: string, resources: string, files: string)
    | Text(line: string)

  /** `[p.strip() for p in parts]`. */
  function StripEach(parts: seq<string>): (r: seq<string>)
    ensures |r| == |parts|
  {
    if |parts| == 0 then [] else [Strip(parts[0])] + StripEach(parts[1..])
  }

  /** `[p.strip() for p in line.split('|')[1:-1]]`: the cells between the
      first and the last bar. */
  function Cells(line: string): seq<string> {
    var parts := Split(line, '|');
    if |parts| < 2 then [] else StripEach(parts[1..|parts| - 1])
  }

  function Classify(line: string): BodyLine {
    if StartsWith(line, "| Points") || StartsWith(line, "|---") then Ignored
    else if StartsWith(line, "|") then
      var cells := Cells(line);
      if |cells| < 4 then Ignored else Metadata(PyInt(cells[0]), cells[1], cells[2], cells[3])
    else Text(line)
  }

  /** A question being read: its header, the metadata so far and the text
      lines so far. */
  datatype Draft = Draft(
    header: Header,
    points: int,
    namespace: string,
    resources: string,
    files: string,
    body: seq<string>)

  /** The dictionary the source creates on a header. */
  function Open(h: Header): Draft {
    Draft(h, 0, "", "", "", [])
  }

  /** The effect of one classified line on the question being read: a
      metadata row overwrites the namespace, resources and files, and the
      points only when its first cell is a number. */
  function Apply(d: Draft, k: BodyLine): (r: Draft)
    ensures r.header == d.header
  {
    match k
    case Ignored => d
    case Text(line) => d.(body := d.body + [line])
    case Metadata(p, ns, res, files) =>
      d.(points := if p.Some? then p.value else d.points,
         namespace := ns, resources := res, files := files)
  }

  /** One line inside the current question. */
  function Absorb(d: Draft, line: string): Draft {
    Apply(d, Classify(line))
  }

  /** The finished question: its text is the body joined and stripped. */
  function Close(d: Draft): Question {
    Question(d.header.id, NumberOf(d.header.id), d.header.topic, Content(d.body),
             d.points, d.namespace, d.resources, d.files)
  }

  const QuestionReader: Reader<Header, Draft, Question> := Reader(QuestionHeader, Open, Absorb, Close)

  /** `parse_questions_md`: no file gives no questions. */
  function ParseQuestions(file: Option<string>): seq<Question> {
    match file
    case None => []
    case Some(content) => Parse(QuestionReader, Split(content, '\n'))
  }

  // The reference description.

  function Kinds(body: seq<string>): (r: seq<BodyLine>)
    ensures |r| == |body|
    ensures forall i :: 0 <= i < |r| ==> r[i] == Classify(body[i])
  {
    if |body| == 0 then [] else [Classify(body[0])] + Kinds(body[1..])
  }

  /** The lines that are part of the question's text. */
  function TextLines(ks: seq<BodyLine>): seq<string> {
    if |ks| == 0 then []
    else (if ks[0].Text? then [ks[0].line] else []) + TextLines(ks[1..])
  }

  /** The metadata rows, in order. */
  function MetadataRows(ks: seq<BodyLine>): (r: seq<BodyLine>)
    ensures forall i :: 0 <= i < |r| ==> r[i].Metadata?
  {
    if |ks| == 0 then []
    else (if ks[0].Metadata? then [ks[0]] else []) + MetadataRows(ks[1..])
  }

  /** The points of the metadata rows whose first cell is a number. */
  function PointValues(ks: seq<BodyLine>): seq<int> {
    if |ks| == 0 then []
    else (if ks[0].Metadata? && ks[0].points.Some? then [ks[0].points.value] else []) + PointValues(ks[1..])
  }

  function LastOr<T>(s: seq<T>, fallback: T): T {
    if |s| == 0 then fallback else s[|s| - 1]
  }

  /** The question a header and the lines of its section describe: the
      last metadata row gives the namespace, resources and files (empty
      when there is none), the last row whose first cell is a number gives
      the points (0 when none is), and the text is every line outside the
      table, joined and stripped. */
  function QuestionOf(h: Header, body: seq<string>): Question {
    var ks := Kinds(body);
    var last := LastOr(MetadataRows(ks), Metadata(None, "", "", ""));
    Question(h.id, NumberOf(h.id), h.topic, Content(TextLines(ks)),
             LastOr(PointValues(ks), 0), last.namespace, last.resources, last.files)
  }

  function QuestionsOf(secs: seq<Section<Header>>): (r: seq<Question>)
    ensures |r| == |secs|
    ensures forall i :: 0 <= i < |r| ==> r[i] == QuestionOf(secs[i].header, secs[i].body)
  {
    if |secs| == 0 then [] else [QuestionOf(secs[0].header, secs[0].body)] + QuestionsOf(secs[1..])
  }

  // The loop agrees with the reference description.

  function ApplyAll(d: Draft, ks: seq<BodyLine>): Draft
    decreases |ks|
  {
    if |ks| == 0 then d else ApplyAll(Apply(d, ks[0]), ks[1..])
  }

  /** Reading a section into a draft keeps its header, appends its text
      lines, and takes the points of the last row that has a number. */
  lemma {:induction false} ApplyAllText(d: Draft, ks: seq<BodyLine>)
    ensures var r := ApplyAll(d, ks);
      && r.header == d.header
      && r.body == d.body + TextLines(ks)
      && r.points == LastOr(PointValues(ks), d.points)
    decreases |ks|
  {
    if |ks| > 0 {
      ApplyAllText(Apply(d, ks[0]), ks[1..]);
    }
  }

  /** The last metadata row read overwrites the namespace, resources and
      files the draft held. */
  lemma {:induction false} ApplyAllMetadata(d: Draft, ks: seq<BodyLine>)
    ensures var r := ApplyAll(d, ks);
      var last := LastOr(MetadataRows(ks), Metadata(None, d.namespace, d.resources, d.files));
      && r.namespace == last.namespace
      && r.resources == last.resources
      && r.files == last.files
    decreases |ks|
  {
    if |ks| > 0 {
      ApplyAllMetadata(Apply(d, ks[0]), ks[1..]);
    }
  }

  lemma {:induction false} AbsorbAllKinds(d: Draft, body: seq<string>)
    ensures AbsorbAll(QuestionReader, d, body) == ApplyAll(d, Kinds(body))
    decreases |body|
  {
    if |body| > 0 {
      AbsorbAllKinds(Absorb(d, body[0]), body[1..]);
      assert Kinds(body)[1..] == Kinds(body[1..]);
    }
  }

  /** A section yields its reference question. */
  lemma SectionQuestion(s: Section<Header>)
    ensures ItemOf(QuestionReader, s) == QuestionOf(s.header, s.body)
  {
    var d := Open(s.header);
    var ks := Kinds(s.body);
    var r := ApplyAll(d, ks);
    AbsorbAllKinds(d, s.body);
    ApplyAllText(d, ks);
    ApplyAllMetadata(d, ks);
    assert d.body + TextLines(ks) == TextLines(ks);
    assert ItemOf(QuestionReader, s) == Close(r);
  }

  lemma ItemsAreQuestions(secs: seq<Section<Header>>)
    ensures Items(QuestionReader, secs) == QuestionsOf(secs)
  {
    forall i | 0 <= i < |secs|
      ensures ItemOf(QuestionReader, secs[i]) == QuestionOf(secs[i].header, secs[i].body)
    {
      SectionQuestion(secs[i]);
    }
  }

  /** `parse_questions_md` yields exactly the reference questions of the
      sections of the file. */
  lemma ParseQuestionsSpec(content: string)
    ensures ParseQuestions(Some(content)) == QuestionsOf(SectionsOf(QuestionHeader, Split(content, '\n')))
  {
    ParseSpec(QuestionReader, Split(content, '\n'));
    ItemsAreQuestions(SectionsOf(QuestionHeader, Split(content, '\n')));
  }

  /** One question per header line, each with a well-formed id and topic
      taken from its header. */
  lemma ParsedQuestions(content: string)
    ensures var qs := ParseQuestions(Some(content));
      && |qs| == HeaderCount(QuestionHeader, Split(content, '\n'))
      && forall q :: q in qs ==> IsQuestionId(q.id) && IsTopic(q.topic) && q.number == NumberOf(q.id)
  {
    var lines := Split(content, '\n');
    var secs := SectionsOf(QuestionHeader, lines);
    ParseQuestionsSpec(content);
    SectionCount(QuestionHeader, lines);
    forall k | 0 <= k < |secs| ensures IsQuestionId(secs[k].header.id) && IsTopic(secs[k].header.topic) {
      var j := SectionLine(QuestionHeader, lines, k);
    }
  }

  /** A table row written as bars around its cells is cut back into those
      cells, stripped. */
  lemma CellsOfRow(cells: seq<string>)
    requires forall i :: 0 <= i < |cells| ==> '|' !in cells[i]
    ensures Cells(Join([""] + cells + [""], '|')) == StripEach(cells)
  {
    var parts := [""] + cells + [""];
    forall i | 0 <= i < |parts| ensures '|' !in parts[i] {
      if 0 < i < |parts| - 1 { assert parts[i] == cells[i - 1]; }
    }
    SplitJoin(parts, '|');
    assert parts[1..|parts| - 1] == cells;
  }

  lemma {:induction false} StripEachAt(parts: seq<string>, i: nat)
    requires i < |parts|
    ensures StripEach(parts)[i] == Strip(parts[i])
    decreases i
  {
    if i > 0 {
      StripEachAt(parts[1..], i - 1);
    }
  }

  /** A line that starts with a bar, is not the table's heading or
      separator row, and has four cells or more carries metadata. */
  lemma ClassifyRow(line: string)
    requires StartsWith(line, "|") && !StartsWith(line, "| Points") && !StartsWith(line, "|---")
    requires |Cells(line)| >= 4
    ensures var c := Cells(line);
      Classify(line) == Metadata(PyInt(c[0]), c[1], c[2], c[3])
  {
  }

  lemma JoinOpensWithBar(cells: seq<string>)
    ensures StartsWith(Join([""] + cells + [""], '|'), "|")
  {
    var parts := [""] + cells + [""];
    assert parts[0] == "" && parts[1..] == cells + [""];
    assert Join(parts, '|') == "" + ['|'] + Join(parts[1..], '|');
  }

  /** A metadata row written as bars around four or more cells is read as
      metadata with the points `int()` makes of its first cell. */
  lemma ClassifyMetadataRow(cells: seq<string>)
    requires |cells| >= 4
    requires forall i :: 0 <= i < |cells| ==> '|' !in cells[i]
    requires var line := Join([""] + cells + [""], '|');
      !StartsWith(line, "| Points") && !StartsWith(line, "|---")
    ensures Classify(Join([""] + cells + [""], '|'))
         == Metadata(PyInt(Strip(cells[0])), Strip(cells[1]), Strip(cells[2]), Strip(cells[3]))
  {
    var line := Join([""] + cells + [""], '|');
    JoinOpensWithBar(cells);
    CellsOfRow(cells);
    StripEachAt(cells, 0);
    StripEachAt(cells, 1);
    StripEachAt(cells, 2);
    StripEachAt(cells, 3);
    ClassifyRow(line);
  }
}
