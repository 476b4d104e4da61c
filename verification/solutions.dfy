/** `parse_solutions_md` and `get_solution` of `web/server.py`: an exam's
    `solutions.md` is read line by line; each `## Question <id> | <topic>`
    or `## Preview Question <id> | <topic>` header opens a solution, and
    every other line belongs to its text. */
module Solutions {
  import opened Wrappers
  import opened Strings
  import opened QuestionIds
  import opened Headers
  import opened Sections

  /** One solution, with the keys of the source's dictionary. */
  datatype Solution = Solution(
    id: string,
    number: QuestionNumber,
    topic: string,
    content: string,
    isPreview: bool)

  /** A matched solution header: which of the two kinds, and its groups. */
  datatype SolutionHeader = SolutionHeader(preview: bool, header: Header)

  const QuestionPrefix := "## Question "
  const PreviewPrefix := "## Preview Question "

  /** `re.match(r'^## (Question|Preview Question) (\d+|P\d+) \| (.+?)$',
      line)`. The two alternatives differ in their first letter, so at most
      one of them can start a match. */
  function HeaderOf(line: string): (r: Option<SolutionHeader>)
    ensures r.Some? ==> IsQuestionId(r.value.header.id) && IsTopic(r.value.header.topic)
    ensures r.Some? ==>
      var prefix := if r.value.preview then PreviewPrefix else QuestionPrefix;
      line == prefix + HeaderText(r.value.header) || line == prefix + HeaderText(r.value.header) + "\n"
  {
    match HeaderAfter(line, QuestionPrefix)
    case Some(h) => Some(SolutionHeader(false, h))
    case None =>
      match HeaderAfter(line, PreviewPrefix)
      case Some(h) => Some(SolutionHeader(true, h))
      case None => None
  }

  /** Every header of either kind is recognised as that kind. */
  lemma HeaderOfComplete(preview: bool, h: Header, newline: bool)
    requires IsQuestionId(h.id) && IsTopic(h.topic)
    ensures var prefix := if preview then PreviewPrefix else QuestionPrefix;
      HeaderOf(prefix + HeaderText(h) + (if newline then "\n" else "")) == Some(SolutionHeader(preview, h))
  {
    var line := (if preview then PreviewPrefix else QuestionPrefix) + HeaderText(h) + (if newline then "\n" else "");
    if preview {
      HeaderAfterComplete(PreviewPrefix, h, newline);
      NotQuestionPrefix(line);
      PreviewHeader(line, h);
    } else {
      HeaderAfterComplete(QuestionPrefix, h, newline);
    }
  }

  lemma NotQuestionPrefix(line: string)
    requires StartsWith(line, PreviewPrefix)
    ensures HeaderAfter(line, QuestionPrefix) == None
  {
    assert line[3] == PreviewPrefix[3] == 'P';
    assert !StartsWith(line, QuestionPrefix);
  }

  lemma PreviewHeader(line: string, h: Header)
    requires HeaderAfter(line, QuestionPrefix) == None
    requires HeaderAfter(line, PreviewPrefix) == Some(h)
    ensures HeaderOf(line) == Some(SolutionHeader(true, h))
  {
  }

  /** The `id` of a solution: a preview question's number is prefixed
      with `P` unless it already starts with one. */
  function SolutionId(sh: SolutionHeader): (r: string)
    ensures IsQuestionId(sh.header.id) ==> IsQuestionId(r)
    ensures !sh.preview ==> r == sh.header.id
    ensures sh.preview ==> |r| > 0 && r[0] == 'P'
    ensures sh.preview && StartsWith(sh.header.id, "P") ==> r == sh.header.id
    ensures sh.preview && !StartsWith(sh.header.id, "P") ==> r == "P" + sh.header.id
  {
    var id := sh.header.id;
    if !sh.preview || StartsWith(id, "P") then id
    else
      assert ("P" + id)[1..] == id;
      "P" + id
  }

  /** A solution being read: its header and its lines so far. */
  datatype Draft = Draft(head: SolutionHeader, body: seq<string>)

  function Open(sh: SolutionHeader): Draft {
    Draft(sh, [])
  }

  function Absorb(d: Draft, line: string): Draft {
    d.(body := d.body + [line])
  }

  /** The dictionary the source saves. `number` comes from the id group as
      written, before the `P` prefix is added. */
  function Close(d: Draft): Solution {
    var h := d.head.header;
    Solution(SolutionId(d.head), NumberOf(h.id), h.topic, Content(d.body), d.head.preview)
  }

  const SolutionReader: Reader<SolutionHeader, Draft, Solution> := Reader(HeaderOf, Open, Absorb, Close)

  /** `parse_solutions_md`: no file gives no solutions. */
  function ParseSolutions(file: Option<string>): seq<Solution> {
    match file
    case None => []
    case Some(content) => Parse(SolutionReader, Split(content, '\n'))
  }

  /** The solution a header and the lines of its section describe. */
  function SolutionOf(s: Section<SolutionHeader>): Solution {
    var h := s.header.header;
    Solution(SolutionId(s.header), NumberOf(h.id), h.topic, Content(s.body), s.header.preview)
  }

  /** Every section of a file opens with a matched header. */
  predicate Matched(secs: seq<Section<SolutionHeader>>) {
    forall i :: 0 <= i < |secs| ==> IsQuestionId(secs[i].header.header.id)
  }

  lemma {:induction false} SectionsMatched(lines: seq<string>)
    ensures Matched(SectionsOf(HeaderOf, lines))
    decreases |lines|
  {
    if |lines| > 0 {
      SectionsMatched(lines[1..]);
    }
  }

  function SolutionsOf(secs: seq<Section<SolutionHeader>>): (r: seq<Solution>)
    ensures Matched(secs) ==> forall i :: 0 <= i < |r| ==> IsQuestionId(r[i].id)
    ensures |r| == |secs|
    ensures forall i :: 0 <= i < |r| ==> r[i] == SolutionOf(secs[i])
  {
    if |secs| == 0 then [] else [SolutionOf(secs[0])] + SolutionsOf(secs[1..])
  }

  lemma {:induction false} AbsorbAllBody(d: Draft, body: seq<string>)
    ensures AbsorbAll(SolutionReader, d, body) == Draft(d.head, d.body + body)
    decreases |body|
  {
    if |body| > 0 {
      AbsorbAllBody(Absorb(d, body[0]), body[1..]);
      assert d.body + [body[0]] + body[1..] == d.body + body;
    } else {
      assert d.body + body == d.body;
    }
  }

  lemma SectionSolution(s: Section<SolutionHeader>)
    ensures ItemOf(SolutionReader, s) == SolutionOf(s)
  {
    AbsorbAllBody(Open(s.header), s.body);
    assert [] + s.body == s.body;
  }

  /** `parse_solutions_md` yields one solution per section of the file,
      as `SolutionOf` describes it. */
  lemma ParseSolutionsSpec(content: string)
    ensures ParseSolutions(Some(content)) == SolutionsOf(SectionsOf(HeaderOf, Split(content, '\n')))
    ensures forall s :: s in ParseSolutions(Some(content)) ==> IsQuestionId(s.id)
  {
    var secs := SectionsOf(HeaderOf, Split(content, '\n'));
    SectionsMatched(Split(content, '\n'));
    ParseSpec(SolutionReader, Split(content, '\n'));
    forall i | 0 <= i < |secs| ensures ItemOf(SolutionReader, secs[i]) == SolutionOf(secs[i]) {
      SectionSolution(secs[i]);
    }
  }

  /** The loop of `get_solution`: the first solution whose id equals the
      one asked for. */
  function FindSolution(sols: seq<Solution>, id: string): (r: Option<Solution>)
    ensures r.None? <==> forall i :: 0 <= i < |sols| ==> sols[i].id != id
    ensures r.Some? ==> r.value in sols && r.value.id == id
  {
    if |sols| == 0 then None
    else if sols[0].id == id then Some(sols[0])
    else
      var r := FindSolution(sols[1..], id);
      assert r.None? ==> forall i :: 0 <= i < |sols| ==> sols[i].id != id by {
        if r.None? {
          forall i | 0 <= i < |sols| ensures sols[i].id != id {
            if i > 0 { assert sols[i] == sols[1..][i - 1]; }
          }
        }
      }
      r
  }

  /** When several solutions share an id, the first one is returned. */
  lemma {:induction false} FindSolutionFirst(sols: seq<Solution>, id: string, k: nat)
    requires k < |sols| && sols[k].id == id
    requires forall j :: 0 <= j < k ==> sols[j].id != id
    ensures FindSolution(sols, id) == Some(sols[k])
    decreases k
  {
    if k > 0 {
      FindSolutionFirst(sols[1..], id, k - 1);
    }
  }

  /** `get_solution(exam_id, question_id)`. */
  function GetSolution(file: Option<string>, id: string): Option<Solution> {
    FindSolution(ParseSolutions(file), id)
  }
}
