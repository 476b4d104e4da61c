/** The section headers `## Question <id> | <topic>` of an exam's
    `questions.md` and `solutions.md`, as `web/server.py` matches them with
    `re.match` on one line at a time. */
module Headers {
  import opened Wrappers
  import opened Strings
  import opened Numbers
  import opened QuestionIds

  /** The id and topic groups of a matched header. */
  datatype Header = Header(id: string, topic: string)

  /** What the `number` field of a question or solution holds: `int(id)`
      when the id is all digits, the id itself otherwise. */
  datatype QuestionNumber = Number(n: nat) | Label(text: string)

  /** A text the group `(.+?)$` can capture: not empty, no newline. */
  predicate IsTopic(t: string) {
    |t| > 0 && '\n' !in t
  }

  /** The part of a header line after the prefix. */
  function HeaderText(h: Header): string {
    h.id + " | " + h.topic
  }

  /** `(.+?)$` against the rest of the line. `.` stops at a newline and
      `$` also matches just before a final newline, so one trailing newline
      is left out of the group and any other newline defeats the match. */
  function TopicGroup(rest: string): (r: Option<string>)
    ensures r.Some? ==> IsTopic(r.value) && (rest == r.value || rest == r.value + "\n")
  {
    var t := if |rest| > 0 && rest[|rest| - 1] == '\n' then rest[..|rest| - 1] else rest;
    if IsTopic(t) then Some(t) else None
  }

  /** Completeness of `TopicGroup`: a topic is captured whole, with or
      without a final newline after it. */
  lemma TopicGroupComplete(t: string)
    requires IsTopic(t)
    ensures TopicGroup(t) == Some(t)
    ensures TopicGroup(t + "\n") == Some(t)
  {
    assert (t + "\n")[..|t|] == t;
  }

  /** `(\d+|P\d+) \| (.+?)$` against the text after a header's prefix. */
  function HeaderOf(u: string): (r: Option<Header>)
    ensures r.Some? ==> IsQuestionId(r.value.id) && IsTopic(r.value.topic)
    ensures r.Some? ==> u == HeaderText(r.value) || u == HeaderText(r.value) + "\n"
  {
    match IdRun(u, 0)
    case None => None
    case Some(e) =>
      if e + 3 > |u| || u[e..e + 3] != " | " then None
      else
        match TopicGroup(u[e + 3..])
        case None => None
        case Some(topic) =>
          SplitAround(u, e, " | ");
          Some(Header(u[0..e], topic))
  }

  lemma SplitAround(u: string, e: nat, sep: string)
    requires e + |sep| <= |u| && u[e..e + |sep|] == sep
    ensures u == u[0..e] + sep + u[e + |sep|..]
  {
    assert u == u[0..e] + u[e..e + |sep|] + u[e + |sep|..];
  }

  /** Completeness of `HeaderOf`: an id, the separator and a tail the
      topic group accepts are matched as such. */
  lemma HeaderOfComplete(id: string, tail: string)
    requires IsQuestionId(id) && TopicGroup(tail).Some?
    ensures HeaderOf(id + " | " + tail) == Some(Header(id, TopicGroup(tail).value))
  {
    var u := id + " | " + tail;
    var e := |id|;
    assert u[..e] == id;
    assert u[e] == ' ';
    IdRunComplete(u, 0, e);
    assert u[e..][..3] == " | ";
    assert u[e + 3..] == tail;
  }

  /** A header line: a fixed prefix, then the header text. */
  function HeaderAfter(line: string, prefix: string): (r: Option<Header>)
    ensures r.Some? ==> IsQuestionId(r.value.id) && IsTopic(r.value.topic)
    ensures r.Some? ==> line == prefix + HeaderText(r.value) || line == prefix + HeaderText(r.value) + "\n"
  {
    if StartsWith(line, prefix) then
      assert line == prefix + line[|prefix|..];
      HeaderOf(line[|prefix|..])
    else None
  }

  /** Completeness of `HeaderAfter`. */
  lemma HeaderAfterComplete(prefix: string, h: Header, newline: bool)
    requires IsQuestionId(h.id) && IsTopic(h.topic)
    ensures HeaderAfter(prefix + HeaderText(h) + (if newline then "\n" else ""), prefix) == Some(h)
  {
    var tail := h.topic + (if newline then "\n" else "");
    TopicGroupComplete(h.topic);
    assert TopicGroup(tail) == Some(h.topic) by {
      if newline { assert tail == h.topic + "\n"; } else { assert tail == h.topic; }
    }
    HeaderOfComplete(h.id, tail);
    var u := h.id + " | " + tail;
    var line := prefix + HeaderText(h) + (if newline then "\n" else "");
    assert line == prefix + u;
    assert line[..|prefix|] == prefix;
    assert line[|prefix|..] == u;
  }

  /** `int(q_num) if q_num.isdigit() else q_num`. */
  function NumberOf(id: string): (r: QuestionNumber)
    ensures r.Number? <==> IsDigits(id)
    ensures r.Label? ==> r.text == id
  {
    if IsDigits(id) then Number(DigitsValue(id)) else Label(id)
  }

  /** The number of a question id printed without leading zeros is the
      number it spells. */
  lemma NumberOfNatToString(n: nat)
    ensures NumberOf(NatToString(n)) == Number(n)
  {
    DigitsValueOfNatToString(n);
  }

  /** `'\n'.join(lines).strip()`: the text of a section. */
  function Content(lines: seq<string>): string {
    Strip(Join(lines, '\n'))
  }
}
