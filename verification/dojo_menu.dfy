/** The interactive parts of `ckad_dojo.py` that are pure text: `color`,
    `discover_exams` (given the directory listing) and the mapping from
    what the user types to an exam in `select_exam`. */
module DojoMenu {
  import opened Wrappers
  import opened Strings
  import opened Numbers

  // ---------------------------------------------------------------------
  // color

  /** `Colors.NC`, the escape sequence that resets the colour. */
  const NC := "\U{001B}[0m"

  /** `color(text, color_code)`; `enabled` is the module's `_use_colors`. */
  function Color(text: string, code: string, enabled: bool): (r: string)
    ensures !enabled ==> r == text
    ensures enabled ==> |r| == |code| + |text| + |NC| && StartsWith(r, code)
  {
    if enabled then code + text + NC else text
  }

  /** The text between a leading `code` and a trailing `NC`, if both are
      there. */
  function Uncolor(s: string, code: string): string {
    if |s| >= |code| + |NC| && s[..|code|] == code && s[|s| - |NC|..] == NC then s[|code|..|s| - |NC|]
    else s
  }

  /** The coloured text is recovered by removing the codes around it. */
  lemma UncolorColor(text: string, code: string)
    ensures Uncolor(Color(text, code, true), code) == text
  {
    var s := code + text + NC;
    assert s[..|code|] == code;
    assert s[|s| - |NC|..] == NC;
    assert s[|code|..|s| - |NC|] == text;
  }

  // ---------------------------------------------------------------------
  // discover_exams

  /** An entry of the `exams/` directory: its name, and whether it is a
      directory holding an `exam.conf`. */
  datatype Entry = Entry(name: string, isExam: bool)

  /** Python's `a <= b` on strings: code point by code point, a prefix
      first. */
  predicate Below(a: string, b: string)
    decreases |a|
  {
    |a| == 0 || (|b| > 0 && (a[0] < b[0] || (a[0] == b[0] && Below(a[1..], b[1..]))))
  }

  /** Any two strings are ordered one way or the other. */
  lemma {:induction false} BelowTotal(a: string, b: string)
    ensures Below(a, b) || Below(b, a)
    decreases |a|
  {
    if |a| > 0 && |b| > 0 && a[0] == b[0] {
      BelowTotal(a[1..], b[1..]);
    }
  }

  predicate Sorted(s: seq<string>) {
    forall i :: 0 <= i < |s| - 1 ==> Below(s[i], s[i + 1])
  }

  /** Insertion into a sorted list. */
  function Insert(x: string, s: seq<string>): (r: seq<string>)
    ensures |r| == |s| + 1 && multiset(r) == multiset(s) + multiset{x}
    ensures r[0] == x || (|s| > 0 && r[0] == s[0])
    ensures Sorted(s) ==> Sorted(r)
  {
    if |s| == 0 then [x]
    else if Below(x, s[0]) then [x] + s
    else
      BelowTotal(x, s[0]);
      var t := Insert(x, s[1..]);
      assert s == [s[0]] + s[1..];
      assert Sorted(s) ==> Sorted(s[1..]) by {
        if Sorted(s) {
          forall i | 0 <= i < |s[1..]| - 1 ensures Below(s[1..][i], s[1..][i + 1]) {
            assert s[1..][i] == s[i + 1] && s[1..][i + 1] == s[i + 2];
          }
        }
      }
      [s[0]] + t
  }

  /** `sorted(names)`. */
  function Sort(s: seq<string>): (r: seq<string>)
    ensures Sorted(r) && multiset(r) == multiset(s)
  {
    if |s| == 0 then []
    else
      assert s == [s[0]] + s[1..];
      Insert(s[0], Sort(s[1..]))
  }

  /** The names of the entries that are exams, in listing order. */
  function ExamNames(entries: seq<Entry>): (r: seq<string>)
    ensures forall x :: x in r <==> exists i :: 0 <= i < |entries| && entries[i].isExam && entries[i].name == x
  {
    if |entries| == 0 then []
    else
      var rest := ExamNames(entries[1..]);
      assert forall i :: 1 <= i < |entries| ==> entries[i] == entries[1..][i - 1];
      (if entries[0].isExam then [entries[0].name] else []) + rest
  }

  /** `discover_exams`: `None` stands for a missing `exams/` directory.
      The exams are listed in name order. */
  function DiscoverExams(dir: Option<seq<Entry>>): (r: seq<string>)
    ensures dir.None? ==> r == []
    ensures dir.Some? ==> Sorted(r) && multiset(r) == multiset(ExamNames(dir.value))
  {
    match dir
    case None => []
    case Some(entries) => Sort(ExamNames(entries))
  }

  /** An exam appears in the list exactly when the directory has an entry
      for it that holds an `exam.conf`. */
  lemma DiscoveredExams(entries: seq<Entry>, x: string)
    ensures x in DiscoverExams(Some(entries)) <==> exists i :: 0 <= i < |entries| && entries[i].isExam && entries[i].name == x
  {
    var r := DiscoverExams(Some(entries));
    assert x in r <==> x in multiset(r);
    assert x in ExamNames(entries) <==> x in multiset(ExamNames(entries));
  }

  // ---------------------------------------------------------------------
  // select_exam

  /** What one line typed at the `Enter choice:` prompt does. */
  datatype Choice = Cancel | Selected(exam: string) | InvalidSelection | NotANumber

  /** One iteration of the loop of `select_exam`: exactly `0` (after
      stripping) cancels; a number `k` from 1 to the number of exams picks
      the `k`-th; any other number is an invalid selection, and text
      `int()` rejects is not a number. */
  function ChoiceOf(exams: seq<string>, input: string): (r: Choice)
    ensures r.Cancel? <==> Strip(input) == "0"
    ensures r.Selected? <==> Strip(input) != "0" && InRange(exams, PyInt(Strip(input)))
    ensures r.Selected? ==> r.exam == exams[PyInt(Strip(input)).value - 1] && r.exam in exams
    ensures r.NotANumber? <==> Strip(input) != "0" && PyInt(Strip(input)).None?
  {
    var choice := Strip(input);
    if choice == "0" then Cancel
    else
      var n := PyInt(choice);
      if n.None? then NotANumber
      else if InRange(exams, n) then Selected(exams[n.value - 1])
      else InvalidSelection
  }

  /** The number is one of those shown, 1 to the number of exams. */
  predicate InRange(exams: seq<string>, n: Option<int>) {
    n.Some? && 1 <= n.value <= |exams|
  }

  /** Typing the number shown next to an exam selects it. */
  lemma ChoiceOfListed(exams: seq<string>, k: nat)
    requires 1 <= k <= |exams|
    ensures ChoiceOf(exams, NatToString(k)) == Selected(exams[k - 1])
  {
    var d := NatToString(k);
    assert PyInt(d) == Some(k) by {
      assert IntToString(k) == d;
      PyIntOfIntToString(k);
    }
    assert Strip(d) == d by {
      assert IsDigit(d[0]) && IsDigit(d[|d| - 1]);
      StripNoSpaceEnds(d);
    }
    assert d != "0" by {
      DigitsValueOfNatToString(k);
      assert DigitsValue("0") == 0;
    }
  }

  /** The outcome of `select_exam`, given the lines the user types. */
  datatype Selection = NoExams | Cancelled | Chose(exam: string) | Waiting

  predicate Decisive(c: Choice) {
    c.Cancel? || c.Selected?
  }

  /** The line is answered with a message and the prompt is shown again. */
  predicate Rejected(exams: seq<string>, input: string) {
    !Decisive(ChoiceOf(exams, input))
  }

  /** The loop: rejected lines are asked again; `Waiting` means the lines
      ran out before a decision. */
  function Decide(exams: seq<string>, inputs: seq<string>): (r: Selection)
    ensures r.Chose? ==> r.exam in exams
    decreases |inputs|
  {
    if |inputs| == 0 then Waiting
    else
      match ChoiceOf(exams, inputs[0])
      case Cancel => Cancelled
      case Selected(e) => Chose(e)
      case _ => Decide(exams, inputs[1..])
  }

  /** The lines run out without a decision exactly when every one of them
      was rejected. */
  lemma {:induction false} DecideWaiting(exams: seq<string>, inputs: seq<string>)
    ensures Decide(exams, inputs).Waiting? <==> forall i :: 0 <= i < |inputs| ==> Rejected(exams, inputs[i])
    decreases |inputs|
  {
    if |inputs| > 0 {
      var rest := inputs[1..];
      DecideStep(exams, inputs);
      RejectedCons(exams, inputs);
      if Rejected(exams, inputs[0]) {
        DecideWaiting(exams, rest);
      }
    }
  }

  /** All lines are rejected exactly when the first one is and all the
      others are. */
  lemma RejectedCons(exams: seq<string>, inputs: seq<string>)
    requires |inputs| > 0
    ensures (forall i :: 0 <= i < |inputs| ==> Rejected(exams, inputs[i]))
        <==> Rejected(exams, inputs[0]) && forall i :: 0 <= i < |inputs[1..]| ==> Rejected(exams, inputs[1..][i])
  {
    assert forall i :: 1 <= i < |inputs| ==> inputs[i] == inputs[1..][i - 1];
  }

  /** One line read: a rejected line leaves the decision to the lines
      after it. */
  lemma DecideStep(exams: seq<string>, inputs: seq<string>)
    requires |inputs| > 0
    ensures Rejected(exams, inputs[0]) ==> Decide(exams, inputs) == Decide(exams, inputs[1..])
    ensures !Rejected(exams, inputs[0]) ==> !Decide(exams, inputs).Waiting?
  {
  }

  /** `select_exam`: no exams means no prompt at all. */
  function SelectExam(exams: seq<string>, inputs: seq<string>): (r: Selection)
    ensures |exams| == 0 ==> r == NoExams
    ensures r.Chose? ==> r.exam in exams
  {
    if |exams| == 0 then NoExams else Decide(exams, inputs)
  }

  /** The first decisive line decides; the lines before it are rejected
      and the lines after it are never read. */
  lemma {:induction false} DecideFirst(exams: seq<string>, inputs: seq<string>, k: nat)
    requires k < |inputs| && !Rejected(exams, inputs[k])
    requires forall i :: 0 <= i < k ==> Rejected(exams, inputs[i])
    ensures Decide(exams, inputs) == Decide(exams, inputs[k..k + 1])
    ensures ChoiceOf(exams, inputs[k]).Cancel? ==> Decide(exams, inputs) == Cancelled
    ensures ChoiceOf(exams, inputs[k]).Selected? ==> Decide(exams, inputs) == Chose(ChoiceOf(exams, inputs[k]).exam)
    decreases k
  {
    if k > 0 {
      assert inputs[1..][k - 1] == inputs[k];
      assert inputs[1..][k - 1..k] == inputs[k..k + 1];
      DecideFirst(exams, inputs[1..], k - 1);
    }
  }
}
