/** `load_exam_config` of `web/server.py`: an exam's `exam.conf` is read as
    bash-style `KEY=value` lines over a set of defaults. Each line is first
    read into a `Setting` (or skipped); the settings are then applied in
    file order. A malformed number makes `int()` raise, which the source
    does not catch: that outcome is a `Failure`. */
module ServerConfig {
  import opened Wrappers
  import opened Strings
  import opened Numbers

  /** The dictionary `load_exam_config` returns. */
  datatype ExamConfig = ExamConfig(
    examName: string,
    examId: string,
    duration: int,
    warningTime: int,
    totalQuestions: int,
    totalPoints: int,
    passingPercentage: int)

  /** The values used when the file is missing or silent. */
  function Defaults(examId: string): ExamConfig {
    ExamConfig(examId, examId, 120, 15, 22, 113, 66)
  }

  /** The recognised keys. */
  datatype Field = ExamName | Duration | WarningTime | TotalQuestions | TotalPoints | PassingPercentage

  function KeyOf(f: Field): string {
    match f
    case ExamName => "EXAM_NAME"
    case Duration => "EXAM_DURATION"
    case WarningTime => "EXAM_WARNING_TIME"
    case TotalQuestions => "TOTAL_QUESTIONS"
    case TotalPoints => "TOTAL_POINTS"
    case PassingPercentage => "PASSING_PERCENTAGE"
  }

  /** The `if`/`elif` chain on the key; any other key is ignored. */
  function FieldOf(key: string): (r: Option<Field>)
    ensures r.Some? ==> KeyOf(r.value) == key
  {
    if key == "EXAM_NAME" then Some(ExamName)
    else if key == "EXAM_DURATION" then Some(Duration)
    else if key == "EXAM_WARNING_TIME" then Some(WarningTime)
    else if key == "TOTAL_QUESTIONS" then Some(TotalQuestions)
    else if key == "TOTAL_POINTS" then Some(TotalPoints)
    else if key == "PASSING_PERCENTAGE" then Some(PassingPercentage)
    else None
  }

  /** Each field is recognised by its own key. */
  lemma FieldOfKeyOf(f: Field)
    ensures FieldOf(KeyOf(f)) == Some(f)
  {
  }

  lemma KeysAreWords(f: Field)
    ensures IsKeyWord(KeyOf(f))
  {
    match f
    case ExamName => assert IsKeyWord("EXAM_NAME");
    case Duration => assert IsKeyWord("EXAM_DURATION");
    case WarningTime => assert IsKeyWord("EXAM_WARNING_TIME");
    case TotalQuestions => assert IsKeyWord("TOTAL_QUESTIONS");
    case TotalPoints => assert IsKeyWord("TOTAL_POINTS");
    case PassingPercentage => assert IsKeyWord("PASSING_PERCENTAGE");
  }

  /** A recognised line: the field it sets, its value text, and for a
      numeric field what `int()` makes of the text. */
  datatype Setting = Setting(field: Field, text: string, number: Option<int>)

  /** The position of the first `c` in `s`. */
  function FirstIndex(s: string, c: char): (r: nat)
    requires c in s
    ensures r < |s| && s[r] == c && c !in s[..r]
  {
    if s[0] == c then 0
    else
      var k := FirstIndex(s[1..], c);
      assert s[..k + 1] == [s[0]] + s[1..][..k];
      k + 1
  }

  /** The value part of a line: surrounding blanks, then double quotes,
      then single quotes removed. */
  function CleanValue(v: string): string {
    StripChar(StripChar(Strip(v), '"'), '\'')
  }

  /** A key and its cleaned value: an unknown key is ignored. */
  function SettingFrom(key: string, value: string): Option<Setting> {
    match FieldOf(key)
    case None => None
    case Some(f) => Some(Setting(f, value, if f == ExamName then None else PyInt(value)))
  }

  /** The first `c` is the one with no `c` before it. */
  lemma FirstIndexAt(s: string, c: char, k: nat)
    requires k < |s| && s[k] == c && c !in s[..k]
    ensures FirstIndex(s, c) == k
  {
  }

  /** One line of the file: stripped; comments and lines without `=` are
      skipped; the rest is split at the first `=` into a stripped key and
      a cleaned value. */
  function SettingOf(line: string): (r: Option<Setting>)
    ensures r.Some? ==> '=' in line
  {
    var t := Strip(line);
    if StartsWith(t, "#") || '=' !in t then None
    else
      var eq := FirstIndex(t, '=');
      SettingFrom(Strip(t[..eq]), CleanValue(t[eq + 1..]))
  }

  function SettingsOf(lines: seq<string>): seq<Setting> {
    if |lines| == 0 then []
    else
      (match SettingOf(lines[0]) case Some(s) => [s] case None => []) + SettingsOf(lines[1..])
  }

  /** The `ValueError` message of `int()`. */
  function BadNumber(text: string): string {
    "invalid literal for int() with base 10: '" + text + "'"
  }

  /** One assignment to the dictionary. */
  function Apply(cfg: ExamConfig, s: Setting): (r: Result<ExamConfig>)
    ensures r.Success? <==> s.field == ExamName || s.number.Some?
    ensures r.Success? ==> r.value.examId == cfg.examId
  {
    if s.field == ExamName then Success(cfg.(examName := s.text))
    else if s.number.None? then Failure(BadNumber(s.text))
    else
      var n := s.number.value;
      Success(match s.field
        case Duration => cfg.(duration := n)
        case WarningTime => cfg.(warningTime := n)
        case TotalQuestions => cfg.(totalQuestions := n)
        case TotalPoints => cfg.(totalPoints := n)
        case PassingPercentage => cfg.(passingPercentage := n)
        case ExamName => cfg)
  }

  function ApplyAll(cfg: ExamConfig, ss: seq<Setting>): Result<ExamConfig>
    decreases |ss|
  {
    if |ss| == 0 then Success(cfg)
    else
      match Apply(cfg, ss[0])
      case Failure(e) => Failure(e)
      case Success(c) => ApplyAll(c, ss[1..])
  }

  /** `load_exam_config(exam_id)`, given the file's text when it exists. */
  function LoadExamConfig(examId: string, file: Option<string>): (r: Result<ExamConfig>)
    ensures file.None? ==> r == Success(Defaults(examId))
  {
    match file
    case None => Success(Defaults(examId))
    case Some(content) => ApplyAll(Defaults(examId), SettingsOf(Split(content, '\n')))
  }

  // The reference description: the last assignment to each key wins.

  /** The last setting of field `f`. */
  function LastSetting(ss: seq<Setting>, f: Field): (r: Option<Setting>)
    ensures r.Some? ==> r.value in ss && r.value.field == f
  {
    if |ss| == 0 then None
    else if ss[|ss| - 1].field == f then Some(ss[|ss| - 1])
    else LastSetting(ss[..|ss| - 1], f)
  }

  /** Every numeric setting holds a number `int()` accepts. */
  predicate NumbersValid(ss: seq<Setting>) {
    forall i :: 0 <= i < |ss| ==> ss[i].field == ExamName || ss[i].number.Some?
  }

  function NumberOr(s: Option<Setting>, fallback: int): int {
    if s.Some? && s.value.number.Some? then s.value.number.value else fallback
  }

  function TextOr(s: Option<Setting>, fallback: string): string {
    if s.Some? then s.value.text else fallback
  }

  /** `cfg` with each field replaced by its last setting, if any. */
  function Overlay(cfg: ExamConfig, ss: seq<Setting>): ExamConfig {
    ExamConfig(
      TextOr(LastSetting(ss, ExamName), cfg.examName),
      cfg.examId,
      NumberOr(LastSetting(ss, Duration), cfg.duration),
      NumberOr(LastSetting(ss, WarningTime), cfg.warningTime),
      NumberOr(LastSetting(ss, TotalQuestions), cfg.totalQuestions),
      NumberOr(LastSetting(ss, TotalPoints), cfg.totalPoints),
      NumberOr(LastSetting(ss, PassingPercentage), cfg.passingPercentage))
  }

  /** Applying one more setting after `ss` is the overlay of the longer
      list. */
  lemma OverlayStep(cfg: ExamConfig, ss: seq<Setting>, s: Setting)
    requires s.field == ExamName || s.number.Some?
    ensures Apply(Overlay(cfg, ss), s) == Success(Overlay(cfg, ss + [s]))
  {
    var all := ss + [s];
    assert all[|all| - 1] == s && all[..|all| - 1] == ss;
  }

  lemma NumbersValidCons(ss: seq<Setting>)
    requires |ss| > 0
    ensures NumbersValid(ss) <==> (ss[0].field == ExamName || ss[0].number.Some?) && NumbersValid(ss[1..])
  {
    if NumbersValid(ss[1..]) && (ss[0].field == ExamName || ss[0].number.Some?) {
      forall i | 0 <= i < |ss| ensures ss[i].field == ExamName || ss[i].number.Some? {
        if i > 0 { assert ss[i] == ss[1..][i - 1]; }
      }
    }
  }

  /** Applying the settings in order fails exactly when one of them holds
      a malformed number, and otherwise gives the overlay. */
  lemma {:induction false} ApplyAllSpec(cfg: ExamConfig, ss: seq<Setting>)
    ensures ApplyAll(cfg, ss).Success? <==> NumbersValid(ss)
    ensures ApplyAll(cfg, ss).Success? ==> ApplyAll(cfg, ss).value == Overlay(cfg, ss)
    decreases |ss|
  {
    ApplyAllFrom(cfg, [], ss);
    assert [] + ss == ss;
  }

  /** The induction behind `ApplyAllSpec`, from an overlay of the
      settings already applied. */
  lemma {:induction false} ApplyAllFrom(cfg: ExamConfig, done: seq<Setting>, ss: seq<Setting>)
    requires NumbersValid(done)
    ensures ApplyAll(Overlay(cfg, done), ss).Success? <==> NumbersValid(ss)
    ensures ApplyAll(Overlay(cfg, done), ss).Success? ==> ApplyAll(Overlay(cfg, done), ss).value == Overlay(cfg, done + ss)
    decreases |ss|
  {
    if |ss| == 0 {
      assert done + ss == done;
    } else {
      var s := ss[0];
      if s.field == ExamName || s.number.Some? {
        OverlayStep(cfg, done, s);
        ApplyAllFrom(cfg, done + [s], ss[1..]);
        assert done + [s] + ss[1..] == done + ss;
      }
      NumbersValidCons(ss);
    }
  }

  /** `load_exam_config` reads the file as the defaults overlaid with the
      last assignment to each recognised key; it fails exactly when a
      numeric key is assigned something `int()` rejects. */
  lemma LoadExamConfigSpec(examId: string, content: string)
    ensures var ss := SettingsOf(Split(content, '\n'));
      var r := LoadExamConfig(examId, Some(content));
      && (r.Success? <==> NumbersValid(ss))
      && (r.Success? ==> r.value == Overlay(Defaults(examId), ss))
  {
    ApplyAllSpec(Defaults(examId), SettingsOf(Split(content, '\n')));
  }

  /** The exam id is never read from the file. */
  lemma LoadKeepsExamId(examId: string, file: Option<string>)
    ensures LoadExamConfig(examId, file).Success? ==> LoadExamConfig(examId, file).value.examId == examId
  {
    if file.Some? {
      LoadExamConfigSpec(examId, file.value);
    }
  }

  /** A printed integer is its own cleaned value. */
  lemma CleanInt(n: int)
    ensures CleanValue(IntToString(n)) == IntToString(n)
  {
    var v := IntToString(n);
    var d := NatToString(if n < 0 then -n else n);
    assert v[|v| - 1] == d[|d| - 1];
    TrimNoEnds(v, Whitespace);
    TrimNoEnds(v, Only('"'));
    TrimNoEnds(v, Only('\''));
  }

  /** Splitting a line that needs no stripping at its first `=`. */
  lemma SettingOfSplit(line: string, eq: nat)
    requires |line| > 0 && !IsSpace(line[0]) && !IsSpace(line[|line| - 1]) && line[0] != '#'
    requires eq < |line| && line[eq] == '=' && '=' !in line[..eq]
    ensures SettingOf(line) == SettingFrom(Strip(line[..eq]), CleanValue(line[eq + 1..]))
  {
    assert Strip(line) == line by { StripNoSpaceEnds(line); }
    assert !StartsWith(line, "#") by { assert line[..1][0] == line[0]; }
    assert line[eq] in line;
    assert FirstIndex(line, '=') == eq by { FirstIndexAt(line, '=', eq); }
  }

  /** A line `KEY=value` is read as that key and the cleaned value. */
  lemma SettingOfAssignment(f: Field, v: string)
    requires |v| > 0 && !IsSpace(v[|v| - 1])
    ensures SettingOf(KeyOf(f) + "=" + v) == SettingFrom(KeyOf(f), CleanValue(v))
  {
    var k := KeyOf(f);
    KeysAreWords(f);
    KeyWordShape(k);
    var line := k + "=" + v;
    assert line[0] == k[0] && line[|line| - 1] == v[|v| - 1];
    assert line[|k|] == '=' && line[..|k|] == k;
    SettingOfSplit(line, |k|);
    assert line[|k| + 1..] == v;
  }

  /** A numeric assignment written as `KEY=<n>` is read back as `n`. */
  lemma SettingOfNumber(f: Field, n: int)
    requires f != ExamName
    ensures SettingOf(KeyOf(f) + "=" + IntToString(n)) == Some(Setting(f, IntToString(n), Some(n)))
  {
    var v := IntToString(n);
    assert v[|v| - 1] == NatToString(if n < 0 then -n else n)[|NatToString(if n < 0 then -n else n)| - 1];
    CleanInt(n);
    SettingOfAssignment(f, v);
    FieldOfKeyOf(f);
    PyIntOfIntToString(n);
  }

  /** The quotes around a value are not part of it. */
  lemma CleanQuoted(name: string)
    requires |name| > 0
    requires !IsSpace(name[0]) && name[0] != '"' && name[0] != '\''
    requires !IsSpace(name[|name| - 1]) && name[|name| - 1] != '"' && name[|name| - 1] != '\''
    ensures CleanValue("\"" + name + "\"") == name
  {
    var q := "\"" + name + "\"";
    assert Strip(q) == q by { TrimNoEnds(q, Whitespace); }
    assert StripChar(q, '"') == name by { TrimEnclosed(name, '"'); }
    TrimNoEnds(name, Only('\''));
  }

  /** `EXAM_NAME="<name>"` sets the exam's name to `name`. */
  lemma SettingOfQuotedName(name: string)
    requires |name| > 0
    requires !IsSpace(name[0]) && name[0] != '"' && name[0] != '\''
    requires !IsSpace(name[|name| - 1]) && name[|name| - 1] != '"' && name[|name| - 1] != '\''
    ensures SettingOf("EXAM_NAME=\"" + name + "\"") == Some(Setting(ExamName, name, None))
  {
    var v := "\"" + name + "\"";
    var line := KeyOf(ExamName) + "=" + v;
    assert line == "EXAM_NAME=\"" + name + "\"";
    assert SettingOf(line) == SettingFrom("EXAM_NAME", name) by {
      CleanQuoted(name);
      SettingOfAssignment(ExamName, v);
    }
  }
}
