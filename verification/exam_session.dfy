/** The in-memory exam session of `web/server.py`: the timer state and the
    set of flagged questions, as the POST endpoints `/api/timer/start`,
    `/api/timer/stop`, `/api/flag` and `/api/score`, the timer query
    `get_timer_state` and the auto-start of `main` change and report them.

    The clock is a parameter: `now` is the value `time.time()` returns, in
    seconds, as a real number. */
module ExamSession {
  import opened Wrappers
  import opened Strings
  import opened Numbers
  import opened ServerConfig
  import opened ScoreOutput

  /** The `timer_state` dictionary. */
  datatype TimerState = TimerState(
    startTime: Option<real>,
    durationMinutes: int,
    examId: Option<string>,
    examName: Option<string>,
    running: bool,
    startQuestion: int)

  /** The server's whole mutable state: the timer and `flagged_questions`. */
  datatype Server = Server(timer: TimerState, flags: set<string>)

  const InitialTimer := TimerState(None, 120, None, None, false, 1)
  const InitialServer := Server(InitialTimer, {})

  /** The exam `/api/timer/start` starts when the request names none. */
  const DefaultExamId := "ckad-simulation1"

  /** Python's `int()` of a float: truncation toward zero. */
  function Trunc(x: real): (r: int)
    ensures x >= 0.0 ==> r >= 0 && r as real <= x < r as real + 1.0
    ensures x < 0.0 ==> r <= 0 && r as real - 1.0 < x <= r as real
  {
    if x >= 0.0 then x.Floor else -((-x).Floor)
  }

  // ---------------------------------------------------------------------
  // get_timer_state

  /** The dictionary `get_timer_state` returns. */
  datatype TimerView = TimerView(
    running: bool,
    remaining: int,
    elapsed: int,
    total: int,
    examId: Option<string>,
    examName: Option<string>,
    startQuestion: int)

  /** `get_timer_state` at time `now`: the reply, and the state after it,
      since a query that finds the time used up stops the timer. */
  function Status(s: Server, now: real): (r: (Server, TimerView))
    ensures r.0.flags == s.flags
    ensures r.0.timer == s.timer.(running := r.0.timer.running)
    ensures !Ticking(s) ==> r.0 == s && !r.1.running
    ensures Ticking(s) ==> r.1.running == r.0.timer.running
    ensures r.1.total == s.timer.durationMinutes * 60
    ensures r.1.remaining >= 0
    ensures Ticking(s) ==>
      var e := now - s.timer.startTime.value;
      && r.1.elapsed == Trunc(e)
      && (r.1.running <==> e < r.1.total as real)
      && r.1.remaining == (if r.1.running then Trunc(r.1.total as real - e) else 0)
    ensures r.1.examId == s.timer.examId && r.1.examName == s.timer.examName
    ensures r.1.startQuestion == s.timer.startQuestion
  {
    var t := s.timer;
    var total := t.durationMinutes * 60;
    if !t.running || t.startTime.None? then
      (s, TimerView(false, 0, 0, total, t.examId, t.examName, t.startQuestion))
    else
      var elapsed := now - t.startTime.value;
      var remaining := if total as real - elapsed > 0.0 then total as real - elapsed else 0.0;
      var running := !(remaining <= 0.0);
      (s.(timer := t.(running := running)),
       TimerView(running, Trunc(remaining), Trunc(elapsed), total, t.examId, t.examName, t.startQuestion))
  }

  /** A timer that runs and was started. */
  predicate Ticking(s: Server) {
    s.timer.running && s.timer.startTime.Some?
  }

  /** A stopped timer reports nothing left and nothing used, and the query
      changes nothing. */
  lemma StatusStopped(s: Server, now: real)
    requires !Ticking(s)
    ensures Status(s, now).0 == s
    ensures var v := Status(s, now).1; !v.running && v.remaining == 0 && v.elapsed == 0
  {
  }

  /** Within the exam's time, the timer keeps running and the whole
      seconds left and used add up to the total, less one for the fraction
      of a second both leave out. */
  lemma StatusWithinTime(s: Server, now: real)
    requires Ticking(s)
    requires var e := now - s.timer.startTime.value; 0.0 <= e < (s.timer.durationMinutes * 60) as real
    ensures Status(s, now).0 == s
    ensures var v := Status(s, now).1;
      && v.running
      && v.elapsed == Trunc(now - s.timer.startTime.value)
      && v.remaining == Trunc(v.total as real - (now - s.timer.startTime.value))
      && v.total - 1 <= v.remaining + v.elapsed <= v.total
  {
  }

  /** Once the exam's time is used up, the query stops the timer and
      reports nothing left. */
  lemma StatusExpired(s: Server, now: real)
    requires Ticking(s)
    requires now - s.timer.startTime.value >= (s.timer.durationMinutes * 60) as real
    ensures var (s', v) := Status(s, now);
      && !v.running && v.remaining == 0
      && s' == s.(timer := s.timer.(running := false))
  {
  }

  /** After expiry every later query sees a stopped timer, and reports no
      elapsed time either. */
  lemma ExpiredStaysStopped(s: Server, now: real, later: real)
    requires Ticking(s)
    requires now - s.timer.startTime.value >= (s.timer.durationMinutes * 60) as real
    ensures var s' := Status(s, now).0;
      && Status(s', later).0 == s'
      && Status(s', later).1.remaining == 0 && Status(s', later).1.elapsed == 0
      && !Status(s', later).1.running
  {
    StatusExpired(s, now);
    StatusStopped(Status(s, now).0, later);
  }

  /** The time left never grows as the clock advances. */
  lemma RemainingNonIncreasing(s: Server, a: real, b: real)
    requires Ticking(s) && a <= b
    ensures Status(s, b).1.remaining <= Status(s, a).1.remaining
  {
    var total := (s.timer.durationMinutes * 60) as real;
    var st := s.timer.startTime.value;
    var ra := if total - (a - st) > 0.0 then total - (a - st) else 0.0;
    var rb := if total - (b - st) > 0.0 then total - (b - st) else 0.0;
    assert Status(s, a).1.remaining == Trunc(ra);
    assert Status(s, b).1.remaining == Trunc(rb);
    TruncMonotone(rb, ra);
  }

  lemma TruncMonotone(x: real, y: real)
    requires 0.0 <= x <= y
    ensures Trunc(x) <= Trunc(y)
  {
  }

  /** A ten-minute exam started at second 1000: five seconds in, 595
      remain; at second 1601 the time is up. */
  lemma StatusExample()
    ensures var s := Server(TimerState(Some(1000.0), 10, Some("ckad-simulation1"), Some("CKAD"), true, 1), {});
      && Status(s, 1005.0).1 == TimerView(true, 595, 5, 600, Some("ckad-simulation1"), Some("CKAD"), 1)
      && Status(s, 1601.0).1 == TimerView(false, 0, 601, 600, Some("ckad-simulation1"), Some("CKAD"), 1)
  {
    assert Trunc(595.0) == 595 && Trunc(5.0) == 5 && Trunc(601.0) == 601 && Trunc(0.0) == 0;
  }

  // ---------------------------------------------------------------------
  // POST /api/timer/start and /api/timer/stop

  /** The exam a start request names, or the default one. */
  function RequestedExam(requested: Option<string>): string {
    if requested.Some? then requested.value else DefaultExamId
  }

  /** `/api/timer/start`: load the exam's configuration (given as the text
      of its `exam.conf`, if there is one), start the clock at `now`, clear
      the flags, and reply with the timer's state as read at `later`: the
      reply reads the clock a second time. A configuration `int()` rejects
      raises before anything changes. */
  function Start(s: Server, requested: Option<string>, conf: Option<string>, now: real, later: real): (r: Result<(Server, TimerView)>)
    ensures r.Success? <==> LoadExamConfig(RequestedExam(requested), conf).Success?
    ensures r.Success? ==>
      var c := LoadExamConfig(RequestedExam(requested), conf).value;
      var t := r.value.0.timer;
      var v := r.value.1;
      && r.value.0.flags == {}
      && t.startTime == Some(now)
      && t.durationMinutes == c.duration
      && t.examId == Some(RequestedExam(requested))
      && t.examName == Some(c.examName)
      && t.startQuestion == s.timer.startQuestion
      && (t.running <==> later - now < (c.duration * 60) as real)
      && v.running == t.running
      && v.total == c.duration * 60
      && v.elapsed == Trunc(later - now)
      && v.remaining == (if t.running then Trunc((c.duration * 60) as real - (later - now)) else 0)
  {
    var examId := RequestedExam(requested);
    match LoadExamConfig(examId, conf)
    case Failure(e) => Failure(e)
    case Success(c) =>
      var t := s.timer.(startTime := Some(now), durationMinutes := c.duration, examId := Some(examId),
                        examName := Some(c.examName), running := true);
      Success(Status(Server(t, {}), later))
  }

  /** Read at the very instant of the start, the reply shows the whole
      exam left and nothing used; read any fraction of a second later, as
      the second clock reading in practice is, it shows one second less. */
  lemma StartReply(s: Server, requested: Option<string>, conf: Option<string>, now: real, later: real)
    requires Start(s, requested, conf, now, later).Success?
    ensures var c := LoadExamConfig(RequestedExam(requested), conf).value;
      var v := Start(s, requested, conf, now, later).value.1;
      && (later == now ==> v.elapsed == 0 && v.remaining == (if c.duration > 0 then c.duration * 60 else 0))
      && (c.duration > 0 && now < later < now + 1.0 ==> v.running && v.elapsed == 0 && v.remaining == c.duration * 60 - 1)
  {
  }

  /** `/api/timer/stop`. */
  function Stop(s: Server): (r: Server)
    ensures !r.timer.running
  {
    s.(timer := s.timer.(running := false))
  }

  /** Stopping keeps the exam and its start time; the timer then reports
      itself stopped, and stopping again changes nothing. */
  lemma StopSpec(s: Server, now: real)
    ensures Stop(s).flags == s.flags
    ensures Stop(s).timer.startTime == s.timer.startTime && Stop(s).timer.examId == s.timer.examId
    ensures Stop(Stop(s)) == Stop(s)
    ensures Status(Stop(s), now) == (Stop(s), TimerView(false, 0, 0, s.timer.durationMinutes * 60,
                                                      s.timer.examId, s.timer.examName, s.timer.startQuestion))
  {
  }

  // ---------------------------------------------------------------------
  // POST /api/flag

  /** The reply of `/api/flag`: the question's new flag, or the 400 error. */
  datatype FlagReply = Flagged(flagged: bool) | MissingQuestionId

  /** `/api/flag`: a missing or empty `question_id` is refused; otherwise
      the question's flag is toggled. */
  function ToggleFlag(s: Server, qid: Option<string>): (r: (Server, FlagReply))
    ensures qid.None? || qid == Some("") ==> r == (s, MissingQuestionId)
    ensures qid.Some? && qid.value != "" ==>
      && r.0.timer == s.timer
      && r.1 == Flagged(qid.value in r.0.flags)
      && (qid.value in r.0.flags <==> qid.value !in s.flags)
      && r.0.flags - {qid.value} == s.flags - {qid.value}
  {
    match qid
    case None => (s, MissingQuestionId)
    case Some(q) =>
      if q == "" then (s, MissingQuestionId)
      else if q in s.flags then (s.(flags := s.flags - {q}), Flagged(false))
      else (s.(flags := s.flags + {q}), Flagged(true))
  }

  /** Flagging a question twice leaves the flags as they were. */
  lemma ToggleTwice(s: Server, qid: Option<string>)
    ensures ToggleFlag(ToggleFlag(s, qid).0, qid).0 == s
  {
    if qid.Some? && qid.value != "" {
      var s2 := ToggleFlag(ToggleFlag(s, qid).0, qid).0;
      assert s2.flags == s.flags by {
        forall x ensures x in s2.flags <==> x in s.flags {
          if x != qid.value {
            assert x in s2.flags - {qid.value} <==> x in s.flags - {qid.value};
          }
        }
      }
    }
  }

  // ---------------------------------------------------------------------
  // POST /api/score

  /** `int(elapsed // 60)`, then `int(elapsed % 60)` written with at least
      two digits. */
  function FormatElapsed(e: real): string {
    Clock(Minutes(e), Seconds(e))
  }

  /** `elapsed // 60`. */
  function Minutes(e: real): int {
    (e / 60.0).Floor
  }

  /** `int(elapsed % 60)`: the whole seconds past the minute. */
  function Seconds(e: real): (r: nat)
    ensures r < 60
  {
    Trunc(e - 60.0 * Minutes(e) as real)
  }

  /** The text `M:SS`. */
  function Clock(m: int, sec: nat): string {
    IntToString(m) + ":" + Pad2(sec)
  }

  /** `{:02d}` of a non-negative number. */
  function Pad2(n: nat): (r: string)
    ensures |r| >= 2 && IsDigits(r)
  {
    if n < 10 then "0" + NatToString(n) else NatToString(n)
  }

  /** The minutes and seconds an `M:SS` text spells, read back with
      `int()`. */
  function ParseElapsed(text: string): Option<(int, int)> {
    var parts := Split(text, ':');
    if |parts| != 2 then None
    else
      match (PyInt(parts[0]), PyInt(parts[1]))
      case (Some(m), Some(sec)) => Some((m, sec))
      case _ => None
  }

  lemma PyIntOfPad2(n: nat)
    ensures PyInt(Pad2(n)) == Some(n)
  {
    if n < 10 {
      var d := "0" + NatToString(n);
      assert d == "0" + [DigitChar(n)];
      assert d[..|d| - 1] == "0" && d[|d| - 1] == DigitChar(n);
      assert DigitsValue("0") == 0;
      assert DigitsValue(d) == n;
      DigitsAccepted(d);
      PyIntOfDigits(d, n);
    } else {
      PyIntOfIntToString(n);
    }
  }

  lemma NoColonInInt(i: int)
    ensures ':' !in IntToString(i)
  {
    var n: nat := if i < 0 then -i else i;
    assert IsDigits(NatToString(n));
    if i < 0 {
      assert IntToString(i) == "-" + NatToString(n);
    }
  }

  /** An `M:SS` text splits at its colon. */
  lemma ParseClock(m: int, sec: nat)
    ensures ParseElapsed(Clock(m, sec)) == Some((m, sec))
  {
    var a := IntToString(m);
    var b := Pad2(sec);
    NoColonInInt(m);
    assert ':' !in b;
    assert a + ":" + b == Join([a, b], ':');
    SplitJoin([a, b], ':');
    PyIntOfIntToString(m);
    PyIntOfPad2(sec);
  }

  /** For a non-negative time, whole minutes and the seconds past them add
      up to the whole seconds. */
  lemma MinutesAndSeconds(e: real)
    requires e >= 0.0
    ensures Minutes(e) * 60 + Seconds(e) == Trunc(e)
  {
  }

  /** `elapsed_formatted` reads back as the minutes and seconds of the
      elapsed time; once the clock has moved forward they add up to
      `elapsed_seconds`. */
  lemma ElapsedRoundTrip(e: real)
    ensures ParseElapsed(FormatElapsed(e)) == Some((Minutes(e), Seconds(e)))
    ensures e >= 0.0 ==> Minutes(e) * 60 + Seconds(e) == Trunc(e)
  {
    ParseClock(Minutes(e), Seconds(e));
    if e >= 0.0 {
      MinutesAndSeconds(e);
    }
  }

  /** The timing part of the score reply: `elapsed_seconds` and
      `elapsed_formatted`. */
  datatype Elapsed = Elapsed(seconds: int, formatted: string)

  /** The dictionary `/api/score` replies with. */
  datatype ScoreReply = ScoreReply(
    result: ScoreResult,
    elapsed: Option<Elapsed>,
    solutionsAvailable: bool,
    examId: Option<string>)

  /** `timer_state.get("exam_id") or data.get("exam_id")`: the running
      exam unless its id is missing or empty. */
  function ScoredExam(t: TimerState, requested: Option<string>): (r: Option<string>)
    ensures t.examId.Some? && t.examId.value != "" ==> r == t.examId
    ensures t.examId.None? || t.examId == Some("") ==> r == requested
  {
    if t.examId.Some? && t.examId.value != "" then t.examId else requested
  }

  /** `/api/score`: the timer is stopped, the scoring script's outcome
      `run` (for the exam `ScoredExam` names) is turned into a score, and
      the time since the start is added when a start time is set (a start
      time of exactly zero counts as unset, as Python's truthiness has
      it). `solutionsExist` says whether the exam has a `solutions.md`. */
  function Score(s: Server, requested: Option<string>, run: ScoringRun, solutionsExist: bool, now: real): (r: (Server, ScoreReply))
    ensures r.0 == Stop(s)
    ensures r.1.result == RunScoring(run)
    ensures r.1.examId == ScoredExam(s.timer, requested)
    ensures r.1.solutionsAvailable <==> solutionsExist && r.1.examId.Some? && r.1.examId.value != ""
    ensures r.1.elapsed.Some? <==> s.timer.startTime.Some? && s.timer.startTime.value != 0.0
    ensures r.1.elapsed.Some? ==>
      var e := now - s.timer.startTime.value;
      r.1.elapsed.value.seconds == Trunc(e) && r.1.elapsed.value.formatted == FormatElapsed(e)
  {
    var examId := ScoredExam(s.timer, requested);
    var elapsed :=
      if s.timer.startTime.Some? && s.timer.startTime.value != 0.0 then
        var e := now - s.timer.startTime.value;
        ElapsedRoundTrip(e);
        Some(Elapsed(Trunc(e), FormatElapsed(e)))
      else None;
    var available := if examId.Some? && examId.value != "" then solutionsExist else false;
    (Stop(s), ScoreReply(RunScoring(run), elapsed, available, examId))
  }

  // ---------------------------------------------------------------------
  // main

  /** What `main` reads from its command line: the port, the exam to start
      and the question to start at. */
  datatype Launch = Launch(port: int, examId: Option<string>, startQuestion: int)

  const DefaultPort := 9090

  /** `sys.argv` as `main` reads it: a port that `int()` rejects keeps the
      default, and so does a start question. */
  function LaunchOf(argv: seq<string>): (r: Launch)
    ensures |argv| > 1 && PyInt(argv[1]).Some? ==> r.port == PyInt(argv[1]).value
    ensures !(|argv| > 1 && PyInt(argv[1]).Some?) ==> r.port == DefaultPort
    ensures r.examId.Some? <==> |argv| > 2
    ensures r.examId.Some? ==> r.examId.value == argv[2]
    ensures |argv| > 3 && PyInt(argv[3]).Some? ==> r.startQuestion == PyInt(argv[3]).value
    ensures !(|argv| > 3 && PyInt(argv[3]).Some?) ==> r.startQuestion == 1
  {
    Launch(
      if |argv| > 1 && PyInt(argv[1]).Some? then PyInt(argv[1]).value else DefaultPort,
      if |argv| > 2 then Some(argv[2]) else None,
      if |argv| > 3 && PyInt(argv[3]).Some? then PyInt(argv[3]).value else 1)
  }

  /** The auto-start of `main`: with a non-empty exam id the timer of a
      fresh server is started at `now` for that exam, at the requested
      question; otherwise the server starts idle. */
  function AutoStart(l: Launch, conf: Option<string>, now: real): (r: Result<Server>)
    ensures l.examId.None? || l.examId == Some("") ==> r == Success(InitialServer)
  {
    match l.examId
    case None => Success(InitialServer)
    case Some(id) =>
      if id == "" then Success(InitialServer)
      else
        match LoadExamConfig(id, conf)
        case Failure(e) => Failure(e)
        case Success(c) => Success(Server(TimerState(Some(now), c.duration, Some(id), Some(c.examName), true, l.startQuestion), {}))
  }

  /** Auto-starting an exam is starting it through `/api/timer/start` on a
      fresh server, except that the start question is the one asked for:
      both fail together, and otherwise agree once the timer is queried. */
  lemma AutoStartIsStart(l: Launch, conf: Option<string>, now: real)
    requires l.examId.Some? && l.examId.value != ""
    ensures AutoStart(l, conf, now).Success? <==> Start(InitialServer, l.examId, conf, now, now).Success?
    ensures AutoStart(l, conf, now).Success? ==>
      var started := Start(InitialServer, l.examId, conf, now, now).value.0;
      Status(AutoStart(l, conf, now).value, now).0
        == started.(timer := started.timer.(startQuestion := l.startQuestion))
  {
  }
}
