# ckad-dojo, the text-processing core, in Dafny

ckad-dojo is a local simulator for the CKAD certification exam. A Python web
server (`web/server.py`) serves an exam's questions and solutions, which it
reads from Markdown files. It also keeps a countdown timer and a set of
flagged questions, runs a scoring script and turns that script's output into a
score. A command-line front end (`ckad_dojo.py`) lists exams and reads their
`exam.conf`. A release script (`scripts/bump-version.py`) rewrites the version
number in three files and in `CHANGELOG.md`.

This project models the parts of those programs that are pure text processing
or state transitions. Each is a pure Dafny function over strings, sequences and
numbers. Files, the clock and the scoring script's run are parameters.

| module | file | what it models |
|---|---|---|
| `Wrappers` | wrappers.dfy | `Option` and `Result` |
| `Strings` | strings.dfy | `str.strip`, `split`/`join`, `in`, `str.replace` and single-literal `re.sub`, character runs |
| `Numbers` | numbers.dfy | Python's `int()` on text, and `str()` on integers |
| `QuestionIds` | question_ids.dfy | the id group `\d+\|P\d+` |
| `Headers` | headers.dfy | the header lines `## Question <id> \| <topic>` |
| `Sections` | sections.dfy | the line-by-line state machine shared by both Markdown parsers, and its reference description as sections |
| `Questions` | questions.dfy | `parse_questions_md`, including the metadata table rows |
| `Solutions` | solutions.dfy | `parse_solutions_md` and `get_solution` |
| `ScoreOutput` | score_output.dfy | `run_scoring_script`: score lines, the `TOTAL SCORE` summary, the percentage and the pass mark |
| `ServerConfig` | server_config.dfy | `load_exam_config` |
| `ExamSession` | exam_session.dfy | the timer and flag state, the POST endpoints, `get_timer_state`, the `M:SS` elapsed text, and the auto-start in `main` |
| `DojoConfig` | dojo_config.dfy | `parse_exam_config` and `get_exam_info` of the command-line tool |
| `DojoMenu` | dojo_menu.dfy | `color`, `discover_exams` over a directory listing, and the choice loop of `select_exam` |
| `VersionFormat` | version_format.dfy | `validate_version` |
| `VersionFiles` | version_files.dfy | `update_file` and the `FILES` patterns |
| `Changelog` | changelog.dfy | `update_changelog` |

Each regular expression is modelled as a small deterministic scanner, and a
lemma shows that the scanner finds what the pattern describes. Where a pattern
could backtrack (a greedy `\s+` giving back a character, an optional version
label that is tried and then dropped), the scanner makes that choice
explicitly, and the comment at each scanner says where.
Python's `\s`, `str.strip()` and `str.isspace()` are modelled by the same ASCII
whitespace set, and `\d` by the ASCII digits.

Behaviour of the code that a reader might not expect:

- The pass mark is the constant 66 in `run_scoring_script`. It is not the
  exam's `PASSING_PERCENTAGE`.
- A malformed number in `exam.conf` makes `load_exam_config` raise. The model
  returns a `Failure`; it does not fall back to the default.
- Nothing bounds the scores or the percentage. A `TOTAL SCORE` line may report
  a score above the maximum, or a percentage above 100, and the result carries
  it unchanged.
- The start endpoint leaves `start_question` as it was. Only the auto-start in
  `main` sets it.
- The body of a question or solution is stripped of all surrounding whitespace,
  not only of blank lines.
- `get_timer_state` treats a start time of `None` as "not started". The score
  endpoint uses Python truthiness, so it also skips a start time of exactly 0.

## Model

| member | source | states |
|---|---|---|
| Strings.JoinSplit | web/server.py:229 | joining the pieces of `split('\n')` with newlines gives back the text |
| Strings.SplitJoin | web/server.py:262 | splitting the join of separator-free parts gives back the parts |
| Strings.ContainsIff | scripts/bump-version.py:87 | `lit in s` holds exactly when the literal occurs at some position |
| Strings.ReplaceAllSelf | scripts/bump-version.py:108-111 | substituting a literal by itself leaves the text unchanged |
| Strings.ReplaceOnce | scripts/bump-version.py:100-118 | with exactly one occurrence, replacing all and replacing the first give the same text: prefix, replacement, suffix |
| Strings.ReplaceAllFirst | scripts/bump-version.py:115-118 | `str.replace` replaces the first occurrence and carries on scanning after it |
| Strings.IndexOfFirst | scripts/bump-version.py:87 | the search returns the leftmost occurrence, and returns none only when there is none |
| Numbers.PyIntOfIntToString | web/server.py:309-317 | `int(str(i)) == i` for every integer, negative ones included |
| Numbers.NatToStringOfDigitsValue | web/server.py:246 | a digit string without a leading zero is the decimal text of its value |
| Numbers.ParseUnsigned | ckad_dojo.py:359 | Python's `int()` accepts exactly the digit strings with single underscores between digits |
| QuestionIds.IdRunComplete | web/server.py:80 | the id scanner finds every `\d+` or `P\d+` id that is followed by a non-digit, and stops where it ends |
| Headers.TopicGroupComplete | web/server.py:226 | `(.+?)$` captures any topic without a newline, with or without one final newline after it |
| Headers.HeaderOfComplete | web/server.py:226 | a line of an id, a bar and a topic is recognised and yields exactly that id and topic |
| Headers.NumberOf | web/server.py:246 | `number` is an integer exactly when the id is all digits, and otherwise the id itself |
| Headers.NumberOfNatToString | web/server.py:246 | the number of an id written from `n` is `n` |
| Sections.ParseSpec | web/server.py:229-277 | the line loop yields one item per section of the reference decomposition, in order |
| Sections.SectionCount | web/server.py:233-253 | there are as many records as header lines |
| Sections.PreambleDropped | web/server.py:255 | lines before the first header contribute nothing |
| Sections.BodiesHoldNoHeader | web/server.py:234-239 | no body line of a section is itself a header |
| Sections.SectionLine | web/server.py:234-254 | each section starts at a header line and its body is the run of non-header lines after it |
| Sections.Body | web/server.py:233-255 | a body is the longest header-free prefix of the lines that follow |
| Questions.QuestionHeaderComplete | web/server.py:226 | every `## Question` header line with an id and a topic is recognised with its id and topic |
| Questions.ApplyAllText | web/server.py:256-272 | reading a body keeps the header, appends exactly the non-table lines, and takes the points of the last row whose first cell is a number |
| Questions.ApplyAllMetadata | web/server.py:261-270 | the last table row with four or more cells sets namespace, resources and files |
| Questions.ClassifyMetadataRow | web/server.py:257-270 | a table row with four or more cells yields the stripped cells, with the points only when cell 0 is an integer |
| Questions.CellsOfRow | web/server.py:262 | the cells between the outer bars are the stripped inner parts |
| Questions.SectionQuestion | web/server.py:241-277 | one section yields the question its header and body describe |
| Questions.ParseQuestionsSpec | web/server.py:215-279 | `parse_questions_md` yields the reference question of every section, in order |
| Questions.ParsedQuestions | web/server.py:226-253 | there are as many questions as header lines, each with a valid id, a topic and its `number` |
| Solutions.HeaderOfComplete | web/server.py:156 | both header kinds are recognised, and `is_preview` records which kind it was |
| Solutions.PreviewHeader | web/server.py:156 | a `## Preview Question` line is read as a preview header |
| Solutions.SolutionId | web/server.py:175-179 | a preview id gets a `P` prefix unless it already has one; a regular id is kept |
| Solutions.AbsorbAllBody | web/server.py:189-190 | every line after a header goes to that solution's body |
| Solutions.ParseSolutionsSpec | web/server.py:145-197 | `parse_solutions_md` yields one solution per section, in order, each with a valid id |
| Solutions.FindSolution | web/server.py:200-206 | the result is `None` exactly when no solution has the id; otherwise it is a listed solution with that id |
| Solutions.FindSolutionFirst | web/server.py:203-205 | the first solution with the id is the one returned |
| ScoreOutput.MatchScoreLineSound | web/server.py:80-95 | an item is only ever read from a line of the score-line pattern's shape, and it is the item that shape's groups spell out |
| ScoreOutput.MatchScoreLineComplete | web/server.py:80-95 | every line of the shape `Q<id> <s>/<p> <topic>` is matched, and the item's numbers come from that shape |
| ScoreOutput.MatchScoreLineIff | web/server.py:80-82 | a line yields an item exactly when it has the score-line pattern's shape |
| ScoreOutput.ItemOf | web/server.py:85-95 | an item's `passed` is `score == max_score`, and its topic is stripped |
| ScoreOutput.ItemOfSameGroups | web/server.py:83-88 | the item does not depend on where the whitespace run before the topic is cut |
| ScoreOutput.ScoreItemsAppend | web/server.py:82-95 | the items of two runs of lines are the items of the first followed by those of the second |
| ScoreOutput.AllPassedSums | web/server.py:94-97 | when every item passed, the summed score equals the summed maximum |
| ScoreOutput.CutTotalComplete | web/server.py:101 | every text of the summary's shape is recognised at its position |
| ScoreOutput.TotalAt | web/server.py:101-106 | numbers are only ever read at a position where a summary of the pattern's shape starts, and they are the values of its three digit groups |
| ScoreOutput.TotalAtComplete | web/server.py:101-106 | a summary of the pattern's shape at a position yields the values of its three digit groups |
| ScoreOutput.TotalAtIff | web/server.py:101-103 | a summary is read at a position exactly when one of the pattern's shape starts there |
| ScoreOutput.TotalOfExample | web/server.py:100 | `TOTAL SCORE: 87 / 113 (77%)` yields 87, 113 and 77 |
| ScoreOutput.FindTotal | web/server.py:102 | the summary found is the leftmost one, and none is found only when there is none |
| ScoreOutput.FloorPercentage | web/server.py:108 | the percentage is the largest whole number not above the ratio, and 0 when the maximum is 0 |
| ScoreOutput.FloorPercentageReaches | web/server.py:108-111 | the percentage reaches a mark exactly when `100 * total >= mark * max` |
| ScoreOutput.FloorPercentageOfWhole | web/server.py:108 | full marks give 100 |
| ScoreOutput.ScoreOfOutput | web/server.py:73-121 | the items are those of the lines; the first summary overrides the totals and the percentage, otherwise the sums and the floor percentage are used; `passed` is `percentage >= 66` |
| ScoreOutput.PassedWithoutSummary | web/server.py:108-111 | without a summary, the result passes exactly when `100 * total >= 66 * max` |
| ScoreOutput.AllPassedIsFullMarks | web/server.py:94-111 | without a summary, when every item passed, the percentage is 100 and the result passes |
| ScoreOutput.RunScoring | web/server.py:45-142 | each failure (script missing, timeout, other exception) gives `success` false, no items, zero totals and `passed` false; a completed run gives the parsed output |
| ServerConfig.FieldOf | web/server.py:306-317 | only the six recognised keys select a field |
| ServerConfig.FieldOfKeyOf | web/server.py:306-317 | each field's key selects that field |
| ServerConfig.SettingOfSplit | web/server.py:298-304 | a line is split at its first `=`; the key is stripped and the value is stripped of whitespace and quotes |
| ServerConfig.SettingOfNumber | web/server.py:308-317 | `KEY=<n>` for a numeric key yields the number `n` |
| ServerConfig.SettingOfQuotedName | web/server.py:304-307 | `EXAM_NAME="<name>"` yields the name without its quotes |
| ServerConfig.Apply | web/server.py:306-317 | a setting applies unless its number is malformed, and never changes the exam id |
| ServerConfig.ApplyAllSpec | web/server.py:298-317 | the settings apply without error exactly when every numeric value is an integer, and then the last setting of each field wins |
| ServerConfig.LoadExamConfig | web/server.py:284-295 | with no file the defaults are returned: name and id from the exam id, 120, 15, 22, 113, 66 |
| ServerConfig.LoadExamConfigSpec | web/server.py:282-319 | loading a file succeeds exactly when its numeric values are integers, and gives the defaults overlaid with the last value of each key |
| ServerConfig.LoadKeepsExamId | web/server.py:287 | the loaded configuration carries the requested exam id |
| ExamSession.Status | web/server.py:473-501 | a read changes nothing but `running`; for a started timer it reports `int(now - start)` as elapsed, keeps running exactly while that is below the total, and reports `int(total - elapsed)` remaining while running and 0 after; it also reports the duration, exam and start question |
| ExamSession.StatusStopped | web/server.py:475-484 | when stopped or never started, the read changes nothing and reports zero elapsed and remaining |
| ExamSession.StatusWithinTime | web/server.py:486-501 | within the duration, the timer keeps running, remaining is `int(total - elapsed)`, and the whole seconds elapsed plus remaining make up the total, less at most one |
| ExamSession.StatusExpired | web/server.py:488-491 | once the duration is up, the read reports zero remaining and stops the timer |
| ExamSession.ExpiredStaysStopped | web/server.py:475-491 | after expiry, later reads report a stopped timer with zeros |
| ExamSession.RemainingNonIncreasing | web/server.py:486-495 | the remaining time never goes up as the clock advances |
| ExamSession.StatusExample | web/server.py:473-501 | a 10-minute exam read after 5 s shows 595 s remaining, and after 601 s shows it stopped |
| ExamSession.Start | web/server.py:423-432 | starting loads the exam's configuration, clears the flags, records the clock, sets duration, id and name, and leaves the start question; the reply is the timer read at the second clock reading |
| ExamSession.StartReply | web/server.py:426-432 | a reply read at the start instant shows the whole exam left; one read a fraction of a second later shows one second less |
| ExamSession.Stop | web/server.py:434-436 | stopping leaves the timer not running |
| ExamSession.StopSpec | web/server.py:434-436 | stopping keeps the flags, start time and exam id, is idempotent, and the next read reports zeros |
| ExamSession.ToggleFlag | web/server.py:438-448 | a missing id is refused; otherwise exactly that id's membership flips and the reply reports the new membership |
| ExamSession.ToggleTwice | web/server.py:438-446 | toggling the same id twice restores the flags |
| ExamSession.ElapsedRoundTrip | web/server.py:460-462 | the `M:SS` text reads back as its minutes and seconds, which recombine to the whole elapsed seconds |
| ExamSession.Seconds | web/server.py:462 | the seconds part is below 60 |
| ExamSession.ScoredExam | web/server.py:455 | the timer's exam is scored when it has one, otherwise the requested one |
| ExamSession.Score | web/server.py:450-468 | scoring stops the timer, reports the scoring result, reports elapsed time only for a truthy start time, as `int(elapsed)` and the `M:SS` text of that time, and reports solutions only for a scored exam that has them |
| ExamSession.LaunchOf | web/server.py:534-552 | the port, exam id and start question come from the arguments, with 9090 and 1 when they are absent or not integers |
| ExamSession.AutoStartIsStart | web/server.py:563-570 | the auto-start is the start endpoint's transition with the start question set |
| DojoConfig.BreakAt | ckad_dojo.py:178 | the first line break ends the first line |
| DojoConfig.SplitLinesTerminated | ckad_dojo.py:178 | `splitlines()` of lines each ended by a newline gives back those lines |
| DojoConfig.CutAssignmentComplete | ckad_dojo.py:182 | every line of the assignment shape is matched where the shape says |
| DojoConfig.MatchAssignment | ckad_dojo.py:182-185 | a match yields a `[A-Z_]+` key directly followed by `=`, and a value without quotes or newlines |
| DojoConfig.QuotedAssignment | ckad_dojo.py:182-185 | `KEY="value…` yields the value up to the first quote or newline |
| DojoConfig.ApostropheEndsValue | ckad_dojo.py:182-185 | `EXAM_NAME="Bob's"` yields `Bob` |
| DojoConfig.AssignmentOfQuoted | ckad_dojo.py:179-185 | a quoted assignment line is recorded with its unquoted value |
| DojoConfig.RecordSpec | ckad_dojo.py:174-185 | a key is recorded exactly when some line assigns it, and the last such line gives its value |
| DojoConfig.ParseExamConfigOfLines | ckad_dojo.py:168-189 | a present file yields the record of the assignments on its lines |
| DojoConfig.GetExamInfo | ckad_dojo.py:192-205 | no information exactly when the configuration is missing or empty |
| DojoConfig.InfoFieldSpec | ckad_dojo.py:198-205 | a field is the last value assigned to its key, or its fallback when none is |
| DojoMenu.Color | ckad_dojo.py:46-50 | with colours off the text is returned as is; with colours on it is wrapped in the code and the reset |
| DojoMenu.UncolorColor | ckad_dojo.py:46-50 | removing the code and the reset gives back the coloured text |
| DojoMenu.Sort | ckad_dojo.py:158 | the names are sorted in Python's string order and are a permutation of the input |
| DojoMenu.DiscoverExams | ckad_dojo.py:151-161 | a missing directory gives no exams; otherwise the exam directories' names, sorted |
| DojoMenu.DiscoveredExams | ckad_dojo.py:158-160 | a name is listed exactly when an entry with that name holds an `exam.conf` |
| DojoMenu.ChoiceOf | ckad_dojo.py:356-364 | `0` cancels; a number from 1 to the count selects that exam; other numbers and non-numbers are rejected |
| DojoMenu.ChoiceOfListed | ckad_dojo.py:344-361 | typing the number shown next to an exam selects that exam |
| DojoMenu.DecideWaiting | ckad_dojo.py:354-364 | the loop is still asking exactly when every line typed so far was rejected |
| DojoMenu.DecideFirst | ckad_dojo.py:354-361 | the first line that is not rejected decides the outcome |
| DojoMenu.SelectExam | ckad_dojo.py:336-339 | with no exams nothing is selected; a selected exam is one of the listed exams |
| VersionFormat.ValidateVersionIff | scripts/bump-version.py:41-44 | the check holds exactly for digits, dot, digits, dot, digits and an optional `-label`, followed by nothing or one newline |
| VersionFormat.ValidVersionIff | scripts/bump-version.py:43 | the strict check holds exactly for such a version with nothing after it |
| VersionFormat.ValidateVersionNoBackslash | scripts/bump-version.py:43 | an accepted version holds no backslash and no quote |
| VersionFormat.TrailingNewlineAccepted | scripts/bump-version.py:43-44 | every version followed by a newline is also accepted |
| VersionFormat.NewlineVersionAccepted | scripts/bump-version.py:43-44 | `1.2.3` followed by a newline is accepted, though it is not a version |
| VersionFiles.FileNamed | scripts/bump-version.py:56-63 | only the three listed file names choose a replacement |
| VersionFiles.ReplacementFitsPattern | scripts/bump-version.py:24-28 | each replacement is its pattern's lead, the version, and its tail |
| VersionFiles.MatchAtLead | scripts/bump-version.py:24-28 | after the literal lead, the pattern matches as its middle part does |
| VersionFiles.SubFromStep | scripts/bump-version.py:65 | `re.subn` copies the text up to the next match, substitutes it, counts it, and resumes after it |
| VersionFiles.SubFromNone | scripts/bump-version.py:65-67 | the count is zero exactly when nothing matches, and then the text is unchanged |
| VersionFiles.SubAllOne | scripts/bump-version.py:65 | with a single match, exactly that span is replaced |
| VersionFiles.UpdateFile | scripts/bump-version.py:47-73 | the file is written exactly when it exists, is one of the three, and the pattern matches; the new text is the substitution of every match |
| VersionFiles.UpdateFileOne | scripts/bump-version.py:53-73 | with a single match, the new text is the old text with that span replaced by the file's replacement |
| VersionFiles.ReplacementMatches | scripts/bump-version.py:24-28 | a written replacement is matched again as a whole when the version avoids the pattern's stop character |
| VersionFiles.FileRematches | scripts/bump-version.py:24-61 | after a bump, the next bump finds the new version again, for any accepted version in the two quoted files and any version without `-` in the badge |
| VersionFiles.NotCharNoRematch | scripts/bump-version.py:25-27 | a replacement whose version holds the stop character is not matched again as a whole |
| VersionFiles.PreReleaseBadgeLost | scripts/bump-version.py:27 | a badge written for a version with a `-label` is not matched again by the badge pattern |
| VersionFiles.FixedBadgeRematches | scripts/bump-version.py:27 | with the version pattern in the middle, a written badge is matched again as a whole for every strictly valid version |
| Changelog.VersionHeadingInjective | scripts/bump-version.py:87 | two versions have the same heading only if they are the same version |
| Changelog.UpdateChangelog | scripts/bump-version.py:76-122 | the file is written exactly when it exists and does not yet hold the version's heading |
| Changelog.UpdateChangelogText | scripts/bump-version.py:97-118 | with unreleased content, only the first Unreleased heading is rewritten and the clean-up changes nothing; otherwise every one is |
| Changelog.NoUnreleasedUnchanged | scripts/bump-version.py:113-122 | without an Unreleased heading the text is written back unchanged and the result is true |
| Changelog.OneUnreleased | scripts/bump-version.py:97-118 | with one Unreleased heading, both branches replace it by the new header and keep everything else |
| Changelog.FirstUnreleasedReplaced | scripts/bump-version.py:97-118 | the text before the first Unreleased heading is kept, and the new header is written where it was |
| Changelog.HeaderHasVersion | scripts/bump-version.py:102 | the new header holds the version's heading |
| Changelog.BumpedOnce | scripts/bump-version.py:86-118 | after a bump the heading is in the file, so the same bump on any later day is refused |
| Changelog.EmptySubsection | scripts/bump-version.py:93 | a subsection title directly followed by the next heading or by the end counts as a subsection with no items |
| Changelog.FreshSectionHasBlock | scripts/bump-version.py:92-95 | a freshly written Unreleased section with four empty subsections is taken to have content |
| Changelog.HeaderHasBlock | scripts/bump-version.py:92-102 | the header the script writes itself counts as an Unreleased section with content |
| Changelog.ItemLine | scripts/bump-version.py:93 | one `- item` line of a single line of text is consumed whole by `(?:- .+\n)` |
| Changelog.LineRun | scripts/bump-version.py:93 | an item line is `- `, then a non-empty run of characters other than a newline, then the newline |
| Changelog.ItemsBullets | scripts/bump-version.py:93 | a list of one-line `- ` items is read to its end when the end of the text, a blank line or a heading follows |
| Changelog.ListedSubsection | scripts/bump-version.py:93 | a title, its items and the closing blank line are one subsection, read to its end |
| Changelog.FilledSubsection | scripts/bump-version.py:93 | a subsection in the usual layout, with or without items, is read to its end when a heading or the end follows |
| Changelog.FilledSubsections | scripts/bump-version.py:93 | subsections in the usual layout are read one after the other |
| Changelog.FilledBlock | scripts/bump-version.py:92-95 | the Unreleased heading followed by such subsections is matched as the pattern's heading and groups |
| Changelog.FilledSectionHasBlock | scripts/bump-version.py:92-95 | an Unreleased section whose four subsections list any one-line items is found by the content check |
| Changelog.FilledSectionReleased | scripts/bump-version.py:92-105 | such a changelog takes the first branch, and only the first Unreleased heading is rewritten |

## Left out

- File existence, reading and writing are left out. The contents, or their absence, are parameters (`Option<string>`), and so is the directory listing of `exams/`.
- Running the scoring script is left out. The outcome of `subprocess.run` with its 60-second timeout is a `ScoringRun` parameter: script missing, timed out, crashed with a message, or completed with its stdout.
- HTTP routing, `send_json`, `send_error`, the ttyd socket probe and the environment variables are left out. Only the state transitions and the replies' contents are modelled.
- `list_exams` and `solutions_available` of `web/server.py` are left out, because they only combine a directory listing with `load_exam_config`. Whether a solutions file exists is a parameter of `ExamSession.Score`.
- The clock is a parameter `now`, an exact real number rather than a double. `int()` of a float is modelled as truncation toward zero (`Trunc`), on exact values.
- ScoreOutput.FloorPercentage: the percentage without a summary is the exact floor of `100 * total / max`. The source computes `int(total / max * 100)` in floating point, which can land one below the exact value (29 out of 100 gives 28).
- Numbers.PyInt: accepts digit strings of any length. CPython 3.11 and later make `int()` raise `ValueError` on a string of more than 4300 digits. The model does not have this limit. This affects several places:
  - `load_exam_config`, `ExamSession.LaunchOf` and `DojoMenu.ChoiceOf`.
  - The score line and summary numbers of `run_scoring_script`, read by `ScoreOutput.DigitsAt`. There the source's `try … except Exception` turns the error into the failure result, while the model returns a score.
  - `Headers.NumberOf`, where nothing catches the error.
  - The points cell of the question metadata, where the error is caught and the points keep their previous value.
- ExamSession.RequestedExam, ExamSession.Start, ExamSession.ToggleFlag, ExamSession.ScoredExam and ExamSession.Score: request fields are taken to be strings or absent. A JSON body may carry `null` or a non-string value. An explicit `"exam_id": null` makes `data.get("exam_id", "ckad-simulation1")` return `None`, and `load_exam_config(None)` raises. The model reads it as absent and starts the default exam. Other JSON types are not represented.
- The model is ASCII-only. Python's Unicode digits and whitespace in `\d`, `\s`, `str.isdigit` and `str.strip` are not modelled.
- The printing, the coloured messages, the `input()` prompt and the numbered menu of `select_exam` are left out. The lines the user types are a sequence, and `Waiting` stands for input that runs out.
- `run_script`, `check_prerequisites`, `check_cluster_connectivity`, the signal handler, the argument parser and the other commands of `ckad_dojo.py` are left out. They run programs or only print.
- `get_current_version`, `git_commit`, `git_tag` and `main` of `scripts/bump-version.py` are left out, because they run git or read files.
- `web/js/app.js` and the two toy network servers used as exam payloads are not part of this model.
- Concurrency is left out. The server is a plain single-threaded `socketserver.TCPServer`, so requests are modelled one at a time.
- VersionFiles.UpdateFile: requires a version without a backslash. `re.subn` would read escapes in its replacement template, and `validate_version`, called first in `main`, only lets through versions without one (`VersionFormat.ValidateVersionNoBackslash`).
- Changelog.UpdateChangelog: requires a version without a backslash and a `today` of the form `YYYY-MM-DD`, as `date.today().isoformat()` produces. Under these, the escaped version and the date are literal text inside the clean-up pattern.
- Changelog.HasBlock: the "Unreleased has content" test matches even when all four subsections are empty, because each item list may be empty. `Changelog.HeaderHasBlock` shows this. The text the bump writes therefore passes the check itself. A section with items in the usual layout passes it as well (`Changelog.FilledSectionHasBlock`). The model follows the pattern as written.
- Changelog.Bullets: reads `(?:- .+\n)*\n?` greedily. Backtracking into it is never needed, because the next subsection title starts with `#`.

## Findings

| source | as written | input that shows it | evidently intended | confidence | as-written member | corrected member |
|---|---|---|---|---|---|---|
| scripts/bump-version.py:43 | `^…$` with `re.match`; Python's `$` also matches before a final newline | `"1.2.3\n"` is accepted as a version | accept a version and nothing after it | high that the pattern accepts it, low that it matters in practice; not executed | VersionFormat.NewlineVersionAccepted | VersionFormat.ValidVersionIff |
| scripts/bump-version.py:27 | the badge pattern's middle is `[^-]+`, though `validate_version` accepts versions with a `-label` | after bumping to `1.3.0-rc.1`, the badge `…/badge/version-1.3.0-rc.1-blue` is no longer matched as a whole, so later bumps cannot update it | the badge pattern matches every badge the script writes | medium; not executed | VersionFiles.PreReleaseBadgeLost | VersionFiles.FixedBadgeRematches |
