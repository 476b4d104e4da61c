/** `update_file` of `scripts/bump-version.py`: the version is replaced,
    by `re.subn`, wherever the file's pattern from the `FILES` table
    matches, and the file is written only when there was a match.

    Each pattern is a literal lead, a middle part and a literal tail; the
    tail starts with a character the middle cannot end on, so the greedy
    middle never needs to give characters back. */
module VersionFiles {
  import opened Wrappers
  import opened Strings
  import opened VersionFormat

  /** The three files of `FILES`. */
  datatype VersionFile = Pyproject | DojoScript | Readme

  function FileName(f: VersionFile): string {
    match f
    case Pyproject => "pyproject.toml"
    case DojoScript => "ckad_dojo.py"
    case Readme => "README.md"
  }

  /** The file a name stands for, if it is one of the three. */
  function FileNamed(name: string): (r: Option<VersionFile>)
    ensures r.Some? ==> FileName(r.value) == name
    ensures r.None? ==> forall f :: FileName(f) != name
  {
    if name == "pyproject.toml" then Some(Pyproject)
    else if name == "ckad_dojo.py" then Some(DojoScript)
    else if name == "README.md" then Some(Readme)
    else None
  }

  /** What may stand between lead and tail: `[^c]+`, or a version in the
      format `validate_version` checks. */
  datatype Middle = NotChar(c: char) | VersionNumber

  datatype Pattern = Pattern(lead: string, middle: Middle, tail: string)

  const BadgeLead := "https://img.shields.io/badge/version-"

  /** The patterns of `FILES`. */
  function FilePattern(f: VersionFile): Pattern {
    match f
    case Pyproject => Pattern("version = \"", NotChar('"'), "\"")
    case DojoScript => Pattern("__version__ = \"", NotChar('"'), "\"")
    case Readme => Pattern(BadgeLead, NotChar('-'), "-blue")
  }

  /** The patterns with the badge's middle read as a version, so that a
      badge holding a pre-release version is found again. */
  function FixedPattern(f: VersionFile): Pattern {
    if f == Readme then Pattern(BadgeLead, VersionNumber, "-blue") else FilePattern(f)
  }

  /** The text `update_file` puts in place of each match. */
  function Replacement(f: VersionFile, v: string): string {
    match f
    case Pyproject => "version = \"" + v + "\""
    case DojoScript => "__version__ = \"" + v + "\""
    case Readme => "https://img.shields.io/badge/version-" + v + "-blue"
  }

  /** The replacement is the file's pattern with the version as its
      middle. */
  lemma ReplacementFitsPattern(f: VersionFile, v: string)
    ensures Replacement(f, v) == FilePattern(f).lead + v + FilePattern(f).tail
    ensures Replacement(f, v) == FixedPattern(f).lead + v + FixedPattern(f).tail
  {
  }

  // ---------------------------------------------------------------------
  // Matching

  /** `\d+\.\d+\.\d+(-[a-zA-Z0-9.]+)?` followed by `tail`, from position
      `i`: the label is tried first and left out when `tail` does not
      follow it. */
  function VersionThen(s: string, i: nat, tail: string): (r: Option<nat>)
    requires i <= |s|
    ensures r.Some? ==> i < r.value <= |s|
  {
    match NumberDot(s, i)
    case None => None
    case Some(a) =>
      match NumberDot(s, a)
      case None => None
      case Some(b) =>
        match NonEmptyRun(s, b, Digit)
        case None => None
        case Some(c) => LabelThen(s, c, tail)
  }

  /** `(-[a-zA-Z0-9.]+)?` followed by `tail`, from position `c`. */
  function LabelThen(s: string, c: nat, tail: string): (r: Option<nat>)
    requires c <= |s|
    ensures r.Some? ==> c <= r.value <= |s|
  {
    var d := LabelEnd(s, c);
    if d > c && OccursAt(s, tail, d) then Some(d + |tail|)
    else if OccursAt(s, tail, c) then Some(c + |tail|)
    else None
  }

  /** `[^c]+` followed by `tail`, from position `i`. */
  function NotCharThen(s: string, i: nat, c: char, tail: string): (r: Option<nat>)
    requires i <= |s|
    ensures r.Some? ==> i < r.value <= |s|
  {
    match NonEmptyRun(s, i, NoneOf([c]))
    case None => None
    case Some(q) => if OccursAt(s, tail, q) then Some(q + |tail|) else None
  }

  /** The middle of a pattern followed by its tail, from position `i`. */
  function MiddleThen(s: string, i: nat, middle: Middle, tail: string): (r: Option<nat>)
    requires i <= |s|
    ensures r.Some? ==> i < r.value <= |s|
  {
    match middle
    case NotChar(c) => NotCharThen(s, i, c, tail)
    case VersionNumber => VersionThen(s, i, tail)
  }

  /** Where a match of the pattern that starts at `p` ends, if there is one. */
  function MatchAt(s: string, pat: Pattern, p: nat): (r: Option<nat>)
    requires p <= |s|
    ensures r.Some? ==> p < r.value <= |s| && OccursAt(s, pat.lead, p)
  {
    if !OccursAt(s, pat.lead, p) then None
    else MiddleThen(s, p + |pat.lead|, pat.middle, pat.tail)
  }

  /** Once the lead is found, the rest is up to the middle and the tail. */
  lemma MatchAtLead(t: string, pat: Pattern, p: nat)
    requires p + |pat.lead| <= |t| && t[p..p + |pat.lead|] == pat.lead
    ensures MatchAt(t, pat, p) == MiddleThen(t, p + |pat.lead|, pat.middle, pat.tail)
    ensures pat.middle == VersionNumber ==> MatchAt(t, pat, p) == VersionThen(t, p + |pat.lead|, pat.tail)
  {
  }

  /** With the lead found, a version pattern matches where the version and
      the tail are read. */
  lemma VersionAfterLead(t: string, pat: Pattern, p: nat, e: nat)
    requires pat.middle == VersionNumber && p + |pat.lead| <= |t| && t[p..p + |pat.lead|] == pat.lead
    requires VersionThen(t, p + |pat.lead|, pat.tail) == Some(e)
    ensures MatchAt(t, pat, p) == Some(e)
  {
  }

  /** The text and the count `re.subn` returns. */
  datatype Subst = Subst(text: string, count: nat)

  /** For each position of a text, where a match starting there ends. */
  type Matches = seq<Option<nat>>

  /** Each match ends after it starts and within the text. */
  predicate Advancing(ms: Matches) {
    forall q :: 0 <= q < |ms| && ms[q].Some? ==> q < ms[q].value <= |ms|
  }

  function MatchTable(s: string, pat: Pattern): (ms: Matches)
    ensures |ms| == |s| && Advancing(ms)
    ensures forall q :: 0 <= q < |s| ==> ms[q] == MatchAt(s, pat, q)
  {
    seq(|s|, q requires 0 <= q < |s| => MatchAt(s, pat, q))
  }

  /** `re.subn` from position `p` on: a match is replaced and the scan
      goes on after it; elsewhere a character is kept. */
  function SubFrom(s: string, ms: Matches, rep: string, p: nat): Subst
    requires |ms| == |s| && Advancing(ms) && p <= |s|
    decreases |s| - p
  {
    if p == |s| then Subst("", 0)
    else
      match ms[p]
      case Some(e) =>
        var t := SubFrom(s, ms, rep, e);
        Subst(rep + t.text, t.count + 1)
      case None =>
        var t := SubFrom(s, ms, rep, p + 1);
        Subst([s[p]] + t.text, t.count)
  }

  /** `re.subn(pattern, rep, s)`. */
  function SubAll(s: string, pat: Pattern, rep: string): Subst {
    SubFrom(s, MatchTable(s, pat), rep, 0)
  }

  /** No match starts in `[lo, hi)`. */
  predicate NoMatchIn(ms: Matches, lo: nat, hi: nat)
    requires hi <= |ms|
  {
    forall q :: lo <= q < hi ==> ms[q].None?
  }

  /** Nothing is replaced exactly when nothing matches, and then the text
      comes back as it was. */
  lemma {:induction false} SubFromNone(s: string, ms: Matches, rep: string, p: nat)
    requires |ms| == |s| && Advancing(ms) && p <= |s|
    ensures SubFrom(s, ms, rep, p).count == 0 <==> NoMatchIn(ms, p, |s|)
    ensures NoMatchIn(ms, p, |s|) ==> SubFrom(s, ms, rep, p).text == s[p..]
    decreases |s| - p
  {
    if p < |s| {
      SubFromNone(s, ms, rep, p + 1);
      if ms[p].None? {
        assert s[p..] == [s[p]] + s[p + 1..];
      }
    }
  }

  /** Up to the next match the text is kept; that match is replaced and the
      scan goes on after it. */
  lemma {:induction false} SubFromStep(s: string, ms: Matches, rep: string, p: nat, i: nat, e: nat)
    requires |ms| == |s| && Advancing(ms) && p <= i < |s| && NoMatchIn(ms, p, i) && ms[i] == Some(e)
    ensures SubFrom(s, ms, rep, p).text == s[p..i] + rep + SubFrom(s, ms, rep, e).text
    ensures SubFrom(s, ms, rep, p).count == 1 + SubFrom(s, ms, rep, e).count
    decreases i - p
  {
    if p < i {
      SubFromStep(s, ms, rep, p + 1, i, e);
      var x := SubFrom(s, ms, rep, e).text;
      var a := s[p + 1..i];
      assert s[p..i] == [s[p]] + a;
      ConsAssoc(s[p], a, rep, x);
    } else {
      assert s[p..i] == [];
    }
  }

  lemma ConsAssoc<T>(c: T, a: seq<T>, b: seq<T>, x: seq<T>)
    ensures [c] + (a + b + x) == [c] + a + b + x
  {
  }

  /** A text with one match: only that match is replaced. */
  lemma SubAllOne(s: string, pat: Pattern, rep: string, i: nat, e: nat)
    requires i < |s| && MatchAt(s, pat, i) == Some(e)
    requires forall q :: 0 <= q < |s| && q != i ==> MatchAt(s, pat, q).None?
    ensures SubAll(s, pat, rep) == Subst(s[..i] + rep + s[e..], 1)
  {
    var ms := MatchTable(s, pat);
    SubFromStep(s, ms, rep, 0, i, e);
    SubFromNone(s, ms, rep, e);
  }

  // ---------------------------------------------------------------------
  // update_file

  /** Whether `update_file` succeeded, and the text it wrote, if any. */
  datatype Outcome = Outcome(ok: bool, written: Option<string>)

  /** `update_file(filepath, pattern, new_version)`. `content` is `None`
      when the file does not exist. A version with a backslash would be
      read as escapes by `re.subn`; `validate_version` lets none through
      (`ValidateVersionNoBackslash`). */
  function UpdateFile(name: string, pat: Pattern, content: Option<string>, version: string): (r: Outcome)
    requires '\\' !in version
    ensures r.ok <==> r.written.Some?
    ensures r.ok <==> content.Some? && FileNamed(name).Some?
                      && exists q :: 0 <= q < |content.value| && MatchAt(content.value, pat, q).Some?
    ensures r.ok ==> r.written.value == SubAll(content.value, pat, Replacement(FileNamed(name).value, version)).text
  {
    match content
    case None => Outcome(false, None)
    case Some(text) =>
      match FileNamed(name)
      case None => Outcome(false, None)
      case Some(f) =>
        var sub := SubAll(text, pat, Replacement(f, version));
        SubFromNone(text, MatchTable(text, pat), Replacement(f, version), 0);
        if sub.count == 0 then Outcome(false, None)
        else Outcome(true, Some(sub.text))
  }

  /** A file whose version appears once: the match is replaced by the
      file's replacement and the rest is kept. */
  lemma UpdateFileOne(f: VersionFile, pat: Pattern, text: string, version: string, i: nat, e: nat)
    requires '\\' !in version
    requires i < |text| && MatchAt(text, pat, i) == Some(e)
    requires forall q :: 0 <= q < |text| && q != i ==> MatchAt(text, pat, q).None?
    ensures UpdateFile(FileName(f), pat, Some(text), version)
         == Outcome(true, Some(text[..i] + Replacement(f, version) + text[e..]))
  {
    SubAllOne(text, pat, Replacement(f, version), i, e);
  }

  // ---------------------------------------------------------------------
  // Finding the version again

  /** The parts of `a + lead + v + tail + b`, by position. */
  lemma Layout(a: string, lead: string, v: string, tail: string, b: string)
    ensures var t := a + (lead + v + tail) + b; var i := |a| + |lead|; var j := i + |v|;
      |t| == j + |tail| + |b| && t[|a|..i] == lead && t[i..j] == v && t[j..j + |tail|] == tail && t[j + |tail|..] == b
  {
    var t := a + (lead + v + tail) + b;
    var i := |a| + |lead|;
    var j := i + |v|;
    assert t[|a|..i] == lead by { assert forall q :: |a| <= q < i ==> t[q] == lead[q - |a|]; }
    assert t[i..j] == v by { assert forall q :: i <= q < j ==> t[q] == v[q - i]; }
    assert t[j..j + |tail|] == tail by { assert forall q :: j <= q < j + |tail| ==> t[q] == tail[q - j]; }
    assert t[j + |tail|..] == b;
  }

  /** A run of characters other than `c` ends before any `c`. */
  lemma {:induction false} RunBefore(t: string, i: nat, q: nat, c: char, k: nat)
    requires i <= q <= |t| && Run(t, i, q, NoneOf([c])) && i <= k < |t| && t[k] == c
    ensures q <= k
    decreases k - i
  {
    if i < q {
      RunBefore(t, i + 1, q, c, k);
    }
  }

  /** `lead[^c]+tail` matches `lead + v + tail` when `v` is not empty, has
      no `c`, and `tail` starts with `c`. */
  lemma NotCharMatch(t: string, p: nat, lead: string, c: char, v: string, tail: string)
    requires p + |lead| + |v| + |tail| <= |t| && |v| > 0 && c !in v && |tail| > 0 && tail[0] == c
    requires var i := p + |lead|; var j := i + |v|;
      t[p..i] == lead && t[i..j] == v && t[j..j + |tail|] == tail
    ensures MatchAt(t, Pattern(lead, NotChar(c), tail), p) == Some(p + |lead| + |v| + |tail|)
  {
    var i := p + |lead|;
    var j := i + |v|;
    forall q | i <= q < j ensures In(NoneOf([c]), t[q]) {
      assert t[q] == t[i..j][q - i];
    }
    RunOfAll(t, i, j, NoneOf([c]));
    assert t[j] == t[j..j + |tail|][0];
    NonEmptyRunStops(t, i, j, NoneOf([c]));
  }

  lemma NotCharRematch(pat: Pattern, rep: string, v: string, a: string, b: string)
    requires pat.middle.NotChar? && |v| > 0 && pat.middle.c !in v && |pat.tail| > 0 && pat.tail[0] == pat.middle.c
    requires rep == pat.lead + v + pat.tail
    ensures MatchAt(a + rep + b, pat, |a|) == Some(|a| + |rep|)
  {
    Layout(a, pat.lead, v, pat.tail, b);
    NotCharMatch(a + rep + b, |a|, pat.lead, pat.middle.c, v, pat.tail);
  }

  /** The replacement for a version without the pattern's excluded
      character is a match of the pattern where it was written. */
  lemma ReplacementMatches(f: VersionFile, v: string, a: string, b: string)
    requires |v| > 0 && FilePattern(f).middle.c !in v
    ensures MatchAt(a + Replacement(f, v) + b, FilePattern(f), |a|) == Some(|a| + |Replacement(f, v)|)
  {
    var pat := FilePattern(f);
    assert |pat.tail| > 0 && pat.tail[0] == pat.middle.c;
    ReplacementFitsPattern(f, v);
    NotCharRematch(pat, Replacement(f, v), v, a, b);
  }

  /** What `update_file` writes into `pyproject.toml` or `ckad_dojo.py` for
      a version that passes `validate_version` is a match of the file's
      pattern, so the next bump finds it; in `README.md` the same holds
      for a version without a dash. */
  lemma FileRematches(f: VersionFile, v: string, a: string, b: string)
    requires ValidateVersion(v)
    requires f == Readme ==> '-' !in v
    ensures MatchAt(a + Replacement(f, v) + b, FilePattern(f), |a|) == Some(|a| + |Replacement(f, v)|)
  {
    ValidateVersionNoBackslash(v);
    ReplacementMatches(f, v, a, b);
  }

  /** When `v` holds the pattern's excluded character, `[^c]+` stops at
      it, short of the tail written after `v`. */
  lemma NotCharStops(t: string, p: nat, pat: Pattern, v: string)
    requires pat.middle.NotChar? && pat.middle.c in v
    requires p + |pat.lead| + |v| <= |t| && t[p + |pat.lead|..p + |pat.lead| + |v|] == v
    ensures MatchAt(t, pat, p) != Some(p + |pat.lead| + |v| + |pat.tail|)
  {
    var c := pat.middle.c;
    var i := p + |pat.lead|;
    var j :| 0 <= j < |v| && v[j] == c;
    assert t[i + j] == c by {
      assert t[i + j] == t[i..i + |v|][j];
    }
    match NonEmptyRun(t, i, NoneOf([c]))
    case None =>
    case Some(q) =>
      RunBefore(t, i, q, c, i + j);
  }

  lemma NotCharNoRematch(pat: Pattern, rep: string, v: string, a: string, b: string)
    requires pat.middle.NotChar? && pat.middle.c in v && rep == pat.lead + v + pat.tail
    ensures MatchAt(a + rep + b, pat, |a|) != Some(|a| + |rep|)
  {
    Layout(a, pat.lead, v, pat.tail, b);
    NotCharStops(a + rep + b, |a|, pat, v);
  }

  /** A pre-release version has a dash, and the badge written for it is not
      a match of the badge pattern: `[^-]+` stops at that dash, short of
      the badge's `-blue`. */
  lemma PreReleaseBadgeLost(v: string, a: string, b: string)
    requires '-' in v
    ensures MatchAt(a + Replacement(Readme, v) + b, FilePattern(Readme), |a|) != Some(|a| + |Replacement(Readme, v)|)
  {
    ReplacementFitsPattern(Readme, v);
    NotCharNoRematch(FilePattern(Readme), Replacement(Readme, v), v, a, b);
  }

  lemma VersionThenSteps(t: string, i: nat, a: nat, b: nat, c: nat, tail: string)
    requires i <= |t| && NumberDot(t, i) == Some(a) && NumberDot(t, a) == Some(b) && NonEmptyRun(t, b, Digit) == Some(c)
    ensures VersionThen(t, i, tail) == LabelThen(t, c, tail)
  {
  }

  /** The numbers of a version read inside a longer text. */
  lemma NumbersInside(t: string, i: nat, v: string, k: VersionCut)
    requires WellVersion(v, k) && i + |v| <= |t| && t[i..i + |v|] == v
    ensures NumberDot(t, i) == Some(i + k.a + 1)
    ensures NumberDot(t, i + k.a + 1) == Some(i + k.b + 1)
    ensures i + k.c == |t| || !IsDigit(t[i + k.c]) ==> NonEmptyRun(t, i + k.b + 1, Digit) == Some(i + k.c)
  {
    assert t[i + k.a] == v[k.a] && t[i + k.b] == v[k.b];
    RunShift(v, t, i, 0, k.a, Digit);
    NumberDotStops(t, i, i + k.a);
    RunShift(v, t, i, k.a + 1, k.b, Digit);
    NumberDotStops(t, i + k.a + 1, i + k.b);
    RunShift(v, t, i, k.b + 1, k.c, Digit);
    if i + k.c == |t| || !IsDigit(t[i + k.c]) {
      NonEmptyRunStops(t, i + k.b + 1, i + k.c, Digit);
    }
  }

  /** A tail such as `-blue`: a dash and then characters a label may
      hold. */
  predicate TailShape(tail: string) {
    |tail| >= 2 && tail[0] == '-' && Run(tail, 1, |tail|, LabelChar)
  }

  /** A label followed by the tail. */
  lemma LabelledBadge(t: string, c: nat, d: nat, tail: string)
    requires c + 1 < d && d + |tail| <= |t| && t[c] == '-' && Run(t, c + 1, d, LabelChar)
    requires TailShape(tail) && t[d..d + |tail|] == tail
    ensures LabelThen(t, c, tail) == Some(d + |tail|)
  {
    assert t[d] == t[d..d + |tail|][0];
    NonEmptyRunStops(t, c + 1, d, LabelChar);
  }

  /** No label, then the tail and a character that cannot continue a
      version: the tail's letters are first tried as a label, the tail
      does not follow them, and they are given back. */
  lemma PlainBadge(t: string, c: nat, tail: string)
    requires TailShape(tail) && c + |tail| <= |t| && t[c..c + |tail|] == tail
    requires c + |tail| == |t| || !VersionChar(t[c + |tail|])
    ensures LabelThen(t, c, tail) == Some(c + |tail|)
  {
    var e := c + |tail|;
    assert t[c] == t[c..e][0];
    RunShift(tail, t, c, 1, |tail|, LabelChar);
    NonEmptyRunStops(t, c + 1, e, LabelChar);
    assert LabelEnd(t, c) == e;
    assert !OccursAt(t, tail, e) by {
      if e < |t| {
        assert t[e] != tail[0];
      }
    }
  }

  /** The label of a version, or its absence, read inside a longer text
      and followed by the tail. */
  lemma LabelInside(t: string, i: nat, j: nat, e: nat, v: string, k: VersionCut, tail: string)
    requires WellVersion(v, k) && k.d == |v| && TailShape(tail)
    requires j == i + |v| && e == j + |tail| && e <= |t| && t[i..j] == v && t[j..e] == tail
    requires e == |t| || !VersionChar(t[e])
    ensures i + k.c < |t| && t[i + k.c] == '-'
    ensures LabelThen(t, i + k.c, tail) == Some(e)
  {
    assert t[j] == '-' by {
      assert t[j] == t[j..e][0];
    }
    if k.c < k.d {
      assert t[i + k.c] == v[k.c] by {
        assert t[i + k.c] == t[i..j][k.c];
      }
      RunShift(v, t, i, k.c + 1, |v|, LabelChar);
      LabelledBadge(t, i + k.c, j, tail);
    } else {
      PlainBadge(t, j, tail);
    }
  }

  /** A valid version followed by the tail and a character that cannot
      continue a version is read whole. */
  lemma VersionInside(t: string, i: nat, j: nat, e: nat, v: string, k: VersionCut, tail: string)
    requires TailShape(tail) && WellVersion(v, k) && k.d == |v|
    requires j == i + |v| && e == j + |tail| && e <= |t| && t[i..j] == v && t[j..e] == tail
    requires e == |t| || !VersionChar(t[e])
    ensures VersionThen(t, i, tail) == Some(e)
  {
    LabelInside(t, i, j, e, v, k, tail);
    NumbersInside(t, i, v, k);
    VersionThenSteps(t, i, i + k.a + 1, i + k.b + 1, i + k.c, tail);
  }

  /** A valid version between the lead and the tail of a version pattern
      is a match, when the character after the tail cannot continue a
      version. */
  lemma VersionFound(t: string, p: nat, i: nat, j: nat, e: nat, pat: Pattern, v: string)
    requires pat.middle == VersionNumber && TailShape(pat.tail) && ValidVersion(v)
    requires i == p + |pat.lead| && j == i + |v| && e == j + |pat.tail| && e <= |t|
    requires t[p..i] == pat.lead && t[i..j] == v && t[j..e] == pat.tail
    requires e == |t| || !VersionChar(t[e])
    ensures MatchAt(t, pat, p) == Some(e)
  {
    var k := CoreEndCut(v);
    VersionInside(t, i, j, e, v, k, pat.tail);
    VersionAfterLead(t, pat, p, e);
  }

  /** The three parts of a text that reads `lead + v + tail` from `p` to
      `e`. */
  lemma Pieces(t: string, p: nat, e: nat, lead: string, v: string, tail: string)
    requires e == p + |lead| + |v| + |tail| && e <= |t| && t[p..e] == lead + v + tail
    ensures t[p..p + |lead|] == lead && t[p + |lead|..p + |lead| + |v|] == v && t[p + |lead| + |v|..e] == tail
  {
    var w := lead + v + tail;
    var i := p + |lead|;
    var j := i + |v|;
    assert t[p..i] == lead by {
      forall q | 0 <= q < |lead| ensures t[p..i][q] == lead[q] {
        assert t[p + q] == t[p..e][q] && w[q] == lead[q];
      }
    }
    assert t[i..j] == v by {
      forall q | 0 <= q < |v| ensures t[i..j][q] == v[q] {
        assert t[i + q] == t[p..e][|lead| + q] && w[|lead| + q] == v[q];
      }
    }
    assert t[j..e] == tail by {
      forall q | 0 <= q < |tail| ensures t[j..e][q] == tail[q] {
        assert t[j + q] == t[p..e][|lead| + |v| + q] && w[|lead| + |v| + q] == tail[q];
      }
    }
  }

  lemma BlueTail()
    ensures TailShape(FixedPattern(Readme).tail)
  {
    RunOfAll("-blue", 1, 5, LabelChar);
  }

  /** With the badge's middle read as a version, the badge written for any
      valid version is found again, pre-release or not, when the character
      after it (the `)` closing a Markdown image, say) cannot continue a
      version. */
  lemma FixedBadgeRematches(t: string, p: nat, e: nat, v: string)
    requires ValidVersion(v)
    requires e == p + |Replacement(Readme, v)| && e <= |t| && t[p..e] == Replacement(Readme, v)
    requires e == |t| || !VersionChar(t[e])
    ensures MatchAt(t, FixedPattern(Readme), p) == Some(e)
  {
    var pat := FixedPattern(Readme);
    BlueTail();
    ReplacementFitsPattern(Readme, v);
    Pieces(t, p, e, pat.lead, v, pat.tail);
    VersionFound(t, p, p + |pat.lead|, p + |pat.lead| + |v|, e, pat, v);
  }
}
