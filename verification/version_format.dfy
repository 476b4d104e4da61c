/** `validate_version` of `scripts/bump-version.py`: a version is
    `MAJOR.MINOR.PATCH`, each a string of decimal digits, optionally
    followed by `-` and a label of letters, digits and dots.

    `ValidateVersion` follows the pattern as written, anchored with `^` and
    `$`; Python's `$` also matches just before a final newline, so the
    pattern accepts `1.2.3` followed by a newline. `ValidVersion` is the
    check without that allowance. */
module VersionFormat {
  import opened Wrappers
  import opened Strings

  /** `\d+\.` from position `i`: the position after the dot. */
  function NumberDot(v: string, i: nat): (r: Option<nat>)
    requires i <= |v|
    ensures r.Some? ==> i + 1 < r.value <= |v| && v[r.value - 1] == '.' && Run(v, i, r.value - 1, Digit)
  {
    match NonEmptyRun(v, i, Digit)
    case None => None
    case Some(j) => if j < |v| && v[j] == '.' then Some(j + 1) else None
  }

  /** `(-[a-zA-Z0-9.]+)?` from position `c`: where the optional label
      ends, or `c` when there is none. */
  function LabelEnd(v: string, c: nat): (d: nat)
    requires c <= |v|
    ensures c <= d <= |v|
    ensures d == c || (v[c] == '-' && c + 1 < d && Run(v, c + 1, d, LabelChar))
  {
    if c < |v| && v[c] == '-' then
      match NonEmptyRun(v, c + 1, LabelChar)
      case Some(d) => d
      case None => c
    else c
  }

  /** Where `^\d+\.\d+\.\d+(-[a-zA-Z0-9.]+)?` stops, if it matches at all.
      Each repetition is greedy and no shorter choice could let the rest
      match, so the scan never goes back. */
  function CoreEnd(v: string): Option<nat> {
    match NumberDot(v, 0)
    case None => None
    case Some(a) =>
      match NumberDot(v, a)
      case None => None
      case Some(b) =>
        match NonEmptyRun(v, b, Digit)
        case None => None
        case Some(c) => Some(LabelEnd(v, c))
  }

  /** Python's `$`: the end of the text, or just before a final newline. */
  predicate AtEnd(v: string, p: nat) {
    p == |v| || (p + 1 == |v| && v[p] == '\n')
  }

  /** `validate_version`, as written. */
  predicate ValidateVersion(v: string) {
    var e := CoreEnd(v); e.Some? && AtEnd(v, e.value)
  }

  /** The check the pattern evidently means: the whole text is a version. */
  predicate ValidVersion(v: string) {
    CoreEnd(v) == Some(|v|)
  }

  /** A version cut into its parts: the two dots at `a` and `b`, the end
      `c` of the patch number and the end `d` of the optional `-label`. */
  datatype VersionCut = VersionCut(a: nat, b: nat, c: nat, d: nat)

  predicate WellVersion(v: string, k: VersionCut) {
    0 < k.a && k.a + 1 < k.b && k.b + 1 < k.c <= k.d <= |v|
    && v[k.a] == '.' && v[k.b] == '.'
    && Run(v, 0, k.a, Digit) && Run(v, k.a + 1, k.b, Digit) && Run(v, k.b + 1, k.c, Digit)
    && (k.d == k.c || (v[k.c] == '-' && k.c + 1 < k.d && Run(v, k.c + 1, k.d, LabelChar)))
  }

  /** Whatever the scan accepts is digits, dot, digits, dot, digits and an
      optional label. */
  lemma CoreEndCut(v: string) returns (k: VersionCut)
    requires CoreEnd(v).Some?
    ensures WellVersion(v, k) && CoreEnd(v) == Some(k.d)
  {
    var a := NumberDot(v, 0).value;
    var b := NumberDot(v, a).value;
    var c := NonEmptyRun(v, b, Digit).value;
    k := VersionCut(a - 1, b - 1, c, LabelEnd(v, c));
  }

  /** And the scan accepts every such text. */
  lemma CutCoreEnd(v: string, k: VersionCut)
    requires WellVersion(v, k) && AtEnd(v, k.d)
    ensures CoreEnd(v) == Some(k.d)
  {
    NumberDotStops(v, 0, k.a);
    NumberDotStops(v, k.a + 1, k.b);
    assert NonEmptyRun(v, k.b + 1, Digit) == Some(k.c) by {
      NonEmptyRunStops(v, k.b + 1, k.c, Digit);
    }
    LabelEndStops(v, k.c, k.d);
  }

  lemma NumberDotStops(v: string, i: nat, j: nat)
    requires i < j < |v| && v[j] == '.' && Run(v, i, j, Digit)
    ensures NumberDot(v, i) == Some(j + 1)
  {
    NonEmptyRunStops(v, i, j, Digit);
  }

  lemma LabelEndStops(v: string, c: nat, d: nat)
    requires c <= d <= |v| && AtEnd(v, d)
    requires d == c || (v[c] == '-' && c + 1 < d && Run(v, c + 1, d, LabelChar))
    ensures LabelEnd(v, c) == d
  {
    if d > c {
      NonEmptyRunStops(v, c + 1, d, LabelChar);
    }
  }

  /** `validate_version` holds exactly for a version followed by nothing
      or by one newline. */
  lemma ValidateVersionIff(v: string)
    ensures ValidateVersion(v) <==> exists k :: WellVersion(v, k) && AtEnd(v, k.d)
  {
    if ValidateVersion(v) {
      var k := CoreEndCut(v);
    }
    if k :| WellVersion(v, k) && AtEnd(v, k.d) {
      CutCoreEnd(v, k);
    }
  }

  /** The strict check holds exactly for a version and nothing more. */
  lemma ValidVersionIff(v: string)
    ensures ValidVersion(v) <==> exists k :: WellVersion(v, k) && k.d == |v|
  {
    if ValidVersion(v) {
      var k := CoreEndCut(v);
    }
    if k :| WellVersion(v, k) && k.d == |v| {
      CutCoreEnd(v, k);
    }
  }

  /** The characters a version is made of. */
  predicate VersionChar(ch: char) {
    In(LabelChar, ch) || ch == '-'
  }

  /** The text a cut covers holds letters, digits, dots and dashes only. */
  lemma CutChars(v: string, k: VersionCut)
    requires WellVersion(v, k)
    ensures forall i :: 0 <= i < k.d ==> VersionChar(v[i])
  {
    forall i | 0 <= i < k.d ensures VersionChar(v[i]) {
      if i < k.a {
        RunAt(v, 0, k.a, Digit, i);
      } else if k.a < i < k.b {
        RunAt(v, k.a + 1, k.b, Digit, i);
      } else if k.b < i < k.c {
        RunAt(v, k.b + 1, k.c, Digit, i);
      } else if k.c < i {
        RunAt(v, k.c + 1, k.d, LabelChar, i);
      }
    }
  }

  /** A strictly valid version holds letters, digits, dots and dashes
      only: no quote, backslash or newline. */
  lemma ValidVersionChars(v: string)
    requires ValidVersion(v)
    ensures |v| > 0 && forall i :: 0 <= i < |v| ==> VersionChar(v[i])
  {
    var k := CoreEndCut(v);
    CutChars(v, k);
  }

  /** What `validate_version` lets through holds no backslash, so it can
      be put into a replacement template as it is. */
  lemma ValidateVersionNoBackslash(v: string)
    requires ValidateVersion(v)
    ensures |v| > 0 && '\\' !in v && '"' !in v
  {
    var k := CoreEndCut(v);
    CutChars(v, k);
    assert forall i :: 0 <= i < |v| ==> VersionChar(v[i]) || v[i] == '\n';
  }

  /** Every strict version passes `validate_version`, and so does the
      same version with a newline after it, which the strict check
      refuses. */
  lemma TrailingNewlineAccepted(v: string)
    requires ValidVersion(v)
    ensures ValidateVersion(v) && ValidateVersion(v + "\n") && !ValidVersion(v + "\n")
  {
    var k := CoreEndCut(v);
    var w := v + "\n";
    assert forall i :: 0 <= i < |v| ==> w[i] == v[i];
    RunOfPrefix(v, "\n", 0, k.a, Digit);
    RunOfPrefix(v, "\n", k.a + 1, k.b, Digit);
    RunOfPrefix(v, "\n", k.b + 1, k.c, Digit);
    if k.d > k.c {
      RunOfPrefix(v, "\n", k.c + 1, k.d, LabelChar);
    }
    assert WellVersion(w, k);
    CutCoreEnd(w, k);
  }

  /** `1.2.3` followed by a newline passes `validate_version`. */
  lemma NewlineVersionAccepted(v: string)
    requires v == "1.2.3"
    ensures ValidateVersion(v + "\n") && !ValidVersion(v + "\n")
  {
    var k := VersionCut(1, 3, 5, 5);
    assert Run(v, 0, 1, Digit) && Run(v, 2, 3, Digit) && Run(v, 4, 5, Digit);
    assert WellVersion(v, k);
    CutCoreEnd(v, k);
    TrailingNewlineAccepted(v);
  }
}
