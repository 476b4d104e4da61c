/** Text primitives with Python's semantics, restricted to ASCII:
    whitespace classification, `strip`, `split`, `join`, `startswith`,
    substring search and literal replacement. */
module Strings {
  import opened Wrappers

  /** The ASCII characters for which Python's `str.isspace` holds (and
      which the regular-expression class `\s` matches): tab, newline,
      vertical tab, form feed, carriage return, the four information
      separators 0x1C-0x1F, and the space. */
  predicate IsSpace(c: char) {
    c == ' ' || ('\t' <= c <= '\r') || ('\U{001C}' <= c <= '\U{001F}')
  }

  predicate IsDigit(c: char) {
    '0' <= c <= '9'
  }

  predicate AllDigits(s: string) {
    forall i :: 0 <= i < |s| ==> IsDigit(s[i])
  }

  /** What the regular expression `\d+` matches in full (ASCII digits). */
  predicate IsDigits(s: string) {
    |s| > 0 && AllDigits(s)
  }

  /** The character classes the source's patterns and `strip` calls use. */
  datatype CharClass =
    | Whitespace          // `\s`, and what `strip()` removes
    | Digit               // `\d`
    | Only(c: char)       // the one character `c`
    | NoneOf(cs: string)  // `[^...]`: any character not in `cs`
    | KeyChar             // `[A-Z_]`
    | AnyOf(cs: string)   // `[...]`: any character in `cs`
    | LabelChar           // `[a-zA-Z0-9.]`

  predicate In(cls: CharClass, c: char) {
    match cls
    case Whitespace => IsSpace(c)
    case Digit => IsDigit(c)
    case Only(d) => c == d
    case NoneOf(cs) => c !in cs
    case KeyChar => 'A' <= c <= 'Z' || c == '_'
    case AnyOf(cs) => c in cs
    case LabelChar => 'a' <= c <= 'z' || 'A' <= c <= 'Z' || '0' <= c <= '9' || c == '.'
  }

  /** `s.lstrip(chars)`: drops the longest prefix of characters in `drop`. */
  function TrimStart(s: string, drop: CharClass): (r: string)
    ensures |r| <= |s| && r == s[|s| - |r|..]
    ensures forall i :: 0 <= i < |s| - |r| ==> In(drop, s[i])
    ensures |r| > 0 ==> !In(drop, r[0])
  {
    if |s| > 0 && In(drop, s[0]) then TrimStart(s[1..], drop) else s
  }

  /** `s.rstrip(chars)`: drops the longest suffix of characters in `drop`. */
  function TrimEnd(s: string, drop: CharClass): (r: string)
    ensures |r| <= |s| && r == s[..|r|]
    ensures forall i :: |r| <= i < |s| ==> In(drop, s[i])
    ensures |r| > 0 ==> !In(drop, r[|r| - 1])
  {
    if |s| > 0 && In(drop, s[|s| - 1]) then TrimEnd(s[..|s| - 1], drop) else s
  }

  /** `s.strip(chars)`. */
  function Trim(s: string, drop: CharClass): string {
    TrimEnd(TrimStart(s, drop), drop)
  }

  /** `s.strip()` with no argument. */
  function Strip(s: string): string {
    Trim(s, Whitespace)
  }

  /** `s.strip(q)` for a one-character argument `q`. */
  function StripChar(s: string, q: char): string {
    Trim(s, Only(q))
  }

  /** `s.split(sep)` for a one-character separator: never empty, and no
      piece contains the separator. */
  function Split(s: string, sep: char): (r: seq<string>)
    ensures |r| >= 1
    ensures forall i :: 0 <= i < |r| ==> sep !in r[i]
  {
    if |s| == 0 then [""]
    else if s[0] == sep then [""] + Split(s[1..], sep)
    else
      var rest := Split(s[1..], sep);
      [[s[0]] + rest[0]] + rest[1..]
  }

  /** `sep.join(parts)` for a one-character separator. */
  function Join(parts: seq<string>, sep: char): string {
    if |parts| == 0 then ""
    else if |parts| == 1 then parts[0]
    else parts[0] + [sep] + Join(parts[1..], sep)
  }

  /** Joining the pieces of a split gives back the original text. */
  lemma {:induction false} JoinSplit(s: string, sep: char)
    ensures Join(Split(s, sep), sep) == s
  {
    if |s| == 0 {
    } else if s[0] == sep {
      JoinSplit(s[1..], sep);
      var rest := Split(s[1..], sep);
      assert Split(s, sep) == [""] + rest;
      assert Join([""] + rest, sep) == [sep] + Join(rest, sep);
    } else {
      JoinSplit(s[1..], sep);
      var rest := Split(s[1..], sep);
      var r := [[s[0]] + rest[0]] + rest[1..];
      assert Split(s, sep) == r;
      if |rest| == 1 {
        assert Join(r, sep) == [s[0]] + rest[0];
      } else {
        assert r[1..] == rest[1..];
        assert Join(r, sep) == [s[0]] + rest[0] + [sep] + Join(rest[1..], sep);
        assert Join(rest, sep) == rest[0] + [sep] + Join(rest[1..], sep);
      }
    }
  }

  /** Splitting a join of separator-free pieces gives back the pieces. */
  lemma {:induction false} SplitJoin(parts: seq<string>, sep: char)
    requires |parts| >= 1
    requires forall i :: 0 <= i < |parts| ==> sep !in parts[i]
    ensures Split(Join(parts, sep), sep) == parts
    decreases |parts|, |parts[0]|
  {
    var p := parts[0];
    if |p| == 0 {
      if |parts| == 1 {
      } else {
        SplitJoin(parts[1..], sep);
        var j := Join(parts, sep);
        assert j == [sep] + Join(parts[1..], sep);
        assert j[1..] == Join(parts[1..], sep);
        assert parts == [""] + parts[1..];
      }
    } else {
      var tail := [p[1..]] + parts[1..];
      assert forall i :: 0 <= i < |tail| ==> sep !in tail[i] by {
        forall i | 0 <= i < |tail| ensures sep !in tail[i] {
          if i == 0 {
            assert forall c :: c in p[1..] ==> c in p;
          } else {
            assert tail[i] == parts[i];
          }
        }
      }
      SplitJoin(tail, sep);
      var j := Join(parts, sep);
      assert p[0] != sep by { assert p[0] in p; }
      if |parts| == 1 {
        assert j == p;
        assert Join(tail, sep) == p[1..];
      } else {
        assert tail[1..] == parts[1..];
        assert j == p + [sep] + Join(parts[1..], sep);
        assert Join(tail, sep) == p[1..] + [sep] + Join(parts[1..], sep);
      }
      assert j[0] == p[0];
      assert j[1..] == Join(tail, sep);
      assert tail[0] == p[1..] && [p[0]] + p[1..] == p;
      assert [[p[0]] + tail[0]] + tail[1..] == [p] + parts[1..];
      assert [p] + parts[1..] == parts;
    }
  }

  /** `s[p..p+|lit|] == lit`: the literal occurs in `s` at position `p`. */
  predicate OccursAt(s: string, lit: string, p: int) {
    0 <= p && p + |lit| <= |s| && s[p..p + |lit|] == lit
  }

  /** The first position at or after `from` where `lit` occurs. What it
      finds is stated by `IndexOfFound` and `IndexOfFirst`. */
  function IndexOf(s: string, lit: string, from: nat): Option<nat>
    decreases |s| - from
  {
    if from + |lit| > |s| then None
    else if s[from..from + |lit|] == lit then Some(from)
    else IndexOf(s, lit, from + 1)
  }

  /** What `IndexOf` finds is an occurrence at or after `from`. */
  lemma {:induction false} IndexOfFound(s: string, lit: string, from: nat)
    ensures var r := IndexOf(s, lit, from); r.Some? ==> from <= r.value && OccursAt(s, lit, r.value)
    decreases |s| - from
  {
    if from + |lit| <= |s| && s[from..from + |lit|] != lit {
      IndexOfFound(s, lit, from + 1);
    }
  }

  /** What `IndexOf` finds lies within the text. */
  lemma {:induction false} IndexOfBound(s: string, lit: string, from: nat)
    ensures var r := IndexOf(s, lit, from); r.Some? ==> r.value + |lit| <= |s|
    decreases |s| - from
  {
    if from + |lit| <= |s| && s[from..from + |lit|] != lit {
      IndexOfBound(s, lit, from + 1);
    }
  }

  /** `IndexOf` finds the first occurrence, and misses none. */
  lemma {:induction false} IndexOfFirst(s: string, lit: string, from: nat)
    ensures var r := IndexOf(s, lit, from);
      (r.Some? ==> forall q :: from <= q < r.value ==> !OccursAt(s, lit, q))
      && (r.None? ==> forall q :: from <= q ==> !OccursAt(s, lit, q))
    decreases |s| - from
  {
    if from + |lit| <= |s| && s[from..from + |lit|] != lit {
      IndexOfFirst(s, lit, from + 1);
    }
  }

  /** Python's `lit in s`. */
  predicate Contains(s: string, lit: string) {
    IndexOf(s, lit, 0).Some?
  }

  /** `Contains` holds exactly when the literal occurs somewhere. */
  lemma ContainsIff(s: string, lit: string)
    ensures Contains(s, lit) <==> exists q :: OccursAt(s, lit, q)
  {
    var r := IndexOf(s, lit, 0);
    IndexOfFound(s, lit, 0);
    IndexOfFirst(s, lit, 0);
    if r.Some? {
      assert OccursAt(s, lit, r.value);
    }
  }

  /** Python's `s.replace(lit, rep)`, equally `re.sub` with a pattern that
      matches only the literal and a replacement without escapes: every
      non-overlapping occurrence, scanning left to right, is replaced. */
  function ReplaceAll(s: string, lit: string, rep: string): string
    requires |lit| > 0
    decreases |s|
  {
    var f := IndexOf(s, lit, 0);
    IndexOfBound(s, lit, 0);
    match f
    case None => s
    case Some(i) => s[..i] + rep + ReplaceAll(s[i + |lit|..], lit, rep)
  }

  /** `re.sub(lit, rep, s, count=1)`: only the first occurrence is replaced. */
  function ReplaceFirst(s: string, lit: string, rep: string): (r: string)
    ensures !Contains(s, lit) ==> r == s
  {
    var f := IndexOf(s, lit, 0);
    IndexOfBound(s, lit, 0);
    match f
    case None => s
    case Some(i) => s[..i] + rep + s[i + |lit|..]
  }

  /** Replacing a literal by itself changes nothing. */
  lemma {:induction false} ReplaceAllSelf(s: string, lit: string)
    requires |lit| > 0
    ensures ReplaceAll(s, lit, lit) == s
    decreases |s|
  {
    IndexOfFound(s, lit, 0);
    match IndexOf(s, lit, 0)
    case None =>
    case Some(i) =>
      ReplaceAllSelf(s[i + |lit|..], lit);
      assert s[..i] + lit + s[i + |lit|..] == s by {
        assert s[i..i + |lit|] == lit;
        assert s == s[..i] + s[i..i + |lit|] + s[i + |lit|..];
      }
  }

  /** With one occurrence, replacing the first and replacing all agree. */
  lemma ReplaceOnce(s: string, lit: string, rep: string, i: nat)
    requires |lit| > 0 && IndexOf(s, lit, 0) == Some(i) && i + |lit| <= |s|
    requires !Contains(s[i + |lit|..], lit)
    ensures ReplaceAll(s, lit, rep) == s[..i] + rep + s[i + |lit|..]
    ensures ReplaceFirst(s, lit, rep) == s[..i] + rep + s[i + |lit|..]
  {
    ReplaceAllFirst(s, lit, rep, i);
  }

  /** The first occurrence replaced, the rest of the text is scanned on. */
  lemma {:induction false} ReplaceAllFirst(s: string, lit: string, rep: string, i: nat)
    requires |lit| > 0 && IndexOf(s, lit, 0) == Some(i)
    ensures i + |lit| <= |s| && ReplaceAll(s, lit, rep) == s[..i] + rep + ReplaceAll(s[i + |lit|..], lit, rep)
  {
    IndexOfBound(s, lit, 0);
  }

  /** Every character of `s[i..j]` belongs to `cls`. Defined by recursion
      from the left, so that it unfolds only as far as a proof asks. */
  predicate Run(s: string, i: nat, j: nat, cls: CharClass)
    requires i <= j <= |s|
    decreases j - i
  {
    i == j || (In(cls, s[i]) && Run(s, i + 1, j, cls))
  }

  /** A run stays a run when text is appended. */
  lemma {:induction false} RunOfPrefix(s: string, t: string, i: nat, j: nat, cls: CharClass)
    requires i <= j <= |s| && Run(s, i, j, cls)
    ensures Run(s + t, i, j, cls)
    decreases j - i
  {
    if i < j {
      assert (s + t)[i] == s[i];
      RunOfPrefix(s, t, i + 1, j, cls);
    }
  }

  /** A run read inside a longer text that holds `v` at offset `off`. */
  lemma {:induction false} RunShift(v: string, t: string, off: nat, i: nat, j: nat, cls: CharClass)
    requires i <= j <= |v| && off + |v| <= |t| && t[off..off + |v|] == v
    requires Run(v, i, j, cls)
    ensures Run(t, off + i, off + j, cls)
    decreases j - i
  {
    if i < j {
      assert t[off + i] == t[off..off + |v|][i];
      RunShift(v, t, off, i + 1, j, cls);
    }
  }

  /** Each character of a run belongs to its class. */
  lemma {:induction false} RunAt(s: string, i: nat, j: nat, cls: CharClass, k: nat)
    requires i <= k < j <= |s| && Run(s, i, j, cls)
    ensures In(cls, s[k])
    decreases k - i
  {
    if i < k {
      RunAt(s, i + 1, j, cls, k);
    }
  }

  /** A run splits at any point in between, and two adjacent runs join. */
  lemma {:induction false} RunSplit(s: string, i: nat, m: nat, j: nat, cls: CharClass)
    requires i <= m <= j <= |s|
    ensures Run(s, i, j, cls) <==> Run(s, i, m, cls) && Run(s, m, j, cls)
    decreases m - i
  {
    if i < m {
      RunSplit(s, i + 1, m, j, cls);
    }
  }

  /** A run is a run of any class that admits all its characters. */
  lemma {:induction false} RunOfAll(s: string, i: nat, j: nat, cls: CharClass)
    requires i <= j <= |s|
    requires forall k :: i <= k < j ==> In(cls, s[k])
    ensures Run(s, i, j, cls)
    decreases j - i
  {
    if i < j {
      RunOfAll(s, i + 1, j, cls);
    }
  }

  /** A run of digits reads as a digit string. */
  lemma RunDigits(s: string, i: nat, j: nat)
    requires i <= j <= |s| && Run(s, i, j, Digit)
    ensures AllDigits(s[i..j])
  {
    forall k | 0 <= k < j - i ensures IsDigit(s[i..j][k]) {
      RunAt(s, i, j, Digit, i + k);
    }
  }

  /** The first index `j >= i` whose character fails `keep`: the end of the
      longest run of `keep` characters starting at `i` (a greedy `c*`). */
  function SkipWhile(s: string, i: nat, keep: CharClass): (j: nat)
    requires i <= |s|
    ensures i <= j <= |s| && Run(s, i, j, keep)
    ensures j < |s| ==> !In(keep, s[j])
    decreases |s| - i
  {
    if i < |s| && In(keep, s[i]) then SkipWhile(s, i + 1, keep) else i
  }

  /** A run of `cls` characters from `i` that stops at `j` is the run
      `SkipWhile` finds. */
  lemma {:induction false} SkipWhileStops(s: string, i: nat, j: nat, cls: CharClass)
    requires i <= j <= |s| && Run(s, i, j, cls)
    requires j < |s| ==> !In(cls, s[j])
    ensures SkipWhile(s, i, cls) == j
    decreases j - i
  {
    if i < j {
      SkipWhileStops(s, i + 1, j, cls);
    }
  }

  /** `SkipWhile` never stops inside a run of `cls` characters. */
  lemma {:induction false} SkipWhileCovers(s: string, i: nat, j: nat, cls: CharClass)
    requires i <= j <= |s| && Run(s, i, j, cls)
    ensures SkipWhile(s, i, cls) >= j
    decreases j - i
  {
    if i < j {
      SkipWhileCovers(s, i + 1, j, cls);
    }
  }

  /** A run read off the suffix `s[a..]`. */
  lemma {:induction false} RunOfSuffix(s: string, a: nat, i: nat, j: nat, cls: CharClass)
    requires a <= i <= j <= |s| && Run(s, i, j, cls)
    ensures Run(s[a..], i - a, j - a, cls)
    decreases j - i
  {
    if i < j {
      assert s[a..][i - a] == s[i];
      RunOfSuffix(s, a, i + 1, j, cls);
    }
  }

  /** Dropping leading characters that `lstrip` would drop anyway does not
      change its result. */
  lemma {:induction false} TrimStartSkips(x: string, k: nat, cls: CharClass)
    requires k <= |x| && Run(x, 0, k, cls)
    ensures TrimStart(x[k..], cls) == TrimStart(x, cls)
    decreases k
  {
    if k > 0 {
      RunOfSuffix(x, 1, 1, k, cls);
      TrimStartSkips(x[1..], k - 1, cls);
      assert x[1..][k - 1..] == x[k..];
    }
  }

  /** Leading whitespace is irrelevant to `strip`. */
  lemma StripSkips(x: string, k: nat)
    requires k <= |x| && Run(x, 0, k, Whitespace)
    ensures Strip(x[k..]) == Strip(x)
  {
    TrimStartSkips(x, k, Whitespace);
  }

  /** Whitespace between `a` and `b` is irrelevant to stripping the suffix. */
  lemma StripSuffixSkips(t: string, a: nat, b: nat)
    requires a <= b <= |t| && Run(t, a, b, Whitespace)
    ensures Strip(t[b..]) == Strip(t[a..])
  {
    RunOfSuffix(t, a, a, b, Whitespace);
    StripSkips(t[a..], b - a);
    assert t[a..][b - a..] == t[b..];
  }

  /** `\d+`, `\s+` and the like at position `i`: the end of the maximal run
      of `cls` characters there, if the run is not empty. */
  function NonEmptyRun(t: string, i: nat, cls: CharClass): (r: Option<nat>)
    requires i <= |t|
    ensures r.Some? ==> i < r.value <= |t| && Run(t, i, r.value, cls)
    ensures r.Some? ==> r.value < |t| ==> !In(cls, t[r.value])
    ensures r.None? ==> i == |t| || !In(cls, t[i])
  {
    var e := SkipWhile(t, i, cls);
    if e == i then None else Some(e)
  }

  /** Completeness of `NonEmptyRun`. */
  lemma NonEmptyRunStops(t: string, i: nat, j: nat, cls: CharClass)
    requires i < j <= |t| && Run(t, i, j, cls)
    requires j < |t| ==> !In(cls, t[j])
    ensures NonEmptyRun(t, i, cls) == Some(j)
  {
    SkipWhileStops(t, i, j, cls);
  }

  /** A digit string is a run of digits. */
  lemma AllDigitsRun(s: string, i: nat, j: nat)
    requires i <= j <= |s| && AllDigits(s[i..j])
    ensures Run(s, i, j, Digit)
  {
    forall k | i <= k < j ensures In(Digit, s[k]) {
      assert s[i..j][k - i] == s[k];
    }
    RunOfAll(s, i, j, Digit);
  }

  /** Trimming a string whose end characters are outside the class
      changes nothing. */
  lemma TrimNoEnds(s: string, cls: CharClass)
    requires |s| > 0 && !In(cls, s[0]) && !In(cls, s[|s| - 1])
    ensures Trim(s, cls) == s
  {
    assert TrimStart(s, cls) == s;
  }

  /** `s.strip(c)` removes one enclosing pair of `c`. */
  lemma TrimEnclosed(x: string, c: char)
    requires |x| > 0 && x[0] != c && x[|x| - 1] != c
    ensures Trim([c] + x + [c], Only(c)) == x
  {
    TrimStartOne(x + [c], c);
    assert [c] + (x + [c]) == [c] + x + [c];
    TrimEndOne(x, c);
  }

  lemma TrimStartOne(y: string, c: char)
    requires |y| > 0 && y[0] != c
    ensures TrimStart([c] + y, Only(c)) == y
  {
    assert ([c] + y)[1..] == y;
    assert TrimStart(y, Only(c)) == y;
  }

  lemma TrimEndOne(x: string, c: char)
    requires |x| > 0 && x[|x| - 1] != c
    ensures TrimEnd(x + [c], Only(c)) == x
  {
    assert (x + [c])[..|x|] == x;
    assert TrimEnd(x, Only(c)) == x;
  }

  /** What `[A-Z_]+` matches in full: a word of capitals and underscores. */
  predicate IsKeyWord(k: string) {
    |k| > 0 && forall i :: 0 <= i < |k| ==> In(KeyChar, k[i])
  }

  /** Stripping a string whose ends are not whitespace changes nothing. */
  lemma StripNoSpaceEnds(s: string)
    requires |s| > 0 && !IsSpace(s[0]) && !IsSpace(s[|s| - 1])
    ensures Strip(s) == s
  {
    assert TrimStart(s, Whitespace) == s;
  }

  /** A key word has no blank, `#` or `=` in it and nothing to strip. */
  lemma KeyWordShape(k: string)
    requires IsKeyWord(k)
    ensures k[0] != '#' && '=' !in k && !IsSpace(k[0]) && !IsSpace(k[|k| - 1]) && Strip(k) == k
  {
    assert In(KeyChar, k[0]) && In(KeyChar, k[|k| - 1]);
    StripNoSpaceEnds(k);
  }

  /** Python's `s.startswith(prefix)`. */
  predicate StartsWith(s: string, prefix: string) {
    |prefix| <= |s| && s[..|prefix|] == prefix
  }
}
