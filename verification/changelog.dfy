/** `update_changelog` of `scripts/bump-version.py`: the `## [Unreleased]`
    heading of `CHANGELOG.md` is replaced by a fresh, empty Unreleased
    section followed by the heading of the new version, so that what was
    listed under Unreleased now belongs to the release. */
module Changelog {
  import opened Wrappers
  import opened Strings
  import opened VersionFiles

  /** The heading of the section that collects unreleased changes. */
  const Unreleased := "## [Unreleased]"

  /** What follows a fresh Unreleased heading: the four empty
      subsections. */
  const Subsections := "\n\n" + Titles(Names)

  /** The subsections of a release, in order. */
  const Names := ["Added", "Changed", "Fixed", "Removed"]

  /** The heading of a subsection and the blank line after it. */
  function Title(name: string): string {
    "### " + name + "\n\n"
  }

  /** The headings of empty subsections, one after the other. */
  function Titles(names: seq<string>): string {
    if |names| == 0 then "" else Title(names[0]) + Titles(names[1..])
  }

  /** The heading of a released version, as `update_changelog` looks for
      it. */
  function VersionHeading(version: string): string {
    "## [" + version + "]"
  }

  /** Different versions have different headings, so the check for a
      heading already present refuses a version only for itself. */
  lemma VersionHeadingInjective(a: string, b: string)
    ensures VersionHeading(a) == VersionHeading(b) <==> a == b
  {
    if VersionHeading(a) == VersionHeading(b) {
      assert a == VersionHeading(a)[4..|VersionHeading(a)| - 1];
      assert b == VersionHeading(b)[4..|VersionHeading(b)| - 1];
    }
  }

  /** What the Unreleased heading is replaced by. */
  function Header(version: string, today: string): string {
    Unreleased + Subsections + VersionHeading(version) + " - " + today
  }

  /** `date.today().isoformat()`: `YYYY-MM-DD`. */
  predicate IsoDate(today: string) {
    |today| == 10 && today[4] == '-' && today[7] == '-'
    && forall i :: 0 <= i < 10 && i != 4 && i != 7 ==> IsDigit(today[i])
  }

  // ---------------------------------------------------------------------
  // The check for an Unreleased section in the usual layout

  /** `(?:- .+\n)*` from `i`: where the list of `- ` items ends. An item
      runs to the end of its line, so the repetition never gives an item
      back. */
  function Bullets(s: string, i: nat): (r: nat)
    requires i <= |s|
    ensures i <= r <= |s|
    decreases |s| - i
  {
    if !OccursAt(s, "- ", i) then i
    else
      match NonEmptyRun(s, i + 2, NoneOf("\n"))
      case None => i
      case Some(q) => if q < |s| then Bullets(s, q + 1) else i
  }

  /** `### name\n\n(?:- .+\n)*\n?` from `i`: where the subsection ends, if
      it starts there. */
  function Subsection(s: string, i: nat, name: string): (r: Option<nat>)
    requires i <= |s|
    ensures r.Some? ==> i < r.value <= |s|
  {
    var title := Title(name);
    if !OccursAt(s, title, i) then None
    else
      var b := Bullets(s, i + |title|);
      Some(if b < |s| && s[b] == '\n' then b + 1 else b)
  }

  /** The subsections named, in order, from `i`. */
  predicate SubsectionsFrom(s: string, i: nat, names: seq<string>)
    requires i <= |s|
    decreases |names|
  {
    |names| == 0
    || var e := Subsection(s, i, names[0]); e.Some? && SubsectionsFrom(s, e.value, names[1..])
  }

  /** The pattern of `unreleased_with_content`, matched at `p`: the
      Unreleased heading and the four subsections in order. */
  predicate BlockAt(s: string, p: nat)
    requires p <= |s|
  {
    OccursAt(s, Unreleased + "\n\n", p) && SubsectionsFrom(s, p + |Unreleased| + 2, Names)
  }

  /** `re.search` of that pattern succeeds. */
  predicate HasBlock(s: string) {
    exists p :: 0 <= p <= |s| && BlockAt(s, p)
  }

  // ---------------------------------------------------------------------
  // update_changelog

  /** The text the second `re.sub` looks for and writes back: the fresh
      Unreleased section, the new heading and the `### Added` after it. */
  function Cleanup(version: string, today: string): string {
    Header(version, today) + "\n\n### Added"
  }

  /** `update_changelog(new_version)`. `content` is `None` when the file
      does not exist; `today` is the date of the run. A version with a
      backslash would be read as escapes by `re.sub`; `validate_version`
      lets none through. */
  function UpdateChangelog(version: string, content: Option<string>, today: string): (r: Outcome)
    requires '\\' !in version && IsoDate(today)
    ensures r.ok <==> r.written.Some?
    ensures r.ok <==> content.Some? && !Contains(content.value, VersionHeading(version))
  {
    match content
    case None => Outcome(false, None)
    case Some(text) =>
      if Contains(text, VersionHeading(version)) then Outcome(false, None)
      else if HasBlock(text) then
        var moved := ReplaceFirst(text, Unreleased, Header(version, today));
        Outcome(true, Some(ReplaceAll(moved, Cleanup(version, today), Cleanup(version, today))))
      else Outcome(true, Some(ReplaceAll(text, Unreleased, Header(version, today))))
  }

  /** The second `re.sub` writes back exactly what it matched, so the
      text is the first one's: the first Unreleased heading replaced when
      the section has the usual layout, every one of them otherwise. */
  lemma UpdateChangelogText(version: string, text: string, today: string)
    requires '\\' !in version && IsoDate(today) && !Contains(text, VersionHeading(version))
    ensures HasBlock(text) ==> UpdateChangelog(version, Some(text), today).written
                               == Some(ReplaceFirst(text, Unreleased, Header(version, today)))
    ensures !HasBlock(text) ==> UpdateChangelog(version, Some(text), today).written
                                == Some(ReplaceAll(text, Unreleased, Header(version, today)))
  {
    var moved := ReplaceFirst(text, Unreleased, Header(version, today));
    ReplaceAllSelf(moved, Cleanup(version, today));
  }

  /** Without an Unreleased heading the file is written back unchanged,
      and still reported as updated. */
  lemma NoUnreleasedUnchanged(version: string, text: string, today: string)
    requires '\\' !in version && IsoDate(today) && !Contains(text, VersionHeading(version))
    requires !Contains(text, Unreleased)
    ensures UpdateChangelog(version, Some(text), today) == Outcome(true, Some(text))
  {
    UpdateChangelogText(version, text, today);
  }

  /** When the Unreleased heading appears once, both branches agree: the
      text before it is kept, the header takes its place and the text
      after it follows. */
  lemma OneUnreleased(version: string, text: string, today: string, i: nat)
    requires '\\' !in version && IsoDate(today) && !Contains(text, VersionHeading(version))
    requires IndexOf(text, Unreleased, 0) == Some(i) && i + |Unreleased| <= |text|
    requires !Contains(text[i + |Unreleased|..], Unreleased)
    ensures UpdateChangelog(version, Some(text), today)
         == Outcome(true, Some(text[..i] + Header(version, today) + text[i + |Unreleased|..]))
  {
    UpdateChangelogText(version, text, today);
    ReplaceOnce(text, Unreleased, Header(version, today), i);
  }

  /** A literal found inside the middle part is found in the whole. */
  lemma OccursInMiddle(x: string, y: string, z: string, lit: string, q: nat)
    requires OccursAt(y, lit, q)
    ensures OccursAt(x + y + z, lit, |x| + q)
  {
    var w := x + y + z;
    forall k | 0 <= k < |lit| ensures w[|x| + q + k] == lit[k] {
      assert w[|x| + q + k] == y[q + k] == y[q..q + |lit|][k];
    }
    assert w[|x| + q..|x| + q + |lit|] == lit;
  }

  /** Writing `h` after `a` keeps `a` and puts `h` at `|a|`. */
  lemma PrefixThen(a: string, h: string, rest: string)
    ensures (a + h + rest)[..|a|] == a && OccursAt(a + h + rest, h, |a|)
  {
    assert (a + h + rest)[|a|..|a| + |h|] == h;
  }

  /** The text up to the first Unreleased heading is kept, and the new
      header is written where that heading was, in either branch. */
  lemma FirstUnreleasedReplaced(version: string, text: string, today: string, i: nat)
    requires '\\' !in version && IsoDate(today) && !Contains(text, VersionHeading(version))
    requires IndexOf(text, Unreleased, 0) == Some(i) && i + |Unreleased| <= |text|
    ensures var w := UpdateChangelog(version, Some(text), today).written.value;
      i <= |w| && w[..i] == text[..i] && OccursAt(w, Header(version, today), i)
  {
    IndexOfFound(text, Unreleased, 0);
    UpdateChangelogText(version, text, today);
    var h := Header(version, today);
    var a := text[..i];
    var rest := text[i + |Unreleased|..];
    if HasBlock(text) {
      PrefixThen(a, h, rest);
    } else {
      PrefixThen(a, h, ReplaceAll(rest, Unreleased, h));
    }
  }

  /** The header holds the version's heading. */
  lemma HeaderHasVersion(version: string, today: string)
    ensures OccursAt(Header(version, today), VersionHeading(version), |Unreleased| + |Subsections|)
  {
    var vh := VersionHeading(version);
    OccursInMiddle(Unreleased + Subsections, vh, " - " + today, vh, 0);
  }

  /** After a bump the version's heading is in the file, so bumping to the
      same version again is refused, whatever the date. */
  lemma BumpedOnce(version: string, text: string, today: string, later: string)
    requires '\\' !in version && IsoDate(today) && IsoDate(later) && !Contains(text, VersionHeading(version))
    requires Contains(text, Unreleased)
    ensures Contains(UpdateChangelog(version, Some(text), today).written.value, VersionHeading(version))
    ensures UpdateChangelog(version, UpdateChangelog(version, Some(text), today).written, later) == Outcome(false, None)
  {
    var i := IndexOf(text, Unreleased, 0).value;
    IndexOfFound(text, Unreleased, 0);
    FirstUnreleasedReplaced(version, text, today, i);
    HeaderHasVersion(version, today);
    var w := UpdateChangelog(version, Some(text), today).written.value;
    OccursWithin(w, Header(version, today), i, VersionHeading(version), |Unreleased| + |Subsections|);
    ContainsIff(w, VersionHeading(version));
  }

  /** A literal inside a literal that occurs is found in the whole. */
  lemma OccursWithin(w: string, h: string, i: nat, lit: string, q: nat)
    requires OccursAt(w, h, i) && OccursAt(h, lit, q)
    ensures OccursAt(w, lit, i + q)
  {
    forall k | 0 <= k < |lit| ensures w[i + q + k] == lit[k] {
      assert w[i + q + k] == w[i..i + |h|][q + k] == h[q + k] == h[q..q + |lit|][k];
    }
    assert w[i + q..i + q + |lit|] == lit;
  }

  /** A subsection with no items, followed by the next heading or by
      nothing. */
  lemma EmptySubsection(s: string, i: nat, name: string)
    requires OccursAt(s, Title(name), i)
    requires i + |Title(name)| == |s| || s[i + |Title(name)|] == '#'
    ensures Subsection(s, i, name) == Some(i + |Title(name)|)
  {
    var e := i + |Title(name)|;
    assert !OccursAt(s, "- ", e) by {
      if e + 2 <= |s| {
        assert s[e..e + 2][0] == s[e];
      }
    }
  }

  /** Every heading starts with `#`. */
  lemma TitlesStart(names: seq<string>)
    ensures |Titles(names)| == 0 || Titles(names)[0] == '#'
  {
    if |names| > 0 {
      assert Titles(names)[0] == Title(names[0])[0];
    }
  }

  /** The part `y` of `x + y + z` is found at `|x|`, and what follows it
      is the start of `z`. */
  lemma PartAt(x: string, y: string, z: string)
    ensures OccursAt(x + y + z, y, |x|)
    ensures |z| > 0 ==> (x + y + z)[|x| + |y|] == z[0]
  {
    assert (x + y + z)[|x|..|x| + |y|] == y;
  }

  lemma AppendAssoc(x: string, y: string, z: string)
    ensures x + (y + z) == x + y + z
  {
  }

  /** The two halves of a slice that reads `y + z`. */
  lemma SplitSlice(s: string, i: nat, y: string, z: string)
    requires i + |y| + |z| <= |s| && s[i..i + |y| + |z|] == y + z
    ensures s[i..i + |y|] == y && s[i + |y|..i + |y| + |z|] == z
  {
    assert s[i..i + |y|] == s[i..i + |y| + |z|][..|y|];
    assert s[i + |y|..i + |y| + |z|] == s[i..i + |y| + |z|][|y|..];
  }

  /** Text that occurs as `x + y` holds `x` and then `y`. */
  lemma OccursSplit(s: string, i: nat, x: string, y: string)
    requires OccursAt(s, x + y, i)
    ensures OccursAt(s, x, i) && OccursAt(s, y, i + |x|)
  {
    SplitSlice(s, i, x, y);
  }

  /** The headings of empty subsections, one after the other from `i`,
      and then the next heading or the end of the text. */
  predicate EmptyAt(s: string, i: nat, names: seq<string>)
    requires i <= |s|
    decreases |names|
  {
    if |names| == 0 then i == |s| || s[i] == '#'
    else OccursAt(s, Title(names[0]), i) && EmptyAt(s, i + |Title(names[0])|, names[1..])
  }

  /** An empty subsection followed by the rest. */
  lemma EmptyStep(s: string, i: nat, names: seq<string>)
    requires |names| > 0 && OccursAt(s, Title(names[0]), i)
    requires i + |Title(names[0])| == |s| || s[i + |Title(names[0])|] == '#'
    requires SubsectionsFrom(s, i + |Title(names[0])|, names[1..])
    ensures SubsectionsFrom(s, i, names)
  {
    EmptySubsection(s, i, names[0]);
  }

  /** Such headings are read back as empty subsections. */
  lemma {:induction false} EmptySubsections(s: string, i: nat, names: seq<string>)
    requires i <= |s| && EmptyAt(s, i, names)
    ensures SubsectionsFrom(s, i, names)
    decreases |names|
  {
    if |names| > 0 {
      var e := i + |Title(names[0])|;
      EmptySubsections(s, e, names[1..]);
      if |names| > 1 {
        assert s[e] == s[e..e + |Title(names[1])|][0];
      }
      EmptyStep(s, i, names);
    }
  }

  /** The headings written out as one text are such a layout. */
  lemma {:induction false} TitlesEmptyAt(s: string, i: nat, names: seq<string>)
    requires i + |Titles(names)| <= |s| && s[i..i + |Titles(names)|] == Titles(names)
    requires i + |Titles(names)| == |s| || s[i + |Titles(names)|] == '#'
    ensures EmptyAt(s, i, names)
    decreases |names|
  {
    if |names| > 0 {
      var t := Title(names[0]);
      var rest := Titles(names[1..]);
      SplitSlice(s, i, t, rest);
      TitlesEmptyAt(s, i + |t|, names[1..]);
    }
  }

  /** The check is meant to find an Unreleased section with content, but
      `*` also accepts empty subsections: a fresh, empty Unreleased
      section passes it when the next heading or the end of the text
      follows. */
  lemma FreshSectionHasBlock(s: string, p: nat)
    requires p + |Unreleased| + |Subsections| <= |s|
    requires s[p..p + |Unreleased| + |Subsections|] == Unreleased + Subsections
    requires p + |Unreleased| + |Subsections| == |s| || s[p + |Unreleased| + |Subsections|] == '#'
    ensures BlockAt(s, p)
  {
    var u := Unreleased + "\n\n";
    AppendAssoc(Unreleased, "\n\n", Titles(Names));
    SplitSlice(s, p, u, Titles(Names));
    TitlesEmptyAt(s, p + |u|, Names);
    EmptySubsections(s, p + |u|, Names);
  }

  /** A list of `- ` items, one per line. */
  function Items(items: seq<string>): string {
    if |items| == 0 then "" else "- " + items[0] + "\n" + Items(items[1..])
  }

  /** The text of a list item: something, all on one line. */
  predicate ItemText(item: string) {
    |item| > 0 && '\n' !in item
  }

  /** A subsection in the usual layout: its heading, its items, and a
      blank line after them when there are any. */
  function Filled(name: string, items: seq<string>): string {
    Title(name) + Items(items) + ListEnd(items)
  }

  /** The blank line that closes a list of items; an empty list has none. */
  function ListEnd(items: seq<string>): string {
    if |items| > 0 then "\n" else ""
  }

  /** Subsections in the usual layout, one after the other. */
  function FilledAll(names: seq<string>, lists: seq<seq<string>>): string
    requires |names| == |lists|
  {
    if |names| == 0 then "" else Filled(names[0], lists[0]) + FilledAll(names[1..], lists[1..])
  }

  /** Every item of every list is one line of text. */
  predicate ListsOfItems(lists: seq<seq<string>>) {
    forall k, m :: 0 <= k < |lists| && 0 <= m < |lists[k]| ==> ItemText(lists[k][m])
  }

  /** `s` holds `lit` at `i`, read character by character. */
  lemma OccursAtChars(s: string, lit: string, i: nat, k: nat)
    requires OccursAt(s, lit, i) && k < |lit|
    ensures s[i + k] == lit[k]
  {
    assert s[i + k] == s[i..i + |lit|][k];
  }

  /** An item line: `- `, then characters other than a newline, up to the
      newline at `q`. */
  lemma LineRun(s: string, i: nat, it: string, q: nat)
    requires ItemText(it) && OccursAt(s, "- " + it + "\n", i) && q == i + 2 + |it|
    ensures q < |s| && OccursAt(s, "- ", i) && Run(s, i + 2, q, NoneOf("\n")) && s[q] == '\n'
  {
    var line := "- " + it + "\n";
    OccursAtChars(s, line, i, 0);
    OccursAtChars(s, line, i, 1);
    assert s[i..i + 2] == "- ";
    forall k | i + 2 <= k < q ensures In(NoneOf("\n"), s[k]) {
      OccursAtChars(s, line, i, k - i);
      assert line[k - i] == it[k - i - 2];
    }
    RunOfAll(s, i + 2, q, NoneOf("\n"));
    OccursAtChars(s, line, i, |line| - 1);
  }

  /** One item line is read past as a whole. */
  lemma ItemLine(s: string, i: nat, it: string, j: nat)
    requires ItemText(it) && OccursAt(s, "- " + it + "\n", i) && j == i + |it| + 3
    ensures j <= |s| && Bullets(s, i) == Bullets(s, j)
  {
    var q := i + 2 + |it|;
    LineRun(s, i, it, q);
    NonEmptyRunStops(s, i + 2, q, NoneOf("\n"));
  }

  /** `Bullets` stops where no `- ` starts. */
  lemma BulletsStop(s: string, i: nat)
    requires i <= |s| && (i == |s| || s[i] == '\n' || s[i] == '#')
    ensures Bullets(s, i) == i
  {
    if i + 2 <= |s| {
      assert s[i..i + 2][0] == s[i];
    }
  }

  /** `Bullets` reads a list of one-line items to its end `e` when the
      end of the text, a blank line or a heading follows it. */
  lemma {:induction false} ItemsBullets(s: string, i: nat, items: seq<string>, e: nat)
    requires forall m :: 0 <= m < |items| ==> ItemText(items[m])
    requires OccursAt(s, Items(items), i) && e == i + |Items(items)|
    requires e == |s| || s[e] == '\n' || s[e] == '#'
    ensures Bullets(s, i) == e
    decreases |items|
  {
    if |items| == 0 {
      BulletsStop(s, i);
    } else {
      var line := "- " + items[0] + "\n";
      var rest := Items(items[1..]);
      var j := i + |line|;
      assert OccursAt(s, line, i) && OccursAt(s, rest, j) by {
        assert Items(items) == line + rest;
        OccursSplit(s, i, line, rest);
      }
      assert Bullets(s, i) == Bullets(s, j) by {
        ItemLine(s, i, items[0], j);
      }
      assert Bullets(s, j) == e by {
        ItemsBullets(s, j, items[1..], e);
      }
    }
  }

  /** A subsection's heading at `i` and its list of items after it, then
      the blank line that closes a list or, for an empty list, the next
      heading or the end of the text: the subsection is read to its end,
      `e`. */
  lemma ListedSubsection(s: string, i: nat, name: string, items: seq<string>, b: nat, e: nat)
    requires forall m :: 0 <= m < |items| ==> ItemText(items[m])
    requires OccursAt(s, Title(name), i) && OccursAt(s, Items(items), i + |Title(name)|)
    requires b == i + |Title(name)| + |Items(items)| && b <= e <= |s|
    requires |items| > 0 ==> e == b + 1 && s[b] == '\n'
    requires |items| == 0 ==> e == b && (b == |s| || s[b] == '#')
    ensures Subsection(s, i, name) == Some(e)
  {
    assert Bullets(s, i + |Title(name)|) == b by {
      ItemsBullets(s, i + |Title(name)|, items, b);
    }
  }

  /** A subsection in the usual layout is read to its end when a heading
      or the end of the text follows it. */
  lemma FilledSubsection(s: string, i: nat, name: string, items: seq<string>)
    requires forall m :: 0 <= m < |items| ==> ItemText(items[m])
    requires OccursAt(s, Filled(name, items), i)
    requires var e := i + |Filled(name, items)|; e == |s| || s[e] == '#'
    ensures Subsection(s, i, name) == Some(i + |Filled(name, items)|)
  {
    var t := Title(name);
    var list := Items(items);
    var tail := ListEnd(items);
    var b := i + |t| + |list|;
    var e := i + |Filled(name, items)|;
    assert Filled(name, items) == t + (list + tail);
    assert e == b + |tail|;
    OccursSplit(s, i, t, list + tail);
    OccursSplit(s, i + |t|, list, tail);
    if |items| > 0 {
      OccursAtChars(s, tail, b, 0);
    }
    ListedSubsection(s, i, name, items, b, e);
  }

  /** The lists after the first still hold one-line items. */
  lemma ListsOfItemsRest(lists: seq<seq<string>>)
    requires |lists| > 0 && ListsOfItems(lists)
    ensures ListsOfItems(lists[1..])
    ensures forall m :: 0 <= m < |lists[0]| ==> ItemText(lists[0][m])
  {
    forall k, m | 0 <= k < |lists[1..]| && 0 <= m < |lists[1..][k]| ensures ItemText(lists[1..][k][m]) {
      assert lists[1..][k] == lists[k + 1];
    }
  }

  /** The text after a subsection in the usual layout starts with the
      next one's heading. */
  lemma FilledAllStart(names: seq<string>, lists: seq<seq<string>>)
    requires |names| == |lists| && |names| > 0
    ensures FilledAll(names, lists)[0] == '#'
  {
    var t := Title(names[0]);
    assert FilledAll(names, lists) == t + (Items(lists[0]) + ListEnd(lists[0]) + FilledAll(names[1..], lists[1..]));
  }

  /** Subsections in the usual layout, with or without items, are read
      back one after the other. */
  lemma {:induction false} FilledSubsections(s: string, i: nat, names: seq<string>, lists: seq<seq<string>>)
    requires |names| == |lists| && ListsOfItems(lists)
    requires OccursAt(s, FilledAll(names, lists), i)
    ensures SubsectionsFrom(s, i, names)
    decreases |names|
  {
    if |names| > 0 {
      var f := Filled(names[0], lists[0]);
      var rest := FilledAll(names[1..], lists[1..]);
      var e := i + |f|;
      assert FilledAll(names, lists) == f + rest;
      OccursSplit(s, i, f, rest);
      ListsOfItemsRest(lists);
      if |names| > 1 {
        FilledAllStart(names[1..], lists[1..]);
        OccursAtChars(s, rest, e, 0);
        FilledSubsection(s, i, names[0], lists[0]);
        FilledSubsections(s, e, names[1..], lists[1..]);
      } else {
        assert f == Title(names[0]) + (Items(lists[0]) + ListEnd(lists[0]));
        OccursSplit(s, i, Title(names[0]), Items(lists[0]) + ListEnd(lists[0]));
      }
    }
  }

  /** The Unreleased heading, a blank line and subsections in the usual
      layout are read as the heading of a block and its subsections. */
  lemma FilledBlock(s: string, p: nat, names: seq<string>, lists: seq<seq<string>>)
    requires |names| == |lists| && ListsOfItems(lists)
    requires OccursAt(s, Unreleased + "\n\n" + FilledAll(names, lists), p)
    ensures OccursAt(s, Unreleased + "\n\n", p) && SubsectionsFrom(s, p + |Unreleased| + 2, names)
  {
    var u := Unreleased + "\n\n";
    var q := p + |Unreleased| + 2;
    assert OccursAt(s, u, p) && OccursAt(s, FilledAll(names, lists), q) by {
      SplitSlice(s, p, u, FilledAll(names, lists));
    }
    FilledSubsections(s, q, names, lists);
  }

  /** A block found at some position is what `re.search` finds. */
  lemma BlockAtHasBlock(s: string, p: nat)
    requires p <= |s| && BlockAt(s, p)
    ensures HasBlock(s)
  {
  }

  /** The check finds an Unreleased section in the usual layout, whatever
      items its four subsections list. */
  lemma FilledSectionHasBlock(s: string, p: nat, lists: seq<seq<string>>)
    requires |lists| == |Names| && ListsOfItems(lists)
    requires OccursAt(s, Unreleased + "\n\n" + FilledAll(Names, lists), p)
    ensures BlockAt(s, p) && HasBlock(s)
  {
    FilledBlock(s, p, Names, lists);
    BlockAtHasBlock(s, p);
  }

  /** So a changelog whose Unreleased section lists its changes in the
      usual layout is released through the first branch: only the first
      Unreleased heading is rewritten. */
  lemma FilledSectionReleased(version: string, text: string, today: string, p: nat, lists: seq<seq<string>>)
    requires '\\' !in version && IsoDate(today) && !Contains(text, VersionHeading(version))
    requires |lists| == |Names| && ListsOfItems(lists)
    requires OccursAt(text, Unreleased + "\n\n" + FilledAll(Names, lists), p)
    ensures UpdateChangelog(version, Some(text), today).written
            == Some(ReplaceFirst(text, Unreleased, Header(version, today)))
  {
    FilledSectionHasBlock(text, p, lists);
    UpdateChangelogText(version, text, today);
  }

  /** So the text the bump writes passes the check as well. */
  lemma HeaderHasBlock(version: string, today: string)
    ensures BlockAt(Header(version, today), 0)
  {
    var h := Header(version, today);
    var rest := VersionHeading(version) + " - " + today;
    assert h == Unreleased + Subsections + rest;
    assert h[0..|Unreleased| + |Subsections|] == Unreleased + Subsections;
    FreshSectionHasBlock(h, 0);
  }
}
