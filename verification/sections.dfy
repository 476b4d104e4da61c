/** The loop that `parse_questions_md` and `parse_solutions_md` of
    `web/server.py` share: the file's lines are read one at a time; a
    header line saves the item being read, if any, and opens a new one;
    any other line goes to the open item; lines before the first header are
    dropped; at the end the open item is saved.

    `Parse` follows that loop. `SectionsOf` describes the same file as a
    list of sections, each a header and the lines up to the next header,
    and `ParseSpec` proves that the loop builds one item per section. */
module Sections {
  import opened Wrappers

  /** What differs between the two parsers: how a header line is
      recognised, the item a header opens, how another line is taken into
      the open item, and what is saved when the item is finished. */
  datatype Reader<!H, !D, Q> = Reader(
    header: string -> Option<H>,
    open: H -> D,
    absorb: (D, string) -> D,
    close: D -> Q)

  /** The loop's state: the item being read and those already saved. */
  datatype Scan<D, Q> = Scan(current: Option<D>, done: seq<Q>)

  /** Save the open item, if any. */
  function Flush<H, D, Q>(rd: Reader<H, D, Q>, st: Scan<D, Q>): (r: seq<Q>)
    ensures |r| == |st.done| + (if st.current.Some? then 1 else 0)
  {
    match st.current
    case None => st.done
    case Some(d) => st.done + [rd.close(d)]
  }

  /** One iteration of the loop. */
  function Step<H, D, Q>(rd: Reader<H, D, Q>, st: Scan<D, Q>, line: string): Scan<D, Q> {
    match rd.header(line)
    case Some(h) => Scan(Some(rd.open(h)), Flush(rd, st))
    case None =>
      match st.current
      case None => st
      case Some(d) => st.(current := Some(rd.absorb(d, line)))
  }

  function Fold<H, D, Q>(rd: Reader<H, D, Q>, st: Scan<D, Q>, lines: seq<string>): Scan<D, Q>
    decreases |lines|
  {
    if |lines| == 0 then st else Fold(rd, Step(rd, st, lines[0]), lines[1..])
  }

  /** The whole loop, from no item to the list it returns. */
  function Parse<H, D, Q>(rd: Reader<H, D, Q>, lines: seq<string>): seq<Q> {
    Flush(rd, Fold(rd, Scan(None, []), lines))
  }

  // The file as a list of sections.

  datatype Section<H> = Section(header: H, body: seq<string>)

  /** The lines before the next header line. */
  function Body<H>(header: string -> Option<H>, lines: seq<string>): (r: seq<string>)
    ensures |r| <= |lines| && r == lines[..|r|]
    ensures forall i :: 0 <= i < |r| ==> header(r[i]).None?
    ensures |r| < |lines| ==> header(lines[|r|]).Some?
  {
    if |lines| == 0 || header(lines[0]).Some? then []
    else [lines[0]] + Body(header, lines[1..])
  }

  /** One section per header line, in file order. */
  function SectionsOf<H>(header: string -> Option<H>, lines: seq<string>): (r: seq<Section<H>>)
    ensures |r| <= |lines|
  {
    if |lines| == 0 then []
    else
      match header(lines[0])
      case Some(h) => [Section(h, Body(header, lines[1..]))] + SectionsOf(header, lines[1..])
      case None => SectionsOf(header, lines[1..])
  }

  /** The number of header lines. */
  function HeaderCount<H>(header: string -> Option<H>, lines: seq<string>): nat {
    if |lines| == 0 then 0
    else (if header(lines[0]).Some? then 1 else 0) + HeaderCount(header, lines[1..])
  }

  /** Each header line opens exactly one section. */
  lemma {:induction false} SectionCount<H>(header: string -> Option<H>, lines: seq<string>)
    ensures |SectionsOf(header, lines)| == HeaderCount(header, lines)
    decreases |lines|
  {
    if |lines| > 0 {
      SectionCount(header, lines[1..]);
    }
  }

  /** Lines before the first header belong to no section. */
  lemma {:induction false} PreambleDropped<H>(header: string -> Option<H>, pre: seq<string>, lines: seq<string>)
    requires forall i :: 0 <= i < |pre| ==> header(pre[i]).None?
    ensures SectionsOf(header, pre + lines) == SectionsOf(header, lines)
    decreases |pre|
  {
    if |pre| > 0 {
      var all := pre + lines;
      assert all[0] == pre[0] && all[1..] == pre[1..] + lines;
      assert SectionsOf(header, all) == SectionsOf(header, all[1..]);
      PreambleDropped(header, pre[1..], lines);
    } else {
      assert pre + lines == lines;
    }
  }

  /** No section's body holds a header line. */
  lemma {:induction false} BodiesHoldNoHeader<H>(header: string -> Option<H>, lines: seq<string>, k: nat, j: nat)
    requires k < |SectionsOf(header, lines)| && j < |SectionsOf(header, lines)[k].body|
    ensures header(SectionsOf(header, lines)[k].body[j]).None?
    decreases |lines|
  {
    if header(lines[0]).Some? && k > 0 {
      BodiesHoldNoHeader(header, lines[1..], k - 1, j);
    } else if header(lines[0]).None? {
      BodiesHoldNoHeader(header, lines[1..], k, j);
    }
  }

  /** Section `k` comes from a header line `j` of the file, and its body
      is the lines after that one up to the next header. */
  lemma {:induction false} SectionLine<H>(header: string -> Option<H>, lines: seq<string>, k: nat) returns (j: nat)
    requires k < |SectionsOf(header, lines)|
    ensures j < |lines| && header(lines[j]) == Some(SectionsOf(header, lines)[k].header)
    ensures SectionsOf(header, lines)[k].body == Body(header, lines[j + 1..])
    decreases |lines|
  {
    if header(lines[0]).Some? && k == 0 {
      j := 0;
    } else {
      var k' := if header(lines[0]).Some? then k - 1 else k;
      var j' := SectionLine(header, lines[1..], k');
      j := j' + 1;
      assert lines[1..][j' + 1..] == lines[j + 1..];
    }
  }

  /** Read a section's body into an open item. */
  function AbsorbAll<H, D, Q>(rd: Reader<H, D, Q>, d: D, body: seq<string>): D
    decreases |body|
  {
    if |body| == 0 then d else AbsorbAll(rd, rd.absorb(d, body[0]), body[1..])
  }

  /** The item a section yields. */
  function ItemOf<H, D, Q>(rd: Reader<H, D, Q>, s: Section<H>): Q {
    rd.close(AbsorbAll(rd, rd.open(s.header), s.body))
  }

  function Items<H, D, Q>(rd: Reader<H, D, Q>, secs: seq<Section<H>>): (r: seq<Q>)
    ensures |r| == |secs|
    ensures forall i :: 0 <= i < |r| ==> r[i] == ItemOf(rd, secs[i])
  {
    if |secs| == 0 then [] else [ItemOf(rd, secs[0])] + Items(rd, secs[1..])
  }

  /** The item still open when the loop reaches `lines`, once it has read
      the rest of its section. */
  function Pending<H, D, Q>(rd: Reader<H, D, Q>, current: Option<D>, lines: seq<string>): seq<Q> {
    match current
    case None => []
    case Some(d) => [rd.close(AbsorbAll(rd, d, Body(rd.header, lines)))]
  }

  lemma {:induction false} FoldSpec<H, D, Q>(rd: Reader<H, D, Q>, st: Scan<D, Q>, lines: seq<string>)
    ensures Flush(rd, Fold(rd, st, lines))
         == st.done + Pending(rd, st.current, lines) + Items(rd, SectionsOf(rd.header, lines))
    decreases |lines|
  {
    if |lines| > 0 {
      var x := lines[0];
      var rest := lines[1..];
      match rd.header(x)
      case Some(h) =>
        FoldSpec(rd, Scan(Some(rd.open(h)), Flush(rd, st)), rest);
        assert SectionsOf(rd.header, lines) == [Section(h, Body(rd.header, rest))] + SectionsOf(rd.header, rest);
      case None =>
        FoldSpec(rd, Step(rd, st, x), rest);
        if st.current.Some? {
          assert Body(rd.header, lines) == [x] + Body(rd.header, rest);
          assert ([x] + Body(rd.header, rest))[1..] == Body(rd.header, rest);
        }
    }
  }

  /** The loop builds one item per section, in order. */
  lemma ParseSpec<H, D, Q>(rd: Reader<H, D, Q>, lines: seq<string>)
    ensures Parse(rd, lines) == Items(rd, SectionsOf(rd.header, lines))
  {
    FoldSpec(rd, Scan(None, []), lines);
  }
}
