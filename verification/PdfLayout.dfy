/** Rendering of parsed PDF blocks as markdown. */
module PdfLayout {
  import opened Common
  import opened Text

  type Row = seq<Option<string>>

  datatype Kind = Heading | Paragraph | Table

  datatype Block = Block(kind: Kind, text: string, level: int, rows: seq<Row>)

  // ------------------------------------------------------------------ _clean

  /** Every run of white space becomes one space. */
  function Collapse(s: string): string
    decreases |s|
  {
    if s == "" then ""
    else if IsSpace(s[0]) then " " + Collapse(StripLeft(s[1..]))
    else [s[0]] + Collapse(s[1..])
  }

  function Clean(s: string): string {
    Strip(Collapse(s))
  }

  /** Its white space is single spaces. */
  predicate SingleSpaced(s: string) {
    && (forall i | 0 <= i < |s| :: IsSpace(s[i]) ==> s[i] == ' ')
    && (forall i | 0 < i < |s| :: !(IsSpace(s[i - 1]) && IsSpace(s[i])))
  }

  /** The only white space is single spaces strictly inside. */
  predicate Cleaned(s: string) {
    (s == "" || Tight(s)) && SingleSpaced(s)
  }

  /** What a reader sees: the text without its white space. */
  function Ink(s: string): string {
    if s == "" then "" else (if IsSpace(s[0]) then "" else [s[0]]) + Ink(s[1..])
  }

  lemma {:induction false} InkAppend(a: string, b: string)
    ensures Ink(a + b) == Ink(a) + Ink(b)
  {
    hide IsSpace;
    if a == "" {
      assert a + b == b;
    } else {
      assert (a + b)[1..] == a[1..] + b;
      InkAppend(a[1..], b);
    }
  }

  lemma {:induction false} InkBlank(s: string)
    requires Blank(s)
    ensures Ink(s) == ""
  {
    hide IsSpace;
    if s != "" {
      InkBlank(s[1..]);
    }
  }

  lemma {:induction false} InkStripLeft(s: string)
    ensures Ink(StripLeft(s)) == Ink(s)
  {
    hide IsSpace, StripLeft, Ink;
    var r := StripLeft(s);
    InkBlank(s[..|s| - |r|]);
    InkAppend(s[..|s| - |r|], r);
    assert s == s[..|s| - |r|] + r;
  }

  lemma InkStrip(s: string)
    ensures Ink(Strip(s)) == Ink(s)
  {
    hide IsSpace, StripLeft, StripRight, Ink;
    var l := StripLeft(s);
    var r := StripRight(l);
    InkStripLeft(s);
    InkBlank(l[|r|..]);
    InkAppend(r, l[|r|..]);
    assert l == r + l[|r|..];
  }

  lemma ConsSingleSpaced(c: char, s: string)
    requires SingleSpaced(s)
    requires IsSpace(c) ==> c == ' ' && (s == "" || !IsSpace(s[0]))
    ensures SingleSpaced([c] + s)
  {
    hide IsSpace;
    var t := [c] + s;
    forall i | 0 <= i < |t| && IsSpace(t[i]) ensures t[i] == ' ' {
      if i > 0 {
        assert t[i] == s[i - 1];
      }
    }
    forall i | 0 < i < |t| ensures !(IsSpace(t[i - 1]) && IsSpace(t[i])) {
      assert t[i] == s[i - 1];
      if i > 1 {
        assert t[i - 1] == s[i - 2];
      }
    }
  }

  lemma SubSingleSpaced(s: string, lo: nat, hi: nat)
    requires SingleSpaced(s) && lo <= hi <= |s|
    ensures SingleSpaced(s[lo..hi])
  {
    hide IsSpace;
    var t := s[lo..hi];
    forall i | 0 <= i < |t| && IsSpace(t[i]) ensures t[i] == ' ' {
      assert t[i] == s[lo + i];
    }
    forall i | 0 < i < |t| ensures !(IsSpace(t[i - 1]) && IsSpace(t[i])) {
      assert t[i] == s[lo + i] && t[i - 1] == s[lo + i - 1];
    }
  }

  lemma InkCons(c: char, s: string)
    ensures Ink([c] + s) == (if IsSpace(c) then "" else [c]) + Ink(s)
  {
    hide IsSpace;
    assert ([c] + s)[1..] == s;
  }

  lemma PlainSpace()
    ensures IsSpace(' ')
  {
  }

  lemma {:induction false} CollapseShape(s: string)
    ensures Ink(Collapse(s)) == Ink(s) && SingleSpaced(Collapse(s))
    ensures var c := Collapse(s); c != "" && IsSpace(c[0]) ==> s != "" && IsSpace(s[0])
    decreases |s|
  {
    hide IsSpace;
    if s != "" {
      PlainSpace();
      var c, t := if IsSpace(s[0]) then ' ' else s[0], if IsSpace(s[0]) then StripLeft(s[1..]) else s[1..];
      CollapseShape(t);
      InkStripLeft(s[1..]);
      ConsSingleSpaced(c, Collapse(t));
      InkCons(c, Collapse(t));
      assert Collapse(s) == [c] + Collapse(t);
    }
  }

  lemma {:induction false} CollapseFixed(s: string)
    requires SingleSpaced(s)
    ensures Collapse(s) == s
  {
    hide IsSpace;
    if s != "" {
      SubSingleSpaced(s, 1, |s|);
      assert s[1..|s|] == s[1..];
      CollapseFixed(s[1..]);
      if IsSpace(s[0]) {
        assert StripLeft(s[1..]) == s[1..] by {
          if |s| > 1 {
            assert !(IsSpace(s[0]) && IsSpace(s[1]));
          }
        }
      }
      assert s == [s[0]] + s[1..];
    }
  }

  lemma StripSingleSpaced(c: string)
    requires SingleSpaced(c)
    ensures SingleSpaced(Strip(c))
  {
    hide IsSpace, SingleSpaced, Blank, StripLeft, StripRight;
    var l := StripLeft(c);
    var r := StripRight(l);
    assert l == c[|c| - |l|..|c|];
    SubSingleSpaced(c, |c| - |l|, |c|);
    assert r == l[0..|r|];
    SubSingleSpaced(l, 0, |r|);
  }

  /** Cleaning yields cleaned text, drops only white space, and is idempotent:
      its fixed points are exactly the cleaned texts. */
  lemma CleanCorrect(s: string)
    ensures Cleaned(Clean(s)) && Ink(Clean(s)) == Ink(s)
    ensures Cleaned(s) <==> Clean(s) == s
  {
    CollapseShape(s);
    InkStrip(Collapse(s));
    StripSingleSpaced(Collapse(s));
    if Cleaned(s) {
      CleanFixed(s);
    }
  }

  lemma CleanFixed(s: string)
    requires Cleaned(s)
    ensures Clean(s) == s
  {
    CollapseFixed(s);
    StripTight(s);
  }

  // ------------------------------------------------------------------- cells

  /** `replace("|", "\\|")`. */
  function Escape(s: string): string {
    if s == "" then ""
    else if s[0] == '|' then "\\|" + Escape(s[1..])
    else [s[0]] + Escape(s[1..])
  }

  function Cell(value: Option<string>): string {
    Escape(Clean(value.GetOr("")))
  }

  function MaxWidth(rows: seq<Row>): (w: nat)
    ensures forall i | 0 <= i < |rows| :: |rows[i]| <= w
  {
    if rows == [] then 0
    else
      var w := MaxWidth(rows[1..]);
      assert forall i | 0 < i < |rows| :: rows[i] == rows[1..][i - 1];
      Max(|rows[0]|, w)
  }

  function Repeat<T>(x: T, n: nat): (xs: seq<T>)
    ensures |xs| == n && forall i | 0 <= i < n :: xs[i] == x
  {
    seq(n, _ => x)
  }

  function RenderCells(row: Row, width: nat): (cells: seq<string>)
    requires |row| <= width
    ensures |cells| == width
  {
    seq(|row|, i requires 0 <= i < |row| => Cell(row[i])) + Repeat("", width - |row|)
  }

  function RenderRow(cells: seq<string>): string {
    "| " + Join(cells, " | ") + " |"
  }

  function Dashes(width: nat): string {
    if width == 0 then "" else "---|" + Dashes(width - 1)
  }

  /** The header, then the delimiter row, then the body. */
  function TableLine(rows: seq<Row>, i: nat): string
    requires rows != [] && i <= |rows|
  {
    var width := MaxWidth(rows);
    if i == 1 then "|" + Dashes(width)
    else RenderRow(RenderCells(rows[if i == 0 then 0 else i - 1], width))
  }

  function TableLines(rows: seq<Row>): (lines: seq<string>)
    requires rows != []
    ensures |lines| == |rows| + 1
  {
    seq(|rows| + 1, i requires 0 <= i <= |rows| => TableLine(rows, i))
  }

  function RowsToMarkdown(rows: seq<Row>): string
    requires rows != []
  {
    Join(TableLines(rows), "\n")
  }

  function Filled(cells: seq<Option<string>>): nat {
    if cells == [] then 0
    else (if Strip(cells[0].GetOr("")) != "" then 1 else 0) + Filled(cells[1..])
  }

  /** At least two rows, two columns, and three tenths of the cells filled. */
  predicate TableIsUsable(rows: seq<Row>) {
    var cells := Flatten(rows);
    |rows| >= 2 && MaxWidth(rows) >= 2 && cells != [] && 10 * Filled(cells) >= 3 * |cells|
  }

  lemma {:induction false} WidestRow(rows: seq<Row>)
    requires rows != []
    ensures exists i :: 0 <= i < |rows| && |rows[i]| == MaxWidth(rows)
  {
    if |rows| > 1 && MaxWidth(rows) != |rows[0]| {
      WidestRow(rows[1..]);
      var i :| 0 <= i < |rows[1..]| && |rows[1..][i]| == MaxWidth(rows[1..]);
      assert rows[i + 1] == rows[1..][i];
    } else {
      assert |rows[0]| == MaxWidth(rows);
    }
  }

  /** The positions of the cells that hold ink. */
  function Inked(cells: seq<Option<string>>): set<nat> {
    set k: nat | k < |cells| && cells[k].Some? && !Blank(cells[k].value)
  }

  lemma {:induction false} FilledLast(cells: seq<Option<string>>, last: Option<string>)
    ensures Filled(cells + [last]) == Filled(cells) + if Strip(last.GetOr("")) != "" then 1 else 0
  {
    hide Strip;
    if cells != [] {
      assert (cells + [last])[1..] == cells[1..] + [last];
      FilledLast(cells[1..], last);
    }
  }

  lemma {:induction false} FilledCounted(cells: seq<Option<string>>)
    ensures Filled(cells) == |Inked(cells)|
  {
    hide Strip, Blank;
    if cells == [] {
      assert Inked(cells) == {};
    } else {
      var n := |cells| - 1;
      FilledCounted(cells[..n]);
      FilledLast(cells[..n], cells[n]);
      assert cells == cells[..n] + [cells[n]];
      StripBlankness(cells[n].GetOr(""));
      NoInk();
      assert Inked(cells) == Inked(cells[..n]) + if Strip(cells[n].GetOr("")) != "" then {n} else {};
    }
  }

  lemma StripBlankness(s: string)
    ensures Strip(s) == "" <==> Blank(s)
  {
    hide IsSpace, StripLeft, StripRight, Strip;
    var l, core, r := StripParts(s);
    if core != "" {
      assert s[|l|] == core[0];
    }
  }

  lemma NoInk()
    ensures Blank("")
  {
  }

  /** The test for usable tables, in terms of the cells. */
  lemma UsableExactly(rows: seq<Row>)
    ensures TableIsUsable(rows) <==>
              && |rows| >= 2 && (exists i :: 0 <= i < |rows| && |rows[i]| >= 2)
              && 10 * |Inked(Flatten(rows))| >= 3 * |Flatten(rows)|
  {
    hide Filled, Inked, MaxWidth;
    FilledCounted(Flatten(rows));
    if |rows| >= 2 {
      WidestRow(rows);
      if i :| 0 <= i < |rows| && |rows[i]| >= 2 {
        RowInFlat(rows, i);
      }
    }
  }

  lemma {:induction false} RowInFlat(rows: seq<Row>, i: nat)
    requires i < |rows|
    ensures |Flatten(rows)| >= |rows[i]|
  {
    if i > 0 {
      RowInFlat(rows[1..], i - 1);
    }
  }

  // ------------------------------------------------------- blocks to markdown

  function RenderBlock(b: Block): string {
    if b.kind == Heading then Repeat('#', Max(0, Min(b.level, 6))) + " " + b.text else b.text
  }

  function RenderBlocks(blocks: seq<Block>): seq<string> {
    seq(|blocks|, i requires 0 <= i < |blocks| => RenderBlock(blocks[i]))
  }

  function Markdown(blocks: seq<Block>): string {
    Join(NonBlank(RenderBlocks(blocks)), "\n\n")
  }

  method BlocksToMarkdown(blocks: seq<Block>) returns (md: string)
    ensures md == Markdown(blocks)
  {
    var parts: seq<string> := [];
    for n := 0 to |blocks|
      invariant parts == RenderBlocks(blocks[..n])
    {
      var block := blocks[n];
      if block.kind == Heading {
        parts := parts + [Repeat('#', Max(0, Min(block.level, 6))) + " " + block.text];
      } else if block.kind == Table {
        parts := parts + [block.text];
      } else {
        parts := parts + [block.text];
      }
    }
    assert blocks[..|blocks|] == blocks;
    md := Join(NonBlank(parts), "\n\n");
  }

  /** What the page parser guarantees of every block it emits. */
  predicate FromParser(b: Block) {
    match b.kind
    case Heading => b.level >= 1 && b.text != "" && Cleaned(b.text)
    case Paragraph => b.text != "" && Cleaned(b.text)
    case Table => TableIsUsable(b.rows) && b.text == RowsToMarkdown(b.rows)
  }

  predicate AllFromParser(blocks: seq<Block>) {
    forall i | 0 <= i < |blocks| :: FromParser(blocks[i])
  }
}
