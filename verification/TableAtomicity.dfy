/** What becomes of the tables of a parsed document on their way through markdown, sections
    and segments into chunks. */
module TableAtomicity {
  import opened Common
  import opened Text
  import opened PdfLayout
  import opened Hierarchical
  import TableRoundTrip

  // ------------------------------------------------------------- block lines

  function BlockLines(b: Block): seq<string>
    requires FromParser(b)
  {
    if b.kind == PdfLayout.Table then TableLines(b.rows) else [RenderBlock(b)]
  }

  /** A line as the renderer prints it: no white space at its ends, no line break inside. */
  predicate GoodLine(l: string) {
    Tight(l) && OneLine(l) && '\n' !in l
  }

  predicate GoodLines(ls: seq<string>) {
    forall i | 0 <= i < |ls| :: GoodLine(ls[i])
  }

  lemma NoSpaces()
    ensures !IsSpace('|') && !IsSpace('#') && IsSpace(' ') && IsSpace('\n') && IsLineBreak('\n')
    ensures !IsLineBreak('|') && !IsLineBreak('#') && !IsLineBreak(' ')
  {
  }

  lemma BreakIsSpace(c: char)
    ensures IsLineBreak(c) ==> IsSpace(c) && c != ' '
    ensures c == '\n' ==> IsLineBreak(c)
  {
  }

  lemma CleanedGood(s: string)
    requires s != "" && Cleaned(s)
    ensures GoodLine(s)
  {
    hide IsSpace, IsLineBreak;
    forall i | 0 <= i < |s| ensures !IsLineBreak(s[i]) && s[i] != '\n' {
      BreakIsSpace(s[i]);
      assert IsSpace(s[i]) ==> s[i] == ' ';
    }
  }

  lemma HeadingGood(n: nat, text: string)
    requires n >= 1 && text != "" && Cleaned(text)
    ensures GoodLine(Repeat('#', n) + " " + text)
  {
    hide IsSpace, IsLineBreak, Cleaned;
    CleanedGood(text);
    NoSpaces();
    var l := Repeat('#', n) + " " + text;
    assert l[0] == '#' && l[|l| - 1] == text[|text| - 1];
    forall i | 0 <= i < |l| ensures !IsLineBreak(l[i]) && l[i] != '\n' {
      if i < n {
        assert l[i] == '#';
      } else if i > n {
        assert l[i] == text[i - n - 1];
      }
    }
  }

  lemma {:induction false} DashesEnd(width: nat)
    requires width > 0
    ensures var d := Dashes(width); d != "" && d[|d| - 1] == '|'
  {
    if width > 1 {
      DashesEnd(width - 1);
    }
  }

  lemma TableLineShape(rows: seq<Row>, i: nat)
    requires rows != [] && i <= |rows| && MaxWidth(rows) > 0
    ensures var l := TableLine(rows, i); |l| >= 2 && l[0] == '|' && l[|l| - 1] == '|'
  {
    DashesEnd(MaxWidth(rows));
  }

  lemma TableLineGood(rows: seq<Row>, i: nat)
    requires rows != [] && i <= |rows| && MaxWidth(rows) > 0
    ensures GoodLine(TableLine(rows, i)) && IsTableLine(TableLine(rows, i))
    ensures TableLine(rows, i)[0] == '|'
  {
    hide IsSpace, IsLineBreak, TableLine, Strip;
    var l := TableLine(rows, i);
    TableLineShape(rows, i);
    NoSpaces();
    forall k | 0 <= k < |l| ensures !IsLineBreak(l[k]) && l[k] != '\n' {
      if IsLineBreak(l[k]) || l[k] == '\n' {
        BreakNotInTable(rows, i, l[k]);
      }
    }
    StripTight(l);
  }

  lemma BreakNotInTable(rows: seq<Row>, i: nat, c: char)
    requires rows != [] && i <= |rows| && IsLineBreak(c)
    ensures c !in TableLine(rows, i)
  {
    TableRoundTrip.BreakRemoved(c);
    TableRoundTrip.TableLineFresh(rows, i, c);
  }

  lemma BlockLinesGood(b: Block)
    requires FromParser(b)
    ensures BlockLines(b) != [] && GoodLines(BlockLines(b))
    ensures RenderBlock(b) == Join(BlockLines(b), "\n")
  {
    hide IsSpace, IsLineBreak, GoodLine, Cleaned;
    match b.kind
    case Heading => HeadingGood(Max(0, Min(b.level, 6)), b.text);
    case Paragraph => CleanedGood(b.text);
    case Table =>
      forall i | 0 <= i <= |b.rows| ensures GoodLine(TableLine(b.rows, i)) {
        TableLineGood(b.rows, i);
      }
  }

  // ---------------------------------------------------------------- documents

  /** The markdown of a list of blocks, none of which renders blank. */
  function Doc(bs: seq<Block>): string
    requires AllFromParser(bs)
  {
    if bs == [] then ""
    else if |bs| == 1 then RenderBlock(bs[0])
    else RenderBlock(bs[0]) + "\n\n" + Doc(bs[1..])
  }

  /** Its lines, with one empty line between blocks. */
  function DocLines(bs: seq<Block>): seq<string>
    requires AllFromParser(bs)
  {
    if bs == [] then []
    else if |bs| == 1 then BlockLines(bs[0])
    else BlockLines(bs[0]) + [""] + DocLines(bs[1..])
  }

  lemma {:induction false} MarkdownIsDoc(bs: seq<Block>)
    requires AllFromParser(bs)
    ensures NonBlank(RenderBlocks(bs)) == RenderBlocks(bs)
    ensures Markdown(bs) == Doc(bs)
  {
    hide IsSpace, RenderBlock, FromParser, Strip;
    if bs != [] {
      MarkdownIsDoc(bs[1..]);
      assert RenderBlocks(bs)[1..] == RenderBlocks(bs[1..]);
      RenderTight(bs[0]);
      StripTight(RenderBlock(bs[0]));
    }
  }

  lemma RenderTight(b: Block)
    requires FromParser(b)
    ensures Tight(RenderBlock(b))
  {
    hide IsSpace, RenderBlock;
    BlockLinesGood(b);
    JoinTight(BlockLines(b), "\n");
  }

  lemma {:induction false} DocTight(bs: seq<Block>)
    requires AllFromParser(bs) && bs != []
    ensures Tight(Doc(bs))
  {
    hide IsSpace, RenderBlock, FromParser;
    RenderTight(bs[0]);
    if |bs| > 1 {
      DocTight(bs[1..]);
    }
  }

  /** An empty line between two lists of lines leaves two line feeds between their texts. */
  lemma JoinAcross(a: seq<string>, b: seq<string>)
    requires a != [] && b != []
    ensures Join(a + ([""] + b), "\n") == Join(a, "\n") + ("\n\n" + Join(b, "\n"))
  {
    hide Join;
    JoinAppend([""], b, "\n");
    JoinOne("");
    JoinAppend(a, [""] + b, "\n");
    Regroup(Join(a, "\n"), Join(b, "\n"));
  }

  lemma JoinOne(s: string)
    ensures Join([s], "\n") == s
  {
  }

  lemma Regroup(a: string, b: string)
    ensures a + "\n" + ("" + "\n" + b) == a + ("\n\n" + b)
  {
  }

  lemma BlockLinesShape(b: Block)
    requires FromParser(b)
    ensures var ls := BlockLines(b);
            ls != [] && AllOneLine(ls) && ls[|ls| - 1] != "" && RenderBlock(b) == Join(ls, "\n")
  {
    hide IsSpace, IsLineBreak, RenderBlock, FromParser, BlockLines, OneLine;
    BlockLinesGood(b);
    GoodLast(BlockLines(b));
  }

  lemma EmptyOneLine()
    ensures OneLine("")
  {
  }

  lemma {:induction false} DocLinesJoin(bs: seq<Block>)
    requires AllFromParser(bs) && bs != []
    ensures DocLines(bs) != [] && Join(DocLines(bs), "\n") == Doc(bs)
    ensures AllOneLine(DocLines(bs)) && DocLines(bs)[|DocLines(bs)| - 1] != ""
  {
    hide RenderBlock, FromParser, BlockLines, OneLine, Join;
    var head := BlockLines(bs[0]);
    BlockLinesShape(bs[0]);
    EmptyOneLine();
    if |bs| > 1 {
      DocLinesJoin(bs[1..]);
      var tail := DocLines(bs[1..]);
      JoinAcross(head, tail);
      assert head + [""] + tail == head + ([""] + tail);
    }
  }

  lemma DocSplits(bs: seq<Block>)
    requires AllFromParser(bs) && bs != []
    ensures SplitLines(Doc(bs)) == DocLines(bs)
  {
    hide IsSpace, IsLineBreak, Doc, DocLines;
    DocLinesJoin(bs);
    SplitLinesJoin(DocLines(bs));
  }

  // ---------------------------------------------------------- tables of lines

  function LineTables(lines: seq<string>): seq<string> {
    TablesIn(SegmentsOf(Runs(lines)))
  }

  lemma OtherLine(x: string, lines: seq<string>)
    requires !IsTableLine(x)
    ensures LineTables([x] + lines) == LineTables(lines)
  {
    hide IsSpace, IsTableLine, Strip;
    var runs := Runs(lines);
    assert ([x] + lines)[1..] == lines;
    var all := Runs([x] + lines);
    assert all == Prepend(false, [x], runs);
    if runs != [] && !runs[0].isTable {
      assert all[1..] == runs[1..];
      NonTableRun(all);
      NonTableRun(runs);
    } else {
      assert all[1..] == runs;
      NonTableRun(all);
    }
  }

  lemma NonTableRun(runs: seq<Run>)
    requires runs != [] && !runs[0].isTable
    ensures TablesIn(SegmentsOf(runs)) == TablesIn(SegmentsOf(runs[1..]))
  {
    hide IsSpace, Strip, Join;
    var head, tail := SegmentOf(runs[0]), SegmentsOf(runs[1..]);
    if head != [] {
      assert (head + tail)[1..] == tail;
    } else {
      assert head + tail == tail;
    }
  }

  lemma {:induction false} TableRun(a: seq<string>, lines: seq<string>)
    requires a != [] && forall i | 0 <= i < |a| :: IsTableLine(a[i])
    requires lines == [] || !IsTableLine(lines[0])
    ensures Runs(a + lines) == [Run(true, a)] + Runs(lines)
  {
    hide IsSpace, IsTableLine, Strip;
    var all := a + lines;
    assert all[1..] == a[1..] + lines;
    if |a| == 1 {
      assert a[1..] + lines == lines && [a[0]] == a;
      FirstRun(lines);
    } else {
      TableRun(a[1..], lines);
      assert [a[0]] + a[1..] == a;
    }
  }

  lemma FirstRun(lines: seq<string>)
    ensures lines == [] <==> Runs(lines) == []
    ensures lines != [] ==> Runs(lines)[0].isTable == IsTableLine(lines[0])
  {
  }

  lemma TableLinesAhead(a: seq<string>, lines: seq<string>)
    requires a != [] && GoodLines(a) && forall i | 0 <= i < |a| :: IsTableLine(a[i])
    requires lines == [] || !IsTableLine(lines[0])
    ensures LineTables(a + lines) == [Join(a, "\n")] + LineTables(lines)
  {
    hide IsSpace, IsTableLine, Strip, Runs, OneLine;
    TableRun(a, lines);
    assert GoodLine(a[0]) && GoodLine(a[|a| - 1]);
    JoinTight(a, "\n");
    StripTight(Join(a, "\n"));
    var segment := Segment(true, Join(a, "\n"));
    assert SegmentOf(Run(true, a)) == [segment];
    var rest := SegmentsOf(Runs(lines));
    assert ([Run(true, a)] + Runs(lines))[1..] == Runs(lines);
    assert SegmentsOf([Run(true, a)] + Runs(lines)) == [segment] + rest;
    assert ([segment] + rest)[1..] == rest;
  }

  /** A block whose every line looks like a table line. */
  predicate Tabular(b: Block) {
    b.kind == PdfLayout.Table || IsTableLine(RenderBlock(b))
  }

  function TabularTexts(bs: seq<Block>): seq<string> {
    if bs == [] then []
    else (if Tabular(bs[0]) then [RenderBlock(bs[0])] else []) + TabularTexts(bs[1..])
  }

  lemma TabularLines(b: Block)
    requires FromParser(b)
    ensures Tabular(b) <==> forall i | 0 <= i < |BlockLines(b)| :: IsTableLine(BlockLines(b)[i])
    ensures !Tabular(b) ==> BlockLines(b) == [RenderBlock(b)]
  {
    hide IsSpace, IsTableLine, Strip, TableLine;
    if b.kind == PdfLayout.Table {
      forall i | 0 <= i <= |b.rows| ensures IsTableLine(TableLine(b.rows, i)) {
        TableLineGood(b.rows, i);
      }
    } else {
      assert BlockLines(b)[0] == RenderBlock(b);
    }
  }

  lemma EmptyLine()
    ensures !IsTableLine("")
  {
  }

  lemma {:induction false} DocLineTables(bs: seq<Block>)
    requires AllFromParser(bs)
    ensures LineTables(DocLines(bs)) == TabularTexts(bs)
  {
    hide IsSpace, IsTableLine, Strip, RenderBlock, FromParser, LineTables, BlockLines, Tabular, GoodLine;
    if bs == [] {
      NoLines();
    } else {
      var b, ls := bs[0], BlockLines(bs[0]);
      var later := if |bs| == 1 then [] else [""] + DocLines(bs[1..]);
      DocLineTables(bs[1..]);
      assert DocLines(bs) == ls + later;
      EmptyLine();
      NoLines();
      assert LineTables(later) == TabularTexts(bs[1..]) by {
        if |bs| > 1 {
          OtherLine("", DocLines(bs[1..]));
        }
      }
      BlockLinesGood(b);
      TabularLines(b);
      if Tabular(b) {
        TableLinesAhead(ls, later);
      } else {
        NotTabularLine(b);
        OtherLine(RenderBlock(b), later);
      }
    }
  }

  lemma NoLines()
    ensures LineTables([]) == []
  {
  }

  lemma NotTabularLine(b: Block)
    requires FromParser(b) && !Tabular(b)
    ensures !IsTableLine(RenderBlock(b))
  {
  }

  lemma DocTables(bs: seq<Block>)
    requires AllFromParser(bs)
    ensures TableSegments(Doc(bs)) == TabularTexts(bs)
  {
    hide IsSpace, Doc, DocLines, SplitLines, Runs, TabularTexts;
    DocLineTables(bs);
    if bs != [] {
      DocSplits(bs);
    } else {
      EmptyDoc(bs);
    }
  }

  lemma EmptyDoc(bs: seq<Block>)
    requires bs == []
    ensures SplitLines(Doc(bs)) == DocLines(bs)
  {
  }

  // ------------------------------------------------------- sections of blocks

  /** A paragraph that is nothing but one to six hash marks. */
  predicate BareHash(b: Block) {
    b.kind == Paragraph && 1 <= |b.text| <= 6 && forall i | 0 <= i < |b.text| :: b.text[i] == '#'
  }

  predicate Opens(bs: seq<Block>)
    requires AllFromParser(bs)
  {
    OpensHeading(Doc(bs))
  }

  /** The blocks, cut before every block whose first line opens a heading. */
  function Groups(bs: seq<Block>): (groups: seq<seq<Block>>)
    requires AllFromParser(bs) && bs != []
    ensures groups != [] && forall i | 0 <= i < |groups| :: groups[i] != [] && AllFromParser(groups[i])
    ensures groups[0][0] == bs[0]
  {
    if |bs| == 1 then [bs]
    else
      var rest := Groups(bs[1..]);
      if Opens(bs[1..]) then [[bs[0]]] + rest else [[bs[0]] + rest[0]] + rest[1..]
  }

  lemma {:induction false} CutPlain(p: string, rest: string)
    requires '\n' !in p
    ensures var c := CutSections(rest); CutSections(p + rest) == [p + c[0]] + c[1..]
  {
    hide OpensHeading;
    var c := CutSections(rest);
    if p == "" {
      assert p + rest == rest;
      assert "" + c[0] == c[0];
    } else {
      assert (p + rest)[1..] == p[1..] + rest;
      CutPlain(p[1..], rest);
      assert [p[0]] + (p[1..] + c[0]) == p + c[0];
    }
  }

  lemma CutFeed(rest: string)
    ensures var c := CutSections(rest);
            CutSections("\n" + rest) == if OpensHeading(rest) then [""] + c else ["\n" + c[0]] + c[1..]
  {
    hide OpensHeading;
    assert ("\n" + rest)[1..] == rest;
  }

  lemma HashCountZero(s: string)
    requires s == "" || s[0] != '#'
    ensures !OpensHeading(s)
  {
  }

  lemma {:induction false} CutLines(lines: seq<string>, rest: string)
    requires lines != [] && forall i | 0 <= i < |lines| :: '\n' !in lines[i] && lines[i] != ""
    requires forall i | 0 < i < |lines| :: lines[i][0] != '#'
    ensures var c := CutSections(rest); CutSections(Join(lines, "\n") + rest) == [Join(lines, "\n") + c[0]] + c[1..]
  {
    hide OpensHeading, CutSections, Join;
    var c := CutSections(rest);
    if |lines| == 1 {
      OnlyLine(lines);
      CutPlain(lines[0], rest);
    } else {
      var j := Join(lines[1..], "\n");
      CutLines(lines[1..], rest);
      JoinStart(lines[1..]);
      HashCountZero(j + rest);
      CutFeed(j + rest);
      CutPlain(lines[0], "\n" + (j + rest));
      LinesAhead(lines, rest);
      LinesAhead(lines, c[0]);
    }
  }

  lemma LinesAhead(lines: seq<string>, rest: string)
    requires |lines| > 1
    ensures Join(lines, "\n") + rest == lines[0] + ("\n" + (Join(lines[1..], "\n") + rest))
  {
  }

  lemma OnlyLine(lines: seq<string>)
    requires |lines| == 1
    ensures Join(lines, "\n") == lines[0]
  {
  }

  lemma JoinStart(lines: seq<string>)
    requires lines != [] && lines[0] != ""
    ensures Join(lines, "\n") != "" && Join(lines, "\n")[0] == lines[0][0]
  {
  }

  lemma BlockLineHeads(b: Block)
    requires FromParser(b)
    ensures forall i | 0 <= i < |BlockLines(b)| :: '\n' !in BlockLines(b)[i] && BlockLines(b)[i] != ""
    ensures forall i | 0 < i < |BlockLines(b)| :: BlockLines(b)[i][0] != '#'
  {
    hide IsSpace, IsLineBreak, TableLine;
    BlockLinesGood(b);
    if b.kind == PdfLayout.Table {
      forall i | 0 <= i <= |b.rows| ensures TableLine(b.rows, i) != "" && TableLine(b.rows, i)[0] == '|' {
        TableLineGood(b.rows, i);
      }
    }
    forall i | 0 <= i < |BlockLines(b)| ensures '\n' !in BlockLines(b)[i] && BlockLines(b)[i] != "" {
      assert GoodLine(BlockLines(b)[i]);
    }
  }

  lemma CutBlock(b: Block, rest: string)
    requires FromParser(b)
    ensures var c := CutSections(rest); CutSections(RenderBlock(b) + rest) == [RenderBlock(b) + c[0]] + c[1..]
  {
    hide CutSections, RenderBlock, BlockLines, FromParser;
    BlockLinesGood(b);
    BlockLineHeads(b);
    CutLines(BlockLines(b), rest);
  }

  lemma CutTwoFeeds(d: string)
    ensures var c := CutSections(d);
            && CutSections("\n\n" + d)
            == if OpensHeading(d) then ["\n"] + c else ["\n\n" + c[0]] + c[1..]
  {
    hide CutSections, OpensHeading;
    var c := CutSections(d);
    CutFeed(d);
    NoHeadingFeed(d);
    CutFeed("\n" + d);
    TwoFeeds(d);
    TwoFeeds(c[0]);
    HeadAndTail("", c);
    HeadAndTail("\n" + c[0], c[1..]);
    assert "\n" + "" == "\n";
  }

  lemma NoHeadingFeed(d: string)
    ensures !OpensHeading("\n" + d)
  {
    HashCountZero("\n" + d);
  }

  lemma TwoFeeds(d: string)
    ensures "\n\n" + d == "\n" + ("\n" + d)
  {
  }

  lemma HeadAndTail(head: string, tail: seq<string>)
    ensures ([head] + tail)[0] == head && ([head] + tail)[1..] == tail
  {
  }

  lemma CutDoc(bs: seq<Block>)
    requires AllFromParser(bs) && |bs| > 1
    ensures var c := CutSections(Doc(bs[1..]));
            && CutSections(Doc(bs))
            == if Opens(bs[1..]) then [RenderBlock(bs[0]) + "\n"] + c
               else [RenderBlock(bs[0]) + "\n\n" + c[0]] + c[1..]
  {
    hide CutSections, RenderBlock, FromParser, OpensHeading, Doc;
    var r, d := RenderBlock(bs[0]), Doc(bs[1..]);
    var c := CutSections(d);
    DocTail(bs);
    CutBlock(bs[0], "\n\n" + d);
    CutTwoFeeds(d);
    assert r + ("\n\n" + c[0]) == r + "\n\n" + c[0];
  }

  /** Cutting the document cuts its blocks. */
  lemma {:induction false} CutGroups(bs: seq<Block>)
    requires AllFromParser(bs) && bs != []
    ensures |CutSections(Doc(bs))| == |Groups(bs)|
    ensures forall i | 0 <= i < |Groups(bs)| ::
              CutSections(Doc(bs))[i] in {Doc(Groups(bs)[i]), Doc(Groups(bs)[i]) + "\n"}
  {
    hide CutSections, RenderBlock, FromParser, OpensHeading;
    if |bs| == 1 {
      CutBlock(bs[0], "");
      CutEmpty();
      assert RenderBlock(bs[0]) + "" == Doc(bs);
    } else {
      CutDoc(bs);
      CutGroups(bs[1..]);
      var c, g := CutSections(Doc(bs[1..])), Groups(bs[1..]);
      if !Opens(bs[1..]) {
        DocAhead(bs[0], g[0]);
      } else {
        assert Doc([bs[0]]) == RenderBlock(bs[0]);
      }
    }
  }

  lemma DocAhead(b: Block, g: seq<Block>)
    requires AllFromParser([b] + g) && AllFromParser(g) && g != []
    ensures Doc([b] + g) == RenderBlock(b) + "\n\n" + Doc(g)
    ensures RenderBlock(b) + "\n\n" + (Doc(g) + "\n") == Doc([b] + g) + "\n"
  {
    hide RenderBlock, FromParser;
    assert ([b] + g)[1..] == g;
  }

  lemma CutEmpty()
    ensures CutSections("") == [""]
  {
  }

  lemma StripsToDoc(bs: seq<Block>, part: string)
    requires AllFromParser(bs) && bs != [] && part in {Doc(bs), Doc(bs) + "\n"}
    ensures Strip(part) == Doc(bs) != ""
  {
    hide Doc, Strip, IsSpace;
    DocTight(bs);
    NoSpaces();
    StripPadded("", Doc(bs), "\n");
    StripTight(Doc(bs));
    assert "" + Doc(bs) + "\n" == Doc(bs) + "\n";
  }

  function GroupSections(groups: seq<seq<Block>>): seq<Section>
    requires forall i | 0 <= i < |groups| :: groups[i] != [] && AllFromParser(groups[i])
  {
    if groups == [] then []
    else
      DocTight(groups[0]);
      [SectionOf(Doc(groups[0]))] + GroupSections(groups[1..])
  }

  lemma {:induction false} PartsSections(parts: seq<string>, groups: seq<seq<Block>>)
    requires forall i | 0 <= i < |groups| :: groups[i] != [] && AllFromParser(groups[i])
    requires |parts| == |groups|
    requires forall i | 0 <= i < |groups| :: parts[i] in {Doc(groups[i]), Doc(groups[i]) + "\n"}
    ensures SectionsOf(parts) == GroupSections(groups)
  {
    hide Doc, Strip, SectionOf, IsSpace, AllFromParser;
    if parts != [] {
      StripsToDoc(groups[0], parts[0]);
      PartsSections(parts[1..], groups[1..]);
    }
  }

  /** The sections of the document are those of its groups of blocks. */
  lemma DocSections(bs: seq<Block>)
    requires AllFromParser(bs) && bs != []
    ensures Sections(Doc(bs)) == GroupSections(Groups(bs))
  {
    hide Doc, Strip, SectionOf, IsSpace, AllFromParser, CutSections, Groups;
    DocTight(bs);
    StripTight(Doc(bs));
    CutGroups(bs);
    PartsSections(CutSections(Doc(bs)), Groups(bs));
    assert GroupSections(Groups(bs)) != [];
  }

  // ------------------------------------------------------ tables of a section

  /** A table that has lost its first line, the header. */
  function Beheaded(b: Block): string
    requires FromParser(b) && b.kind == PdfLayout.Table
  {
    Join(BlockLines(b)[1..], "\n")
  }

  /** The table segments of one section. A bare hash swallows the line below it as its title,
      unless that leaves nothing for the body. */
  function GroupTables(g: seq<Block>): seq<string>
    requires AllFromParser(g) && g != []
  {
    if BareHash(g[0]) && |g| > 1 then
      if g[1].kind == PdfLayout.Table then [Beheaded(g[1])] + TabularTexts(g[2..])
      else if |g| == 2 then TabularTexts(g)
      else TabularTexts(g[2..])
    else TabularTexts(g)
  }

  function GroupsTables(groups: seq<seq<Block>>): seq<string>
    requires forall i | 0 <= i < |groups| :: groups[i] != [] && AllFromParser(groups[i])
  {
    if groups == [] then [] else GroupTables(groups[0]) + GroupsTables(groups[1..])
  }

  function Tail(g: seq<Block>): string
    requires AllFromParser(g)
  {
    if g == [] then "" else "\n\n" + Doc(g)
  }

  lemma DocTail(g: seq<Block>)
    requires AllFromParser(g) && g != []
    ensures Doc(g) == RenderBlock(g[0]) + Tail(g[1..])
  {
    hide RenderBlock, FromParser;
  }

  lemma StripTail(g: seq<Block>)
    requires AllFromParser(g)
    ensures Strip(Tail(g)) == Doc(g)
  {
    hide Strip, FromParser, Doc, IsSpace;
    NoSpaces();
    if g != [] {
      DocTight(g);
      StripPadded("\n\n", Doc(g), "");
      assert "\n\n" + Doc(g) + "" == Tail(g);
    } else {
      StripTight("");
      EmptyDoc(g);
      EmptyDocText(g);
    }
  }

  lemma EmptyDocText(g: seq<Block>)
    requires g == []
    ensures Doc(g) == ""
  {
  }

  lemma {:induction false} HashCountMarks(n: nat, rest: string)
    requires rest == "" || rest[0] != '#'
    ensures HashCount(Repeat('#', n) + rest) == n
  {
    var s := Repeat('#', n) + rest;
    if n == 0 {
      assert s == rest;
    } else {
      assert s[1..] == Repeat('#', n - 1) + rest;
      HashCountMarks(n - 1, rest);
    }
  }

  lemma {:induction false} HashCountPrefix(s: string, rest: string)
    requires HashCount(s) < |s|
    ensures HashCount(s + rest) == HashCount(s)
  {
    if s[0] == '#' {
      assert (s + rest)[1..] == s[1..] + rest;
      HashCountPrefix(s[1..], rest);
    } else {
      assert (s + rest)[0] == s[0];
    }
  }

  lemma FindFeed(l: string, rest: string)
    requires '\n' !in l && (rest == "" || rest[0] == '\n')
    ensures Find(l + rest, "\n") == |l|
  {
    FindChar(l, '\n', rest);
  }

  /** White space ahead of text that ends without any is stripped before it reaches the end. */
  lemma {:induction false} StripLeftAhead(s: string, rest: string)
    requires s != "" && !IsSpace(s[|s| - 1])
    ensures StripLeft(s) != "" && StripLeft(s + rest) == StripLeft(s) + rest
  {
    hide IsSpace;
    assert (s + rest)[0] == s[0];
    if IsSpace(s[0]) {
      assert |s| > 1;
      assert (s + rest)[1..] == s[1..] + rest;
      assert s[1..][|s[1..]| - 1] == s[|s| - 1];
      StripLeftAhead(s[1..], rest);
    }
  }

  /** The body of a part whose first line is a heading with a title of its own. */
  lemma TitledBody(l: string, tail: string)
    requires Tight(l) && '\n' !in l && OpensHeading(l)
    requires (tail == "" || tail[0] == '\n') && Tight(l + tail)
    ensures SectionOf(l + tail).body == if Strip(tail) != "" then Strip(tail) else l + tail
  {
    hide IsSpace, Strip, StripLeft, Find, HashCount, SectionOf, Tight;
    var n := HashCount(l);
    HashCountPrefix(l, tail);
    assert (l + tail)[n] == l[n];
    assert (l + tail)[n..] == l[n..] + tail;
    TightEnds(l);
    StripLeftAhead(l[n..], tail);
    var title := StripLeft(l[n..]);
    assert title == l[|l| - |title|..];
    FindFeed(title, tail);
    assert (title + tail)[|title|..] == tail;
    SectionBody(l + tail, title + tail);
  }

  lemma TightEnds(l: string)
    requires Tight(l)
    ensures l != "" && !IsSpace(l[0]) && !IsSpace(l[|l| - 1])
  {
  }

  lemma SectionBody(part: string, rest: string)
    requires Tight(part) && OpensHeading(part) && rest == StripLeft(part[HashCount(part)..])
    ensures var body := Strip(rest[Find(rest, "\n")..]);
            SectionOf(part).body == if body != "" then body else part
  {
  }

  /** Its title is the rest of that line. */
  lemma TitledTitle(n: nat, text: string, tail: string)
    requires 1 <= n <= 6 && text != "" && Cleaned(text) && (tail == "" || tail[0] == '\n')
    requires Tight(Repeat('#', n) + " " + text + tail)
    ensures SectionOf(Repeat('#', n) + " " + text + tail).title == Some(text)
  {
    hide IsSpace, Strip, StripLeft, Find, HashCount, SectionOf, Tight, Cleaned, SingleSpaced;
    var part, after := Repeat('#', n) + " " + text + tail, " " + text + tail;
    assert part == Repeat('#', n) + after;
    HashCountMarks(n, after);
    NoSpaces();
    assert part[n] == ' ' && part[n..] == after;
    CleanedGood(text);
    TightEnds(text);
    SpaceAhead(text, tail);
    FindFeed(text, tail);
    assert (text + tail)[..|text|] == text;
    StripTight(text);
    SectionTitle(part, text + tail);
  }

  lemma SpaceAhead(text: string, tail: string)
    requires text != "" && !IsSpace(text[0])
    ensures StripLeft(" " + text + tail) == text + tail
  {
    hide IsSpace;
    NoSpaces();
    var s := " " + text + tail;
    assert s[1..] == text + tail && s[0] == ' ';
    assert (text + tail)[0] == text[0];
  }

  lemma SectionTitle(part: string, rest: string)
    requires Tight(part) && OpensHeading(part) && rest == StripLeft(part[HashCount(part)..])
    ensures SectionOf(part).title == Some(Strip(rest[..Find(rest, "\n")]))
  {
  }

  lemma HeadingLine(b: Block)
    requires FromParser(b) && b.kind == Heading
    ensures var n := Min(b.level, 6);
            && 1 <= n <= 6 && b.text != "" && Cleaned(b.text)
            && RenderBlock(b) == Repeat('#', n) + " " + b.text && HashCount(RenderBlock(b)) == n
            && OpensHeading(RenderBlock(b))
  {
    hide IsSpace, Cleaned;
    var n := Min(b.level, 6);
    assert RenderBlock(b) == Repeat('#', n) + (" " + b.text);
    HashCountMarks(n, " " + b.text);
    NoSpaces();
  }

  lemma HeadingOpens(g: seq<Block>)
    requires AllFromParser(g) && g != [] && g[0].kind == Heading
    ensures Opens(g)
  {
    hide IsSpace, Doc, Cleaned, FromParser, RenderBlock, HashCount;
    DocTail(g);
    HeadingLine(g[0]);
    HashCountPrefix(RenderBlock(g[0]), Tail(g[1..]));
  }

  lemma HeadingSection(g: seq<Block>)
    requires AllFromParser(g) && g != [] && g[0].kind == Heading && Tight(Doc(g))
    ensures SectionOf(Doc(g)) == Section(Some(g[0].text), if |g| == 1 then Doc(g) else Doc(g[1..]))
  {
    hide IsSpace, Doc, Cleaned, SectionOf, OpensHeading, HashCount, FromParser, RenderBlock, Tight;
    DocTail(g);
    HeadingLine(g[0]);
    TitledTitle(Min(g[0].level, 6), g[0].text, Tail(g[1..]));
    TitledSection(g);
  }

  /** A section of a group of blocks with one heading at most, in front, which is its title. */
  predicate HeadedSection(section: Section, g: seq<Block>)
    requires AllFromParser(g) && g != []
  {
    && (forall j | 0 < j < |g| :: g[j].kind != Heading)
    && (g[0].kind == Heading ==>
          && section.title == Some(g[0].text)
          && section.body == if |g| == 1 then RenderBlock(g[0]) else Doc(g[1..]))
  }

  lemma {:induction false} HeadingsLead(bs: seq<Block>)
    requires AllFromParser(bs) && bs != []
    ensures forall i, j | 0 <= i < |Groups(bs)| && 0 < j < |Groups(bs)[i]| :: Groups(bs)[i][j].kind != Heading
  {
    hide FromParser, Opens;
    if |bs| > 1 {
      HeadingsLead(bs[1..]);
      var rest := Groups(bs[1..]);
      if !Opens(bs[1..]) {
        if bs[1].kind == Heading {
          HeadingOpens(bs[1..]);
        }
        var first := [bs[0]] + rest[0];
        forall j | 0 < j < |first| ensures first[j].kind != Heading {
          assert first[j] == rest[0][j - 1];
        }
        assert Groups(bs) == [first] + rest[1..];
      }
    }
  }

  lemma {:induction false} GroupSectionAt(groups: seq<seq<Block>>, i: nat)
    requires forall k | 0 <= k < |groups| :: groups[k] != [] && AllFromParser(groups[k])
    requires i < |groups|
    ensures |GroupSections(groups)| == |groups|
    ensures Tight(Doc(groups[i])) && GroupSections(groups)[i] == SectionOf(Doc(groups[i]))
  {
    hide Doc, SectionOf, AllFromParser;
    DocTight(groups[i]);
    if i > 0 {
      GroupSectionAt(groups[1..], i - 1);
    } else if |groups| > 1 {
      GroupSectionAt(groups[1..], 0);
    }
  }

  /** A heading titles a section of its own, which holds the blocks up to the next heading, or fewer
      where a paragraph reads as a heading; without any it holds the heading itself. */
  lemma HeadingsTitleSections(bs: seq<Block>)
    requires AllFromParser(bs) && bs != []
    ensures var groups, sections := Groups(bs), Sections(Markdown(bs));
            && |sections| == |groups| && Flatten(groups) == bs
            && forall i | 0 <= i < |groups| :: HeadedSection(sections[i], groups[i])
  {
    hide Doc, Groups, Sections, SectionOf, GroupSections, FromParser, Markdown, RenderBlock, HeadedSection;
    var groups := Groups(bs);
    MarkdownIsDoc(bs);
    DocSections(bs);
    GroupsFlatten(bs);
    GroupSectionAt(groups, 0);
    forall i | 0 <= i < |groups| ensures HeadedSection(GroupSections(groups)[i], groups[i]) {
      GroupSectionAt(groups, i);
      HeadedGroup(bs, i);
    }
  }

  lemma HeadedGroup(bs: seq<Block>, i: nat)
    requires AllFromParser(bs) && bs != [] && i < |Groups(bs)| && Tight(Doc(Groups(bs)[i]))
    ensures HeadedSection(SectionOf(Doc(Groups(bs)[i])), Groups(bs)[i])
  {
    hide Doc, Groups, SectionOf, FromParser, RenderBlock;
    HeadingsLead(bs);
    var g := Groups(bs)[i];
    if g[0].kind == Heading {
      HeadingSection(g);
      DocTail(g);
    }
  }

  /** Case one: such a line is no table line, and the section keeps all blocks below it. */
  lemma TitledSection(g: seq<Block>)
    requires AllFromParser(g) && g != [] && g[0].kind != PdfLayout.Table
    requires OpensHeading(RenderBlock(g[0])) && Tight(Doc(g))
    ensures SectionOf(Doc(g)).body == if |g| == 1 then Doc(g) else Doc(g[1..])
  {
    hide IsSpace, Strip, RenderBlock, FromParser, Doc, SectionOf, OpensHeading;
    DocTail(g);
    GoodBlockLine(g[0]);
    TitledBody(RenderBlock(g[0]), Tail(g[1..]));
    StripTail(g[1..]);
    if |g| > 1 {
      DocTight(g[1..]);
    } else {
      EmptyDocText(g[1..]);
    }
  }

  lemma GoodBlockLine(b: Block)
    requires FromParser(b) && b.kind != PdfLayout.Table
    ensures GoodLine(RenderBlock(b))
  {
    hide IsSpace, GoodLine, RenderBlock;
    BlockLinesGood(b);
    assert BlockLines(b)[0] == RenderBlock(b);
  }

  lemma HashLineNotTabular(b: Block)
    requires FromParser(b) && b.kind != PdfLayout.Table && RenderBlock(b) != "" && RenderBlock(b)[0] == '#'
    ensures !Tabular(b)
  {
    hide IsSpace, Strip, FromParser, RenderBlock;
    RenderTight(b);
    StripTight(RenderBlock(b));
  }

  lemma BareHashOpens(g: seq<Block>)
    requires AllFromParser(g) && |g| > 1 && BareHash(g[0])
    ensures Doc(g) == Repeat('#', |g[0].text|) + "\n\n" + Doc(g[1..])
    ensures Opens(g)
  {
    hide FromParser;
    var h := g[0].text;
    assert h == Repeat('#', |h|);
    HashCountMarks(|h|, "\n\n" + Doc(g[1..]));
    assert Doc(g) == h + ("\n\n" + Doc(g[1..]));
    NoSpaces();
  }

  /** The body of a part that starts with bare hash marks: the line `l` below them is its title. */
  lemma SwallowedBody(n: nat, l: string, tail: string)
    requires 1 <= n <= 6 && Tight(l) && '\n' !in l && (tail == "" || tail[0] == '\n')
    requires Tight(Repeat('#', n) + "\n\n" + (l + tail))
    ensures var part := Repeat('#', n) + "\n\n" + (l + tail);
            SectionOf(part).body == if Strip(tail) != "" then Strip(tail) else part
  {
    hide IsSpace, Strip, StripLeft, Find, HashCount, SectionOf, Tight, Blank, OpensHeading;
    var rest := "\n\n" + (l + tail);
    var part := Repeat('#', n) + "\n\n" + (l + tail);
    assert part == Repeat('#', n) + rest;
    NoSpaces();
    MarksOpen(n, rest);
    TightEnds(l);
    assert (l + tail)[0] == l[0];
    BlankFeeds();
    StripLeftPadded("\n\n", l + tail);
    FindFeed(l, tail);
    assert (l + tail)[|l|..] == tail;
    SectionBody(part, l + tail);
  }

  lemma MarksOpen(n: nat, rest: string)
    requires 1 <= n <= 6 && rest != "" && IsSpace(rest[0]) && rest[0] != '#'
    ensures var part := Repeat('#', n) + rest;
            OpensHeading(part) && HashCount(part) == n && part[n..] == rest
  {
    hide IsSpace, HashCount;
    HashCountMarks(n, rest);
  }

  lemma BlankFeeds()
    ensures Blank("\n\n")
  {
  }

  /** Case two: a bare hash takes the first line of the next block as the title. */
  lemma SwallowedLine(g: seq<Block>)
    requires AllFromParser(g) && |g| > 1 && BareHash(g[0]) && Tight(Doc(g))
    requires g[1].kind != PdfLayout.Table
    ensures SectionOf(Doc(g)).body == if |g| == 2 then Doc(g) else Doc(g[2..])
  {
    hide IsSpace, Strip, RenderBlock, FromParser, Doc, SectionOf, OpensHeading;
    BareHashOpens(g);
    assert g[1..][1..] == g[2..];
    DocTail(g[1..]);
    GoodBlockLine(g[1]);
    SwallowedBody(|g[0].text|, RenderBlock(g[1]), Tail(g[2..]));
    StripTail(g[2..]);
    if |g| > 2 {
      DocTight(g[2..]);
    } else {
      EmptyDocText(g[2..]);
    }
  }

  lemma BeheadedTight(b: Block, g: seq<Block>)
    requires FromParser(b) && b.kind == PdfLayout.Table && AllFromParser(g)
    ensures Tight(Beheaded(b) + Tail(g))
  {
    hide IsSpace, FromParser, Doc, BlockLines, GoodLine;
    var lines := BlockLines(b);
    TableTwoLines(b);
    BlockLinesGood(b);
    GoodTight(lines[1]);
    GoodTight(lines[|lines| - 1]);
    JoinTight(lines[1..], "\n");
    var rest := Beheaded(b) + Tail(g);
    assert rest[0] == Beheaded(b)[0];
    if g != [] {
      DocTight(g);
      assert rest[|rest| - 1] == Doc(g)[|Doc(g)| - 1];
    } else {
      assert rest == Beheaded(b);
    }
  }

  lemma GoodTight(l: string)
    requires GoodLine(l)
    ensures Tight(l) && '\n' !in l
  {
  }

  lemma TableHead(g: seq<Block>)
    requires AllFromParser(g) && g != [] && g[0].kind == PdfLayout.Table
    ensures var lines := BlockLines(g[0]);
            && |lines| > 2 && Tight(lines[0]) && '\n' !in lines[0]
            && Doc(g) == lines[0] + ("\n" + (Beheaded(g[0]) + Tail(g[1..])))
  {
    hide IsSpace, RenderBlock, FromParser, Doc, BlockLines, Tail, GoodLine;
    DocTail(g);
    TableTwoLines(g[0]);
    BlockLinesGood(g[0]);
    var lines := BlockLines(g[0]);
    GoodTight(lines[0]);
    assert Join(lines, "\n") == lines[0] + "\n" + Beheaded(g[0]);
  }

  lemma SwallowedHeader(g: seq<Block>)
    requires AllFromParser(g) && |g| > 1 && BareHash(g[0]) && Tight(Doc(g))
    requires g[1].kind == PdfLayout.Table
    ensures SectionOf(Doc(g)).body == Beheaded(g[1]) + Tail(g[2..])
  {
    hide IsSpace, Strip, FromParser, Doc, SectionOf, OpensHeading, BlockLines, Beheaded, Tail;
    BareHashOpens(g);
    TableHead(g[1..]);
    assert g[1..][1..] == g[2..];
    var rest := Beheaded(g[1]) + Tail(g[2..]);
    SwallowedBody(|g[0].text|, BlockLines(g[1])[0], "\n" + rest);
    BeheadedTight(g[1], g[2..]);
    NoSpaces();
    StripPadded("\n", rest, "");
    assert "\n" + rest + "" == "\n" + rest;
  }

  lemma TableTwoLines(b: Block)
    requires FromParser(b) && b.kind == PdfLayout.Table
    ensures |BlockLines(b)| > 2
  {
  }

  lemma BeheadedLines(b: Block)
    requires FromParser(b) && b.kind == PdfLayout.Table
    ensures var lines := BlockLines(b)[1..];
            && lines != [] && GoodLines(lines) && (forall i | 0 <= i < |lines| :: IsTableLine(lines[i]))
            && AllOneLine(lines) && lines[|lines| - 1] != ""
  {
    hide IsSpace, Strip, RenderBlock, FromParser, BlockLines, IsTableLine, GoodLine, Tabular, IsLineBreak, OneLine;
    BlockLinesGood(b);
    TableTwoLines(b);
    TabularLines(b);
    TableIsTabular(b);
    var lines := BlockLines(b)[1..];
    assert GoodLines(lines) by {
      forall i | 0 <= i < |lines| ensures GoodLine(lines[i]) {
        assert lines[i] == BlockLines(b)[i + 1];
      }
    }
    GoodLast(lines);
  }

  lemma BeheadedTables(b: Block, g: seq<Block>)
    requires FromParser(b) && b.kind == PdfLayout.Table && AllFromParser(g)
    ensures TableSegments(Beheaded(b) + Tail(g)) == [Beheaded(b)] + TabularTexts(g)
  {
    hide IsSpace, Strip, RenderBlock, FromParser, Doc, BlockLines, SplitLines, IsTableLine, Runs, GoodLine,
      TabularTexts, IsLineBreak, OneLine;
    TableTwoLines(b);
    BeheadedLines(b);
    var lines := BlockLines(b)[1..];
    EmptyLine();
    NoLines();
    if g == [] {
      TableLinesAhead(lines, []);
      SplitLinesJoin(lines);
      assert lines + [] == lines;
      assert Beheaded(b) + "" == Beheaded(b);
      EmptyDocLines(g);
    } else {
      BeheadedAhead(lines, g);
      OtherLine("", DocLines(g));
      TableLinesAhead(lines, [""] + DocLines(g));
      DocLineTables(g);
    }
  }

  lemma SingleEmpty()
    ensures AllOneLine([""])
  {
  }

  lemma AllOneLineAppend(a: seq<string>, b: seq<string>)
    requires AllOneLine(a) && AllOneLine(b) && b != [] && b[|b| - 1] != ""
    ensures AllOneLine(a + b) && (a + b)[|a + b| - 1] != ""
  {
    hide OneLine;
  }

  lemma BeheadedAhead(lines: seq<string>, g: seq<Block>)
    requires lines != [] && AllOneLine(lines) && AllFromParser(g) && g != []
    ensures SplitLines(Join(lines, "\n") + Tail(g)) == lines + ([""] + DocLines(g))
  {
    hide FromParser, Doc, DocLines, SplitLines, OneLine, AllOneLine, Join;
    DocLinesJoin(g);
    SingleEmpty();
    JoinAcross(lines, DocLines(g));
    AllOneLineAppend([""], DocLines(g));
    AllOneLineAppend(lines, [""] + DocLines(g));
    SplitLinesJoin(lines + ([""] + DocLines(g)));
  }

  lemma TableIsTabular(b: Block)
    requires b.kind == PdfLayout.Table
    ensures Tabular(b)
  {
  }

  lemma EmptyDocLines(g: seq<Block>)
    requires g == []
    ensures DocLines(g) == [] && TabularTexts(g) == []
  {
  }

  lemma GoodLast(lines: seq<string>)
    requires lines != [] && GoodLines(lines)
    ensures AllOneLine(lines) && lines[|lines| - 1] != ""
  {
    forall i | 0 <= i < |lines| ensures OneLine(lines[i]) && lines[i] != "" {
      assert GoodLine(lines[i]);
    }
  }

  lemma TabularStep(g: seq<Block>)
    requires g != []
    ensures TabularTexts(g) == (if Tabular(g[0]) then [RenderBlock(g[0])] else []) + TabularTexts(g[1..])
  {
  }

  lemma SwallowedTables(g: seq<Block>)
    requires AllFromParser(g) && |g| > 1 && BareHash(g[0]) && Tight(Doc(g))
    ensures TableSegments(SectionOf(Doc(g)).body) == GroupTables(g)
  {
    hide TableSegments, RenderBlock, FromParser, Doc, BareHash, TabularTexts, Beheaded, SectionOf, IsSpace, Tail;
    if g[1].kind == PdfLayout.Table {
      SwallowedHeader(g);
      BeheadedTables(g[1], g[2..]);
    } else {
      SwallowedLine(g);
      DocTables(g);
      DocTables(g[2..]);
    }
  }

  lemma TitledTables(g: seq<Block>)
    requires AllFromParser(g) && g != [] && Opens(g) && Tight(Doc(g))
    requires !(BareHash(g[0]) && |g| > 1)
    ensures TableSegments(SectionOf(Doc(g)).body) == TabularTexts(g)
  {
    hide TableSegments, RenderBlock, FromParser, Doc, BareHash, Tabular, TabularTexts, SectionOf, IsSpace, OpensHeading;
    OpeningBlock(g);
    TitledSection(g);
    TabularStep(g);
    DocTables(g);
    DocTables(g[1..]);
  }

  /** The table segments of a section, read off its blocks. */
  lemma SectionTablesOf(g: seq<Block>)
    requires AllFromParser(g) && g != [] && Tight(Doc(g))
    ensures TableSegments(SectionOf(Doc(g)).body) == GroupTables(g)
  {
    hide TableSegments, FromParser, Doc, BareHash, TabularTexts, Beheaded, SectionOf, IsSpace, OpensHeading;
    if BareHash(g[0]) && |g| > 1 {
      SwallowedTables(g);
    } else if Opens(g) {
      TitledTables(g);
    } else {
      UntitledSection(g);
      DocTables(g);
    }
  }

  lemma UntitledSection(g: seq<Block>)
    requires AllFromParser(g) && !Opens(g) && Tight(Doc(g))
    ensures SectionOf(Doc(g)).body == Doc(g)
  {
  }

  /** A group that opens a heading starts with a heading line, or with a bare hash and more. */
  lemma OpeningBlock(g: seq<Block>)
    requires AllFromParser(g) && g != [] && Opens(g)
    requires !(BareHash(g[0]) && |g| > 1)
    ensures g[0].kind != PdfLayout.Table && OpensHeading(RenderBlock(g[0])) && !Tabular(g[0])
  {
    hide IsSpace, RenderBlock, FromParser, Doc, Tabular;
    var l := RenderBlock(g[0]);
    OpeningIsHash(g);
    DocTail(g);
    GoodBlockLine(g[0]);
    HashLineNotTabular(g[0]);
    var n := HashCount(l);
    if n < |l| {
      HashCountPrefix(l, Tail(g[1..]));
      assert Doc(g)[n] == l[n];
    } else {
      assert l == Repeat('#', n);
      MarksAlone(g, n);
      assert false;
    }
  }

  lemma MarksAlone(g: seq<Block>, n: nat)
    requires AllFromParser(g) && g != [] && g[0].kind != PdfLayout.Table
    requires n >= 1 && RenderBlock(g[0]) == Repeat('#', n) && !(BareHash(g[0]) && |g| > 1)
    ensures !Opens(g)
  {
    hide IsSpace, FromParser, Doc, RenderBlock, BareHash;
    DocTail(g);
    HashCountMarks(n, Tail(g[1..]));
    HashCountMarks(n, "");
    assert Repeat('#', n) + "" == Repeat('#', n);
    HashLineIsBare(g[0]);
    if |g| == 1 {
      assert Repeat('#', n) + Tail(g[1..]) == Repeat('#', n);
    }
  }

  lemma OpeningIsHash(g: seq<Block>)
    requires AllFromParser(g) && g != [] && Opens(g)
    ensures g[0].kind != PdfLayout.Table && RenderBlock(g[0]) != "" && RenderBlock(g[0])[0] == '#'
  {
    hide IsSpace, RenderBlock, Doc, TableLine;
    DocTail(g);
    RenderTight(g[0]);
    assert Doc(g)[0] == RenderBlock(g[0])[0];
    if g[0].kind == PdfLayout.Table {
      BlockLinesGood(g[0]);
      TableLineGood(g[0].rows, 0);
      assert BlockLines(g[0])[0] == TableLine(g[0].rows, 0);
      JoinStart(BlockLines(g[0]));
      HashCountZero(Doc(g));
    }
  }

  /** Only a paragraph can render as hash marks alone. */
  lemma HashLineIsBare(b: Block)
    requires FromParser(b) && b.kind != PdfLayout.Table
    requires var l := RenderBlock(b); 1 <= |l| && HashCount(l) == |l|
    ensures b.kind == Paragraph && (|RenderBlock(b)| <= 6 ==> BareHash(b))
  {
    if b.kind == Heading {
      var n := Max(0, Min(b.level, 6));
      assert RenderBlock(b) == Repeat('#', n) + (" " + b.text);
      HashCountMarks(n, " " + b.text);
    }
  }

  lemma {:induction false} GroupSectionTables(groups: seq<seq<Block>>)
    requires forall i | 0 <= i < |groups| :: groups[i] != [] && AllFromParser(groups[i])
    ensures SectionTables(GroupSections(groups)) == GroupsTables(groups)
  {
    hide AllFromParser, Doc, TableSegments, SectionOf, GroupTables;
    if groups != [] {
      DocTight(groups[0]);
      SectionTablesOf(groups[0]);
      GroupSectionTables(groups[1..]);
      var s := SectionOf(Doc(groups[0]));
      assert GroupSections(groups) == [s] + GroupSections(groups[1..]);
      assert ([s] + GroupSections(groups[1..]))[1..] == GroupSections(groups[1..]);
    }
  }

  /** The table texts that reach the index: those of every section, read off the blocks. */
  function Surviving(bs: seq<Block>): seq<string>
    requires AllFromParser(bs)
  {
    if bs == [] then [] else GroupsTables(Groups(bs))
  }

  /** For every list of parsed blocks, the table chunks of its document are exactly its
      surviving tables. */
  lemma TableChunksOf(bs: seq<Block>, cfg: Config)
    requires AllFromParser(bs)
    ensures TableTexts(DocumentChunks(Markdown(bs), cfg)) == Surviving(bs)
  {
    hide AllFromParser, Doc, Sections, Markdown, ChunksOf, Groups, SectionTables, TableTexts, GroupsTables, GroupSections;
    MarkdownIsDoc(bs);
    ChunkTables(Sections(Doc(bs)), 0, cfg);
    if bs != [] {
      DocSections(bs);
      GroupSectionTables(Groups(bs));
    } else {
      EmptyDocText(bs);
      EmptyTables();
    }
  }

  lemma EmptyTables()
    ensures SectionTables(Sections("")) == []
  {
    assert Strip("") == "";
    assert CutSections("") == [""];
    assert SectionsOf([""]) == [] + SectionsOf([]);
    assert Sections("") == [Section(None, "")];
    assert TableSegments("") == [];
  }

  // -------------------------------------------------------------- main results

  /** The texts of the table blocks. */
  function Tables(bs: seq<Block>): seq<string> {
    if bs == [] then []
    else (if bs[0].kind == PdfLayout.Table then [bs[0].text] else []) + Tables(bs[1..])
  }

  /** No paragraph looks like a table line. */
  predicate PlainParagraphs(bs: seq<Block>) {
    forall i | 0 <= i < |bs| :: bs[i].kind == Paragraph ==> !IsTableLine(bs[i].text)
  }

  /** No table directly follows a paragraph that is a bare run of hash marks. */
  predicate NoTableUnderBareHash(bs: seq<Block>) {
    forall i | 0 < i < |bs| :: !(BareHash(bs[i - 1]) && bs[i].kind == PdfLayout.Table)
  }

  lemma {:induction false} PlainTabular(bs: seq<Block>)
    requires AllFromParser(bs) && PlainParagraphs(bs)
    ensures TabularTexts(bs) == Tables(bs)
  {
    hide IsTableLine, FromParser;
    if bs != [] {
      PlainTabular(bs[1..]);
      PlainBlock(bs[0]);
    }
  }

  lemma PlainBlock(b: Block)
    requires FromParser(b) && (b.kind == Paragraph ==> !IsTableLine(b.text))
    ensures Tabular(b) <==> b.kind == PdfLayout.Table
  {
    hide IsTableLine, IsSpace, Cleaned;
    if b.kind == Heading {
      var n := Max(0, Min(b.level, 6));
      assert RenderBlock(b) == Repeat('#', n) + (" " + b.text);
      assert RenderBlock(b)[0] == '#';
      HashLineNotTabular(b);
    }
  }

  /** A beheaded table is shorter than the table. */
  lemma BeheadedShorter(b: Block)
    requires FromParser(b) && b.kind == PdfLayout.Table
    ensures |Beheaded(b)| < |b.text|
  {
    hide IsSpace, FromParser, BlockLines;
    TableTwoLines(b);
    BlockLinesGood(b);
    assert RenderBlock(b) == b.text;
  }

  predicate Safe(g: seq<Block>)
    requires g != []
  {
    !(|g| > 1 && BareHash(g[0]) && g[1].kind == PdfLayout.Table)
  }

  lemma GroupWhole(g: seq<Block>)
    requires AllFromParser(g) && g != [] && PlainParagraphs(g)
    ensures |GroupTables(g)| == |Tables(g)|
    ensures GroupTables(g) == Tables(g) <==> Safe(g)
  {
    hide FromParser, BareHash, Beheaded, IsTableLine, Tabular;
    PlainTabular(g);
    if BareHash(g[0]) && |g| > 1 {
      BareNotTable(g[0]);
      PlainTabular(g[2..]);
      assert Tables(g) == Tables(g[1..]);
      assert g[1..][1..] == g[2..];
      if g[1].kind == PdfLayout.Table {
        BeheadedShorter(g[1]);
        assert Tables(g)[0] == g[1].text && GroupTables(g)[0] == Beheaded(g[1]);
      }
    }
  }

  lemma BareNotTable(b: Block)
    requires BareHash(b)
    ensures b.kind == Paragraph
  {
  }

  lemma {:induction false} TablesAppend(a: seq<Block>, b: seq<Block>)
    ensures Tables(a + b) == Tables(a) + Tables(b)
  {
    if a == [] {
      assert a + b == b;
    } else {
      assert (a + b)[1..] == a[1..] + b;
      TablesAppend(a[1..], b);
    }
  }

  lemma {:induction false} GroupsFlatten(bs: seq<Block>)
    requires AllFromParser(bs) && bs != []
    ensures Flatten(Groups(bs)) == bs
  {
    hide FromParser, Opens;
    if |bs| > 1 {
      GroupsFlatten(bs[1..]);
      var g := Groups(bs[1..]);
      var first := if Opens(bs[1..]) then [bs[0]] else [bs[0]] + g[0];
      var others := if Opens(bs[1..]) then g else g[1..];
      assert Groups(bs) == [first] + others;
      assert ([first] + others)[1..] == others;
      assert bs == [bs[0]] + bs[1..];
    } else {
      assert Flatten([bs]) == bs + Flatten<Block>([]);
    }
  }

  predicate AllSafe(groups: seq<seq<Block>>)
    requires forall i | 0 <= i < |groups| :: groups[i] != []
  {
    forall i | 0 <= i < |groups| :: Safe(groups[i])
  }

  lemma AllSafeCons(g: seq<Block>, groups: seq<seq<Block>>)
    requires g != [] && forall i | 0 <= i < |groups| :: groups[i] != []
    ensures AllSafe([g] + groups) <==> Safe(g) && AllSafe(groups)
  {
    hide Safe;
    var all := [g] + groups;
    assert all[0] == g;
    assert forall i | 0 <= i < |groups| :: all[i + 1] == groups[i];
    if Safe(g) && AllSafe(groups) {
      forall i | 0 <= i < |all| ensures Safe(all[i]) {
        if i > 0 {
          assert all[i] == groups[i - 1];
        }
      }
    }
    if AllSafe(all) {
      forall i | 0 <= i < |groups| ensures Safe(groups[i]) {
        assert all[i + 1] == groups[i];
      }
    }
  }

  lemma UnderBareHashStep(bs: seq<Block>)
    requires |bs| > 1
    ensures NoTableUnderBareHash(bs)
       <==> NoTableUnderBareHash(bs[1..]) && !(BareHash(bs[0]) && bs[1].kind == PdfLayout.Table)
  {
    hide BareHash;
    var rest := bs[1..];
    if NoTableUnderBareHash(bs) {
      forall i | 0 < i < |rest| ensures !(BareHash(rest[i - 1]) && rest[i].kind == PdfLayout.Table) {
        assert rest[i] == bs[i + 1] && rest[i - 1] == bs[i];
      }
    }
    if NoTableUnderBareHash(rest) && !(BareHash(bs[0]) && bs[1].kind == PdfLayout.Table) {
      forall i | 0 < i < |bs| ensures !(BareHash(bs[i - 1]) && bs[i].kind == PdfLayout.Table) {
        if i > 1 {
          assert rest[i - 1] == bs[i] && rest[i - 2] == bs[i - 1];
        }
      }
    }
  }

  lemma {:induction false} GroupsSafe(bs: seq<Block>)
    requires AllFromParser(bs) && bs != []
    ensures AllSafe(Groups(bs)) <==> NoTableUnderBareHash(bs)
  {
    hide FromParser, Opens, BareHash, AllSafe, NoTableUnderBareHash;
    if |bs| > 1 {
      var rest, g := bs[1..], Groups(bs[1..]);
      GroupsSafe(rest);
      UnderBareHashStep(bs);
      if Opens(rest) {
        OpeningIsHash(rest);
        AllSafeCons([bs[0]], g);
      } else {
        FirstNotBare(rest);
        FirstGroup(rest);
        AllSafeCons([bs[0]] + g[0], g[1..]);
        AllSafeCons(g[0], g[1..]);
        assert [g[0]] + g[1..] == g;
        assert Safe(g[0]);
      }
    } else {
      AllSafeCons(bs, []);
      assert [bs] + [] == [bs];
      NothingSafe(bs);
    }
  }

  lemma NothingSafe(bs: seq<Block>)
    requires |bs| == 1
    ensures AllSafe([]) && NoTableUnderBareHash(bs)
  {
  }

  lemma FirstNotBare(bs: seq<Block>)
    requires AllFromParser(bs) && bs != [] && !Opens(bs)
    ensures BareHash(bs[0]) ==> |bs| == 1
  {
    if BareHash(bs[0]) && |bs| > 1 {
      BareHashOpens(bs);
    }
  }

  lemma FirstGroup(bs: seq<Block>)
    requires AllFromParser(bs) && bs != []
    ensures |Groups(bs)[0]| <= |bs|
  {
    hide FromParser, Opens;
    GroupsFlatten(bs);
    assert Flatten(Groups(bs)) == Groups(bs)[0] + Flatten(Groups(bs)[1..]);
  }

  lemma {:induction false} GroupsWhole(groups: seq<seq<Block>>)
    requires forall i | 0 <= i < |groups| :: groups[i] != [] && AllFromParser(groups[i]) && PlainParagraphs(groups[i])
    ensures |GroupsTables(groups)| == |Tables(Flatten(groups))|
    ensures GroupsTables(groups) == Tables(Flatten(groups)) <==> AllSafe(groups)
  {
    hide AllFromParser, PlainParagraphs, GroupTables, Safe, AllSafe;
    if groups != [] {
      GroupWhole(groups[0]);
      GroupsWhole(groups[1..]);
      TablesAppend(groups[0], Flatten(groups[1..]));
      SameFront(GroupTables(groups[0]), GroupsTables(groups[1..]), Tables(groups[0]), Tables(Flatten(groups[1..])));
      AllSafeCons(groups[0], groups[1..]);
      assert [groups[0]] + groups[1..] == groups;
    } else {
      NoGroupsSafe();
    }
  }

  lemma NoGroupsSafe()
    ensures AllSafe([])
  {
  }

  lemma SameFront(a: seq<string>, b: seq<string>, c: seq<string>, d: seq<string>)
    requires |a| == |c|
    ensures a + b == c + d <==> a == c && b == d
  {
    if a + b == c + d {
      assert (a + b)[..|a|] == a && (c + d)[..|c|] == c;
      assert (a + b)[|a|..] == b && (c + d)[|c|..] == d;
    }
  }

  lemma {:induction false} PlainParts(groups: seq<seq<Block>>)
    requires PlainParagraphs(Flatten(groups))
    ensures forall i | 0 <= i < |groups| :: PlainParagraphs(groups[i])
  {
    hide IsTableLine;
    if groups != [] {
      var all, head, rest := Flatten(groups), groups[0], Flatten(groups[1..]);
      assert all == head + rest;
      assert PlainParagraphs(head) by {
        assert forall i | 0 <= i < |head| :: head[i] == all[i];
      }
      assert PlainParagraphs(rest) by {
        assert forall i | 0 <= i < |rest| :: rest[i] == all[|head| + i];
      }
      PlainParts(groups[1..]);
    }
  }

  /** Every parsed table reaches the index whole, once and in order, exactly when no table
      directly follows a paragraph of bare hash marks. */
  lemma TablesReachTheIndexWhole(bs: seq<Block>, cfg: Config)
    requires AllFromParser(bs) && PlainParagraphs(bs)
    ensures TableTexts(DocumentChunks(Markdown(bs), cfg)) == Tables(bs) <==> NoTableUnderBareHash(bs)
  {
    hide AllFromParser, PlainParagraphs, Markdown, DocumentChunks, Groups, GroupsTables, NoTableUnderBareHash, TableTexts, AllSafe;
    TableChunksOf(bs, cfg);
    if bs != [] {
      GroupsFlatten(bs);
      PlainParts(Groups(bs));
      GroupsWhole(Groups(bs));
      GroupsSafe(bs);
    } else {
      NothingUnderHash(bs);
    }
  }

  const LETTERS: seq<Row> := [[Some("a"), Some("b")], [Some("b"), Some("a")]]

  lemma {:induction false} AllFilled(cells: seq<Option<string>>)
    requires forall i | 0 <= i < |cells| :: cells[i] == Some("a") || cells[i] == Some("b")
    ensures Filled(cells) == |cells|
  {
    hide Strip;
    if cells != [] {
      AllFilled(cells[1..]);
      LetterFilled(cells[0].value);
    }
  }

  lemma LetterFilled(s: string)
    requires s == "a" || s == "b"
    ensures Strip(s) != ""
  {
    hide IsSpace, Strip;
    assert Tight(s) by { LettersTight(); }
    StripTight(s);
  }

  lemma LettersTight()
    ensures Tight("a") && Tight("b")
  {
  }

  lemma LettersUsable()
    ensures TableIsUsable(LETTERS)
  {
    hide Filled;
    var row, other := LETTERS[0], LETTERS[1];
    assert LETTERS[1..] == [other] && [other][1..] == [];
    assert Flatten([other]) == other + Flatten<Option<string>>([]) == other;
    assert Flatten(LETTERS) == row + other;
    assert MaxWidth([]) == 0 && MaxWidth([other]) == 2 && MaxWidth(LETTERS) == 2;
    AllFilled(row + other);
  }

  lemma MarkParsed()
    ensures FromParser(Block(Paragraph, "#", 0, [])) && BareHash(Block(Paragraph, "#", 0, [])) && !IsTableLine("#")
  {
    hide Strip;
    StripTight("#");
  }

  /** Such tables do break: here the header of a table of letters is lost. */
  lemma HeaderLost(cfg: Config)
    ensures var mark, table := Block(Paragraph, "#", 0, []), Block(PdfLayout.Table, RowsToMarkdown(LETTERS), 0, LETTERS);
            var bs := [mark, table];
            && AllFromParser(bs) && PlainParagraphs(bs)
            && TableTexts(DocumentChunks(Markdown(bs), cfg)) != Tables(bs) == [table.text]
  {
    hide Cleaned, BareHash, IsTableLine, TableIsUsable, RowsToMarkdown, Markdown, DocumentChunks, TableTexts;
    var mark, table := Block(Paragraph, "#", 0, []), Block(PdfLayout.Table, RowsToMarkdown(LETTERS), 0, LETTERS);
    var bs := [mark, table];
    MarkParsed();
    LettersUsable();
    assert FromParser(mark) && FromParser(table);
    assert bs[1..] == [table] && [table][1..] == [];
    assert Tables([]) == [] && Tables([table]) == [table.text] && Tables(bs) == [table.text];
    assert !NoTableUnderBareHash(bs) by {
      assert BareHash(bs[1 - 1]) && bs[1].kind == PdfLayout.Table;
    }
    TablesReachTheIndexWhole(bs, cfg);
  }

  lemma NothingUnderHash(bs: seq<Block>)
    requires bs == []
    ensures NoTableUnderBareHash(bs) && Tables(bs) == []
  {
  }

  /** The rows of the table blocks. */
  function TableRows(bs: seq<Block>): seq<seq<Row>> {
    if bs == [] then []
    else (if bs[0].kind == PdfLayout.Table then [bs[0].rows] else []) + TableRows(bs[1..])
  }

  lemma {:induction false} TablesReadBack(bs: seq<Block>)
    requires AllFromParser(bs)
    ensures |Tables(bs)| == |TableRows(bs)|
    ensures forall i | 0 <= i < |Tables(bs)| ::
              && TableRoundTrip.ParseTable(Tables(bs)[i]) == TableRoundTrip.CleanRows(TableRows(bs)[i])
              && TableRoundTrip.HoldsCells(TableRoundTrip.ParseTable(Tables(bs)[i]), TableRows(bs)[i])
  {
    hide TableRoundTrip.ParseTable, TableRoundTrip.CleanRows, TableRoundTrip.HoldsCells, FromParser;
    if bs != [] {
      TablesReadBack(bs[1..]);
      if bs[0].kind == PdfLayout.Table {
        TableReadsBack(bs[0]);
      }
    }
  }

  lemma TableReadsBack(b: Block)
    requires FromParser(b) && b.kind == PdfLayout.Table
    ensures TableRoundTrip.ParseTable(b.text) == TableRoundTrip.CleanRows(b.rows)
    ensures TableRoundTrip.HoldsCells(TableRoundTrip.ParseTable(b.text), b.rows)
  {
    hide TableRoundTrip.ParseTable, TableRoundTrip.CleanRows, TableRoundTrip.HoldsCells, RowsToMarkdown, MaxWidth;
    TableRoundTrip.TableRoundTrip(b.rows);
    WidestRow(b.rows);
    TableRoundTrip.CellsReadBack(b.rows);
  }

  /** From the page to the index and back: reading the table chunks of a document recovers the
      cleaned rows of its tables, cell by cell. */
  lemma IndexedTablesReadBack(bs: seq<Block>, cfg: Config, i: nat)
    requires AllFromParser(bs) && PlainParagraphs(bs) && NoTableUnderBareHash(bs)
    requires i < |TableRows(bs)|
    ensures var texts := TableTexts(DocumentChunks(Markdown(bs), cfg));
            && |texts| == |TableRows(bs)|
            && TableRoundTrip.ParseTable(texts[i]) == TableRoundTrip.CleanRows(TableRows(bs)[i])
            && TableRoundTrip.HoldsCells(TableRoundTrip.ParseTable(texts[i]), TableRows(bs)[i])
  {
    hide AllFromParser, PlainParagraphs, Markdown, DocumentChunks, NoTableUnderBareHash, TableTexts,
      TableRoundTrip.ParseTable, TableRoundTrip.CleanRows, TableRoundTrip.HoldsCells;
    TablesReachTheIndexWhole(bs, cfg);
    TablesReadBack(bs);
  }
}
