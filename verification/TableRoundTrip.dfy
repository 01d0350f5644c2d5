/** A reader of pipe tables, written from section 4.10 of the GitHub Flavored Markdown Spec,
    and the proof that it recovers every table the renderer prints. */
module TableRoundTrip {
  import opened Common
  import opened Text
  import opened PdfLayout

  /** Cut at every pipe that does not directly follow a backslash; `prev` is the character before `s`. */
  function SplitUnescaped(s: string, prev: char): (cells: seq<string>)
    ensures cells != []
  {
    if s == "" then [""]
    else if s[0] == '|' && prev != '\\' then [""] + SplitUnescaped(s[1..], '|')
    else
      var rest := SplitUnescaped(s[1..], s[0]);
      [[s[0]] + rest[0]] + rest[1..]
  }

  function Unescape(s: string): string
    decreases |s|
  {
    if s == "" then ""
    else if s[0] == '\\' && |s| > 1 && s[1] == '|' then "|" + Unescape(s[2..])
    else [s[0]] + Unescape(s[1..])
  }

  function TrimOne(s: string): string {
    var l := if s != "" && s[0] == ' ' then s[1..] else s;
    if l != "" && l[|l| - 1] == ' ' then l[..|l| - 1] else l
  }

  function ReadCells(cells: seq<string>): (r: seq<string>)
    ensures |r| == |cells|
  {
    seq(|cells|, i requires 0 <= i < |cells| => Unescape(TrimOne(cells[i])))
  }

  /** The cells strictly between the first and the last unescaped pipe. */
  function ParseRow(line: string): seq<string> {
    var cells := SplitUnescaped(line, ' ');
    if |cells| < 2 then [] else ReadCells(cells[1..|cells| - 1])
  }

  /** All lines but the delimiter row, which is the second. */
  function ParseTable(text: string): seq<seq<string>> {
    var lines := Split(text, "\n");
    seq(Max(1, |lines| - 1), i requires 0 <= i < Max(1, |lines| - 1) =>
      ParseRow(lines[if i == 0 then 0 else i + 1]))
  }

  /** The table itself: cleaned cells, short rows padded with empty ones. */
  function CleanRow(row: Row, width: nat): (cells: seq<string>)
    requires |row| <= width
    ensures |cells| == width
  {
    seq(|row|, i requires 0 <= i < |row| => Clean(row[i].GetOr(""))) + Repeat("", width - |row|)
  }

  function CleanRows(rows: seq<Row>): seq<seq<string>> {
    var width := MaxWidth(rows);
    seq(|rows|, i requires 0 <= i < |rows| => CleanRow(rows[i], width))
  }

  // ------------------------------------------------------------------ escaping

  lemma {:induction false} UnescapeEscape(s: string)
    ensures Unescape(Escape(s)) == s
    ensures Escape(s) == "" || Escape(s)[0] != '|'
  {
    if s != "" {
      UnescapeEscape(s[1..]);
      assert s == [s[0]] + s[1..];
      var e := Escape(s);
      var t := Escape(s[1..]);
      if s[0] == '|' {
        assert e == ['\\', '|'] + t;
        assert e[2..] == t;
      } else {
        assert e == [s[0]] + t;
        assert e[1..] == t;
        assert |e| > 1 ==> e[1] == t[0];
      }
    }
  }

  /** Text in which every pipe directly follows a backslash, and which does not end in one. */
  predicate Guarded(s: string, prev: char) {
    && (forall i | 0 <= i < |s| :: s[i] == '|' ==> Before(s, prev, i) == '\\')
    && s != "" && s[|s| - 1] != '\\'
  }

  function Before(s: string, prev: char, i: nat): char
    requires i < |s|
  {
    if i == 0 then prev else s[i - 1]
  }

  /** Every pipe follows a backslash. */
  predicate PipesEscaped(s: string, prev: char) {
    forall i | 0 <= i < |s| :: s[i] == '|' ==> Before(s, prev, i) == '\\'
  }

  lemma PipesBehind(head: string, t: string, prev: char)
    requires head != "" && PipesEscaped(head, prev) && PipesEscaped(t, head[|head| - 1])
    ensures PipesEscaped(head + t, prev)
  {
    var s := head + t;
    forall i | 0 <= i < |s| && s[i] == '|' ensures Before(s, prev, i) == '\\' {
      if i >= |head| {
        assert s[i] == t[i - |head|];
      } else {
        assert s[i] == head[i];
      }
    }
  }

  lemma {:induction false} EscapeGuarded(s: string, prev: char)
    ensures PipesEscaped(Escape(s), prev)
  {
    hide PipesEscaped;
    if s == "" {
      NoPipes(prev);
    } else {
      var head := if s[0] == '|' then "\\|" else [s[0]];
      EscapeGuarded(s[1..], s[0]);
      HeadEscaped(s[0], prev);
      PipesBehind(head, Escape(s[1..]), prev);
    }
  }

  lemma NoPipes(prev: char)
    ensures PipesEscaped("", prev)
  {
  }

  lemma HeadEscaped(c: char, prev: char)
    ensures PipesEscaped(if c == '|' then "\\|" else [c], prev)
  {
  }

  lemma EscapedCellGuarded(s: string)
    ensures Guarded(" " + Escape(s) + " ", '|')
  {
    EscapeGuarded(s, ' ');
    var e := Escape(s);
    var c := " " + e + " ";
    forall i | 0 <= i < |c| && c[i] == '|' ensures Before(c, '|', i) == '\\' {
      assert 0 < i < |c| - 1;
      assert c[i] == e[i - 1];
      if i > 1 {
        assert c[i - 1] == e[i - 2];
      }
    }
  }

  lemma {:induction false} SplitGuarded(s: string, prev: char, rest: string)
    requires Guarded(s, prev)
    ensures SplitUnescaped(s + "|" + rest, prev) == [s] + SplitUnescaped(rest, '|')
  {
    var whole := s + "|" + rest;
    var tail := s[1..] + "|" + rest;
    assert whole[0] == s[0] && whole[1..] == tail;
    assert !(s[0] == '|' && prev != '\\');
    var parts := SplitUnescaped(rest, '|');
    assert SplitUnescaped(tail, s[0]) == [s[1..]] + parts by {
      if |s| == 1 {
        assert tail == "|" + rest;
        assert tail[1..] == rest;
        assert s[1..] == "";
      } else {
        assert Guarded(s[1..], s[0]);
        SplitGuarded(s[1..], s[0], rest);
      }
    }
    assert [s[0]] + s[1..] == s;
  }

  // ---------------------------------------------------------------------- rows

  function Bodies(cells: seq<string>): string {
    if cells == [] then "" else " " + cells[0] + " " + "|" + Bodies(cells[1..])
  }

  lemma {:induction false} RenderedBodies(cells: seq<string>)
    requires cells != []
    ensures " " + Join(cells, " | ") + " |" == Bodies(cells)
  {
    if |cells| == 1 {
      assert Bodies(cells[1..]) == "";
    } else {
      RenderedBodies(cells[1..]);
      var j := Join(cells[1..], " | ");
      calc {
        " " + Join(cells, " | ") + " |";
        " " + (cells[0] + " | " + j) + " |";
        " " + cells[0] + " " + "|" + (" " + j + " |");
        Bodies(cells);
      }
    }
  }

  function Escaped(cells: seq<string>): (r: seq<string>)
    ensures |r| == |cells|
  {
    seq(|cells|, i requires 0 <= i < |cells| => Escape(cells[i]))
  }

  function Spaced(cells: seq<string>): (r: seq<string>)
    ensures |r| == |cells|
  {
    seq(|cells|, i requires 0 <= i < |cells| => " " + cells[i] + " ")
  }

  lemma {:induction false} SplitBodies(cells: seq<string>)
    ensures SplitUnescaped(Bodies(Escaped(cells)), '|') == Spaced(Escaped(cells)) + [""]
  {
    if cells != [] {
      var e := Escaped(cells);
      assert e[1..] == Escaped(cells[1..]);
      SplitBodies(cells[1..]);
      EscapedCellGuarded(cells[0]);
      SplitGuarded(" " + e[0] + " ", '|', Bodies(e[1..]));
      assert Spaced(e) == [" " + e[0] + " "] + Spaced(e[1..]);
      assert Bodies(e) == " " + e[0] + " " + "|" + Bodies(e[1..]);
    } else {
      assert Escaped(cells) == [];
    }
  }

  lemma LeadingPipe(body: string)
    ensures SplitUnescaped("|" + body, ' ') == [""] + SplitUnescaped(body, '|')
  {
    assert ("|" + body)[1..] == body;
  }

  lemma ParseRendered(cells: seq<string>)
    requires cells != []
    ensures ParseRow(RenderRow(Escaped(cells))) == cells
  {
    hide Escape, Join, SplitUnescaped, Bodies;
    var e := Escaped(cells);
    var line := RenderRow(e);
    RenderedBodies(e);
    assert line == "|" + Bodies(e);
    LeadingPipe(Bodies(e));
    SplitBodies(cells);
    var parts := SplitUnescaped(line, ' ');
    assert parts == [""] + Spaced(e) + [""];
    assert parts[1..|parts| - 1] == Spaced(e);
    forall i | 0 <= i < |cells| ensures Unescape(TrimOne(Spaced(e)[i])) == cells[i] {
      var c := " " + e[i] + " ";
      assert c[1..][..|c[1..]| - 1] == e[i];
      UnescapeEscape(cells[i]);
    }
  }

  // -------------------------------------------------------------------- tables

  lemma RenderCellsEscaped(row: Row, width: nat)
    requires |row| <= width
    ensures RenderCells(row, width) == Escaped(CleanRow(row, width))
  {
    assert Escape("") == "";
  }

  lemma {:induction false} EscapeFresh(s: string, c: char)
    requires c !in s && c != '\\' && c != '|'
    ensures c !in Escape(s)
  {
    if s != "" {
      assert s[0] in s;
      assert forall x | x in s[1..] :: x in s;
      EscapeFresh(s[1..], c);
    }
  }

  /** White space that cleaning removes, such as every line break. */
  predicate Removed(c: char) {
    IsSpace(c) && c != ' '
  }

  lemma CleanedFresh(s: string, c: char)
    requires Cleaned(s) && Removed(c)
    ensures c !in s
  {
    forall i | 0 <= i < |s| ensures s[i] != c {
      if IsSpace(s[i]) {
        assert s[i] == ' ';
      }
    }
  }

  lemma BreakRemoved(c: char)
    requires IsLineBreak(c)
    ensures Removed(c)
  {
  }

  lemma {:induction false} JoinFresh(parts: seq<string>, sep: string, c: char)
    requires c !in sep && forall i | 0 <= i < |parts| :: c !in parts[i]
    ensures c !in Join(parts, sep)
  {
    if |parts| > 1 {
      JoinFresh(parts[1..], sep, c);
    }
  }

  lemma {:induction false} DashesFresh(width: nat, c: char)
    requires c != '-' && c != '|'
    ensures c !in Dashes(width)
  {
    if width > 0 {
      DashesFresh(width - 1, c);
    }
  }

  lemma CellFresh(value: Option<string>, c: char)
    requires Removed(c) && c != '\\' && c != '|'
    ensures c !in Cell(value)
  {
    var t := Clean(value.GetOr(""));
    assert Cleaned(t) by { CleanCorrect(value.GetOr("")); }
    CleanedFresh(t, c);
    EscapeFresh(t, c);
  }

  lemma RowFresh(row: Row, width: nat, c: char)
    requires |row| <= width && Removed(c) && c != '\\' && c != '|'
    ensures c !in RenderRow(RenderCells(row, width))
  {
    var cells := RenderCells(row, width);
    forall j | 0 <= j < |cells| ensures c !in cells[j] {
      if j < |row| {
        CellFresh(row[j], c);
      } else {
        assert cells[j] == "";
      }
    }
    assert c !in " | " && c !in "| " && c !in " |";
    JoinFresh(cells, " | ", c);
  }

  /** No rendered table line holds a line break. */
  lemma TableLineFresh(rows: seq<Row>, i: nat, c: char)
    requires rows != [] && i <= |rows|
    requires Removed(c) && c != '\\' && c != '|' && c != '-'
    ensures c !in TableLine(rows, i)
  {
    var width := MaxWidth(rows);
    if i == 1 {
      DashesFresh(width, c);
    } else {
      RowFresh(rows[if i == 0 then 0 else i - 1], width, c);
    }
  }

  lemma TableSplits(rows: seq<Row>)
    requires rows != []
    ensures Split(RowsToMarkdown(rows), "\n") == TableLines(rows)
  {
    var lines := TableLines(rows);
    BreakRemoved('\n');
    forall p | p in lines ensures '\n' !in p {
      var i :| 0 <= i < |lines| && lines[i] == p;
      TableLineFresh(rows, i, '\n');
    }
    SplitJoin(lines, '\n');
  }

  lemma {:induction false} DashCells(width: nat)
    ensures SplitUnescaped(Dashes(width), '|') == Repeat("---", width) + [""]
  {
    if width > 0 {
      DashCells(width - 1);
      assert Dashes(width) == "---" + "|" + Dashes(width - 1);
      SplitGuarded("---", '|', Dashes(width - 1));
      assert Repeat("---", width) == ["---"] + Repeat("---", width - 1);
    }
  }

  /** The second line of a printed table is the delimiter row: dashes for every column. */
  lemma DelimiterRow(rows: seq<Row>)
    requires rows != []
    ensures var lines := Split(RowsToMarkdown(rows), "\n");
            && |lines| == |rows| + 1
            && |ParseRow(lines[1])| == MaxWidth(rows)
            && forall j | 0 <= j < MaxWidth(rows) :: ParseRow(lines[1])[j] == "---"
  {
    hide SplitUnescaped, Split, RowsToMarkdown, MaxWidth, Dashes, Unescape;
    var width := MaxWidth(rows);
    TableSplits(rows);
    LeadingPipe(Dashes(width));
    DashCells(width);
    var cells := SplitUnescaped("|" + Dashes(width), ' ');
    assert cells[1..|cells| - 1] == Repeat("---", width);
    DashesRead();
  }

  lemma DashesRead()
    ensures Unescape(TrimOne("---")) == "---"
  {
    assert TrimOne("---") == "---";
    UnescapeEscape("---");
    DashesPlain();
  }

  lemma DashesPlain()
    ensures Escape("---") == "---"
  {
  }

  lemma ParsedRow(rows: seq<Row>, i: nat)
    requires i < |rows| && MaxWidth(rows) > 0
    ensures ParseRow(TableLine(rows, if i == 0 then 0 else i + 1)) == CleanRow(rows[i], MaxWidth(rows))
  {
    hide Escape, ParseRow, RenderRow, CleanRow;
    var cells := CleanRow(rows[i], MaxWidth(rows));
    RenderCellsEscaped(rows[i], MaxWidth(rows));
    ParseRendered(cells);
  }

  /** Each cell holds the cleaned text of the one in its place, and the rows are filled up with empty
      cells to the width of the longest. */
  predicate HoldsCells(parsed: seq<seq<string>>, rows: seq<Row>) {
    && |parsed| == |rows|
    && (exists i :: 0 <= i < |rows| && |parsed[i]| == |rows[i]|)
    && forall i | 0 <= i < |rows| :: |parsed[i]| == |parsed[0]| && HoldsRow(parsed[i], rows[i])
  }

  predicate HoldsRow(cells: seq<string>, row: Row) {
    && |row| <= |cells|
    && forall j | 0 <= j < |cells| ::
         cells[j] == if j < |row| && row[j].Some? then Clean(row[j].value) else ""
  }

  /** What the reader finds, cell by cell. */
  lemma CellsReadBack(rows: seq<Row>)
    requires exists i :: 0 <= i < |rows| && |rows[i]| > 0
    ensures HoldsCells(ParseTable(RowsToMarkdown(rows)), rows)
  {
    hide ParseTable, RowsToMarkdown, MaxWidth, CleanRows, HoldsCells;
    TableRoundTrip(rows);
    CleanCells(rows);
  }

  lemma CleanCells(rows: seq<Row>)
    requires rows != []
    ensures HoldsCells(CleanRows(rows), rows)
  {
    hide MaxWidth, CleanRow, HoldsRow;
    WidestRow(rows);
    var parsed := CleanRows(rows);
    var w :| 0 <= w < |rows| && |rows[w]| == MaxWidth(rows);
    assert |parsed[w]| == |rows[w]|;
    forall i | 0 <= i < |rows| ensures HoldsRow(parsed[i], rows[i]) {
      CleanRowHolds(rows[i], MaxWidth(rows));
    }
  }

  lemma CleanRowHolds(row: Row, width: nat)
    requires |row| <= width
    ensures HoldsRow(CleanRow(row, width), row)
  {
    hide Clean;
    CleanNothing();
  }

  lemma CleanNothing()
    ensures Clean("") == ""
  {
  }

  lemma NoColumns(rows: seq<Row>)
    requires rows != [] && MaxWidth(rows) == 0
    ensures ParseRow(TableLine(rows, 0)) == [""]
  {
    hide MaxWidth;
    assert RenderCells(rows[0], 0) == [];
    assert RenderRow([]) == "|  |";
    EmptyRow();
  }

  lemma EmptyRow()
    ensures ParseRow("|  |") == [""]
  {
    var line := "|  |";
    assert line[1..] == "  " + "|" + "";
    SplitGuarded("  ", '|', "");
    var cells := SplitUnescaped(line, ' ');
    assert cells == ["", "  ", ""];
    assert cells[1..2] == ["  "];
    assert TrimOne("  ") == "";
  }

  lemma ParsedLines(rows: seq<Row>)
    requires rows != []
    ensures var parsed := ParseTable(RowsToMarkdown(rows));
            && |parsed| == |rows|
            && forall i | 0 <= i < |rows| ::
                 parsed[i] == ParseRow(TableLine(rows, if i == 0 then 0 else i + 1))
  {
    hide RowsToMarkdown, TableLine, ParseRow, Split, MaxWidth, Join;
    TableSplits(rows);
    var lines := TableLines(rows);
    assert forall i | 0 <= i <= |rows| :: lines[i] == TableLine(rows, i);
  }

  /** Reading a rendered table back gives its cleaned, padded rows, whatever backslashes and
      pipes the cells hold, exactly when the table has a column at all. */
  lemma TableRoundTrip(rows: seq<Row>)
    requires rows != []
    ensures ParseTable(RowsToMarkdown(rows)) == CleanRows(rows) <==> MaxWidth(rows) > 0
  {
    var parsed := ParseTable(RowsToMarkdown(rows));
    ParsedLines(rows);
    if MaxWidth(rows) > 0 {
      forall i | 0 <= i < |rows| ensures parsed[i] == CleanRow(rows[i], MaxWidth(rows)) {
        ParsedRow(rows, i);
      }
    } else {
      NoColumns(rows);
      assert |parsed[0]| == 1;
      assert |CleanRows(rows)[0]| == 0;
    }
  }
}
