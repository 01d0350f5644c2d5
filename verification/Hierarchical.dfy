/** Structure-aware chunking: sections, table segments, and the chunks of a document. */
module Hierarchical {
  import opened Common
  import opened Text
  import opened TokenWindows

  // ------------------------------------------------------------------ sections

  datatype Section = Section(title: Option<string>, body: string)

  /** Length of the leading run of `#`. */
  function HashCount(s: string): (n: nat)
    ensures n <= |s|
    ensures forall i | 0 <= i < n :: s[i] == '#'
    ensures n < |s| ==> s[n] != '#'
  {
    if s != "" && s[0] == '#' then 1 + HashCount(s[1..]) else 0
  }

  /** `#{1,6}\s` matches at the start of `s`. */
  predicate OpensHeading(s: string) {
    var n := HashCount(s);
    1 <= n <= 6 && n < |s| && IsSpace(s[n])
  }

  /** `SECTION_SPLIT_RE.split`: cut at every line feed that a heading mark follows. */
  function CutSections(s: string): (parts: seq<string>)
    ensures parts != []
  {
    if s == "" then [""]
    else
      var rest := CutSections(s[1..]);
      if s[0] == '\n' && OpensHeading(s[1..]) then [""] + rest
      else [[s[0]] + rest[0]] + rest[1..]
  }

  /** The heading pattern's `\s+` takes white space across line ends; the title is the rest of
      the line it stops in, and the body what follows that line, or the whole part if nothing does. */
  function SectionOf(part: string): Section
    requires Tight(part)
  {
    if OpensHeading(part) then
      var rest := StripLeft(part[HashCount(part)..]);
      var e := Find(rest, "\n");
      var body := Strip(rest[e..]);
      Section(Some(Strip(rest[..e])), if body != "" then body else part)
    else Section(None, part)
  }

  function SectionsOf(parts: seq<string>): seq<Section> {
    if parts == [] then []
    else (if Strip(parts[0]) == "" then [] else [SectionOf(Strip(parts[0]))]) + SectionsOf(parts[1..])
  }

  function Sections(text: string): seq<Section> {
    var sections := SectionsOf(CutSections(Strip(text)));
    if sections != [] then sections else [Section(None, Strip(text))]
  }

  /** Where the k-th part starts in the parts joined by line feeds. */
  function PartStart(parts: seq<string>, k: nat): (n: nat)
    requires k < |parts|
  {
    if k == 0 then 0 else PartStart(parts, k - 1) + |parts[k - 1]| + 1
  }

  lemma {:induction false} StartsShift(head: string, tail: seq<string>, c: char, k: nat)
    requires k <= |tail|
    ensures PartStart([[c] + head] + tail, k) == PartStart([head] + tail, k) + if k == 0 then 0 else 1
  {
    if k > 0 {
      StartsShift(head, tail, c, k - 1);
    }
  }

  lemma {:induction false} StartsAhead(parts: seq<string>, k: nat)
    requires k < |parts|
    ensures PartStart([""] + parts, k + 1) == PartStart(parts, k) + 1
  {
    var all := [""] + parts;
    assert PartStart(all, k + 1) == PartStart(all, k) + |all[k]| + 1;
    if k > 0 {
      StartsAhead(parts, k - 1);
      assert all[k] == parts[k - 1];
    } else {
      assert PartStart(all, 0) == 0 && all[0] == "";
    }
  }

  ghost predicate StartsPart(parts: seq<string>, n: nat) {
    exists k: nat | 0 < k < |parts| :: PartStart(parts, k) == n
  }

  /** A text is cut at exactly those line feeds that a heading mark follows. */
  lemma {:induction false} CutsExactly(s: string)
    ensures Join(CutSections(s), "\n") == s
    ensures forall i | 0 <= i < |s| ::
              StartsPart(CutSections(s), i + 1) <==> s[i] == '\n' && OpensHeading(s[i + 1..])
  {
    hide OpensHeading, StartsPart, CutSections, Join;
    CutsJoin(s);
    if s != "" {
      CutsExactly(s[1..]);
      forall i | 0 <= i < |s|
        ensures StartsPart(CutSections(s), i + 1) <==> s[i] == '\n' && OpensHeading(s[i + 1..])
      {
        if i == 0 {
          CutFirst(s);
        } else {
          CutLater(s, i);
          assert s[i] == s[1..][i - 1] && s[i + 1..] == s[1..][i..];
        }
      }
    }
  }

  lemma {:induction false} CutsJoin(s: string)
    ensures Join(CutSections(s), "\n") == s
  {
    hide OpensHeading, CutSections, Join;
    if s == "" {
      CutNothing();
    } else {
      CutsJoin(s[1..]);
      CutStep(s);
      var rest := CutSections(s[1..]);
      assert s == [s[0]] + s[1..];
      if s[0] == '\n' && OpensHeading(s[1..]) {
        JoinCons("", rest);
        assert "" + "\n" + s[1..] == s;
      } else {
        JoinLonger(s[0], rest);
      }
    }
  }

  lemma CutNothing()
    ensures Join(CutSections(""), "\n") == ""
  {
  }

  lemma JoinCons(first: string, rest: seq<string>)
    requires rest != []
    ensures Join([first] + rest, "\n") == first + "\n" + Join(rest, "\n")
  {
    assert ([first] + rest)[1..] == rest;
  }

  lemma JoinLonger(c: char, rest: seq<string>)
    requires rest != []
    ensures Join([[c] + rest[0]] + rest[1..], "\n") == [c] + Join(rest, "\n")
  {
    var parts := [[c] + rest[0]] + rest[1..];
    assert parts[1..] == rest[1..];
    if |rest| > 1 {
      assert [c] + (rest[0] + "\n" + Join(rest[1..], "\n")) == [c] + rest[0] + "\n" + Join(rest[1..], "\n");
    }
  }

  lemma {:induction false} StartsPositive(parts: seq<string>, k: nat)
    requires 0 < k < |parts|
    ensures PartStart(parts, k) >= |parts[0]| + 1
  {
    if k > 1 {
      StartsPositive(parts, k - 1);
    }
  }

  lemma CutFirst(s: string)
    requires s != ""
    ensures StartsPart(CutSections(s), 1) <==> s[0] == '\n' && OpensHeading(s[1..])
  {
    hide OpensHeading;
    var parts := CutSections(s);
    if s[0] == '\n' && OpensHeading(s[1..]) {
      assert PartStart(parts, 0) == 0 && parts[0] == "";
      assert PartStart(parts, 1) == 1;
    } else {
      assert |parts[0]| >= 1;
      forall k: nat | 0 < k < |parts| ensures PartStart(parts, k) >= 2 {
        StartsPositive(parts, k);
      }
    }
  }

  lemma CutLater(s: string, i: nat)
    requires 0 < i < |s|
    ensures StartsPart(CutSections(s), i + 1) <==> StartsPart(CutSections(s[1..]), i)
  {
    hide OpensHeading, CutSections;
    var parts, rest := CutSections(s), CutSections(s[1..]);
    CutStep(s);
    if s[0] == '\n' && OpensHeading(s[1..]) {
      forall k: nat | k < |rest| ensures PartStart(parts, k + 1) == PartStart(rest, k) + 1 {
        StartsAhead(rest, k);
      }
      assert PartStart(rest, 0) == 0;
      if k: nat :| 0 < k < |parts| && PartStart(parts, k) == i + 1 {
        assert PartStart(rest, k - 1) == i;
      }
      if k: nat :| 0 < k < |rest| && PartStart(rest, k) == i {
        assert PartStart(parts, k + 1) == i + 1;
      }
    } else {
      assert rest == [rest[0]] + rest[1..];
      forall k: nat | 0 < k < |rest| ensures PartStart(parts, k) == PartStart(rest, k) + 1 {
        StartsShift(rest[0], rest[1..], s[0], k);
      }
    }
  }

  lemma CutStep(s: string)
    requires s != ""
    ensures var rest := CutSections(s[1..]);
            CutSections(s) == if s[0] == '\n' && OpensHeading(s[1..]) then [""] + rest
                              else [[s[0]] + rest[0]] + rest[1..]
  {
    hide OpensHeading;
  }

  lemma SectionsStep(parts: seq<string>, n: nat)
    requires n < |parts|
    ensures SectionsOf(parts[n..])
         == (if Strip(parts[n]) == "" then [] else [SectionOf(Strip(parts[n]))]) + SectionsOf(parts[n + 1..])
  {
    assert parts[n..][1..] == parts[n + 1..];
  }

  lemma NoParts(parts: seq<string>)
    requires parts == []
    ensures SectionsOf(parts) == []
  {
  }

  method SplitByStructure(text: string) returns (sections: seq<Section>)
    ensures sections == Sections(text)
  {
    hide IsSpace, StripLeft, StripRight, Strip, Tight, Find, OpensHeading, HashCount, CutSections, SectionsOf;
    var parts := CutSections(Strip(text));
    sections := [];
    for n := 0 to |parts|
      invariant SectionsOf(parts) == sections + SectionsOf(parts[n..])
    {
      SectionsStep(parts, n);
      var part := Strip(parts[n]);
      if part == "" {
        continue;
      }
      ghost var before, later := sections, SectionsOf(parts[n + 1..]);
      if OpensHeading(part) {
        var rest := StripLeft(part[HashCount(part)..]);
        var e := Find(rest, "\n");
        var title, body := Strip(rest[..e]), Strip(rest[e..]);
        sections := sections + [Section(Some(title), if body != "" then body else part)];
      } else {
        sections := sections + [Section(None, part)];
      }
      assert before + ([SectionOf(part)] + later) == sections + later;
    }
    NoParts(parts[|parts|..]);
    if sections == [] {
      sections := [Section(None, Strip(text))];
    }
  }

  // ------------------------------------------------------------------ segments

  datatype Segment = Segment(isTable: bool, text: string)

  datatype Run = Run(isTable: bool, lines: seq<string>)

  /** `^\s*\|.*\|\s*$` on a single line. */
  predicate IsTableLine(line: string) {
    var t := Strip(line);
    |t| >= 2 && t[0] == '|' && t[|t| - 1] == '|'
  }

  /** A table line is what stands between two bars, white space around them aside. */
  lemma TableLineExactly(line: string)
    ensures IsTableLine(line) <==>
              exists l, inner, r :: Blank(l) && Blank(r) && line == l + ("|" + inner + "|") + r
  {
    hide Blank, Strip, Tight;
    var before, core, after := StripParts(line);
    if IsTableLine(line) {
      assert core == "|" + core[1..|core| - 1] + "|";
    }
    forall l, inner, r | Blank(l) && Blank(r) && line == l + ("|" + inner + "|") + r ensures IsTableLine(line) {
      var t := "|" + inner + "|";
      assert t[0] == '|' && t[|t| - 1] == '|';
      BarsTight(t);
      StripPadded(l, t, r);
      StripTight(t);
    }
  }

  lemma BarsTight(t: string)
    requires t != "" && t[0] == '|' && t[|t| - 1] == '|'
    ensures Tight(t)
  {
  }

  /** Put lines of one kind in front of a list of runs. */
  function Prepend(isTable: bool, lines: seq<string>, runs: seq<Run>): seq<Run> {
    if lines == [] then runs
    else if runs != [] && runs[0].isTable == isTable then
      [Run(isTable, lines + runs[0].lines)] + runs[1..]
    else [Run(isTable, lines)] + runs
  }

  /** The maximal runs of table lines and of other lines. */
  function Runs(lines: seq<string>): seq<Run> {
    if lines == [] then []
    else Prepend(IsTableLine(lines[0]), [lines[0]], Runs(lines[1..]))
  }

  function SegmentOf(run: Run): seq<Segment> {
    var body := Strip(Join(run.lines, "\n"));
    if body != "" then [Segment(run.isTable, body)] else []
  }

  function SegmentsOf(runs: seq<Run>): seq<Segment> {
    if runs == [] then [] else SegmentOf(runs[0]) + SegmentsOf(runs[1..])
  }

  function Segments(text: string): seq<Segment> {
    SegmentsOf(Runs(SplitLines(text)))
  }

  lemma PrependTwice(isTable: bool, a: seq<string>, b: seq<string>, runs: seq<Run>)
    requires b != []
    ensures Prepend(isTable, a, Prepend(isTable, b, runs)) == Prepend(isTable, a + b, runs)
  {
    if a == [] {
      assert a + b == b;
    } else if runs != [] && runs[0].isTable == isTable {
      assert a + (b + runs[0].lines) == (a + b) + runs[0].lines;
    }
  }

  lemma PrependOther(isTable: bool, a: seq<string>, b: seq<string>, runs: seq<Run>)
    requires a != [] && b != []
    ensures SegmentsOf(Prepend(isTable, a, Prepend(!isTable, b, runs)))
         == SegmentOf(Run(isTable, a)) + SegmentsOf(Prepend(!isTable, b, runs))
  {
    var rest := Prepend(!isTable, b, runs);
    assert Prepend(isTable, a, rest) == [Run(isTable, a)] + rest;
    assert ([Run(isTable, a)] + rest)[1..] == rest;
  }

  lemma RunsStep(lines: seq<string>, n: nat)
    requires n < |lines|
    ensures Runs(lines[n..]) == Prepend(IsTableLine(lines[n]), [lines[n]], Runs(lines[n + 1..]))
  {
    hide IsTableLine, Prepend;
    assert lines[n..][1..] == lines[n + 1..];
  }

  function LinesOf(runs: seq<Run>): seq<string> {
    if runs == [] then [] else runs[0].lines + LinesOf(runs[1..])
  }

  predicate OfOneKind(run: Run) {
    run.lines != [] && forall i | 0 <= i < |run.lines| :: IsTableLine(run.lines[i]) == run.isTable
  }

  /** The runs are all the lines in order, each run of one kind and as long as can be. */
  lemma {:induction false} RunsExactly(lines: seq<string>)
    ensures var runs := Runs(lines);
            && LinesOf(runs) == lines
            && (forall i | 0 <= i < |runs| :: OfOneKind(runs[i]))
            && Alternating(runs)
  {
    hide IsTableLine, OfOneKind, LinesOf, Prepend;
    if lines == [] {
      NoLinesOf();
    } else {
      RunsExactly(lines[1..]);
      assert lines == [lines[0]] + lines[1..];
      PrependLine(lines[0], Runs(lines[1..]));
    }
  }

  lemma NoLinesOf()
    ensures LinesOf([]) == []
  {
  }

  predicate Alternating(runs: seq<Run>) {
    forall i | 0 < i < |runs| :: runs[i].isTable != runs[i - 1].isTable
  }

  lemma PrependLine(line: string, rest: seq<Run>)
    requires (forall i | 0 <= i < |rest| :: OfOneKind(rest[i])) && Alternating(rest)
    ensures var runs := Prepend(IsTableLine(line), [line], rest);
            && LinesOf(runs) == [line] + LinesOf(rest)
            && (forall i | 0 <= i < |runs| :: OfOneKind(runs[i]))
            && Alternating(runs)
  {
    hide IsTableLine, LinesOf;
    PrependLines(IsTableLine(line), line, rest);
    if rest != [] && rest[0].isTable == IsTableLine(line) {
      assert OfOneKind(rest[0]);
      assert OfOneKind(Run(rest[0].isTable, [line] + rest[0].lines));
    } else {
      assert OfOneKind(Run(IsTableLine(line), [line]));
    }
  }

  lemma PrependLines(isTable: bool, line: string, rest: seq<Run>)
    ensures LinesOf(Prepend(isTable, [line], rest)) == [line] + LinesOf(rest)
  {
    if rest != [] && rest[0].isTable == isTable {
      var first := Run(isTable, [line] + rest[0].lines);
      assert [line] + (rest[0].lines + LinesOf(rest[1..])) == first.lines + LinesOf(rest[1..]);
    }
  }

  lemma NoRuns(inTable: bool, buffer: seq<string>, lines: seq<string>)
    requires lines == []
    ensures SegmentsOf(Prepend(inTable, buffer, Runs(lines)))
         == if buffer == [] then [] else SegmentOf(Run(inTable, buffer))
  {
    hide SegmentOf;
    if buffer != [] {
      assert Prepend(inTable, buffer, []) == [Run(inTable, buffer)];
    }
  }

  lemma NothingBuffered(inTable: bool, runs: seq<Run>)
    ensures Prepend(inTable, [], runs) == runs
  {
  }

  method SplitOffTables(text: string) returns (segments: seq<Segment>)
    ensures segments == Segments(text)
  {
    hide SplitLines, IsTableLine, Prepend, Runs, SegmentsOf, SegmentOf;
    segments := [];
    var buffer: seq<string> := [];
    var inTable := false;
    var lines := SplitLines(text);
    assert lines[0..] == lines;
    NothingBuffered(false, Runs(lines));
    for n := 0 to |lines|
      invariant Segments(text) == segments + SegmentsOf(Prepend(inTable, buffer, Runs(lines[n..])))
    {
      var line := lines[n];
      var isTableLine := IsTableLine(line);
      ghost var later := Runs(lines[n + 1..]);
      RunsStep(lines, n);
      if isTableLine != inTable {
        if buffer != [] {
          PrependOther(inTable, buffer, [line], later);
          segments := Flush(segments, inTable, buffer);
          buffer := [];
        }
        NothingBuffered(inTable, Runs(lines[n..]));
        NothingBuffered(isTableLine, Runs(lines[n..]));
        inTable := isTableLine;
      }
      PrependTwice(inTable, buffer, [line], later);
      buffer := buffer + [line];
    }
    NoRuns(inTable, buffer, lines[|lines|..]);
    if buffer != [] {
      segments := Flush(segments, inTable, buffer);
    }
  }

  method Flush(segments: seq<Segment>, inTable: bool, buffer: seq<string>) returns (r: seq<Segment>)
    ensures r == segments + SegmentOf(Run(inTable, buffer))
  {
    var body := Strip(Join(buffer, "\n"));
    r := if body != "" then segments + [Segment(inTable, body)] else segments;
  }

  /** The table segments of a text. */
  function TableSegments(text: string): seq<string> {
    TablesIn(Segments(text))
  }

  function TablesIn(segments: seq<Segment>): seq<string> {
    if segments == [] then []
    else (if segments[0].isTable then [segments[0].text] else []) + TablesIn(segments[1..])
  }

  // -------------------------------------------------------------------- chunks

  datatype Level = Parent | Child

  datatype Modality = Prose | Table

  datatype Chunk = Chunk(
    chunkId: string,
    text: string,
    index: nat,
    tokens: nat,
    section: Option<string>,
    parentId: Option<string>,
    level: Level,
    modality: Option<Modality>)

  /** The tokenizer, the digest behind chunk ids, and the two settings the chunker reads. */
  datatype Config = Config(
    tk: Tokenizer,
    chunkId: (nat, string) -> string,
    chunkSize: int,
    overlap: int)
  {
    function Count(s: string): nat {
      |tk.encode(s)|
    }

    function Id(index: nat, text: string): string {
      chunkId(index, Prefix(text, 120))
    }
  }

  function Prefix(s: string, n: nat): string {
    s[..Min(n, |s|)]
  }

  datatype Piece = Piece(text: string, modality: Modality)

  function PiecesOf(segment: Segment, cfg: Config): seq<Piece> {
    if segment.isTable then [Piece(segment.text, Table)]
    else Proses(TokenSplit(segment.text, cfg.tk, cfg.chunkSize, cfg.overlap))
  }

  function Proses(texts: seq<string>): (r: seq<Piece>)
    ensures |r| == |texts|
  {
    seq(|texts|, i requires 0 <= i < |texts| => Piece(texts[i], Prose))
  }

  function AllPieces(segments: seq<Segment>, cfg: Config): seq<Piece> {
    if segments == [] then [] else PiecesOf(segments[0], cfg) + AllPieces(segments[1..], cfg)
  }

  function ParentChunk(section: Section, index: nat, cfg: Config): Chunk {
    var body := section.body;
    Chunk(cfg.Id(index, Prefix(body, 200)), Prefix(body, 4000), index,
      Min(cfg.Count(body), cfg.Count(Prefix(body, 4000))), section.title, None, Parent, None)
  }

  function ChildChunk(section: Section, parent: Option<string>, piece: Piece, index: nat, cfg: Config): Chunk {
    Chunk(cfg.Id(index, piece.text), piece.text, index, cfg.Count(piece.text),
      section.title, parent, Child, Some(piece.modality))
  }

  function ChildChunks(section: Section, parent: Option<string>, pieces: seq<Piece>, start: nat, cfg: Config)
    : (chunks: seq<Chunk>)
    ensures |chunks| == |pieces|
  {
    seq(|pieces|, i requires 0 <= i < |pieces| => ChildChunk(section, parent, pieces[i], start + i, cfg))
  }

  /** A section gives a parent chunk, unless it has no tokens, and then one chunk for each piece. */
  function SectionChunks(section: Section, start: nat, cfg: Config): seq<Chunk> {
    var pieces := AllPieces(Segments(section.body), cfg);
    if cfg.Count(section.body) > 0 then
      var parent := ParentChunk(section, start, cfg);
      [parent] + ChildChunks(section, Some(parent.chunkId), pieces, start + 1, cfg)
    else ChildChunks(section, None, pieces, start, cfg)
  }

  function ChunksOf(sections: seq<Section>, start: nat, cfg: Config): seq<Chunk> {
    if sections == [] then []
    else
      var head := SectionChunks(sections[0], start, cfg);
      head + ChunksOf(sections[1..], start + |head|, cfg)
  }

  function DocumentChunks(text: string, cfg: Config): seq<Chunk> {
    ChunksOf(Sections(text), 0, cfg)
  }

  method ChildPieces(segment: Segment, cfg: Config) returns (pieces: seq<Piece>)
    ensures pieces == PiecesOf(segment, cfg)
  {
    if segment.isTable {
      pieces := [Piece(segment.text, Table)];
    } else {
      var texts := RecursiveTokenSplit(segment.text, cfg.tk, cfg.chunkSize, cfg.overlap);
      pieces := Proses(texts);
    }
  }

  lemma AllPiecesSnoc(segments: seq<Segment>, n: nat, cfg: Config)
    requires n < |segments|
    ensures AllPieces(segments[n..], cfg) == PiecesOf(segments[n], cfg) + AllPieces(segments[n + 1..], cfg)
  {
    assert segments[n..][1..] == segments[n + 1..];
  }

  lemma ChildSnoc(
    section: Section, parent: Option<string>, pieces: seq<Piece>, piece: Piece, start: nat, cfg: Config)
    ensures ChildChunks(section, parent, pieces + [piece], start, cfg)
         == ChildChunks(section, parent, pieces, start, cfg)
            + [ChildChunk(section, parent, piece, start + |pieces|, cfg)]
  {
    hide ChildChunk;
  }

  method SectionChildren(section: Section, parent: Option<string>, start: nat, cfg: Config)
    returns (chunks: seq<Chunk>)
    ensures chunks == ChildChunks(section, parent, AllPieces(Segments(section.body), cfg), start, cfg)
  {
    hide Segments, PiecesOf, ChildChunks, ChildChunk, AllPieces;
    var segments := SplitOffTables(section.body);
    chunks := [];
    ghost var done: seq<Piece> := [];
    assert segments[0..] == segments;
    NoChildren(section, parent, start, cfg);
    for m := 0 to |segments|
      invariant AllPieces(segments, cfg) == done + AllPieces(segments[m..], cfg)
      invariant chunks == ChildChunks(section, parent, done, start, cfg)
    {
      AllPiecesSnoc(segments, m, cfg);
      var pieces := ChildPieces(segments[m], cfg);
      ghost var before := done;
      for p := 0 to |pieces|
        invariant done == before + pieces[..p]
        invariant chunks == ChildChunks(section, parent, done, start, cfg)
      {
        ChildSnoc(section, parent, done, pieces[p], start, cfg);
        chunks := chunks + [ChildChunk(section, parent, pieces[p], start + |chunks|, cfg)];
        done := done + [pieces[p]];
      }
      assert pieces[..|pieces|] == pieces;
    }
    NoPieces(segments[|segments|..], cfg);
    assert done + [] == done;
  }

  lemma NoChildren(section: Section, parent: Option<string>, start: nat, cfg: Config)
    ensures ChildChunks(section, parent, [], start, cfg) == []
  {
  }

  lemma NoPieces(segments: seq<Segment>, cfg: Config)
    requires segments == []
    ensures AllPieces(segments, cfg) == []
  {
  }

  lemma ChunksStep(sections: seq<Section>, n: nat, start: nat, cfg: Config)
    requires n < |sections|
    ensures var head := SectionChunks(sections[n], start, cfg);
            ChunksOf(sections[n..], start, cfg) == head + ChunksOf(sections[n + 1..], start + |head|, cfg)
  {
    hide SectionChunks;
    assert sections[n..][1..] == sections[n + 1..];
  }

  method ChunkSection(section: Section, start: nat, cfg: Config) returns (chunks: seq<Chunk>)
    ensures chunks == SectionChunks(section, start, cfg)
  {
    hide Segments, AllPieces;
    var parent: Option<string> := None;
    chunks := [];
    if cfg.Count(section.body) > 0 {
      var parentChunk := ParentChunk(section, start, cfg);
      parent := Some(parentChunk.chunkId);
      chunks := [parentChunk];
    }
    var children := SectionChildren(section, parent, start + |chunks|, cfg);
    chunks := chunks + children;
  }

  method ChunkDocument(text: string, cfg: Config) returns (chunks: seq<Chunk>)
    ensures chunks == DocumentChunks(text, cfg)
  {
    hide Sections, SectionChunks, ChunksOf;
    var sections := SplitByStructure(text);
    chunks := [];
    var index := 0;
    assert sections[0..] == sections;
    for n := 0 to |sections|
      invariant index == |chunks|
      invariant DocumentChunks(text, cfg) == chunks + ChunksOf(sections[n..], index, cfg)
    {
      ghost var before, later := chunks, ChunksOf(sections[n + 1..], index + |SectionChunks(sections[n], index, cfg)|, cfg);
      ChunksStep(sections, n, index, cfg);
      var more := ChunkSection(sections[n], index, cfg);
      chunks := chunks + more;
      index := index + |more|;
      assert before + (more + later) == chunks + later;
    }
    NoChunks(sections[|sections|..], index, cfg);
  }

  lemma NoChunks(sections: seq<Section>, start: nat, cfg: Config)
    requires sections == []
    ensures ChunksOf(sections, start, cfg) == []
  {
  }

  // ----------------------------------------------------------- chunk properties

  /** Every chunk is numbered by its position, and its id is the digest of that number and of
      the first 120 characters of its own text. */
  predicate SelfDescribed(chunks: seq<Chunk>, start: nat, cfg: Config) {
    forall i | 0 <= i < |chunks| ::
      chunks[i].index == start + i && chunks[i].chunkId == cfg.Id(chunks[i].index, chunks[i].text)
  }

  lemma SectionSelfDescribed(section: Section, start: nat, cfg: Config)
    ensures SelfDescribed(SectionChunks(section, start, cfg), start, cfg)
  {
    hide Segments, AllPieces;
    var body := section.body;
    assert Prefix(Prefix(body, 200), 120) == Prefix(Prefix(body, 4000), 120);
  }

  lemma SelfDescribedAppend(a: seq<Chunk>, b: seq<Chunk>, start: nat, cfg: Config)
    requires SelfDescribed(a, start, cfg) && SelfDescribed(b, start + |a|, cfg)
    ensures SelfDescribed(a + b, start, cfg)
  {
  }

  lemma {:induction false} ChunksSelfDescribed(sections: seq<Section>, start: nat, cfg: Config)
    ensures SelfDescribed(ChunksOf(sections, start, cfg), start, cfg)
  {
    hide SectionChunks, SelfDescribed;
    if sections != [] {
      var head := SectionChunks(sections[0], start, cfg);
      var rest := ChunksOf(sections[1..], start + |head|, cfg);
      SectionSelfDescribed(sections[0], start, cfg);
      ChunksSelfDescribed(sections[1..], start + |head|, cfg);
      SelfDescribedAppend(head, rest, start, cfg);
    } else {
      NoneSelfDescribed(start, cfg);
    }
  }

  lemma NoneSelfDescribed(start: nat, cfg: Config)
    ensures SelfDescribed([], start, cfg)
  {
  }

  /** With a collision-free digest no two chunks of a document share an id, even when their
      texts are equal. */
  lemma ChunkIdsDistinct(text: string, cfg: Config, i: nat, j: nat)
    requires forall m: nat, n: nat, s, t :: cfg.chunkId(m, s) == cfg.chunkId(n, t) ==> m == n && s == t
    requires i < j < |DocumentChunks(text, cfg)|
    ensures DocumentChunks(text, cfg)[i].chunkId != DocumentChunks(text, cfg)[j].chunkId
  {
    hide Sections, ChunksOf, Prefix;
    ChunksSelfDescribed(Sections(text), 0, cfg);
    var cs := DocumentChunks(text, cfg);
    assert SelfDescribed(cs, 0, cfg);
    assert cs[i].index == i && cs[j].index == j;
  }

  /** Chunk j is the parent that chunk i names, and all between them are its children. */
  predicate IsParentOf(chunks: seq<Chunk>, j: nat, i: nat) {
    && j < i < |chunks|
    && chunks[j].level.Parent? && chunks[i].parentId == Some(chunks[j].chunkId)
    && chunks[j].section == chunks[i].section
    && forall m | j < m <= i :: chunks[m].level.Child? && chunks[m].parentId == chunks[i].parentId
  }

  /** A chunk says which section it is from and how long it is; a parent shows at most 4000 characters of
      its section, and a child points to the parent before it, if the section has tokens at all. */
  ghost predicate FiledUnder(chunks: seq<Chunk>, i: nat, section: Section, cfg: Config)
    requires i < |chunks|
  {
    var c, size := chunks[i], |cfg.tk.encode(section.body)|;
    && c.section == section.title
    && (c.level.Parent? ==>
          && size > 0 && c.parentId == None && c.modality == None
          && c.text == section.body[..Min(4000, |section.body|)]
          && c.tokens == Min(size, |cfg.tk.encode(c.text)|))
    && (c.level.Child? ==>
          && c.tokens == |cfg.tk.encode(c.text)| && c.modality != None
          && (c.modality == Some(Table) ==> c.text in TableSegments(section.body))
          && if size > 0 then exists j: nat :: IsParentOf(chunks, j, i) else c.parentId == None)
  }

  ghost predicate Filed(chunks: seq<Chunk>, sections: seq<Section>, cfg: Config) {
    forall i: nat | i < |chunks| :: FiledAmong(chunks, i, sections, cfg)
  }

  ghost predicate FiledAmong(chunks: seq<Chunk>, i: nat, sections: seq<Section>, cfg: Config)
    requires i < |chunks|
  {
    exists section | section in sections :: FiledUnder(chunks, i, section, cfg)
  }

  /** The texts of the chunks marked as tables. */
  function TableTexts(chunks: seq<Chunk>): seq<string> {
    if chunks == [] then []
    else (if chunks[0].modality == Some(Table) then [chunks[0].text] else []) + TableTexts(chunks[1..])
  }

  lemma SectionFiled(section: Section, start: nat, cfg: Config, i: nat)
    requires i < |SectionChunks(section, start, cfg)|
    ensures FiledUnder(SectionChunks(section, start, cfg), i, section, cfg)
  {
    hide Segments, AllPieces, TableSegments, Prefix;
    var chunks := SectionChunks(section, start, cfg);
    var pieces := AllPieces(Segments(section.body), cfg);
    PrefixIs(section.body, 4000);
    if cfg.Count(section.body) > 0 {
      if i > 0 {
        assert IsParentOf(chunks, 0, i);
        TablePieceListed(section, cfg, i - 1);
      }
    } else {
      TablePieceListed(section, cfg, i);
    }
  }

  lemma PrefixIs(s: string, n: nat)
    ensures Prefix(s, n) == s[..Min(n, |s|)]
  {
  }

  lemma TablePieceListed(section: Section, cfg: Config, i: nat)
    requires i < |AllPieces(Segments(section.body), cfg)|
    ensures var piece := AllPieces(Segments(section.body), cfg)[i];
            piece.modality == Table ==> piece.text in TableSegments(section.body)
  {
    hide Segments, AllPieces;
    var pieces := AllPieces(Segments(section.body), cfg);
    PieceTables(Segments(section.body), cfg);
    if pieces[i].modality == Table {
      TablePieceAmong(pieces, i);
    }
  }

  lemma {:induction false} TablePieceAmong(pieces: seq<Piece>, i: nat)
    requires i < |pieces| && pieces[i].modality == Table
    ensures pieces[i].text in TablePieces(pieces)
  {
    if i > 0 {
      TablePieceAmong(pieces[1..], i - 1);
    }
  }

  lemma FiledBehind(a: seq<Chunk>, b: seq<Chunk>, i: nat, section: Section, cfg: Config)
    ensures i < |a| && FiledUnder(a, i, section, cfg) ==> FiledUnder(a + b, i, section, cfg)
    ensures i < |b| && FiledUnder(b, i, section, cfg) ==> FiledUnder(a + b, |a| + i, section, cfg)
  {
    hide TableSegments;
    if i < |a| {
      if j: nat :| IsParentOf(a, j, i) {
        assert IsParentOf(a + b, j, i);
      }
    }
    if i < |b| {
      if j: nat :| IsParentOf(b, j, i) {
        ParentBehind(a, b, j, i);
      }
    }
  }

  lemma ParentBehind(a: seq<Chunk>, b: seq<Chunk>, j: nat, i: nat)
    requires IsParentOf(b, j, i)
    ensures IsParentOf(a + b, |a| + j, |a| + i)
  {
    var all := a + b;
    forall m | |a| + j < m <= |a| + i ensures all[m].level.Child? && all[m].parentId == all[|a| + i].parentId {
      assert all[m] == b[m - |a|];
    }
  }

  /** Every chunk of a document is filed under one of its sections, below the parent of that section. */
  lemma {:induction false} ChunksFiled(sections: seq<Section>, start: nat, cfg: Config)
    ensures Filed(ChunksOf(sections, start, cfg), sections, cfg)
  {
    hide SectionChunks, FiledUnder;
    if sections != [] {
      var head := SectionChunks(sections[0], start, cfg);
      var rest := ChunksOf(sections[1..], start + |head|, cfg);
      ChunksFiled(sections[1..], start + |head|, cfg);
      forall i: nat | i < |head + rest| ensures FiledAmong(head + rest, i, sections, cfg) {
        if i < |head| {
          SectionFiled(sections[0], start, cfg, i);
          FiledBehind(head, rest, i, sections[0], cfg);
        } else {
          assert FiledAmong(rest, i - |head|, sections[1..], cfg);
          var section :| section in sections[1..] && FiledUnder(rest, i - |head|, section, cfg);
          FiledBehind(head, rest, i - |head|, section, cfg);
        }
      }
    }
  }

  function SectionTables(sections: seq<Section>): seq<string> {
    if sections == [] then [] else TableSegments(sections[0].body) + SectionTables(sections[1..])
  }

  lemma {:induction false} TableTextsAppend(a: seq<Chunk>, b: seq<Chunk>)
    ensures TableTexts(a + b) == TableTexts(a) + TableTexts(b)
  {
    if a == [] {
      assert a + b == b;
    } else {
      assert (a + b)[1..] == a[1..] + b;
      TableTextsAppend(a[1..], b);
      var head := if a[0].modality == Some(Table) then [a[0].text] else [];
      assert head + (TableTexts(a[1..]) + TableTexts(b)) == (head + TableTexts(a[1..])) + TableTexts(b);
    }
  }

  function TablePieces(pieces: seq<Piece>): seq<string> {
    if pieces == [] then []
    else (if pieces[0].modality == Table then [pieces[0].text] else []) + TablePieces(pieces[1..])
  }

  lemma {:induction false} TablePiecesAppend(a: seq<Piece>, b: seq<Piece>)
    ensures TablePieces(a + b) == TablePieces(a) + TablePieces(b)
  {
    if a == [] {
      assert a + b == b;
    } else {
      assert (a + b)[1..] == a[1..] + b;
      TablePiecesAppend(a[1..], b);
      var head, x, y := if a[0].modality == Table then [a[0].text] else [], TablePieces(a[1..]), TablePieces(b);
      assert head + (x + y) == (head + x) + y;
    }
  }

  lemma {:induction false} ProsesHoldNoTable(texts: seq<string>)
    ensures TablePieces(Proses(texts)) == []
  {
    if texts != [] {
      assert Proses(texts)[1..] == Proses(texts[1..]);
      ProsesHoldNoTable(texts[1..]);
    }
  }

  lemma {:induction false} PieceTables(segments: seq<Segment>, cfg: Config)
    ensures TablePieces(AllPieces(segments, cfg)) == TablesIn(segments)
  {
    if segments != [] {
      var s := segments[0];
      TablePiecesAppend(PiecesOf(s, cfg), AllPieces(segments[1..], cfg));
      PieceTables(segments[1..], cfg);
      if !s.isTable {
        ProsesHoldNoTable(TokenSplit(s.text, cfg.tk, cfg.chunkSize, cfg.overlap));
      } else {
        assert TablePieces([Piece(s.text, Table)]) == [s.text] + TablePieces([]);
      }
    }
  }

  lemma {:induction false} ChildTables(
    section: Section, parent: Option<string>, pieces: seq<Piece>, start: nat, cfg: Config)
    ensures TableTexts(ChildChunks(section, parent, pieces, start, cfg)) == TablePieces(pieces)
  {
    var cs := ChildChunks(section, parent, pieces, start, cfg);
    if pieces != [] {
      assert cs[1..] == ChildChunks(section, parent, pieces[1..], start + 1, cfg);
      ChildTables(section, parent, pieces[1..], start + 1, cfg);
    }
  }

  /** The table chunks of a document are the table segments of its section bodies, in order. */
  lemma {:induction false} ChunkTables(sections: seq<Section>, start: nat, cfg: Config)
    ensures TableTexts(ChunksOf(sections, start, cfg)) == SectionTables(sections)
  {
    hide Segments, AllPieces, TablePieces;
    if sections != [] {
      var section := sections[0];
      var pieces := AllPieces(Segments(section.body), cfg);
      var head := SectionChunks(section, start, cfg);
      assert TableTexts(head) == TablePieces(pieces) by {
        if cfg.Count(section.body) > 0 {
          var parent := ParentChunk(section, start, cfg);
          ChildTables(section, Some(parent.chunkId), pieces, start + 1, cfg);
          assert head[1..] == ChildChunks(section, Some(parent.chunkId), pieces, start + 1, cfg);
        } else {
          ChildTables(section, None, pieces, start, cfg);
        }
      }
      PieceTables(Segments(section.body), cfg);
      TableTextsAppend(head, ChunksOf(sections[1..], start + |head|, cfg));
      ChunkTables(sections[1..], start + |head|, cfg);
    }
  }
}
