/** What becomes of the text of a document: nothing of it is lost on its way into the chunks. */
module ProseConservation {
  import opened Common
  import opened Text
  import opened TokenWindows
  import opened Hierarchical
  import PdfLayout

  // --------------------------------------------------------- text of the pieces

  lemma {:induction false} CoreStripLeft(s: string)
    ensures Core(StripLeft(s)) == Core(s)
  {
    hide IsSpace, StripLeft, Core;
    var r := StripLeft(s);
    CoreOfBlank(s[..|s| - |r|]);
    CoreAppend(s[..|s| - |r|], r);
    assert s == s[..|s| - |r|] + r;
  }

  lemma CoreStrip(s: string)
    ensures Core(Strip(s)) == Core(s)
  {
    hide IsSpace, StripLeft, StripRight, Core;
    var l := StripLeft(s);
    var r := StripRight(l);
    CoreStripLeft(s);
    CoreOfBlank(l[|r|..]);
    CoreAppend(r, l[|r|..]);
    assert l == r + l[|r|..];
  }

  lemma {:induction false} CoreJoin(parts: seq<string>, sep: string)
    requires Core(sep) == ""
    ensures Core(Join(parts, sep)) == Cores(parts)
  {
    hide Core;
    if parts == [] {
      CoreOfBlank("");
    } else if |parts| == 1 {
      assert Cores(parts) == Core(parts[0]) + Cores([]);
    } else {
      var rest := Join(parts[1..], sep);
      CoreJoin(parts[1..], sep);
      CoreAppend(parts[0] + sep, rest);
      CoreAppend(parts[0], sep);
    }
  }

  // --------------------------------------------- texts that repeat one another

  /** The texts' characters, without the first so many of each. */
  function Kept(texts: seq<string>, drops: seq<nat>): string
    requires |texts| == |drops|
  {
    if texts == [] then ""
    else
      var c := Core(texts[0]);
      c[Min(drops[0], |c|)..] + Kept(texts[1..], drops[1..])
  }

  /** What is dropped from each text is what the one before ends with, but for a cut character; `prior` is
      what precedes them. */
  predicate Repeats(prior: string, texts: seq<string>, drops: seq<nat>)
    requires |texts| == |drops|
    decreases texts
  {
    if texts == [] then true
    else
      var c := Core(texts[0]);
      drops[0] <= |c| && EndsAlike(prior, c[..drops[0]]) && Repeats(c, texts[1..], drops[1..])
  }

  predicate NoneDropped(drops: seq<nat>) {
    forall i | 0 <= i < |drops| :: drops[i] == 0
  }

  lemma {:induction false} KeptAppend(a: seq<string>, b: seq<string>, m: seq<nat>, n: seq<nat>)
    requires |a| == |m| && |b| == |n|
    ensures Kept(a + b, m + n) == Kept(a, m) + Kept(b, n)
  {
    hide Core;
    if a == [] {
      assert a + b == b && m + n == n;
    } else {
      assert (a + b)[1..] == a[1..] + b && (m + n)[1..] == m[1..] + n;
      KeptAppend(a[1..], b, m[1..], n);
    }
  }

  lemma RepeatsAnywhere(prior: string, texts: seq<string>, drops: seq<nat>)
    requires |texts| == |drops| && Repeats("", texts, drops)
    ensures Repeats(prior, texts, drops)
  {
    hide Core, EndsAlike;
    if texts != [] {
      EndsAnywhere(prior, Core(texts[0])[..drops[0]]);
    }
  }

  lemma EndsAnywhere(prior: string, part: string)
    requires EndsAlike("", part)
    ensures EndsAlike(prior, part)
  {
    var r :| 0 <= r <= 3 && BrokenAt("", part, r);
    assert BrokenAt(prior, part, r);
  }

  lemma {:induction false} RepeatsAppend(prior: string, a: seq<string>, b: seq<string>, m: seq<nat>, n: seq<nat>)
    requires |a| == |m| && |b| == |n| && Repeats(prior, a, m) && Repeats("", b, n)
    ensures Repeats(prior, a + b, m + n)
    decreases a
  {
    hide Core, EndsAlike;
    if a == [] {
      assert a + b == b && m + n == n;
      RepeatsAnywhere(prior, b, n);
    } else {
      assert (a + b)[1..] == a[1..] + b && (m + n)[1..] == m[1..] + n;
      RepeatsAppend(Core(a[0]), a[1..], b, m[1..], n);
    }
  }

  lemma {:induction false} KeptWhole(texts: seq<string>, drops: seq<nat>)
    requires |texts| == |drops| && NoneDropped(drops)
    ensures Kept(texts, drops) == Cores(texts)
  {
    hide Core;
    if texts != [] {
      KeptWhole(texts[1..], drops[1..]);
    }
  }

  // ------------------------------------------------------------- token windows

  /** One window: what it repeats of the window before, and what it adds. */
  lemma WindowCore(prev: seq<Token>, pending: seq<string>, tk: Tokenizer, overlap: int)
    requires tk.Sound()
    ensures var carried := Carried(prev, overlap);
            && Core(tk.decode(carried + Flatten(EncodeAll(pending, tk)))) == Core(tk.decode(carried)) + Cores(pending)
            && (overlap <= 0 ==> Core(tk.decode(carried)) == "")
            && (tk.Bytewise() ==> EndsAlike(Core(tk.decode(prev)), Core(tk.decode(carried))))
  {
    hide Core, Carried, EndsAlike;
    var carried := Carried(prev, overlap);
    DecodeAll(carried, pending, tk);
    if overlap <= 0 {
      NothingCarried(prev, overlap, tk);
    }
    if tk.Bytewise() {
      CarriedAtEnd(prev, overlap, tk);
    }
  }

  lemma NothingCarried(prev: seq<Token>, overlap: int, tk: Tokenizer)
    requires tk.Sound() && overlap <= 0
    ensures Core(tk.decode(Carried(prev, overlap))) == ""
  {
    hide Core;
    assert Carried(prev, overlap) == [];
    CoreOfBlank("");
  }

  lemma CarriedAtEnd(prev: seq<Token>, overlap: int, tk: Tokenizer)
    requires tk.Bytewise()
    ensures EndsAlike(Core(tk.decode(prev)), Core(tk.decode(Carried(prev, overlap))))
  {
    hide Core, EndsAlike;
    var carried := Carried(prev, overlap);
    var head := prev[..|prev| - |carried|];
    assert prev == head + carried;
    assert EndsAlike(tk.decode(head + carried), tk.decode(carried));
    CoreEndsAlike(tk.decode(prev), tk.decode(carried));
  }

  lemma CoreEndsAlike(whole: string, part: string)
    requires EndsAlike(whole, part)
    ensures EndsAlike(Core(whole), Core(part))
  {
    hide Core;
    var r :| 0 <= r <= 3 && BrokenAt(whole, part, r);
    var broken, t := part[..r], part[r..];
    var head := whole[..|whole| - |t|];
    assert part == broken + t && whole == head + t;
    CoreAppend(broken, t);
    CoreAppend(head, t);
    CoreOfBroken(broken);
    assert BrokenAt(Core(whole), Core(part), r) by {
      assert Core(part)[r..] == Core(t);
    }
  }

  lemma {:induction false} CoreOfBroken(s: string)
    requires forall i | 0 <= i < |s| :: s[i] == REPLACEMENT
    ensures Core(s) == s
  {
    if s != "" {
      CoreOfBroken(s[1..]);
      assert s == [s[0]] + s[1..];
    }
  }

  /** How much each text repeats of the window before: what the tokens carried over decode to. */
  function WindowDrops(prev: seq<Token>, windows: seq<seq<Token>>, tk: Tokenizer, overlap: int): (drops: seq<nat>)
    ensures |drops| == |Decoded(windows, tk)|
    decreases |windows|
  {
    hide Core, Strip, Carried;
    if windows == [] then []
    else
      (if Strip(tk.decode(windows[0])) != "" then [|Core(tk.decode(Carried(prev, overlap)))|] else [])
      + WindowDrops(windows[0], windows[1..], tk, overlap)
  }

  /** How much each string repeats into which a text is split. */
  function TokenDrops(text: string, tk: Tokenizer, size: int, overlap: int): (drops: seq<nat>)
    ensures |drops| == |TokenSplit(text, tk, size, overlap)|
  {
    if tk.Fits(text, size) then seq(|NonBlank([text])|, _ => 0)
    else WindowDrops([], Windows(EncodeAll(Pieces(text, tk, size), tk), size, overlap), tk, overlap)
  }

  /** The text of a window, with what follows it. */
  lemma OneWindow(
    window: seq<Token>, prior: string, repeated: string, added: string, rest: seq<string>, more: seq<nat>, tk: Tokenizer)
    requires Core(tk.decode(window)) == repeated + added && |rest| == |more|
    ensures var text := Strip(tk.decode(window));
            var texts := (if text != "" then [text] else []) + rest;
            var drops := (if text != "" then [|repeated|] else []) + more;
            && Kept(texts, drops) == added + Kept(rest, more)
            && (EndsAlike(prior, repeated) && Repeats(Core(tk.decode(window)), rest, more) ==> Repeats(prior, texts, drops))
            && (repeated == "" && NoneDropped(more) ==> NoneDropped(drops))
  {
    hide Core, Strip, EndsAlike;
    var text := Strip(tk.decode(window));
    CoreStrip(tk.decode(window));
    if text != "" {
      var drops := [|repeated|] + more;
      assert ([text] + rest)[1..] == rest && drops[1..] == more;
      assert Core(text)[..|repeated|] == repeated && Core(text)[|repeated|..] == added;
    } else {
      CoreOfBlank("");
      assert [] + rest == rest && [] + more == more;
      if Repeats("", rest, more) {
        RepeatsAnywhere(prior, rest, more);
      }
    }
  }

  lemma PendingStep(pending: seq<string>, p: string, tk: Tokenizer)
    ensures Flatten(EncodeAll(pending + [p], tk)) == Flatten(EncodeAll(pending, tk)) + tk.encode(PieceText(p))
    ensures Cores(pending + [p]) == Cores(pending) + Core(p)
    ensures Flatten(EncodeAll([p], tk)) == tk.encode(PieceText(p)) && Cores([p]) == Core(p)
  {
    hide Core, PieceText;
    var e := tk.encode(PieceText(p));
    assert EncodeAll(pending + [p], tk) == EncodeAll(pending, tk) + [e];
    FlattenAppend(EncodeAll(pending, tk), [e]);
    assert Flatten([e]) == e + Flatten<Token>([]) == e;
    assert EncodeAll([p], tk) == [e];
    CoresAppend(pending, [p]);
    assert Cores([p]) == Core(p) + Cores([]);
  }

  /** The windows that follow a window `prev`, when `pending` has been added since. */
  function WindowsAfter(
    prev: seq<Token>, pending: seq<string>, pieces: seq<string>, tk: Tokenizer, size: int, overlap: int): seq<seq<Token>>
  {
    WindowsFrom(Carried(prev, overlap) + Flatten(EncodeAll(pending, tk)), EncodeAll(pieces, tk), size, overlap)
  }

  /** The texts of some windows hold a whole, without what they repeat of the window before. */
  ghost predicate Conserved(prev: seq<Token>, windows: seq<seq<Token>>, whole: string, tk: Tokenizer, overlap: int) {
    var texts, drops := Decoded(windows, tk), WindowDrops(prev, windows, tk, overlap);
    && Kept(texts, drops) == whole
    && (tk.Bytewise() ==> Repeats(Core(tk.decode(prev)), texts, drops))
    && (overlap <= 0 ==> NoneDropped(drops))
  }

  lemma NothingConserved(prev: seq<Token>, tk: Tokenizer, overlap: int)
    ensures Conserved(prev, [], "", tk, overlap)
  {
  }

  /** A window ahead of others. */
  lemma WindowAhead(
    prev: seq<Token>, pending: seq<string>, rest: seq<seq<Token>>, added: string, tk: Tokenizer, overlap: int)
    requires tk.Sound()
    requires Conserved(Carried(prev, overlap) + Flatten(EncodeAll(pending, tk)), rest, added, tk, overlap)
    ensures var window := Carried(prev, overlap) + Flatten(EncodeAll(pending, tk));
            Conserved(prev, [window] + rest, Cores(pending) + added, tk, overlap)
  {
    hide Core, Strip, Carried, Kept, Repeats, EndsAlike, Flatten, EncodeAll, Decoded, WindowDrops, Cores;
    var carried := Carried(prev, overlap);
    var window := carried + Flatten(EncodeAll(pending, tk));
    WindowCore(prev, pending, tk, overlap);
    FirstWindow(prev, window, rest, tk, overlap);
    OneWindow(window, Core(tk.decode(prev)), Core(tk.decode(carried)), Cores(pending), Decoded(rest, tk),
      WindowDrops(window, rest, tk, overlap), tk);
  }

  lemma FirstWindow(prev: seq<Token>, window: seq<Token>, ws: seq<seq<Token>>, tk: Tokenizer, overlap: int)
    ensures var text := Strip(tk.decode(window));
            && Decoded([window] + ws, tk) == (if text != "" then [text] else []) + Decoded(ws, tk)
            && WindowDrops(prev, [window] + ws, tk, overlap)
               == (if text != "" then [|Core(tk.decode(Carried(prev, overlap)))|] else [])
                  + WindowDrops(window, ws, tk, overlap)
  {
    hide Strip, Core, Carried;
    assert ([window] + ws)[1..] == ws;
  }

  lemma NoPieceLeft(prev: seq<Token>, pending: seq<string>, tk: Tokenizer, size: int, overlap: int)
    requires tk.Sound()
    ensures Conserved(prev, WindowsAfter(prev, pending, [], tk, size, overlap), Cores(pending), tk, overlap)
  {
    hide Core, Cores, Carried, Conserved, Flatten;
    var carried := Carried(prev, overlap);
    var buffer := carried + Flatten(EncodeAll(pending, tk));
    if buffer == [] {
      NothingPending(carried, pending, tk);
      NothingConserved(prev, tk, overlap);
    } else {
      NothingConserved(buffer, tk, overlap);
      WindowAhead(prev, pending, [], "", tk, overlap);
      assert Cores(pending) + "" == Cores(pending) && [buffer] + [] == [buffer];
    }
  }

  /** How the windows go on with the next piece. */
  lemma WindowsStep(
    prev: seq<Token>, pending: seq<string>, pieces: seq<string>, tk: Tokenizer, size: int, overlap: int)
    requires pieces != []
    ensures var buffer := Carried(prev, overlap) + Flatten(EncodeAll(pending, tk));
            WindowsAfter(prev, pending, pieces, tk, size, overlap) ==
              if |buffer| + |tk.encode(PieceText(pieces[0]))| > size && buffer != [] then
                [buffer] + WindowsAfter(buffer, [pieces[0]], pieces[1..], tk, size, overlap)
              else WindowsAfter(prev, pending + [pieces[0]], pieces[1..], tk, size, overlap)
  {
    hide Core, Cores, Carried, PieceText, Flatten, EncodeAll;
    var carried, e := Carried(prev, overlap), tk.encode(PieceText(pieces[0]));
    var buffer := carried + Flatten(EncodeAll(pending, tk));
    PendingStep(pending, pieces[0], tk);
    EncodeFirst(pieces, tk);
    assert carried + (Flatten(EncodeAll(pending, tk)) + e) == buffer + e;
  }

  lemma EncodeFirst(pieces: seq<string>, tk: Tokenizer)
    requires pieces != []
    ensures EncodeAll(pieces, tk) != [] && EncodeAll(pieces, tk)[0] == tk.encode(PieceText(pieces[0]))
    ensures EncodeAll(pieces, tk)[1..] == EncodeAll(pieces[1..], tk)
  {
    hide PieceText;
  }

  lemma {:induction false} WindowTexts(
    prev: seq<Token>, pending: seq<string>, pieces: seq<string>, tk: Tokenizer, size: int, overlap: int)
    requires tk.Sound()
    ensures Conserved(prev, WindowsAfter(prev, pending, pieces, tk, size, overlap), Cores(pending) + Cores(pieces),
              tk, overlap)
    decreases |pieces|
  {
    hide Core, Cores, Carried, PieceText, WindowsAfter, Conserved, EncodeAll, Flatten;
    if pieces == [] {
      NoPieceLeft(prev, pending, tk, size, overlap);
      NoCores(pending);
    } else {
      var buffer := Carried(prev, overlap) + Flatten(EncodeAll(pending, tk));
      var p, rest := pieces[0], pieces[1..];
      WindowsStep(prev, pending, pieces, tk, size, overlap);
      CoresFirst(pending, pieces);
      if |buffer| + |tk.encode(PieceText(p))| > size && buffer != [] {
        WindowTexts(buffer, [p], rest, tk, size, overlap);
        WindowAhead(prev, pending, WindowsAfter(buffer, [p], rest, tk, size, overlap), Cores([p]) + Cores(rest), tk,
          overlap);
      } else {
        WindowTexts(prev, pending + [p], rest, tk, size, overlap);
      }
    }
  }

  lemma NoCores(pending: seq<string>)
    ensures Cores(pending) + Cores([]) == Cores(pending)
  {
  }

  lemma CoresFirst(pending: seq<string>, pieces: seq<string>)
    requires pieces != []
    ensures Cores(pending) + Cores(pieces) == Cores(pending) + (Cores([pieces[0]]) + Cores(pieces[1..]))
    ensures Cores(pending + [pieces[0]]) + Cores(pieces[1..]) == Cores(pending) + Cores(pieces)
  {
    hide Core;
    var x, y, z := Cores(pending), Core(pieces[0]), Cores(pieces[1..]);
    assert Cores([pieces[0]]) == y + Cores([]);
    CoresAppend(pending, [pieces[0]]);
    assert x + y + z == x + (y + z);
  }

  lemma RepeatsNothing(prior: string)
    ensures Kept([], []) == "" && Repeats(prior, [], []) && NoneDropped([])
  {
  }

  lemma NothingPending(carried: seq<Token>, pending: seq<string>, tk: Tokenizer)
    requires tk.Sound() && carried + Flatten(EncodeAll(pending, tk)) == []
    ensures Cores(pending) == ""
  {
    hide Core;
    DecodeAll([], pending, tk);
    assert [] + Flatten(EncodeAll(pending, tk)) == [];
    CoreOfBlank("");
  }

  /** The strings into which a text is split hold exactly its characters, white space and the separators'
      punctuation aside, once each drops what the tokens carried over into it decode to; that is what the
      one before ends with, and with no overlap it is nothing. */
  lemma SplitKeepsText(text: string, tk: Tokenizer, size: int, overlap: int)
    requires tk.Sound()
    ensures var texts, drops := TokenSplit(text, tk, size, overlap), TokenDrops(text, tk, size, overlap);
            && Kept(texts, drops) == Core(text)
            && (tk.Bytewise() ==> Repeats("", texts, drops))
            && (overlap <= 0 ==> NoneDropped(drops))
  {
    hide Core, Strip, Kept, Repeats, Pieces, WindowsFrom, Decoded, WindowDrops;
    if tk.Fits(text, size) {
      FittingText(text);
    } else {
      var pieces := Pieces(text, tk, size);
      PiecesCorrect(text, tk, size);
      WindowTexts([], [], pieces, tk, size, overlap);
      assert Carried([], overlap) + Flatten(EncodeAll([], tk)) == [];
      CoreOfBlank("");
    }
  }

  lemma FittingText(text: string)
    ensures var texts := NonBlank([text]);
            var drops := seq(|texts|, _ => 0);
            Kept(texts, drops) == Core(text) && Repeats("", texts, drops) && NoneDropped(drops)
  {
    hide Core, Strip;
    assert NonBlank([text]) == (if Strip(text) != "" then [text] else []) + NonBlank([]);
    CoreStrip(text);
    CoreOfBlank("");
    if Strip(text) != "" {
      assert NonBlank([text]) == [text] && seq(1, _ => 0) == [0];
      OneText(text);
    } else {
      RepeatsNothing("");
    }
  }

  lemma OneText(text: string)
    ensures Kept([text], [0]) == Core(text) && Repeats("", [text], [0]) && NoneDropped([0])
  {
    hide Core;
    assert [text][1..] == [] && [0][1..] == [];
    assert Kept([text], [0]) == Core(text)[0..] + Kept([], []);
    assert Repeats(Core(text), [], []);
    assert BrokenAt("", Core(text)[..0], 0);
  }

  // ---------------------------------------------------------------- segments

  function SegmentTexts(segments: seq<Segment>): (r: seq<string>)
    ensures |r| == |segments|
  {
    seq(|segments|, i requires 0 <= i < |segments| => segments[i].text)
  }

  function RunCores(runs: seq<Run>): string {
    if runs == [] then "" else Cores(runs[0].lines) + RunCores(runs[1..])
  }

  lemma PrependCores(isTable: bool, lines: seq<string>, runs: seq<Run>)
    ensures RunCores(Prepend(isTable, lines, runs)) == Cores(lines) + RunCores(runs)
  {
    hide Core;
    if lines != [] && runs != [] && runs[0].isTable == isTable {
      CoresAppend(lines, runs[0].lines);
      var all := [Run(isTable, lines + runs[0].lines)] + runs[1..];
      assert all[1..] == runs[1..];
    } else if lines != [] {
      assert ([Run(isTable, lines)] + runs)[1..] == runs;
    }
  }

  lemma {:induction false} RunsKeepLines(lines: seq<string>)
    ensures RunCores(Runs(lines)) == Cores(lines)
  {
    hide Core, IsTableLine, Prepend;
    if lines != [] {
      RunsKeepLines(lines[1..]);
      PrependCores(IsTableLine(lines[0]), [lines[0]], Runs(lines[1..]));
      CoresCons(lines[0], []);
      assert [lines[0]] + [] == [lines[0]];
    }
  }

  lemma SegmentKeepsRun(run: Run)
    ensures Cores(SegmentTexts(SegmentOf(run))) == Cores(run.lines)
  {
    hide Core, Strip;
    var body := Strip(Join(run.lines, "\n"));
    FeedCore();
    CoreJoin(run.lines, "\n");
    CoreStrip(Join(run.lines, "\n"));
    if body != "" {
      assert SegmentTexts([Segment(run.isTable, body)]) == [body];
      assert Cores([body]) == Core(body) + Cores([]);
    } else {
      CoreOfBlank("");
    }
  }

  lemma FeedCore()
    ensures Core("\n") == "" && Core("\n\n") == ""
  {
    assert "\n\n"[1..] == "\n";
  }

  lemma SegmentTextsAppend(a: seq<Segment>, b: seq<Segment>)
    ensures Cores(SegmentTexts(a + b)) == Cores(SegmentTexts(a)) + Cores(SegmentTexts(b))
  {
    assert SegmentTexts(a + b) == SegmentTexts(a) + SegmentTexts(b);
    CoresAppend(SegmentTexts(a), SegmentTexts(b));
  }

  lemma {:induction false} SegmentsOfKeep(runs: seq<Run>)
    ensures Cores(SegmentTexts(SegmentsOf(runs))) == RunCores(runs)
  {
    hide Core, SegmentOf;
    if runs != [] {
      SegmentsOfKeep(runs[1..]);
      SegmentKeepsRun(runs[0]);
      SegmentTextsAppend(SegmentOf(runs[0]), SegmentsOf(runs[1..]));
    }
  }

  lemma FirstLine(s: string) returns (line: string, gap: string, rest: string)
    requires s != ""
    ensures s == line + gap + rest && Core(gap) == "" && |rest| < |s|
    ensures SplitLines(s) == [line] + SplitLines(rest)
  {
    hide Core, IsSpace, IsLineBreak, LineEnd;
    var n := LineEnd(s);
    if n == |s| {
      line, gap, rest := s, "", "";
      CoreOfBlank("");
      assert s[..n] == s;
      assert SplitLines(s) == [s] + SplitLines("");
    } else {
      var skip := if s[n] == '\r' && n + 1 < |s| && s[n + 1] == '\n' then 2 else 1;
      line, gap, rest := s[..n], s[n..n + skip], s[n + skip..];
      BreakCore(gap);
    }
  }

  lemma {:induction false} LinesKeepText(s: string)
    ensures Cores(SplitLines(s)) == Core(s)
    decreases |s|
  {
    hide Core, SplitLines;
    if s == "" {
      NoLines();
    } else {
      var line, gap, rest := FirstLine(s);
      LinesKeepText(rest);
      CoresCons(line, SplitLines(rest));
      CutOut(line, gap, rest);
    }
  }

  lemma NoLines()
    ensures Cores(SplitLines("")) == Core("")
  {
  }

  lemma BreakCore(b: string)
    requires (|b| == 1 && IsLineBreak(b[0])) || b == "\r\n"
    ensures Core(b) == ""
  {
    if |b| == 1 {
      assert b[1..] == "";
    } else {
      assert b[1..] == "\n";
    }
  }

  /** The segments of a text hold all of its characters, in order. */
  lemma SegmentsKeepText(text: string)
    ensures Cores(SegmentTexts(Segments(text))) == Core(text)
  {
    hide Core, SplitLines, Runs, SegmentsOf;
    LinesKeepText(text);
    RunsKeepLines(SplitLines(text));
    SegmentsOfKeep(Runs(SplitLines(text)));
  }

  // ------------------------------------------------------------------ sections

  function PieceTexts(pieces: seq<Piece>): (r: seq<string>)
    ensures |r| == |pieces|
  {
    seq(|pieces|, i requires 0 <= i < |pieces| => pieces[i].text)
  }

  /** The texts of the child chunks of a section. */
  function TextsOf(section: Section, cfg: Config): seq<string> {
    PieceTexts(AllPieces(Segments(section.body), cfg))
  }

  /** How much each piece of a segment repeats of the one before; a table is one piece, and repeats none. */
  function PieceDrops(segment: Segment, cfg: Config): (drops: seq<nat>)
    ensures |drops| == |PiecesOf(segment, cfg)|
  {
    if segment.isTable then [0] else TokenDrops(segment.text, cfg.tk, cfg.chunkSize, cfg.overlap)
  }

  function AllDrops(segments: seq<Segment>, cfg: Config): (drops: seq<nat>)
    ensures |drops| == |AllPieces(segments, cfg)|
  {
    if segments == [] then [] else PieceDrops(segments[0], cfg) + AllDrops(segments[1..], cfg)
  }

  /** How much the texts of the child chunks of a section repeat. */
  function DropsOf(section: Section, cfg: Config): (drops: seq<nat>)
    ensures |drops| == |TextsOf(section, cfg)|
  {
    AllDrops(Segments(section.body), cfg)
  }

  lemma SegmentPieces(segment: Segment, cfg: Config)
    requires cfg.tk.Sound()
    ensures var texts, drops := PieceTexts(PiecesOf(segment, cfg)), PieceDrops(segment, cfg);
            && Kept(texts, drops) == Core(segment.text)
            && (cfg.tk.Bytewise() ==> Repeats("", texts, drops))
            && (cfg.overlap <= 0 ==> NoneDropped(drops))
  {
    hide Core, Kept, Repeats, TokenSplit, TokenDrops;
    if segment.isTable {
      OneText(segment.text);
      assert PieceTexts([Piece(segment.text, Table)]) == [segment.text];
    } else {
      SplitKeepsText(segment.text, cfg.tk, cfg.chunkSize, cfg.overlap);
      var texts := TokenSplit(segment.text, cfg.tk, cfg.chunkSize, cfg.overlap);
      assert PieceTexts(Proses(texts)) == texts;
    }
  }

  lemma {:induction false} SegmentsPieces(segments: seq<Segment>, cfg: Config)
    requires cfg.tk.Sound()
    ensures var texts, drops := PieceTexts(AllPieces(segments, cfg)), AllDrops(segments, cfg);
            && Kept(texts, drops) == Cores(SegmentTexts(segments))
            && (cfg.tk.Bytewise() ==> Repeats("", texts, drops))
            && (cfg.overlap <= 0 ==> NoneDropped(drops))
  {
    hide Core, Kept, Repeats, PiecesOf, PieceDrops;
    if segments == [] {
      RepeatsNothing("");
    } else {
      SegmentPieces(segments[0], cfg);
      SegmentsPieces(segments[1..], cfg);
      var a, b := PieceTexts(PiecesOf(segments[0], cfg)), PieceTexts(AllPieces(segments[1..], cfg));
      var first, rest := PieceDrops(segments[0], cfg), AllDrops(segments[1..], cfg);
      assert PieceTexts(AllPieces(segments, cfg)) == a + b;
      assert SegmentTexts(segments)[1..] == SegmentTexts(segments[1..]);
      KeptAppend(a, b, first, rest);
      if cfg.tk.Bytewise() {
        RepeatsAppend("", a, b, first, rest);
      }
    }
  }

  /** Nothing of the body of a section is lost in its chunks. */
  lemma SectionKeepsText(section: Section, cfg: Config)
    requires cfg.tk.Sound()
    ensures var texts, drops := TextsOf(section, cfg), DropsOf(section, cfg);
            && Kept(texts, drops) == Core(section.body)
            && (cfg.tk.Bytewise() ==> Repeats("", texts, drops))
            && (cfg.overlap <= 0 ==> NoneDropped(drops))
  {
    hide Core, Kept, Repeats, Segments, AllPieces, AllDrops;
    SegmentsPieces(Segments(section.body), cfg);
    SegmentsKeepText(section.body);
  }

  // ------------------------------------------------------------------ headings

  /** What a section leaves out of its body: the marks and the title of its heading, unless they are all
      there is. */
  function Header(part: string): string
    requires Tight(part)
  {
    if OpensHeading(part) && SectionOf(part).body != part then
      part[..HashCount(part)] + Core(SectionOf(part).title.value)
    else ""
  }

  /** Hash marks and a title, or nothing. */
  predicate IsHeader(h: string, section: Section) {
    || h == ""
    || (section.title.Some? && exists n :: 1 <= n <= 6 && h == PdfLayout.Repeat('#', n) + Core(section.title.value))
  }

  lemma {:induction false} CoreOfMarks(s: string)
    requires forall i | 0 <= i < |s| :: s[i] == '#'
    ensures Core(s) == s
  {
    if s != "" {
      CoreOfMarks(s[1..]);
      assert s == [s[0]] + s[1..];
    }
  }

  lemma HeadingLine(rest: string)
    ensures var e := Find(rest, "\n"); Core(rest) == Core(Strip(rest[..e])) + Core(Strip(rest[e..]))
  {
    hide Core, Strip, Find;
    var e := Find(rest, "\n");
    assert rest == rest[..e] + rest[e..];
    CoreAppend(rest[..e], rest[e..]);
    CoreStrip(rest[..e]);
    CoreStrip(rest[e..]);
  }

  /** A heading: marks, white space, a line, and the rest. */
  lemma HeadingCore(part: string)
    requires Tight(part) && OpensHeading(part)
    ensures var rest := StripLeft(part[HashCount(part)..]);
            var e := Find(rest, "\n");
            Core(part) == part[..HashCount(part)] + (Core(Strip(rest[..e])) + Core(Strip(rest[e..])))
  {
    hide Core, Strip, StripLeft, Find, Tight, IsSpace, OpensHeading;
    var n := HashCount(part);
    assert part == part[..n] + part[n..];
    CoreAppend(part[..n], part[n..]);
    CoreOfMarks(part[..n]);
    CoreStripLeft(part[n..]);
    HeadingLine(StripLeft(part[n..]));
  }

  lemma PartCore(part: string)
    requires Tight(part)
    ensures Core(part) == Header(part) + Core(SectionOf(part).body) && IsHeader(Header(part), SectionOf(part))
  {
    hide Core, Strip, StripLeft, Find, Tight, IsSpace, OpensHeading, SectionOf, HashCount;
    if OpensHeading(part) {
      HeadingCore(part);
      WholeOrRest(part);
      MarksOnly(part);
    } else {
      Untitled(part);
    }
  }

  lemma Untitled(part: string)
    requires Tight(part) && !OpensHeading(part)
    ensures SectionOf(part).body == part
  {
  }

  lemma MarksOnly(part: string)
    requires OpensHeading(part)
    ensures 1 <= HashCount(part) <= 6 && part[..HashCount(part)] == PdfLayout.Repeat('#', HashCount(part))
  {
  }

  /** A heading with nothing below keeps its whole part as its body; otherwise the body is what is below,
      which is shorter. */
  lemma WholeOrRest(part: string)
    requires Tight(part) && OpensHeading(part)
    ensures var rest := StripLeft(part[HashCount(part)..]);
            var below := Strip(rest[Find(rest, "\n")..]);
            && SectionOf(part).title == Some(Strip(rest[..Find(rest, "\n")]))
            && SectionOf(part).body == (if below != "" then below else part) && (below != "" ==> below != part)
  {
    hide IsSpace, Find, Tight;
    var rest := StripLeft(part[HashCount(part)..]);
    ShorterStrip(rest[Find(rest, "\n")..]);
  }

  lemma ShorterStrip(s: string)
    ensures |Strip(s)| <= |s|
  {
    hide IsSpace;
  }

  function Headers(parts: seq<string>): (r: seq<string>)
    ensures |r| == |SectionsOf(parts)|
  {
    if parts == [] then []
    else (if Strip(parts[0]) == "" then [] else [Header(Strip(parts[0]))]) + Headers(parts[1..])
  }

  function SectionHeaders(text: string): seq<string> {
    var headers := Headers(CutSections(Strip(text)));
    if headers != [] then headers else [""]
  }

  function Bodies(sections: seq<Section>): (r: seq<string>)
    ensures |r| == |sections|
  {
    seq(|sections|, i requires 0 <= i < |sections| => Core(sections[i].body))
  }

  /** Headers and bodies in turn. */
  function Woven(headers: seq<string>, bodies: seq<string>): string
    requires |headers| == |bodies|
  {
    if headers == [] then "" else headers[0] + bodies[0] + Woven(headers[1..], bodies[1..])
  }

  predicate AreHeaders(headers: seq<string>, sections: seq<Section>) {
    |headers| == |sections| && forall i | 0 <= i < |headers| :: IsHeader(headers[i], sections[i])
  }

  lemma WovenCons(header: string, section: Section, headers: seq<string>, sections: seq<Section>)
    requires AreHeaders(headers, sections) && IsHeader(header, section)
    ensures AreHeaders([header] + headers, [section] + sections)
    ensures Woven([header] + headers, Bodies([section] + sections))
         == header + Core(section.body) + Woven(headers, Bodies(sections))
  {
    hide Core, IsHeader;
    assert ([header] + headers)[1..] == headers;
    assert Bodies([section] + sections)[1..] == Bodies(sections);
  }

  lemma {:induction false} PartsKeepText(parts: seq<string>)
    ensures AreHeaders(Headers(parts), SectionsOf(parts))
    ensures Woven(Headers(parts), Bodies(SectionsOf(parts))) == Cores(parts)
  {
    hide Core, Strip, Header, SectionOf, IsHeader, Woven;
    if parts == [] {
      NothingWoven();
    } else {
      var part := Strip(parts[0]);
      PartsKeepText(parts[1..]);
      CoreStrip(parts[0]);
      if part == "" {
        CoreOfBlank("");
        assert [] + Headers(parts[1..]) == Headers(parts[1..]);
        assert [] + SectionsOf(parts[1..]) == SectionsOf(parts[1..]);
      } else {
        PartCore(part);
        WovenCons(Header(part), SectionOf(part), Headers(parts[1..]), SectionsOf(parts[1..]));
      }
    }
  }

  lemma NothingWoven()
    ensures Woven([], []) == "" && Woven([""], [""]) == ""
  {
    assert [""][1..] == [];
  }

  lemma {:induction false} CutsKeepText(s: string)
    ensures Cores(CutSections(s)) == Core(s)
  {
    hide IsSpace, OpensHeading, Core;
    if s == "" {
      assert Cores([""]) == Core("") + Cores([]);
    } else {
      var rest := CutSections(s[1..]);
      CutsKeepText(s[1..]);
      assert s == [s[0]] + s[1..];
      CoreAppend([s[0]], s[1..]);
      if s[0] == '\n' && OpensHeading(s[1..]) {
        FeedCore();
        CoreOfBlank("");
        CoresCons("", rest);
      } else {
        CoreAppend([s[0]], rest[0]);
        CoresCons([s[0]] + rest[0], rest[1..]);
      }
    }
  }

  /** Headers and section bodies hold all the characters of a text, in order. */
  lemma SectionsKeepText(text: string)
    ensures AreHeaders(SectionHeaders(text), Sections(text))
    ensures Woven(SectionHeaders(text), Bodies(Sections(text))) == Core(text)
  {
    hide Core, Strip, CutSections, Headers, SectionsOf, Woven, Tight;
    var parts := CutSections(Strip(text));
    CutsKeepText(Strip(text));
    CoreStrip(text);
    PartsKeepText(parts);
    if SectionsOf(parts) == [] {
      assert Headers(parts) == [];
      NothingWoven();
      assert Bodies(SectionsOf(parts)) == [];
      assert Bodies(Sections(text)) == [Core(Strip(text))] == [""];
    }
  }

  // ------------------------------------------------------------------- chunks

  /** The texts of the child chunks. */
  function ChildTexts(chunks: seq<Chunk>): seq<string> {
    if chunks == [] then []
    else (if chunks[0].level.Child? then [chunks[0].text] else []) + ChildTexts(chunks[1..])
  }

  lemma {:induction false} ChildTextsAppend(a: seq<Chunk>, b: seq<Chunk>)
    ensures ChildTexts(a + b) == ChildTexts(a) + ChildTexts(b)
  {
    if a == [] {
      assert a + b == b;
    } else {
      assert (a + b)[1..] == a[1..] + b;
      ChildTextsAppend(a[1..], b);
      var head := if a[0].level.Child? then [a[0].text] else [];
      assert head + (ChildTexts(a[1..]) + ChildTexts(b)) == (head + ChildTexts(a[1..])) + ChildTexts(b);
    }
  }

  lemma {:induction false} ChildrenTexts(
    section: Section, parent: Option<string>, pieces: seq<Piece>, start: nat, cfg: Config)
    ensures ChildTexts(ChildChunks(section, parent, pieces, start, cfg)) == PieceTexts(pieces)
  {
    var cs := ChildChunks(section, parent, pieces, start, cfg);
    if pieces != [] {
      assert cs[1..] == ChildChunks(section, parent, pieces[1..], start + 1, cfg);
      ChildrenTexts(section, parent, pieces[1..], start + 1, cfg);
      assert PieceTexts(pieces) == [pieces[0].text] + PieceTexts(pieces[1..]);
    }
  }

  lemma SectionChildTexts(section: Section, start: nat, cfg: Config)
    ensures ChildTexts(SectionChunks(section, start, cfg)) == TextsOf(section, cfg)
  {
    hide Segments, AllPieces, ChildChunks;
    var pieces := AllPieces(Segments(section.body), cfg);
    if cfg.Count(section.body) > 0 {
      var parent := ParentChunk(section, start, cfg);
      var children := ChildChunks(section, Some(parent.chunkId), pieces, start + 1, cfg);
      ChildrenTexts(section, Some(parent.chunkId), pieces, start + 1, cfg);
      assert ([parent] + children)[1..] == children;
      assert [] + ChildTexts(children) == ChildTexts(children);
    } else {
      ChildrenTexts(section, None, pieces, start, cfg);
    }
  }

  function TextsBySection(sections: seq<Section>, cfg: Config): (r: seq<seq<string>>)
    ensures |r| == |sections|
  {
    seq(|sections|, i requires 0 <= i < |sections| => TextsOf(sections[i], cfg))
  }

  lemma {:induction false} ChunkTexts(sections: seq<Section>, start: nat, cfg: Config)
    ensures ChildTexts(ChunksOf(sections, start, cfg)) == Flatten(TextsBySection(sections, cfg))
  {
    hide SectionChunks, TextsOf;
    if sections != [] {
      var head := SectionChunks(sections[0], start, cfg);
      SectionChildTexts(sections[0], start, cfg);
      ChunkTexts(sections[1..], start + |head|, cfg);
      ChildTextsAppend(head, ChunksOf(sections[1..], start + |head|, cfg));
      assert TextsBySection(sections, cfg)[1..] == TextsBySection(sections[1..], cfg);
    }
  }

  /** What the chunks of each section keep. */
  function AllKept(sections: seq<Section>, cfg: Config): (r: seq<string>)
    ensures |r| == |sections|
  {
    seq(|sections|, i requires 0 <= i < |sections| => Kept(TextsOf(sections[i], cfg), DropsOf(sections[i], cfg)))
  }

  /** What the chunks of each section drop is what the chunk before ends with. */
  predicate AllRepeat(sections: seq<Section>, cfg: Config) {
    forall i | 0 <= i < |sections| :: Repeats("", TextsOf(sections[i], cfg), DropsOf(sections[i], cfg))
  }

  lemma BodiesKept(sections: seq<Section>, cfg: Config)
    requires cfg.tk.Sound()
    ensures AllKept(sections, cfg) == Bodies(sections)
    ensures cfg.tk.Bytewise() ==> AllRepeat(sections, cfg)
    ensures cfg.overlap <= 0 ==> forall i | 0 <= i < |sections| :: NoneDropped(DropsOf(sections[i], cfg))
  {
    hide Core, Kept, Repeats, TextsOf, DropsOf, NoneDropped;
    forall i | 0 <= i < |sections|
      ensures Kept(TextsOf(sections[i], cfg), DropsOf(sections[i], cfg)) == Core(sections[i].body)
      ensures cfg.tk.Bytewise() ==> Repeats("", TextsOf(sections[i], cfg), DropsOf(sections[i], cfg))
      ensures cfg.overlap <= 0 ==> NoneDropped(DropsOf(sections[i], cfg))
    {
      SectionKeepsText(sections[i], cfg);
    }
  }

  /** Nothing of a document is lost in its chunks. Headers apart, its characters are exactly those of the
      texts of the child chunks, in order, once each text drops what it repeats of the one before. */
  lemma DocumentKeepsText(text: string, cfg: Config)
    requires cfg.tk.Sound()
    ensures ChildTexts(DocumentChunks(text, cfg)) == Flatten(TextsBySection(Sections(text), cfg))
    ensures AreHeaders(SectionHeaders(text), Sections(text))
    ensures Woven(SectionHeaders(text), AllKept(Sections(text), cfg)) == Core(text)
    ensures cfg.tk.Bytewise() ==> AllRepeat(Sections(text), cfg)
  {
    hide Core, Sections, SectionHeaders, ChunksOf, ChildTexts, Woven, Flatten, AllKept, Bodies, AllRepeat, TextsBySection;
    BodiesKept(Sections(text), cfg);
    SectionsKeepText(text);
    ChunkTexts(Sections(text), 0, cfg);
  }

  lemma SameLengths(text: string)
    ensures |SectionHeaders(text)| == |Sections(text)|
  {
    SectionsKeepText(text);
  }

  function AllCores(texts: seq<seq<string>>): (r: seq<string>)
    ensures |r| == |texts|
  {
    seq(|texts|, i requires 0 <= i < |texts| => Cores(texts[i]))
  }

  /** Without overlap nothing has to be dropped: headers and chunk texts hold each character once. */
  lemma ChunksKeepText(text: string, cfg: Config)
    requires cfg.tk.Sound() && cfg.overlap <= 0
    ensures var texts := TextsBySection(Sections(text), cfg);
            && |SectionHeaders(text)| == |texts|
            && Woven(SectionHeaders(text), AllCores(texts)) == Core(text)
  {
    hide Core, TextsOf, DropsOf, Sections, SectionHeaders, Woven, Kept, Cores;
    var sections := Sections(text);
    DocumentKeepsText(text, cfg);
    BodiesKept(sections, cfg);
    SameLengths(text);
    forall i | 0 <= i < |sections| ensures Kept(TextsOf(sections[i], cfg), DropsOf(sections[i], cfg)) == Cores(TextsOf(sections[i], cfg)) {
      KeptWhole(TextsOf(sections[i], cfg), DropsOf(sections[i], cfg));
    }
    assert AllKept(sections, cfg) == AllCores(TextsBySection(sections, cfg));
  }

  /** And nothing of the parsed blocks is lost in the document. */
  lemma MarkdownKeepsText(blocks: seq<PdfLayout.Block>)
    ensures Core(PdfLayout.Markdown(blocks)) == Cores(PdfLayout.RenderBlocks(blocks))
  {
    hide Core;
    FeedCore();
    CoreJoin(NonBlank(PdfLayout.RenderBlocks(blocks)), "\n\n");
    CoresNonBlank(PdfLayout.RenderBlocks(blocks));
  }

  /** From the page to the index: the characters of the blocks, in order, are those of the headers and of
      what the chunks keep. */
  lemma PageKeepsText(blocks: seq<PdfLayout.Block>, cfg: Config)
    requires cfg.tk.Sound()
    ensures var text := PdfLayout.Markdown(blocks);
            && ChildTexts(DocumentChunks(text, cfg)) == Flatten(TextsBySection(Sections(text), cfg))
            && |SectionHeaders(text)| == |Sections(text)|
            && Woven(SectionHeaders(text), AllKept(Sections(text), cfg)) == Cores(PdfLayout.RenderBlocks(blocks))
            && (cfg.tk.Bytewise() ==> AllRepeat(Sections(text), cfg))
  {
    hide Core, Sections, SectionHeaders, ChunksOf, ChildTexts, Woven, Flatten, AllKept, AllRepeat, TextsBySection,
      PdfLayout.Markdown, PdfLayout.RenderBlocks, DocumentChunks;
    MarkdownKeepsText(blocks);
    SameLengths(PdfLayout.Markdown(blocks));
    DocumentKeepsText(PdfLayout.Markdown(blocks), cfg);
  }
}
