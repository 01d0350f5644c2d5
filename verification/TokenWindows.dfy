/** Splitting prose into overlapping token windows. */
module TokenWindows {
  import opened Common
  import opened Text

  type Token = int

  /** A tokenizer, about which nothing is assumed. */
  datatype Tokenizer = Tokenizer(encode: string -> seq<Token>, decode: seq<Token> -> string) {
    predicate Fits(s: string, size: int) {
      |encode(s)| <= size
    }

    /** Tokens of a text, added to any others, decode to that text after what the others decode to. */
    ghost predicate Sound() {
      && decode([]) == ""
      && (forall x, s :: decode(x + encode(s)) == decode(x) + s)
    }

    /** The last tokens of a list decode to the end of what it decodes to, but for a character that they
        may cut, as those of a byte-pair tokenizer do. */
    ghost predicate Bytewise() {
      forall x, y :: EndsAlike(decode(x + y), decode(y))
    }
  }

  const REPLACEMENT := '\U{FFFD}'

  predicate EndsWith(s: string, t: string) {
    |t| <= |s| && s[|s| - |t|..] == t
  }

  /** `part` is a suffix of `whole` behind `r` replacement characters. */
  predicate BrokenAt(whole: string, part: string, r: nat) {
    r <= |part| && (forall i | 0 <= i < r :: part[i] == REPLACEMENT) && EndsWith(whole, part[r..])
  }

  /** A cut character of four bytes at most leaves no more than three of them behind. */
  predicate EndsAlike(whole: string, part: string) {
    exists r :: 0 <= r <= 3 && BrokenAt(whole, part, r)
  }

  const SEPARATORS: seq<string> := ["\n\n", "\n", ". ", "; ", ", ", " "]

  // -------------------------------------------------------- separator cascade

  /** One pass: pieces that fit stay, the others are cut at `sep` and their blank parts dropped. */
  function Pass(pieces: seq<string>, sep: string, tk: Tokenizer, size: int): seq<string>
    requires sep != ""
  {
    if pieces == [] then []
    else
      (if tk.Fits(pieces[0], size) then [pieces[0]] else NonBlank(Split(pieces[0], sep)))
      + Pass(pieces[1..], sep, tk, size)
  }

  predicate Usable(seps: seq<string>) {
    forall i | 0 <= i < |seps| :: seps[i] != "" && Core(seps[i]) == ""
  }

  function Cascade(pieces: seq<string>, seps: seq<string>, tk: Tokenizer, size: int): seq<string>
    requires Usable(seps)
    decreases |seps|
  {
    if seps == [] then pieces
    else Cascade(Pass(pieces, seps[0], tk, size), seps[1..], tk, size)
  }

  /** The text without white space and without the punctuation that the cuts may eat. */
  function Core(s: string): string {
    if s == "" then ""
    else (if IsSpace(s[0]) || s[0] in ".;," then "" else [s[0]]) + Core(s[1..])
  }

  function Cores(pieces: seq<string>): string {
    if pieces == [] then "" else Core(pieces[0]) + Cores(pieces[1..])
  }

  lemma SeparatorsUsable()
    ensures Usable(SEPARATORS)
  {
    assert Core("\n") == "" && Core(" ") == "";
    assert "\n\n"[1..] == "\n" && ". "[1..] == " " && "; "[1..] == " " && ", "[1..] == " ";
  }

  lemma {:induction false} CoreAppend(a: string, b: string)
    ensures Core(a + b) == Core(a) + Core(b)
  {
    hide IsSpace;
    if a == "" {
      assert a + b == b;
    } else {
      assert (a + b)[1..] == a[1..] + b;
      CoreAppend(a[1..], b);
    }
  }

  lemma {:induction false} CoreOfBlank(s: string)
    requires Blank(s)
    ensures Core(s) == ""
  {
    hide IsSpace;
    if s != "" {
      CoreOfBlank(s[1..]);
    }
  }

  lemma {:induction false} CoresAppend(a: seq<string>, b: seq<string>)
    ensures Cores(a + b) == Cores(a) + Cores(b)
  {
    if a == [] {
      assert a + b == b;
    } else {
      assert (a + b)[1..] == a[1..] + b;
      CoresAppend(a[1..], b);
    }
  }

  lemma CoresCons(p: string, rest: seq<string>)
    ensures Cores([p] + rest) == Core(p) + Cores(rest)
  {
    assert ([p] + rest)[1..] == rest;
  }

  lemma {:induction false} CoresNonBlank(parts: seq<string>)
    ensures Cores(NonBlank(parts)) == Cores(parts)
  {
    hide IsSpace, Strip;
    if parts != [] {
      var p, rest := parts[0], NonBlank(parts[1..]);
      CoresNonBlank(parts[1..]);
      if Strip(p) == "" {
        StripBlank(p);
        CoreOfBlank(p);
        assert [] + rest == rest;
      } else {
        CoresCons(p, rest);
      }
    }
  }

  lemma CutOut(a: string, b: string, c: string)
    requires Core(b) == ""
    ensures Core(a + b + c) == Core(a) + Core(c)
  {
    hide Core;
    CoreAppend(a + b, c);
    CoreAppend(a, b);
  }

  /** A split is one piece, or a piece ahead of the split of the rest. */
  lemma SplitStep(s: string, sep: string)
    requires sep != ""
    ensures var n := Find(s, sep);
            if n == |s| then Split(s, sep) == [s]
            else Split(s, sep) == [s[..n]] + Split(s[n + |sep|..], sep) && s == s[..n] + sep + s[n + |sep|..]
  {
    hide Find, Contains;
  }

  lemma {:induction false} CoresSplit(s: string, sep: string)
    requires sep != "" && Core(sep) == ""
    ensures Cores(Split(s, sep)) == Core(s)
    decreases |s|
  {
    hide Core, Contains, Split, OccursAt;
    var n := Find(s, sep);
    SplitStep(s, sep);
    if n == |s| {
      CoresCons(s, []);
      assert [s] + [] == [s];
    } else {
      var rest := s[n + |sep|..];
      CoresSplit(rest, sep);
      CoresCons(s[..n], Split(rest, sep));
      CutOut(s[..n], sep, rest);
    }
  }

  lemma {:induction false} CoresPass(pieces: seq<string>, sep: string, tk: Tokenizer, size: int)
    requires sep != "" && Core(sep) == ""
    ensures Cores(Pass(pieces, sep, tk, size)) == Cores(pieces)
  {
    if pieces != [] {
      CoresPass(pieces[1..], sep, tk, size);
      var p := pieces[0];
      var head := if tk.Fits(p, size) then [p] else NonBlank(Split(p, sep));
      assert Cores(head) == Core(p) by {
        if tk.Fits(p, size) {
          assert Cores([p]) == Core(p) + Cores([]);
        } else {
          CoresNonBlank(Split(p, sep));
          CoresSplit(p, sep);
        }
      }
      CoresAppend(head, Pass(pieces[1..], sep, tk, size));
    }
  }

  /** The cascade loses nothing but white space and the punctuation of the separators,
      for any tokenizer and any size. */
  lemma {:induction false} CascadeKeepsText(
    pieces: seq<string>, seps: seq<string>, tk: Tokenizer, size: int)
    requires Usable(seps)
    ensures Cores(Cascade(pieces, seps, tk, size)) == Cores(pieces)
    decreases |seps|
  {
    if seps != [] {
      CoresPass(pieces, seps[0], tk, size);
      CascadeKeepsText(Pass(pieces, seps[0], tk, size), seps[1..], tk, size);
    }
  }

  lemma SliceContains(s: string, lo: nat, hi: nat, x: string)
    requires lo <= hi <= |s| && Contains(s[lo..hi], x)
    ensures Contains(s, x)
  {
    var t := s[lo..hi];
    var i: nat :| i <= |t| && OccursAt(t, x, i);
    var u := s[lo + i..lo + i + |x|];
    forall k | 0 <= k < |x| ensures u[k] == x[k] {
      assert t[i..i + |x|][k] == t[i + k] == s[lo + i + k];
    }
    assert u == x;
    assert OccursAt(s, x, lo + i);
  }

  /** Parts of a text that is free of `x` are free of it too. */
  lemma {:induction false} SplitFree(s: string, sep: string, x: string)
    requires sep != "" && !Contains(s, x)
    ensures forall p | p in Split(s, sep) :: !Contains(p, x)
    decreases |s|
  {
    var n := Find(s, sep);
    if n < |s| {
      if Contains(s[0..n], x) {
        SliceContains(s, 0, n, x);
      }
      var rest := s[n + |sep|..];
      if Contains(rest, x) {
        assert rest == s[n + |sep|..|s|];
        SliceContains(s, n + |sep|, |s|, x);
      }
      SplitFree(rest, sep, x);
      assert s[..n] == s[0..n];
    }
  }

  predicate FreeOf(p: string, seps: seq<string>) {
    forall i | 0 <= i < |seps| :: !Contains(p, seps[i])
  }

  predicate Settled(pieces: seq<string>, seps: seq<string>, tk: Tokenizer, size: int) {
    forall i | 0 <= i < |pieces| :: tk.Fits(pieces[i], size) || FreeOf(pieces[i], seps)
  }

  lemma {:induction false} NonBlankIn(parts: seq<string>)
    ensures forall p | p in NonBlank(parts) :: p in parts
  {
    if parts != [] {
      NonBlankIn(parts[1..]);
    }
  }

  lemma {:induction false} PassSettles(
    pieces: seq<string>, seen: seq<string>, sep: string, tk: Tokenizer, size: int)
    requires sep != "" && Settled(pieces, seen, tk, size)
    ensures Settled(Pass(pieces, sep, tk, size), seen + [sep], tk, size)
  {
    hide IsSpace, Strip, Contains, Core, Split;
    if pieces != [] {
      var p := pieces[0];
      PassSettles(pieces[1..], seen, sep, tk, size);
      if !tk.Fits(p, size) {
        var parts := NonBlank(Split(p, sep));
        NonBlankIn(Split(p, sep));
        forall i | 0 <= i < |parts| ensures FreeOf(parts[i], seen + [sep]) {
          assert parts[i] in parts;
          forall j | 0 <= j < |seen| ensures !Contains(parts[i], seen[j]) {
            SplitFree(p, sep, seen[j]);
          }
        }
      }
    }
  }

  lemma {:induction false} PassAppend(a: seq<string>, b: seq<string>, sep: string, tk: Tokenizer, size: int)
    requires sep != ""
    ensures Pass(a + b, sep, tk, size) == Pass(a, sep, tk, size) + Pass(b, sep, tk, size)
  {
    hide NonBlank, Split;
    if a == [] {
      assert a + b == b;
    } else {
      assert (a + b)[1..] == a[1..] + b;
      PassAppend(a[1..], b, sep, tk, size);
      var head := if tk.Fits(a[0], size) then [a[0]] else NonBlank(Split(a[0], sep));
      var x, y := Pass(a[1..], sep, tk, size), Pass(b, sep, tk, size);
      assert head + (x + y) == (head + x) + y;
    }
  }

  lemma {:induction false} CascadeAppend(
    a: seq<string>, b: seq<string>, seps: seq<string>, tk: Tokenizer, size: int)
    requires Usable(seps)
    ensures Cascade(a + b, seps, tk, size) == Cascade(a, seps, tk, size) + Cascade(b, seps, tk, size)
    decreases |seps|
  {
    hide Pass, Core;
    if seps != [] {
      PassAppend(a, b, seps[0], tk, size);
      CascadeAppend(Pass(a, seps[0], tk, size), Pass(b, seps[0], tk, size), seps[1..], tk, size);
    }
  }

  lemma {:induction false} FittingAlone(p: string, seps: seq<string>, tk: Tokenizer, size: int)
    requires Usable(seps) && tk.Fits(p, size)
    ensures Cascade([p], seps, tk, size) == [p]
    decreases |seps|
  {
    hide NonBlank, Split, Core;
    if seps != [] {
      assert Pass([p], seps[0], tk, size) == [p] + Pass([], seps[0], tk, size) == [p];
      FittingAlone(p, seps[1..], tk, size);
    }
  }

  /** A piece that fits is cut no further, whatever stands beside it. */
  lemma FittingPieceStays(pieces: seq<string>, i: nat, seps: seq<string>, tk: Tokenizer, size: int)
    requires Usable(seps) && i < |pieces| && tk.Fits(pieces[i], size)
    ensures Cascade(pieces, seps, tk, size)
         == Cascade(pieces[..i], seps, tk, size) + [pieces[i]] + Cascade(pieces[i + 1..], seps, tk, size)
  {
    hide Cascade, Core;
    FittingAlone(pieces[i], seps, tk, size);
    CascadeAppend(pieces[..i], [pieces[i]], seps, tk, size);
    CascadeAppend(pieces[..i] + [pieces[i]], pieces[i + 1..], seps, tk, size);
    assert pieces == pieces[..i] + [pieces[i]] + pieces[i + 1..];
  }

  /** An oversized piece is cut at the first separator of those left, into parts that join to it. */
  lemma OversizedPieceCut(p: string, seps: seq<string>, tk: Tokenizer, size: int)
    requires Usable(seps) && seps != [] && !tk.Fits(p, size)
    ensures Usable(seps[1..])
    ensures Cascade([p], seps, tk, size) == Cascade(NonBlank(Split(p, seps[0])), seps[1..], tk, size)
    ensures Join(Split(p, seps[0]), seps[0]) == p && forall q | q in Split(p, seps[0]) :: !Contains(q, seps[0])
  {
    hide NonBlank, Split, Core, Contains, Join;
    JoinSplit(p, seps[0]);
    var parts := NonBlank(Split(p, seps[0]));
    assert Pass([p], seps[0], tk, size) == parts + Pass([], seps[0], tk, size) == parts;
  }

  predicate NoneBlank(pieces: seq<string>) {
    forall i | 0 <= i < |pieces| :: Strip(pieces[i]) != ""
  }

  lemma {:induction false} NonBlankLeft(parts: seq<string>)
    ensures NoneBlank(NonBlank(parts))
  {
    hide Strip;
    if parts != [] {
      NonBlankLeft(parts[1..]);
    }
  }

  lemma {:induction false} PassLeavesNoBlank(pieces: seq<string>, sep: string, tk: Tokenizer, size: int)
    requires sep != "" && NoneBlank(pieces)
    ensures NoneBlank(Pass(pieces, sep, tk, size))
  {
    hide Strip, Split, NonBlank;
    if pieces != [] {
      PassLeavesNoBlank(pieces[1..], sep, tk, size);
      NonBlankLeft(Split(pieces[0], sep));
    }
  }

  /** No cut leaves a blank piece. */
  lemma {:induction false} CascadeLeavesNoBlank(pieces: seq<string>, seps: seq<string>, tk: Tokenizer, size: int)
    requires Usable(seps) && NoneBlank(pieces)
    ensures NoneBlank(Cascade(pieces, seps, tk, size))
    decreases |seps|
  {
    hide Pass, Core, NoneBlank;
    if seps != [] {
      PassLeavesNoBlank(pieces, seps[0], tk, size);
      CascadeLeavesNoBlank(Pass(pieces, seps[0], tk, size), seps[1..], tk, size);
    }
  }

  /** After all passes, every piece either fits or contains none of the separators. */
  lemma {:induction false} CascadeSettles(
    pieces: seq<string>, seen: seq<string>, seps: seq<string>, tk: Tokenizer, size: int)
    requires Usable(seps) && Settled(pieces, seen, tk, size)
    ensures Settled(Cascade(pieces, seps, tk, size), seen + seps, tk, size)
    decreases |seps|
  {
    if seps == [] {
      assert seen + seps == seen;
    } else {
      PassSettles(pieces, seen, seps[0], tk, size);
      CascadeSettles(Pass(pieces, seps[0], tk, size), seen + [seps[0]], seps[1..], tk, size);
      assert seen + seps == seen + [seps[0]] + seps[1..];
    }
  }

  // ------------------------------------------------------------------ packing

  /** `buffer[-overlap:]`, or nothing when `overlap` is not positive. */
  function Carried(buffer: seq<Token>, overlap: int): (r: seq<Token>)
    ensures |r| == Repeated(buffer, overlap)
  {
    buffer[|buffer| - Repeated(buffer, overlap)..]
  }

  /** How many tokens of a window the next one repeats. */
  function Repeated(buffer: seq<Token>, overlap: int): (n: nat)
    ensures n <= |buffer|
  {
    if overlap > 0 then Min(overlap, |buffer|) else 0
  }

  function WindowsFrom(buffer: seq<Token>, pieces: seq<seq<Token>>, size: int, overlap: int): seq<seq<Token>>
    decreases |pieces|
  {
    if pieces == [] then (if buffer == [] then [] else [buffer])
    else if |buffer| + |pieces[0]| > size && buffer != [] then
      [buffer] + WindowsFrom(Carried(buffer, overlap) + pieces[0], pieces[1..], size, overlap)
    else WindowsFrom(buffer + pieces[0], pieces[1..], size, overlap)
  }

  function Windows(pieces: seq<seq<Token>>, size: int, overlap: int): seq<seq<Token>> {
    WindowsFrom([], pieces, size, overlap)
  }

  method Pack(pieces: seq<seq<Token>>, size: int, overlap: int) returns (packed: seq<seq<Token>>)
    ensures packed == Windows(pieces, size, overlap)
  {
    packed := [];
    var buffer: seq<Token> := [];
    for n := 0 to |pieces|
      invariant Windows(pieces, size, overlap) == packed + WindowsFrom(buffer, pieces[n..], size, overlap)
    {
      var piece := pieces[n];
      assert pieces[n..][1..] == pieces[n + 1..];
      if |buffer| + |piece| > size && buffer != [] {
        packed := packed + [buffer];
        if overlap > 0 {
          buffer := buffer[|buffer| - Min(overlap, |buffer|)..];
        } else {
          buffer := [];
        }
      }
      buffer := buffer + piece;
    }
    if buffer != [] {
      packed := packed + [buffer];
    }
  }

  /** The windows with their repeated tokens dropped; `prev` is the window before. */
  function Reassemble(prev: seq<Token>, windows: seq<seq<Token>>, overlap: int): seq<Token>
    decreases |windows|
  {
    if windows == [] then []
    else
      windows[0][Min(Min(Max(overlap, 0), |prev|), |windows[0]|)..]
      + Reassemble(windows[0], windows[1..], overlap)
  }

  lemma ReassembleFirst(prev: seq<Token>, added: seq<Token>, rest: seq<seq<Token>>, overlap: int)
    ensures var window := Carried(prev, overlap) + added;
            Reassemble(prev, [window] + rest, overlap) == added + Reassemble(window, rest, overlap)
  {
    var window := Carried(prev, overlap) + added;
    assert ([window] + rest)[1..] == rest;
    assert window[Min(Max(overlap, 0), |prev|)..] == added;
  }

  lemma {:induction false} ReassembleFrom(
    prev: seq<Token>, added: seq<Token>, pieces: seq<seq<Token>>, size: int, overlap: int)
    ensures Reassemble(prev, WindowsFrom(Carried(prev, overlap) + added, pieces, size, overlap), overlap)
         == added + Flatten(pieces)
    decreases |pieces|
  {
    hide Carried, Repeated, Reassemble;
    var buffer := Carried(prev, overlap) + added;
    if pieces == [] {
      NothingLeft(prev, added, overlap);
    } else {
      var p, rest := pieces[0], pieces[1..];
      if |buffer| + |p| > size && buffer != [] {
        ReassembleFrom(buffer, p, rest, size, overlap);
        ReassembleFirst(prev, added, WindowsFrom(Carried(buffer, overlap) + p, rest, size, overlap), overlap);
      } else {
        ReassembleFrom(prev, added + p, rest, size, overlap);
        assert buffer + p == Carried(prev, overlap) + (added + p);
        assert added + p + Flatten(rest) == added + (p + Flatten(rest));
      }
    }
  }

  lemma NothingLeft(prev: seq<Token>, added: seq<Token>, overlap: int)
    ensures var buffer := Carried(prev, overlap) + added;
            Reassemble(prev, if buffer == [] then [] else [buffer], overlap) == added + Flatten([])
  {
    var buffer := Carried(prev, overlap) + added;
    ReassembleFirst(prev, added, [], overlap);
    assert [buffer] + [] == [buffer];
    assert Reassemble(buffer, [], overlap) == [] && Flatten<Token>([]) == [];
  }

  lemma {:induction false} FirstWindowStarts(buffer: seq<Token>, pieces: seq<seq<Token>>, size: int, overlap: int)
    ensures var ws := WindowsFrom(buffer, pieces, size, overlap);
            (ws == [] ==> buffer == []) && (ws != [] ==> buffer <= ws[0])
    decreases |pieces|
  {
    hide Carried;
    if pieces != [] && !(|buffer| + |pieces[0]| > size && buffer != []) {
      FirstWindowStarts(buffer + pieces[0], pieces[1..], size, overlap);
    }
  }

  /** A window opens with the last tokens of the one before: as many as the overlap, or all of them. */
  predicate Overlaps(before: seq<Token>, window: seq<Token>, overlap: int) {
    var n := Min(Max(overlap, 0), |before|);
    n <= |window| && window[..n] == before[|before| - n..]
  }

  predicate LinkAt(ws: seq<seq<Token>>, i: nat, overlap: int) {
    0 < i < |ws| ==> Overlaps(ws[i - 1], ws[i], overlap)
  }

  lemma LinkAhead(window: seq<Token>, later: seq<seq<Token>>, overlap: int)
    requires (forall i: nat :: LinkAt(later, i, overlap)) && (later != [] ==> Overlaps(window, later[0], overlap))
    ensures forall i: nat :: LinkAt([window] + later, i, overlap)
  {
    hide Overlaps;
    forall i: nat ensures LinkAt([window] + later, i, overlap) {
      if 1 < i <= |later| {
        assert LinkAt(later, i - 1, overlap);
        assert ([window] + later)[i] == later[i - 1] && ([window] + later)[i - 1] == later[i - 2];
      }
    }
  }

  lemma {:induction false} OverlapsFrom(buffer: seq<Token>, pieces: seq<seq<Token>>, size: int, overlap: int)
    ensures forall i: nat :: LinkAt(WindowsFrom(buffer, pieces, size, overlap), i, overlap)
    decreases |pieces|
  {
    hide Overlaps, Carried;
    if pieces != [] {
      var p, rest := pieces[0], pieces[1..];
      if |buffer| + |p| > size && buffer != [] {
        var next := Carried(buffer, overlap) + p;
        var later := WindowsFrom(next, rest, size, overlap);
        OverlapsFrom(next, rest, size, overlap);
        FirstWindowStarts(next, rest, size, overlap);
        if later != [] {
          CarriedOverlaps(buffer, p, later[0], overlap);
        }
        LinkAhead(buffer, later, overlap);
      } else {
        OverlapsFrom(buffer + p, rest, size, overlap);
      }
    }
  }

  lemma CarriedOverlaps(buffer: seq<Token>, p: seq<Token>, window: seq<Token>, overlap: int)
    requires Carried(buffer, overlap) + p <= window
    ensures Overlaps(buffer, window, overlap)
  {
    var n := Min(Max(overlap, 0), |buffer|);
    assert window[..n] == (Carried(buffer, overlap) + p)[..n] == buffer[|buffer| - n..];
  }

  /** Each window repeats the end of the one before. */
  lemma WindowsOverlap(pieces: seq<seq<Token>>, size: int, overlap: int, i: nat)
    requires i + 1 < |Windows(pieces, size, overlap)|
    ensures var ws := Windows(pieces, size, overlap);
            var n := Min(Max(overlap, 0), |ws[i]|);
            n <= |ws[i + 1]| && ws[i + 1][..n] == ws[i][|ws[i]| - n..]
  {
    OverlapsFrom([], pieces, size, overlap);
    assert LinkAt(Windows(pieces, size, overlap), i + 1, overlap);
  }

  // -------------------------------------------------------------- greedy packing

  /** Pieces behind what a window repeats: each that joins others still fits. */
  predicate Fitting(head: seq<Token>, group: seq<seq<Token>>, size: int) {
    && group != []
    && forall j | 0 < j < |group| ::
         var b := head + Flatten(group[..j]);
         b == [] || |b| + |group[j]| <= size
  }

  /** A window holds a group of pieces behind what it repeats of the window before, in which the first of
      them did not fit any more, unless there is none. */
  predicate Holds(
    before: seq<Token>, first: bool, group: seq<seq<Token>>, window: seq<Token>, size: int, overlap: int)
  {
    && Fitting(Carried(before, overlap), group, size)
    && window == Carried(before, overlap) + Flatten(group)
    && (first || (group != [] && |before| + |group[0]| > size))
  }

  predicate HoldsAt(
    prev: seq<Token>, groups: seq<seq<seq<Token>>>, ws: seq<seq<Token>>, i: nat, size: int, overlap: int)
    requires |groups| == |ws|
  {
    i < |ws| ==> Holds(if i == 0 then prev else ws[i - 1], i == 0, groups[i], ws[i], size, overlap)
  }

  /** How windows come from groups of pieces; `prev` is the window before. */
  ghost predicate PackedFrom(
    prev: seq<Token>, groups: seq<seq<seq<Token>>>, ws: seq<seq<Token>>, size: int, overlap: int)
  {
    |groups| == |ws| && forall i: nat :: HoldsAt(prev, groups, ws, i, size, overlap)
  }

  lemma PackedCons(
    prev: seq<Token>, group: seq<seq<Token>>, groups: seq<seq<seq<Token>>>, ws: seq<seq<Token>>, size: int, overlap: int)
    requires var window := Carried(prev, overlap) + Flatten(group);
             && Fitting(Carried(prev, overlap), group, size)
             && PackedFrom(window, groups, ws, size, overlap)
             && (groups != [] ==> groups[0] != [] && |window| + |groups[0][0]| > size)
    ensures PackedFrom(prev, [group] + groups, [Carried(prev, overlap) + Flatten(group)] + ws, size, overlap)
  {
    hide Carried, Fitting, Flatten, Holds;
    var window := Carried(prev, overlap) + Flatten(group);
    var gs, all := [group] + groups, [window] + ws;
    forall i: nat ensures HoldsAt(prev, gs, all, i, size, overlap) {
      if i == 0 {
        HeldFirst(prev, group, size, overlap);
      } else if i < |all| {
        assert HoldsAt(window, groups, ws, i - 1, size, overlap);
        assert all[i] == ws[i - 1] && gs[i] == groups[i - 1];
        if i == 1 {
          HeldNext(window, groups[0], ws[0], size, overlap);
        } else {
          assert all[i - 1] == ws[i - 2];
        }
      }
    }
  }

  lemma HeldFirst(prev: seq<Token>, group: seq<seq<Token>>, size: int, overlap: int)
    requires Fitting(Carried(prev, overlap), group, size)
    ensures Holds(prev, true, group, Carried(prev, overlap) + Flatten(group), size, overlap)
  {
  }

  lemma HeldNext(before: seq<Token>, group: seq<seq<Token>>, window: seq<Token>, size: int, overlap: int)
    requires Holds(before, true, group, window, size, overlap) && group != [] && |before| + |group[0]| > size
    ensures Holds(before, false, group, window, size, overlap)
  {
  }

  lemma GroupGrows(head: seq<Token>, group: seq<seq<Token>>, p: seq<Token>, size: int)
    requires Fitting(head, group, size)
    requires head + Flatten(group) == [] || |head + Flatten(group)| + |p| <= size
    ensures Fitting(head, group + [p], size) && Flatten(group + [p]) == Flatten(group) + p
  {
    hide Flatten;
    FlattenAppend(group, [p]);
    OnePiece(p);
    var more := group + [p];
    forall j | 0 < j < |more| ensures var b := head + Flatten(more[..j]); b == [] || |b| + |more[j]| <= size {
      if j < |group| {
        assert more[..j] == group[..j];
      } else {
        assert more[..j] == group;
      }
    }
  }

  lemma OnePiece(p: seq<Token>)
    ensures Flatten([p]) == p
  {
    assert Flatten([p]) == p + Flatten<Token>([]);
  }

  /** The windows ahead are those of groups of the pieces, but for some without any token at the end. */
  lemma {:induction false} GroupsFrom(
    prev: seq<Token>, group: seq<seq<Token>>, pieces: seq<seq<Token>>, size: int, overlap: int)
    returns (groups: seq<seq<seq<Token>>>, left: seq<seq<Token>>)
    requires Fitting(Carried(prev, overlap), group, size)
    ensures PackedFrom(prev, groups, WindowsFrom(Carried(prev, overlap) + Flatten(group), pieces, size, overlap), size, overlap)
    ensures Flatten(groups) + left == group + pieces && Flatten(left) == []
    ensures groups != [] ==> group <= groups[0]
    decreases |pieces|
  {
    hide Carried, Fitting, PackedFrom, Flatten;
    var buffer := Carried(prev, overlap) + Flatten(group);
    if pieces == [] {
      groups, left := LastGroup(prev, group, size, overlap);
    } else {
      var p, rest := pieces[0], pieces[1..];
      if |buffer| + |p| > size && buffer != [] {
        LonePiece(Carried(buffer, overlap), p, size);
        var later;
        later, left := GroupsFrom(buffer, [p], rest, size, overlap);
        groups := [group] + later;
        GroupClosed(prev, group, p, rest, later, size, overlap);
        FlattenFirst(group, later);
        assert group + Flatten(later) + left == group + ([p] + rest) == group + pieces;
      } else {
        GroupGrows(Carried(prev, overlap), group, p, size);
        assert Carried(prev, overlap) + (Flatten(group) + p) == buffer + p;
        groups, left := GroupsFrom(prev, group + [p], rest, size, overlap);
        assert group + [p] + rest == group + pieces;
      }
    }
  }

  lemma FlattenFirst<T>(group: seq<T>, later: seq<seq<T>>)
    ensures Flatten([group] + later) == group + Flatten(later)
  {
    assert ([group] + later)[1..] == later;
  }

  lemma LastGroup(prev: seq<Token>, group: seq<seq<Token>>, size: int, overlap: int)
    returns (groups: seq<seq<seq<Token>>>, left: seq<seq<Token>>)
    requires Fitting(Carried(prev, overlap), group, size)
    ensures PackedFrom(prev, groups, WindowsFrom(Carried(prev, overlap) + Flatten(group), [], size, overlap), size, overlap)
    ensures Flatten(groups) + left == group + [] && Flatten(left) == []
    ensures groups != [] ==> group <= groups[0]
  {
    hide Carried, Fitting;
    var buffer := Carried(prev, overlap) + Flatten(group);
    assert Flatten<Token>([]) == [] && Flatten<seq<Token>>([]) == [];
    if buffer == [] {
      groups, left := [], group;
    } else {
      groups, left := [group], [];
      assert Flatten([group]) == group + Flatten<seq<Token>>([]);
      HeldFirst(prev, group, size, overlap);
      assert WindowsFrom(buffer, [], size, overlap) == [buffer];
    }
  }

  lemma LonePiece(head: seq<Token>, p: seq<Token>, size: int)
    ensures Fitting(head, [p], size) && Flatten([p]) == p
  {
    OnePiece(p);
  }

  lemma GroupClosed(
    prev: seq<Token>, group: seq<seq<Token>>, p: seq<Token>, rest: seq<seq<Token>>, later: seq<seq<seq<Token>>>,
    size: int, overlap: int)
    requires Fitting(Carried(prev, overlap), group, size)
    requires var buffer := Carried(prev, overlap) + Flatten(group);
             && |buffer| + |p| > size && buffer != [] && (later != [] ==> [p] <= later[0])
             && PackedFrom(buffer, later, WindowsFrom(Carried(buffer, overlap) + Flatten([p]), rest, size, overlap), size, overlap)
    ensures PackedFrom(prev, [group] + later,
              WindowsFrom(Carried(prev, overlap) + Flatten(group), [p] + rest, size, overlap), size, overlap)
  {
    hide Carried, Fitting, Flatten;
    var buffer := Carried(prev, overlap) + Flatten(group);
    OnePiece(p);
    assert ([p] + rest)[1..] == rest;
    PackedCons(prev, group, later, WindowsFrom(Carried(buffer, overlap) + p, rest, size, overlap), size, overlap);
  }

  /** Packing is greedy: the pieces fall into groups, one to a window, behind what the window repeats; each
      piece that joined others fitted, and each that was left to the next window would not have. */
  lemma PackingIsGreedy(pieces: seq<seq<Token>>, size: int, overlap: int)
    returns (groups: seq<seq<seq<Token>>>, left: seq<seq<Token>>)
    ensures PackedFrom([], groups, Windows(pieces, size, overlap), size, overlap)
    ensures Flatten(groups) + left == pieces && Flatten(left) == []
  {
    hide PackedFrom, Fitting;
    if pieces == [] {
      groups, left := [], [];
      NoWindows(size, overlap);
    } else {
      LonePiece(Carried([], overlap), pieces[0], size);
      groups, left := GroupsFrom([], [pieces[0]], pieces[1..], size, overlap);
      assert Carried([], overlap) + Flatten([pieces[0]]) == [] + pieces[0];
      assert [pieces[0]] + pieces[1..] == pieces;
    }
  }

  lemma NoWindows(size: int, overlap: int)
    ensures PackedFrom([], [], Windows([], size, overlap), size, overlap)
    ensures Flatten<seq<Token>>([]) + [] == [] && Flatten<Token>([]) == []
  {
  }

  /** Dropping from each window the tokens it repeats gives back exactly the tokens of the pieces. */
  lemma PackingLosesNothing(pieces: seq<seq<Token>>, size: int, overlap: int)
    ensures Reassemble([], Windows(pieces, size, overlap), overlap) == Flatten(pieces)
  {
    ReassembleFrom([], [], pieces, size, overlap);
    assert Carried([], overlap) + [] == [];
  }

  function Longest(pieces: seq<seq<Token>>): (n: nat)
    ensures forall i | 0 <= i < |pieces| :: |pieces[i]| <= n
  {
    if pieces == [] then 0
    else
      assert forall i | 0 < i < |pieces| :: pieces[i] == pieces[1..][i - 1];
      Max(|pieces[0]|, Longest(pieces[1..]))
  }

  lemma {:induction false} WindowsFromBounded(
    buffer: seq<Token>, pieces: seq<seq<Token>>, size: int, overlap: int, bound: int)
    requires size <= bound && |buffer| <= bound
    requires forall i | 0 <= i < |pieces| :: Max(overlap, 0) + |pieces[i]| <= bound
    ensures forall i | 0 <= i < |WindowsFrom(buffer, pieces, size, overlap)| ::
              0 < |WindowsFrom(buffer, pieces, size, overlap)[i]| <= bound
    decreases |pieces|
  {
    if pieces != [] {
      var p, rest := pieces[0], pieces[1..];
      if |buffer| + |p| > size && buffer != [] {
        WindowsFromBounded(Carried(buffer, overlap) + p, rest, size, overlap, bound);
      } else {
        WindowsFromBounded(buffer + p, rest, size, overlap, bound);
      }
    }
  }

  /** No window is empty, and none is longer than the size or than the overlap plus the longest piece. */
  lemma WindowsBounded(pieces: seq<seq<Token>>, size: int, overlap: int)
    ensures var ws := Windows(pieces, size, overlap);
            forall i | 0 <= i < |ws| :: 0 < |ws[i]| <= Max(size, Max(overlap, 0) + Longest(pieces))
  {
    WindowsFromBounded([], pieces, size, overlap, Max(Max(size, 0), Max(overlap, 0) + Longest(pieces)));
  }

  // ------------------------------------------------------------- the splitter

  /** A piece as it is encoded: it ends in a space or a line feed, so that no two of them run together. */
  function PieceText(piece: string): (r: string)
    ensures r == piece || r == piece + " "
    ensures r != "" && (r[|r| - 1] == ' ' || r[|r| - 1] == '\n')
    ensures r == piece + " " ==> piece == "" || !(piece[|piece| - 1] == ' ' || piece[|piece| - 1] == '\n')
  {
    if piece != "" && piece[|piece| - 1] in " \n" then piece else piece + " "
  }

  function EncodeAll(pieces: seq<string>, tk: Tokenizer): (r: seq<seq<Token>>)
    ensures |r| == |pieces|
  {
    seq(|pieces|, i requires 0 <= i < |pieces| => tk.encode(PieceText(pieces[i])))
  }

  function Decoded(windows: seq<seq<Token>>, tk: Tokenizer): seq<string> {
    if windows == [] then []
    else
      var p := Strip(tk.decode(windows[0]));
      (if p != "" then [p] else []) + Decoded(windows[1..], tk)
  }

  lemma {:induction false} DecodedAppend(a: seq<seq<Token>>, b: seq<seq<Token>>, tk: Tokenizer)
    ensures Decoded(a + b, tk) == Decoded(a, tk) + Decoded(b, tk)
  {
    hide Strip;
    if a == [] {
      assert a + b == b;
    } else {
      assert (a + b)[1..] == a[1..] + b;
      DecodedAppend(a[1..], b, tk);
      var head := if Strip(tk.decode(a[0])) != "" then [Strip(tk.decode(a[0]))] else [];
      var x, y := Decoded(a[1..], tk), Decoded(b, tk);
      assert head + (x + y) == (head + x) + y;
    }
  }

  /** Each window emits the one string that it decodes to, stripped, unless that is blank. */
  lemma EmittedFromWindow(windows: seq<seq<Token>>, i: nat, tk: Tokenizer)
    requires i < |windows|
    ensures var text := Strip(tk.decode(windows[i]));
            Decoded(windows, tk) ==
              Decoded(windows[..i], tk) + (if text == "" then [] else [text]) + Decoded(windows[i + 1..], tk)
  {
    hide Strip;
    var one := [windows[i]];
    DecodedAppend(windows[..i], one, tk);
    DecodedAppend(windows[..i] + one, windows[i + 1..], tk);
    assert windows == windows[..i] + one + windows[i + 1..];
    OneEmitted(windows[i], tk);
  }

  lemma OneEmitted(window: seq<Token>, tk: Tokenizer)
    ensures var text := Strip(tk.decode(window)); Decoded([window], tk) == if text == "" then [] else [text]
  {
    hide Strip;
    assert Decoded([window][1..], tk) == [];
  }

  function Pieces(text: string, tk: Tokenizer, size: int): seq<string> {
    SeparatorsUsable();
    Cascade([text], SEPARATORS, tk, size)
  }

  function TokenSplit(text: string, tk: Tokenizer, size: int, overlap: int): seq<string> {
    if tk.Fits(text, size) then NonBlank([text])
    else Decoded(Windows(EncodeAll(Pieces(text, tk, size), tk), size, overlap), tk)
  }

  lemma PassStep(pieces: seq<string>, n: nat, sep: string, tk: Tokenizer, size: int)
    requires sep != "" && n < |pieces|
    ensures Pass(pieces[n..], sep, tk, size)
         == (if tk.Fits(pieces[n], size) then [pieces[n]] else NonBlank(Split(pieces[n], sep)))
            + Pass(pieces[n + 1..], sep, tk, size)
  {
    assert pieces[n..][1..] == pieces[n + 1..];
  }

  method SplitOnce(pieces: seq<string>, sep: string, tk: Tokenizer, size: int)
    returns (nextPieces: seq<string>)
    requires sep != ""
    ensures nextPieces == Pass(pieces, sep, tk, size)
  {
    hide IsSpace, Strip, NonBlank, Split, Contains;
    nextPieces := [];
    for n := 0 to |pieces|
      invariant Pass(pieces, sep, tk, size) == nextPieces + Pass(pieces[n..], sep, tk, size)
    {
      var piece := pieces[n];
      PassStep(pieces, n, sep, tk, size);
      if tk.Fits(piece, size) {
        nextPieces := nextPieces + [piece];
      } else {
        nextPieces := nextPieces + NonBlank(Split(piece, sep));
      }
    }
  }

  /** Paragraphs are parted first, then lines, sentences, clauses, phrases and words. */
  lemma PassesInOrder(text: string, tk: Tokenizer, size: int)
    ensures Pieces(text, tk, size) ==
              Pass(Pass(Pass(Pass(Pass(Pass([text],
                "\n\n", tk, size), "\n", tk, size), ". ", tk, size), "; ", tk, size), ", ", tk, size), " ", tk, size)
  {
    hide Pass, Core;
    SeparatorsUsable();
    var a := Pass([text], "\n\n", tk, size);
    var b := Pass(a, "\n", tk, size);
    var c := Pass(b, ". ", tk, size);
    var d := Pass(c, "; ", tk, size);
    var e := Pass(d, ", ", tk, size);
    var seps := SEPARATORS;
    CascadeStep([text], seps, 0, tk, size);
    CascadeStep(a, seps, 1, tk, size);
    CascadeStep(b, seps, 2, tk, size);
    CascadeStep(c, seps, 3, tk, size);
    CascadeStep(d, seps, 4, tk, size);
    CascadeStep(e, seps, 5, tk, size);
  }

  lemma CascadeStep(pieces: seq<string>, seps: seq<string>, n: nat, tk: Tokenizer, size: int)
    requires Usable(seps) && n < |seps|
    ensures Usable(seps[n..]) && Usable(seps[n + 1..])
    ensures Cascade(pieces, seps[n..], tk, size) == Cascade(Pass(pieces, seps[n], tk, size), seps[n + 1..], tk, size)
    ensures n + 1 == |seps| ==> Cascade(pieces, seps[n..], tk, size) == Pass(pieces, seps[n], tk, size)
    ensures n == 0 ==> seps[n..] == seps
  {
    hide Pass, Core;
    assert seps[n..][1..] == seps[n + 1..];
  }

  method SplitPieces(text: string, tk: Tokenizer, size: int) returns (pieces: seq<string>)
    ensures pieces == Pieces(text, tk, size)
  {
    hide IsSpace, Pass, Core;
    SeparatorsUsable();
    pieces := [text];
    for s := 0 to |SEPARATORS|
      invariant Usable(SEPARATORS[s..])
      invariant Cascade(pieces, SEPARATORS[s..], tk, size) == Pieces(text, tk, size)
    {
      assert SEPARATORS[s..][1..] == SEPARATORS[s + 1..];
      pieces := SplitOnce(pieces, SEPARATORS[s], tk, size);
    }
  }

  method RecursiveTokenSplit(text: string, tk: Tokenizer, size: int, overlap: int) returns (out: seq<string>)
    ensures out == TokenSplit(text, tk, size, overlap)
    ensures tk.Fits(text, size) ==> out == if Strip(text) == "" then [] else [text]
  {
    if tk.Fits(text, size) {
      assert NonBlank([text]) == (if Strip(text) != "" then [text] else []) + NonBlank([]);
      return if Strip(text) != "" then [text] else [];
    }
    var pieces := SplitPieces(text, tk, size);
    var packed := Pack(EncodeAll(pieces, tk), size, overlap);
    out := Decoded(packed, tk);
  }

  /** The guarantees of the cascade, for every text, tokenizer and size. */
  lemma PiecesCorrect(text: string, tk: Tokenizer, size: int)
    ensures Settled(Pieces(text, tk, size), SEPARATORS, tk, size)
    ensures Cores(Pieces(text, tk, size)) == Core(text)
  {
    hide IsSpace, Core, Contains, Pass, Cascade;
    SeparatorsUsable();
    CascadeSettles([text], [], SEPARATORS, tk, size);
    assert [] + SEPARATORS == SEPARATORS;
    CascadeKeepsText([text], SEPARATORS, tk, size);
    assert Cores([text]) == Core(text) + Cores([]);
  }

  lemma CorePieceText(piece: string)
    ensures Core(PieceText(piece)) == Core(piece)
  {
    CoreAppend(piece, " ");
    assert Core(" ") == "";
  }

  lemma SoundStep(x: seq<Token>, s: string, tk: Tokenizer)
    requires tk.Sound()
    ensures tk.decode(x + tk.encode(s)) == tk.decode(x) + s
  {
  }

  /** Pieces that are added to any tokens decode to their texts. */
  lemma {:induction false} DecodeAll(x: seq<Token>, pieces: seq<string>, tk: Tokenizer)
    requires tk.Sound()
    ensures Core(tk.decode(x + Flatten(EncodeAll(pieces, tk)))) == Core(tk.decode(x)) + Cores(pieces)
    decreases |pieces|
  {
    hide Core, IsSpace, PieceText, Tokenizer.Sound;
    if pieces == [] {
      assert x + Flatten(EncodeAll(pieces, tk)) == x;
    } else {
      var p := PieceText(pieces[0]);
      var rest := Flatten(EncodeAll(pieces[1..], tk));
      assert EncodeAll(pieces, tk)[1..] == EncodeAll(pieces[1..], tk);
      assert x + (tk.encode(p) + rest) == (x + tk.encode(p)) + rest;
      DecodeAll(x + tk.encode(p), pieces[1..], tk);
      SoundStep(x, p, tk);
      CoreAppend(tk.decode(x), p);
      CorePieceText(pieces[0]);
    }
  }

  /** End to end: once the repeated tokens are dropped, the windows of an oversized text decode to
      exactly its characters, white space and the separators' punctuation aside. */
  lemma SplittingKeepsText(text: string, tk: Tokenizer, size: int, overlap: int)
    requires tk.Sound()
    ensures var ws := Windows(EncodeAll(Pieces(text, tk, size), tk), size, overlap);
            Core(tk.decode(Reassemble([], ws, overlap))) == Core(text)
  {
    hide IsSpace, Cascade;
    var pieces := Pieces(text, tk, size);
    PackingLosesNothing(EncodeAll(pieces, tk), size, overlap);
    DecodeAll([], pieces, tk);
    assert [] + Flatten(EncodeAll(pieces, tk)) == Flatten(EncodeAll(pieces, tk));
    assert Core("") == "";
    PiecesCorrect(text, tk, size);
  }
}
