/** The string operations of the host language that the parser and the chunker are
    built from: white space, strip, join, split and line splitting. */
module Text {

  // ------------------------------------------------------------ white space

  /** The characters that `str.isspace` and the pattern `\s` accept. */
  predicate IsSpace(c: char) {
    var n := c as int;
    || 9 <= n <= 13 || 28 <= n <= 32 || n == 0x85 || n == 0xA0 || n == 0x1680
    || 0x2000 <= n <= 0x200A || n == 0x2028 || n == 0x2029 || n == 0x202F
    || n == 0x205F || n == 0x3000
  }

  /** The characters at which `str.splitlines` ends a line; all of them are white space. */
  predicate IsLineBreak(c: char) {
    var n := c as int;
    10 <= n <= 13 || 28 <= n <= 30 || n == 0x85 || n == 0x2028 || n == 0x2029
  }

  predicate Blank(s: string) {
    forall i | 0 <= i < |s| :: IsSpace(s[i])
  }

  /** No character of `s` ends a line. */
  predicate OneLine(s: string) {
    forall i | 0 <= i < |s| :: !IsLineBreak(s[i])
  }

  predicate AllOneLine(lines: seq<string>) {
    forall i | 0 <= i < |lines| :: OneLine(lines[i])
  }

  /** Nonempty, with no white space at either end. */
  predicate Tight(s: string) {
    s != "" && !IsSpace(s[0]) && !IsSpace(s[|s| - 1])
  }

  function StripLeft(s: string): (r: string)
    ensures r == "" || !IsSpace(r[0])
    ensures |r| <= |s| && r == s[|s| - |r|..] && Blank(s[..|s| - |r|])
  {
    if s != "" && IsSpace(s[0]) then StripLeft(s[1..]) else s
  }

  function StripRight(s: string): (r: string)
    ensures r == "" || !IsSpace(r[|r| - 1])
    ensures r <= s && Blank(s[|r|..])
  {
    if s != "" && IsSpace(s[|s| - 1]) then
      var r := StripRight(s[..|s| - 1]);
      assert s[|r|..] == s[..|s| - 1][|r|..] + [s[|s| - 1]];
      r
    else s
  }

  /** `str.strip()`. */
  function Strip(s: string): (r: string)
    ensures r == "" || Tight(r)
  {
    var l := StripLeft(s);
    var r := StripRight(l);
    assert r != "" ==> r[0] == l[0];
    r
  }

  /** Strip removes exactly the white space around a tight core. */
  lemma StripPadded(l: string, s: string, r: string)
    requires Blank(l) && Blank(r) && (s == "" || Tight(s))
    requires s == "" ==> r == ""
    ensures Strip(l + s + r) == s
  {
    hide IsSpace, StripLeft, StripRight;
    var whole := l + s + r;
    assert StripLeft(whole) == s + r by {
      assert whole == l + (s + r);
      assert s + r == "" || !IsSpace((s + r)[0]) by {
        if s != "" {
          assert (s + r)[0] == s[0];
        }
      }
      StripLeftPadded(l, s + r);
    }
    assert StripRight(s + r) == s by { StripRightPadded(s, r); }
  }

  /** A text is its stripped core with white space around it. */
  lemma StripParts(s: string) returns (l: string, core: string, r: string)
    ensures s == l + core + r && Blank(l) && Blank(r) && core == Strip(s)
  {
    hide IsSpace, StripLeft, StripRight, Blank, Tight;
    l := LeftPart(s);
    r := RightPart(StripLeft(s));
    core := Strip(s);
    assert l + (core + r) == l + core + r;
  }

  lemma LeftPart(s: string) returns (l: string)
    ensures s == l + StripLeft(s) && Blank(l)
  {
    hide IsSpace, StripLeft, Blank;
    l := s[..|s| - |StripLeft(s)|];
  }

  lemma RightPart(s: string) returns (r: string)
    ensures s == StripRight(s) + r && Blank(r)
  {
    hide IsSpace, StripRight, Blank;
    r := s[|StripRight(s)|..];
  }

  lemma {:induction false} StripLeftPadded(l: string, s: string)
    requires Blank(l) && (s == "" || !IsSpace(s[0]))
    ensures StripLeft(l + s) == s
  {
    hide IsSpace;
    if l == "" {
      assert l + s == s;
    } else {
      assert (l + s)[1..] == l[1..] + s;
      assert Blank(l[1..]);
      StripLeftPadded(l[1..], s);
    }
  }

  lemma {:induction false} StripRightPadded(s: string, r: string)
    requires Blank(r) && (s == "" || !IsSpace(s[|s| - 1]))
    ensures StripRight(s + r) == s
  {
    hide IsSpace;
    if r == "" {
      assert s + r == s;
    } else {
      assert (s + r)[..|s + r| - 1] == s + r[..|r| - 1];
      StripRightPadded(s, r[..|r| - 1]);
    }
  }

  lemma StripTight(s: string)
    requires s == "" || Tight(s)
    ensures Strip(s) == s
  {
    hide IsSpace, Strip;
    assert "" + s + "" == s;
    StripPadded("", s, "");
  }

  lemma StripBlank(s: string)
    ensures Strip(s) == "" <==> Blank(s)
  {
    hide IsSpace;
    var l := StripLeft(s);
    if Blank(s) {
      StripLeftPadded(s, "");
      assert s + "" == s;
    }
    if StripRight(l) == "" {
      assert l[0..] == l;
      assert l == "";
      assert s[..|s|] == s;
    }
  }

  /** `[p for p in parts if p.strip()]`. */
  function NonBlank(parts: seq<string>): seq<string> {
    if parts == [] then []
    else (if Strip(parts[0]) != "" then [parts[0]] else []) + NonBlank(parts[1..])
  }

  // ------------------------------------------------------------------ join

  /** `sep.join(parts)`. */
  function Join(parts: seq<string>, sep: string): string {
    if parts == [] then ""
    else if |parts| == 1 then parts[0]
    else parts[0] + sep + Join(parts[1..], sep)
  }

  lemma {:induction false} JoinAppend(a: seq<string>, b: seq<string>, sep: string)
    requires a != [] && b != []
    ensures Join(a + b, sep) == Join(a, sep) + sep + Join(b, sep)
  {
    if |a| == 1 {
      assert (a + b)[1..] == b;
    } else {
      assert (a + b)[1..] == a[1..] + b;
      JoinAppend(a[1..], b, sep);
      var ja, jb := Join(a[1..], sep), Join(b, sep);
      assert a[0] + sep + (ja + sep + jb) == (a[0] + sep + ja) + sep + jb;
    }
  }

  /** A join whose first part starts, and whose last part ends, without white space. */
  lemma {:induction false} JoinTight(parts: seq<string>, sep: string)
    requires parts != [] && Tight(parts[0]) && Tight(parts[|parts| - 1])
    ensures Tight(Join(parts, sep))
  {
    hide IsSpace, Join;
    JoinEnds(parts, sep);
  }

  lemma {:induction false} JoinEnds(parts: seq<string>, sep: string)
    requires parts != [] && parts[0] != "" && parts[|parts| - 1] != ""
    ensures Join(parts, sep) != "" && Join(parts, sep)[0] == parts[0][0]
    ensures var j := Join(parts, sep); var l := parts[|parts| - 1]; j[|j| - 1] == l[|l| - 1]
  {
    if |parts| > 1 {
      if parts[1] != "" {
        JoinEnds(parts[1..], sep);
      } else {
        JoinLast(parts[1..], sep);
      }
    }
  }

  lemma {:induction false} JoinLast(parts: seq<string>, sep: string)
    requires parts != [] && parts[|parts| - 1] != ""
    ensures var j := Join(parts, sep); var l := parts[|parts| - 1];
            j != "" && j[|j| - 1] == l[|l| - 1]
  {
    if |parts| > 1 {
      JoinLast(parts[1..], sep);
    }
  }

  // ------------------------------------------------------------ line splitting

  function LineEnd(s: string): (n: nat)
    ensures n <= |s| && OneLine(s[..n]) && (n < |s| ==> IsLineBreak(s[n]))
  {
    if s == "" || IsLineBreak(s[0]) then 0
    else
      var m := LineEnd(s[1..]);
      assert s[..m + 1] == [s[0]] + s[1..][..m];
      m + 1
  }

  /** `str.splitlines()`: a carriage return directly followed by a line feed is one break,
      and a final break opens no further line. */
  function SplitLines(s: string): (lines: seq<string>)
    ensures AllOneLine(lines)
    decreases |s|
  {
    if s == "" then []
    else
      var n := LineEnd(s);
      if n == |s| then
        assert s[..n] == s;
        [s]
      else
        var skip := if s[n] == '\r' && n + 1 < |s| && s[n + 1] == '\n' then 2 else 1;
        [s[..n]] + SplitLines(s[n + skip..])
  }

  lemma {:induction false} LineEndAt(l: string, rest: string)
    requires OneLine(l) && (rest == "" || IsLineBreak(rest[0]))
    ensures LineEnd(l + rest) == |l|
  {
    hide IsLineBreak;
    if l == "" {
      assert l + rest == rest;
    } else {
      assert (l + rest)[1..] == l[1..] + rest;
      assert (l + rest)[0] == l[0];
      assert OneLine(l[1..]);
      LineEndAt(l[1..], rest);
    }
  }

  lemma FeedBreaks()
    ensures IsLineBreak('\n')
  {
  }

  /** Joining single lines with line feeds and splitting them again gives them back. */
  lemma {:induction false} SplitLinesJoin(lines: seq<string>)
    requires AllOneLine(lines) && lines != [] && lines[|lines| - 1] != ""
    ensures SplitLines(Join(lines, "\n")) == lines
  {
    hide IsLineBreak, LineEnd;
    var l := lines[0];
    if |lines| == 1 {
      LineEndAt(l, "");
      assert l + "" == l;
      assert l[..|l|] == l;
      assert SplitLines(l) == [l];
    } else {
      var rest := Join(lines[1..], "\n");
      var s := l + "\n" + rest;
      assert s == l + ("\n" + rest);
      FeedBreaks();
      LineEndAt(l, "\n" + rest);
      assert s[|l|] == '\n';
      assert s[..|l|] == l && s[|l| + 1..] == rest;
      SplitLinesJoin(lines[1..]);
      assert lines == [l] + lines[1..];
    }
  }

  // ------------------------------------------------------------- str.split(sep)

  predicate OccursAt(s: string, sep: string, i: nat) {
    i + |sep| <= |s| && s[i..i + |sep|] == sep
  }

  predicate Contains(s: string, sep: string) {
    exists i: nat :: i <= |s| && OccursAt(s, sep, i)
  }

  lemma OccursAfterFirst(s: string, sep: string, i: nat)
    requires s != ""
    ensures OccursAt(s, sep, i + 1) <==> OccursAt(s[1..], sep, i)
  {
    if i + 1 + |sep| <= |s| {
      assert s[1..][i..i + |sep|] == s[i + 1..i + 1 + |sep|];
    }
  }

  /** The first occurrence of `sep`, or the end of `s` when there is none. */
  predicate FoundAt(s: string, sep: string, n: nat) {
    && n <= |s| && (n < |s| ==> OccursAt(s, sep, n))
    && (forall i: nat | i < n :: !OccursAt(s, sep, i))
  }

  lemma FoundLater(s: string, sep: string, m: nat)
    requires s != "" && !OccursAt(s, sep, 0) && FoundAt(s[1..], sep, m)
    ensures FoundAt(s, sep, m + 1)
  {
    hide OccursAt;
    forall i: nat | i < m + 1 ensures !OccursAt(s, sep, i) {
      if i > 0 {
        OccursAfterFirst(s, sep, i - 1);
      }
    }
    OccursAfterFirst(s, sep, m);
  }

  lemma NotFound(s: string, sep: string)
    requires sep != "" && FoundAt(s, sep, |s|)
    ensures !Contains(s, sep)
  {
  }

  /** Where `sep` first occurs in `s`, or |s| when it does not. */
  function Find(s: string, sep: string): (n: nat)
    requires sep != ""
    ensures n <= |s|
    ensures n < |s| ==> OccursAt(s, sep, n)
    ensures forall i: nat | i < n :: !OccursAt(s, sep, i)
    ensures n == |s| ==> !Contains(s, sep)
  {
    var n := FirstOccurrence(s, sep);
    assert n == |s| ==> !Contains(s, sep) by {
      if n == |s| {
        NotFound(s, sep);
      }
    }
    n
  }

  function FirstOccurrence(s: string, sep: string): (n: nat)
    requires sep != ""
    ensures FoundAt(s, sep, n)
  {
    if s == "" || OccursAt(s, sep, 0) then 0
    else
      var m := FirstOccurrence(s[1..], sep);
      FoundLater(s, sep, m);
      m + 1
  }

  /** `s.split(sep)` for a nonempty separator: leftmost, non-overlapping cuts. */
  function Split(s: string, sep: string): (parts: seq<string>)
    requires sep != ""
    ensures parts != []
    ensures forall p | p in parts :: !Contains(p, sep)
    decreases |s|
  {
    var n := Find(s, sep);
    if n == |s| then [s]
    else
      assert !Contains(s[..n], sep) by {
        forall i: nat | i <= n ensures !OccursAt(s[..n], sep, i) {
          if OccursAt(s[..n], sep, i) {
            assert s[..n][i..i + |sep|] == s[i..i + |sep|];
            assert OccursAt(s, sep, i);
          }
        }
      }
      [s[..n]] + Split(s[n + |sep|..], sep)
  }

  /** Splitting is undone by joining with the same separator. */
  lemma {:induction false} JoinSplit(s: string, sep: string)
    requires sep != ""
    ensures Join(Split(s, sep), sep) == s
    decreases |s|
  {
    hide Find, Contains;
    var n := Find(s, sep);
    if n < |s| {
      var rest := s[n + |sep|..];
      var tail := Split(rest, sep);
      assert Split(s, sep) == [s[..n]] + tail;
      JoinSplit(rest, sep);
      JoinAppend([s[..n]], tail, sep);
      assert s == s[..n] + s[n..n + |sep|] + rest;
    }
  }

  /** Joining parts that are free of the separator's first character and splitting gives them back. */
  lemma {:induction false} SplitJoin(parts: seq<string>, sep: char)
    requires parts != [] && forall p | p in parts :: sep !in p
    ensures Split(Join(parts, [sep]), [sep]) == parts
  {
    hide Find, OccursAt, Contains;
    var p := parts[0];
    if |parts| == 1 {
      FindChar(p, sep, "");
      assert p + "" == p;
    } else {
      var rest := Join(parts[1..], [sep]);
      assert p + [sep] + rest == p + ([sep] + rest);
      FindChar(p, sep, [sep] + rest);
      var s := p + [sep] + rest;
      assert s[..|p|] == p && s[|p| + 1..] == rest;
      SplitJoin(parts[1..], sep);
      assert parts == [p] + parts[1..];
    }
  }

  lemma NotAt(p: string, rest: string, sep: char, i: nat)
    requires sep !in p && i < |p|
    ensures !OccursAt(p + rest, [sep], i)
  {
    assert (p + rest)[i] == p[i];
    assert i + 1 <= |p + rest| ==> (p + rest)[i..i + 1] == [p[i]];
  }

  lemma {:induction false} FindChar(p: string, sep: char, rest: string)
    requires sep !in p && (rest == "" || rest[0] == sep)
    ensures Find(p + rest, [sep]) == |p|
  {
    var s := p + rest;
    var n := Find(s, [sep]);
    if n < |p| {
      NotAt(p, rest, sep, n);
      assert false;
    }
    if rest != "" && |p| < n {
      assert s[|p|..|p| + 1] == [sep];
      assert OccursAt(s, [sep], |p|);
      assert false;
    }
  }

  // ----------------------------------------------------------------- numerals

  function Decimal(n: nat): (s: string)
    ensures s != []
  {
    if n < 10 then [Digit(n)] else Decimal(n / 10) + [Digit(n % 10)]
  }

  function Digit(d: nat): char
    requires d < 10
  {
    '0' + d as char
  }

  /** Numerals hold digits only. */
  lemma {:induction false} DecimalPlain(n: nat)
    ensures forall c | c in Decimal(n) :: '0' <= c <= '9'
  {
    if n >= 10 {
      DecimalPlain(n / 10);
    }
  }

  lemma {:induction false} DecimalInjective(m: nat, n: nat)
    requires Decimal(m) == Decimal(n)
    ensures m == n
  {
    var s := Decimal(m);
    assert s[|s| - 1] == Digit(m % 10) == Digit(n % 10);
    if m >= 10 && n >= 10 {
      assert s[..|s| - 1] == Decimal(m / 10);
      assert s[..|s| - 1] == Decimal(n / 10);
      DecimalInjective(m / 10, n / 10);
    }
  }

  /** `str(n)`. */
  function Integer(n: int): string {
    if n < 0 then "-" + Decimal(-n) else Decimal(n)
  }

  lemma IntegerPlain(n: int)
    ensures ':' !in Integer(n)
  {
    DecimalPlain(if n < 0 then -n else n);
  }

  lemma IntegerInjective(m: int, n: int)
    requires Integer(m) == Integer(n)
    ensures m == n
  {
    var x: nat, y: nat := if m < 0 then -m else m, if n < 0 then -n else n;
    DecimalPlain(x);
    DecimalPlain(y);
    SignShows(m);
    SignShows(n);
    if m < 0 {
      assert Integer(m)[1..] == Decimal(x) && Integer(n)[1..] == Decimal(y);
    }
    DecimalInjective(x, y);
  }

  lemma SignShows(n: int)
    ensures Integer(n) != "" && (Integer(n)[0] == '-' <==> n < 0)
  {
    DecimalPlain(if n < 0 then -n else n);
    if n >= 0 {
      assert Decimal(n)[0] in Decimal(n);
    }
  }

  /** A text is known by its last separator: what precedes it, and what follows it without one. */
  lemma SplitAtLast(a: string, x: string, b: string, y: string, sep: char)
    requires sep !in x && sep !in y && a + [sep] + x == b + [sep] + y
    ensures a == b && x == y
  {
    LastNotInside(a, x, b, y, sep);
    LastNotInside(b, y, a, x, sep);
    var s := a + [sep] + x;
    assert s[..|a|] == a && s[..|b|] == b;
    assert s[|a| + 1..] == x && s[|b| + 1..] == y;
  }

  lemma LastNotInside(a: string, x: string, b: string, y: string, sep: char)
    requires sep !in x && a + [sep] + x == b + [sep] + y
    ensures |b| <= |a|
  {
    assert (b + [sep] + y)[|b|] == sep;
    assert forall i | |a| < i < |a + [sep] + x| :: (a + [sep] + x)[i] == x[i - |a| - 1];
  }

  // ------------------------------------------------------------------ flatten

  function Flatten<T>(xss: seq<seq<T>>): seq<T> {
    if xss == [] then [] else xss[0] + Flatten(xss[1..])
  }

  lemma {:induction false} FlattenAppend<T>(a: seq<seq<T>>, b: seq<seq<T>>)
    ensures Flatten(a + b) == Flatten(a) + Flatten(b)
  {
    if a == [] {
      assert a + b == b;
    } else {
      assert (a + b)[1..] == a[1..] + b;
      FlattenAppend(a[1..], b);
    }
  }
}
