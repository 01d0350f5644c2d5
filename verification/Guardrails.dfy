/** The output guardrail: the citation scanner and the verdict built on it. */
module Guardrails {
  import opened Common
  import opened Text

  // ---------------------------------------------------------- citation scanner

  predicate IsDigit(c: char) { '0' <= c <= '9' }

  predicate IsUpper(c: char) { 'A' <= c <= 'Z' }

  predicate IsIdChar(c: char) {
    IsDigit(c) || IsUpper(c) || 'a' <= c <= 'z' || c == '_' || c == '-'
  }

  function IdRun(s: string): (n: nat)
    ensures n <= |s|
    ensures forall i | 0 <= i < n :: IsIdChar(s[i])
    ensures n < |s| ==> !IsIdChar(s[n])
  {
    if s != "" && IsIdChar(s[0]) then 1 + IdRun(s[1..]) else 0
  }

  datatype Mention = Mention(at: nat, id: string)

  /** `[token]` stands at position `i` of `s`, with a token of at least four id characters. */
  predicate MentionedAt(s: string, m: Mention) {
    var close := m.at + 1 + |m.id|;
    && close < |s| && s[m.at] == '[' && s[close] == ']'
    && s[m.at + 1..close] == m.id && |m.id| >= 4
    && forall i | 0 <= i < |m.id| :: IsIdChar(m.id[i])
  }

  /** `CITATION_RE.finditer`: leftmost matches that do not overlap, scanning from `from`. */
  function Mentions(s: string, from: nat): seq<Mention>
    requires from <= |s|
    decreases |s| - from
  {
    if from == |s| then []
    else if s[from] != '[' then Mentions(s, from + 1)
    else
      var n := IdRun(s[from + 1..]);
      var close := from + 1 + n;
      if n >= 4 && close < |s| && s[close] == ']' then
        [Mention(from, s[from + 1..close])] + Mentions(s, close + 1)
      else Mentions(s, from + 1)
  }

  function Ids(mentions: seq<Mention>): (ids: seq<string>)
    ensures |ids| == |mentions|
  {
    seq(|mentions|, i requires 0 <= i < |mentions| => mentions[i].id)
  }

  function FindAll(s: string): seq<string> {
    Ids(Mentions(s, 0))
  }

  lemma MentionRun(s: string, m: Mention)
    requires MentionedAt(s, m)
    ensures IdRun(s[m.at + 1..]) == |m.id|
  {
    var rest := s[m.at + 1..];
    forall i | 0 <= i < |m.id| ensures rest[i] == m.id[i] {
      assert s[m.at + 1..m.at + 1 + |m.id|][i] == rest[i];
    }
    assert rest[|m.id|] == ']';
    RunExactly(rest, |m.id|);
  }

  lemma {:induction false} RunExactly(s: string, n: nat)
    requires n < |s| && !IsIdChar(s[n]) && forall i | 0 <= i < n :: IsIdChar(s[i])
    ensures IdRun(s) == n
  {
    hide IsIdChar;
    if n > 0 {
      RunExactly(s[1..], n - 1);
    }
  }

  /** `ms` lists, in text order, exactly the mentions from a position on. */
  ghost predicate Lists(ms: seq<Mention>, s: string, from: nat) {
    && (forall i | 0 <= i < |ms| :: MentionedAt(s, ms[i]) && from <= ms[i].at)
    && (forall i, j | 0 <= i < j < |ms| :: ms[i].at < ms[j].at)
    && (forall m: Mention | from <= m.at && MentionedAt(s, m) :: m in ms)
  }

  lemma ListsSkip(ms: seq<Mention>, s: string, from: nat)
    requires Lists(ms, s, from + 1) && forall m: Mention | m.at == from :: !MentionedAt(s, m)
    ensures Lists(ms, s, from)
  {
    hide MentionedAt;
  }

  lemma ListsTake(first: Mention, rest: seq<Mention>, s: string, next: nat)
    requires MentionedAt(s, first) && first.at < next && Lists(rest, s, next)
    requires forall m: Mention | first.at <= m.at < next && MentionedAt(s, m) :: m == first
    ensures Lists([first] + rest, s, first.at)
  {
    hide MentionedAt;
    var ms := [first] + rest;
    forall m: Mention | first.at <= m.at && MentionedAt(s, m) ensures m in ms {
      if m.at < next {
        assert ms[0] == m;
      }
    }
  }

  predicate MatchesAt(s: string, from: nat)
    requires from < |s|
  {
    var close := from + 1 + IdRun(s[from + 1..]);
    s[from] == '[' && IdRun(s[from + 1..]) >= 4 && close < |s| && s[close] == ']'
  }

  lemma NoMatchHere(s: string, from: nat)
    requires from < |s| && !MatchesAt(s, from)
    ensures forall m: Mention | m.at == from :: !MentionedAt(s, m)
  {
    hide MentionedAt, IsIdChar;
    forall m: Mention | m.at == from ensures !MentionedAt(s, m) {
      if MentionedAt(s, m) {
        MentionRun(s, m);
        MentionShape(s, m);
      }
    }
  }

  /** The scanner misses no citation and invents none: its matches from a position on are exactly
      the bracketed ids there, in text order. */
  lemma {:induction false} MentionsComplete(s: string, from: nat)
    requires from <= |s|
    ensures Lists(Mentions(s, from), s, from)
    decreases |s| - from
  {
    hide MentionedAt, Lists, IsIdChar, IdRun, Mentions;
    MentionsStep(s, from);
    if from == |s| {
      NothingThere(s);
    } else if MatchesAt(s, from) {
      var n := IdRun(s[from + 1..]);
      MentionsComplete(s, from + 2 + n);
      MatchHere(s, from, n);
      ListsTake(Mention(from, s[from + 1..from + 1 + n]), Mentions(s, from + 2 + n), s, from + 2 + n);
    } else {
      MentionsComplete(s, from + 1);
      NoMatchHere(s, from);
      ListsSkip(Mentions(s, from + 1), s, from);
    }
  }

  lemma MentionsStep(s: string, from: nat)
    requires from <= |s|
    ensures from == |s| ==> Mentions(s, from) == []
    ensures from < |s| && !MatchesAt(s, from) ==> Mentions(s, from) == Mentions(s, from + 1)
    ensures from < |s| && MatchesAt(s, from) ==>
              var n := IdRun(s[from + 1..]);
              Mentions(s, from) == [Mention(from, s[from + 1..from + 1 + n])] + Mentions(s, from + 2 + n)
  {
    hide IdRun, IsIdChar;
  }

  lemma MentionShape(s: string, m: Mention)
    requires MentionedAt(s, m)
    ensures m.at + 1 + |m.id| < |s| && s[m.at] == '[' && s[m.at + 1 + |m.id|] == ']' && |m.id| >= 4
    ensures m.id == s[m.at + 1..m.at + 1 + |m.id|]
  {
  }

  lemma NothingThere(s: string)
    ensures Lists([], s, |s|)
  {
  }

  lemma MatchHere(s: string, from: nat, n: nat)
    requires from < |s| && s[from] == '[' && n == IdRun(s[from + 1..]) && n >= 4
    requires from + 1 + n < |s| && s[from + 1 + n] == ']'
    ensures var first := Mention(from, s[from + 1..from + 1 + n]);
            && MentionedAt(s, first)
            && forall m: Mention | from <= m.at < from + 2 + n && MentionedAt(s, m) :: m == first
  {
    hide IsIdChar;
    var first := Mention(from, s[from + 1..from + 1 + n]);
    forall i | 0 <= i < n ensures IsIdChar(first.id[i]) {
      assert first.id[i] == s[from + 1..][i];
    }
    forall m: Mention | from <= m.at < from + 2 + n && MentionedAt(s, m) ensures m == first {
      if m.at == from {
        MentionRun(s, m);
      } else {
        BracketFree(s, first, m.at);
      }
    }
  }

  lemma BracketFree(s: string, m: Mention, at: nat)
    requires MentionedAt(s, m) && m.at < at <= m.at + 1 + |m.id|
    ensures s[at] != '['
  {
    if at <= m.at + |m.id| {
      assert m.id[at - m.at - 1] == s[at];
    }
  }

  // --------------------------------------------------------------- cited ids

  /** Digits alone, or a redaction placeholder: bracketed text that is no citation. */
  predicate NonCitation(t: string) {
    || (t != "" && forall i | 0 <= i < |t| :: IsDigit(t[i]))
    || ("REDACTED_" < t && forall i | 9 <= i < |t| :: IsUpper(t[i]))
  }

  /** The ids cited by a list of tokens, each once, in the order of first mention. */
  function CitedIds(tokens: seq<string>): seq<string> {
    if tokens == [] then []
    else
      var n := |tokens| - 1;
      var before := CitedIds(tokens[..n]);
      if NonCitation(tokens[n]) || tokens[n] in before then before else before + [tokens[n]]
  }

  /** The position at which `t` first stands in `tokens`. */
  function FirstAt(tokens: seq<string>, t: string): (n: nat)
    ensures n <= |tokens|
    ensures n < |tokens| ==> tokens[n] == t
    ensures forall i | 0 <= i < n :: tokens[i] != t
  {
    if tokens == [] || tokens[0] == t then 0 else 1 + FirstAt(tokens[1..], t)
  }

  lemma {:induction false} FirstAtPrefix(tokens: seq<string>, n: nat, t: string)
    requires n <= |tokens|
    ensures t in tokens[..n] ==> FirstAt(tokens[..n], t) == FirstAt(tokens, t) < n
    ensures t !in tokens[..n] ==> FirstAt(tokens, t) >= n
  {
    var a, b := FirstAt(tokens[..n], t), FirstAt(tokens, t);
    if a < n {
      assert tokens[a] == t;
    }
    if b < n {
      assert tokens[..n][b] == t;
    }
  }

  /** No id twice, exactly the tokens that are citations, and ordered by first mention. */
  lemma {:induction false} CitedIdsCorrect(tokens: seq<string>)
    ensures var ids := CitedIds(tokens);
            && Distinct(ids)
            && (forall t :: t in ids <==> t in tokens && !NonCitation(t))
            && (forall i, j | 0 <= i < j < |ids| :: FirstAt(tokens, ids[i]) < FirstAt(tokens, ids[j]))
  {
    hide NonCitation;
    if tokens != [] {
      var n := |tokens| - 1;
      var prior, last := tokens[..n], tokens[n];
      CitedIdsCorrect(prior);
      assert tokens == prior + [last];
      var before, ids := CitedIds(prior), CitedIds(tokens);
      forall i, j | 0 <= i < j < |ids| ensures FirstAt(tokens, ids[i]) < FirstAt(tokens, ids[j]) {
        FirstAtPrefix(tokens, n, ids[i]);
        FirstAtPrefix(tokens, n, ids[j]);
        assert ids[i] == before[i];
        if j < |before| {
          assert ids[j] == before[j];
        }
      }
    }
  }

  method ScanCitations(answer: string) returns (citedIds: seq<string>)
    ensures citedIds == CitedIds(FindAll(answer))
  {
    hide NonCitation, FindAll;
    citedIds := [];
    var tokens := FindAll(answer);
    for n := 0 to |tokens|
      invariant citedIds == CitedIds(tokens[..n])
    {
      assert tokens[..n + 1][..n] == tokens[..n];
      if NonCitation(tokens[n]) || tokens[n] in citedIds {
        continue;
      }
      citedIds := citedIds + [tokens[n]];
    }
    assert tokens[..|tokens|] == tokens;
  }

  // ------------------------------------------------------------------ verdict

  /** The pattern lists and the disclaimer, about which nothing is assumed: whether a text carries
      a disclaimer, whether it orders a filing today, and what redaction makes of it. */
  datatype Patterns = Patterns(
    disclaims: string -> bool,
    directs: string -> bool,
    redact: string -> string,
    disclaimer: string)

  /** Why the guardrails flagged or blocked a text; the first five come from the input check. */
  datatype Reason =
    | InputTooLong | EmptyInput | PromptInjection | ControlTokenInjection | PiiDetected
    | AddedDisclaimer | CitationsRebuilt | NoInlineCitations | HallucinatedCitation
    | OverconfidentDirective

  datatype Verdict = Verdict(
    allowed: bool,
    reasons: seq<Reason>,
    sanitized: Option<string>,
    citedIds: seq<string>,
    groundedIds: seq<string>,
    hallucinated: seq<string>,
    risk: real)

  function WithDisclaimer(answer: string, alreadyRefused: bool, p: Patterns): string {
    if !alreadyRefused && !p.disclaims(answer) then StripRight(answer) + p.disclaimer else answer
  }

  /** Every cited id is fabricated, in an answer that has to be grounded. */
  predicate Fabricated(answer: string, known: set<string>) {
    var cited := CitedIds(FindAll(answer));
    cited != [] && forall id | id in cited :: id !in known
  }

  /** `check_output`; `retrieved` and `citations` are given by their ids. */
  method CheckOutput(
    answer: string, citations: seq<string>, retrieved: seq<string>,
    alreadyRefused: bool, requireCitations: bool, p: Patterns)
    returns (v: Verdict)
    ensures v == OutputVerdict(answer, citations, retrieved, alreadyRefused, requireCitations, p)
  {
    hide NonCitation, FindAll, CitedIds, StripRight, Within, Outside, Elements;
    var reasons: seq<Reason> := [];
    var sanitized := answer;
    if !alreadyRefused && !p.disclaims(answer) {
      sanitized := StripRight(answer) + p.disclaimer;
      reasons := reasons + [AddedDisclaimer];
    }
    if requireCitations && retrieved != [] && citations == [] {
      reasons := reasons + [CitationsRebuilt];
    }
    ghost var early := When(!alreadyRefused && !p.disclaims(answer), AddedDisclaimer)
      + When(requireCitations && retrieved != [] && citations == [], CitationsRebuilt);
    assert reasons == early;
    var known := Elements(retrieved) + Elements(citations);
    var citedIds := ScanCitations(answer);
    var grounded, hallucinated := Within(citedIds, known), Outside(citedIds, known);
    if requireCitations && retrieved != [] && !alreadyRefused {
      if citedIds == [] && known != {} {
        reasons := reasons + [NoInlineCitations];
      }
      if hallucinated != [] {
        reasons := reasons + [HallucinatedCitation];
        if grounded == [] {
          return Verdict(false, reasons, None, citedIds, grounded, hallucinated, 0.9);
        }
      }
    }
    assert reasons == Reasons(citations, retrieved, alreadyRefused, requireCitations,
      p.disclaims(answer), citedIds, known);
    if p.directs(answer) {
      reasons := reasons + [OverconfidentDirective];
      return Verdict(false, reasons, None, [], [], [], 0.6);
    }
    sanitized := p.redact(sanitized);
    var risk := if hallucinated != [] then 0.5 else if reasons != [] then 0.1 else 0.0;
    return Verdict(true, reasons, Some(sanitized), citedIds, grounded, hallucinated, risk);
  }

  function When(b: bool, reason: Reason): seq<Reason> {
    if b then [reason] else []
  }

  /** The soft flags, in the order in which they are raised, which is alphabetical already. */
  function Reasons(
    citations: seq<string>, retrieved: seq<string>, alreadyRefused: bool, requireCitations: bool,
    disclaimed: bool, cited: seq<string>, known: set<string>): seq<Reason>
  {
    var required := requireCitations && retrieved != [];
    When(!alreadyRefused && !disclaimed, AddedDisclaimer)
    + When(required && citations == [], CitationsRebuilt)
    + When(required && !alreadyRefused && cited == [] && known != {}, NoInlineCitations)
    + When(required && !alreadyRefused && Outside(cited, known) != [], HallucinatedCitation)
  }

  function OutputVerdict(
    answer: string, citations: seq<string>, retrieved: seq<string>,
    alreadyRefused: bool, requireCitations: bool, p: Patterns): Verdict
  {
    var known := Elements(retrieved) + Elements(citations);
    var cited := CitedIds(FindAll(answer));
    var grounded, hallucinated := Within(cited, known), Outside(cited, known);
    var required := requireCitations && retrieved != [];
    var reasons :=
      Reasons(citations, retrieved, alreadyRefused, requireCitations, p.disclaims(answer), cited, known);
    if required && !alreadyRefused && hallucinated != [] && grounded == [] then
      Verdict(false, reasons, None, cited, grounded, hallucinated, 0.9)
    else if p.directs(answer) then
      Verdict(false, reasons + [OverconfidentDirective], None, [], [], [], 0.6)
    else
      Verdict(true, reasons, Some(p.redact(WithDisclaimer(answer, alreadyRefused, p))),
        cited, grounded, hallucinated,
        if hallucinated != [] then 0.5 else if reasons != [] then 0.1 else 0.0)
  }

  /** An answer is blocked exactly when it orders a filing today or, where citations are required
      of an answer that is no refusal, everything it cites is fabricated. */
  lemma BlockedExactly(
    answer: string, citations: seq<string>, retrieved: seq<string>,
    alreadyRefused: bool, requireCitations: bool, p: Patterns)
    ensures var v := OutputVerdict(answer, citations, retrieved, alreadyRefused, requireCitations, p);
            !v.allowed <==>
            || p.directs(answer)
            || (requireCitations && retrieved != [] && !alreadyRefused
                && Fabricated(answer, Elements(retrieved) + Elements(citations)))
  {
    hide NonCitation, FindAll, CitedIds, StripRight;
    var known := Elements(retrieved) + Elements(citations);
    var cited := CitedIds(FindAll(answer));
    WithinOutside(cited, known);
    if cited != [] {
      assert cited[0] in cited;
    }
    if Within(cited, known) != [] {
      assert Within(cited, known)[0] in Within(cited, known);
    }
    if Outside(cited, known) != [] {
      assert Outside(cited, known)[0] in Outside(cited, known);
    }
  }

  lemma NoDirectiveAmongReasons(
    citations: seq<string>, retrieved: seq<string>, alreadyRefused: bool, requireCitations: bool,
    disclaimed: bool, cited: seq<string>, known: set<string>)
    ensures OverconfidentDirective !in
              Reasons(citations, retrieved, alreadyRefused, requireCitations, disclaimed, cited, known)
  {
    hide Outside;
  }

  /** What an answer is told to have cited, also when it is blocked for fabrication: exactly the
      bracketed ids in its text, but for digits and redaction placeholders; grounded when known,
      hallucinated when not. Only the block of a directive reports nothing. */
  lemma VerdictCitations(
    answer: string, citations: seq<string>, retrieved: seq<string>,
    alreadyRefused: bool, requireCitations: bool, p: Patterns, id: string)
    ensures var v := OutputVerdict(answer, citations, retrieved, alreadyRefused, requireCitations, p);
            if OverconfidentDirective in v.reasons then
              !v.allowed && v.citedIds == v.groundedIds == v.hallucinated == []
            else
              && (id in v.citedIds <==> !NonCitation(id) && exists at: nat :: MentionedAt(answer, Mention(at, id)))
              && (id in v.groundedIds <==> id in v.citedIds && (id in retrieved || id in citations))
              && (id in v.hallucinated <==> id in v.citedIds && id !in retrieved && id !in citations)
  {
    hide NonCitation, StripRight, Reasons, FindAll, CitedIds;
    var cited := CitedIds(FindAll(answer));
    NoDirectiveAmongReasons(citations, retrieved, alreadyRefused, requireCitations, p.disclaims(answer), cited,
      Elements(retrieved) + Elements(citations));
    CitedIdsCorrect(FindAll(answer));
    WithinOutside(cited, Elements(retrieved) + Elements(citations));
    FoundIffMentioned(answer, id);
  }

  lemma FoundIffMentioned(answer: string, id: string)
    ensures id in FindAll(answer) <==> exists at: nat :: MentionedAt(answer, Mention(at, id))
  {
    hide MentionedAt;
    var ms := Mentions(answer, 0);
    MentionsComplete(answer, 0);
    if id in FindAll(answer) {
      var i :| 0 <= i < |ms| && ms[i].id == id;
      assert ms[i] in ms && ms[i] == Mention(ms[i].at, id);
    }
    if at: nat :| MentionedAt(answer, Mention(at, id)) {
      var i :| 0 <= i < |ms| && ms[i] == Mention(at, id);
      assert FindAll(answer)[i] == id;
    }
  }

  // ------------------------------------------------- the verdict, cause by cause

  /** An answer cites an id: the id stands in brackets in it and is none of the bracketed texts that are
      no citations. */
  ghost predicate Cites(answer: string, id: string) {
    !NonCitation(id) && exists at: nat :: MentionedAt(answer, Mention(at, id))
  }

  lemma CitedExactly(answer: string, id: string)
    ensures id in CitedIds(FindAll(answer)) <==> Cites(answer, id)
  {
    hide NonCitation, FindAll, MentionedAt;
    CitedIdsCorrect(FindAll(answer));
    FoundIffMentioned(answer, id);
  }

  /** What is no citation: a number, or the placeholder of a redaction. */
  lemma NonCitationsExactly(t: string)
    ensures NonCitation(t) <==>
              || (t != "" && forall c | c in t :: c in "0123456789")
              || (exists kind :: kind != "" && t == "REDACTED_" + kind
                                 && forall c | c in kind :: c in "ABCDEFGHIJKLMNOPQRSTUVWXYZ")
  {
    forall c: char ensures (IsDigit(c) <==> c in "0123456789") && (IsUpper(c) <==> c in "ABCDEFGHIJKLMNOPQRSTUVWXYZ") {
      LettersAndDigits(c);
    }
    if "REDACTED_" < t {
      assert t == "REDACTED_" + t[9..];
    }
    if kind :| kind != "" && t == "REDACTED_" + kind && forall c | c in kind :: c in "ABCDEFGHIJKLMNOPQRSTUVWXYZ" {
      assert forall i | 9 <= i < |t| :: t[i] == kind[i - 9];
    }
  }

  lemma LettersAndDigits(c: char)
    ensures IsDigit(c) <==> c in "0123456789"
    ensures IsUpper(c) <==> c in "ABCDEFGHIJKLMNOPQRSTUVWXYZ"
    ensures 'a' <= c <= 'z' <==> c in "abcdefghijklmnopqrstuvwxyz"
  {
  }

  /** The characters of ids. */
  lemma IdCharsExactly(c: char)
    ensures IsIdChar(c) <==>
              || c in "ABCDEFGHIJKLMNOPQRSTUVWXYZ" || c in "abcdefghijklmnopqrstuvwxyz"
              || c in "0123456789" || c in "_-"
  {
    hide IsDigit, IsUpper;
    LettersAndDigits(c);
  }

  /** `t` is a text without the white space at its end. */
  predicate TrimmedTo(text: string, t: string) {
    t <= text && Blank(text[|t|..]) && (t == "" || !IsSpace(t[|t| - 1]))
  }

  /** What is released: an answer that is no refusal and carries no disclaimer gets one behind its text,
      any other stays as it is, and both are redacted; what is blocked has no text. */
  lemma VerdictText(
    answer: string, citations: seq<string>, retrieved: seq<string>,
    alreadyRefused: bool, requireCitations: bool, p: Patterns)
    ensures var v := OutputVerdict(answer, citations, retrieved, alreadyRefused, requireCitations, p);
            if !v.allowed then v.sanitized == None
            else if !alreadyRefused && !p.disclaims(answer) then
              exists t :: TrimmedTo(answer, t) && v.sanitized == Some(p.redact(t + p.disclaimer))
            else v.sanitized == Some(p.redact(answer))
  {
    hide NonCitation, FindAll, CitedIds, IsSpace, Reasons;
    var t := StripRight(answer);
    assert TrimmedTo(answer, t);
  }

  /** Everything that an answer cites is fabricated, where citations are required of it. */
  ghost predicate AllFabricated(
    answer: string, citations: seq<string>, retrieved: seq<string>, alreadyRefused: bool, requireCitations: bool)
  {
    && requireCitations && retrieved != [] && !alreadyRefused
    && (exists id :: Cites(answer, id))
    && (forall id | Cites(answer, id) :: id !in retrieved && id !in citations)
  }

  lemma SomeMember(ids: seq<string>)
    ensures ids != [] <==> exists id :: id in ids
  {
    if ids != [] {
      assert ids[0] in ids;
    }
  }

  lemma AllFabricatedIs(
    answer: string, citations: seq<string>, retrieved: seq<string>, alreadyRefused: bool, requireCitations: bool)
    ensures var known := Elements(retrieved) + Elements(citations);
            var cited := CitedIds(FindAll(answer));
            && (AllFabricated(answer, citations, retrieved, alreadyRefused, requireCitations) <==>
                  requireCitations && retrieved != [] && !alreadyRefused
                  && Outside(cited, known) != [] && Within(cited, known) == [])
            && (cited != [] <==> exists id :: Cites(answer, id))
            && (Outside(cited, known) != [] <==>
                  exists id :: Cites(answer, id) && id !in retrieved && id !in citations)
  {
    hide FindAll, CitedIds, Cites;
    var known := Elements(retrieved) + Elements(citations);
    var cited := CitedIds(FindAll(answer));
    forall id ensures id in cited <==> Cites(answer, id) {
      CitedExactly(answer, id);
    }
    WithinOutside(cited, known);
    SomeMember(cited);
    SomeMember(Outside(cited, known));
    SomeMember(Within(cited, known));
  }

  predicate OutputReason(r: Reason) {
    r.AddedDisclaimer? || r.CitationsRebuilt? || r.NoInlineCitations? || r.HallucinatedCitation?
    || r.OverconfidentDirective?
  }

  /** The order in which reasons are reported: by name, a directive last. */
  function Rank(r: Reason): int {
    match r
    case AddedDisclaimer => 0
    case CitationsRebuilt => 1
    case HallucinatedCitation => 2
    case NoInlineCitations => 3
    case OverconfidentDirective => 4
    case _ => -1
  }

  /** Each reason is given exactly for its cause, once and in order. */
  lemma VerdictReasons(
    answer: string, citations: seq<string>, retrieved: seq<string>,
    alreadyRefused: bool, requireCitations: bool, p: Patterns)
    ensures var reasons := OutputVerdict(answer, citations, retrieved, alreadyRefused, requireCitations, p).reasons;
            var required := requireCitations && retrieved != [];
            && (AddedDisclaimer in reasons <==> !alreadyRefused && !p.disclaims(answer))
            && (CitationsRebuilt in reasons <==> required && citations == [])
            && (NoInlineCitations in reasons <==> required && !alreadyRefused && !exists id :: Cites(answer, id))
    ensures var reasons := OutputVerdict(answer, citations, retrieved, alreadyRefused, requireCitations, p).reasons;
            && (HallucinatedCitation in reasons <==>
                  requireCitations && retrieved != [] && !alreadyRefused
                  && exists id :: Cites(answer, id) && id !in retrieved && id !in citations)
            && (OverconfidentDirective in reasons <==>
                  p.directs(answer) && !AllFabricated(answer, citations, retrieved, alreadyRefused, requireCitations))
    ensures var reasons := OutputVerdict(answer, citations, retrieved, alreadyRefused, requireCitations, p).reasons;
            && (forall r | r in reasons :: OutputReason(r))
            && forall i, j | 0 <= i < j < |reasons| :: Rank(reasons[i]) < Rank(reasons[j])
  {
    hide FindAll, CitedIds, Cites, Outside, Within, StripRight, Reasons, AllFabricated, Elements, OutputVerdict;
    var known := Elements(retrieved) + Elements(citations);
    AllFabricatedIs(answer, citations, retrieved, alreadyRefused, requireCitations);
    if retrieved != [] {
      KnownRetrieved(retrieved, citations);
    }
    var cited := CitedIds(FindAll(answer));
    ReasonsMembers(citations, retrieved, alreadyRefused, requireCitations, p.disclaims(answer), cited, known);
    ReasonsGiven(answer, citations, retrieved, alreadyRefused, requireCitations, p);
    var early := Reasons(citations, retrieved, alreadyRefused, requireCitations, p.disclaims(answer), cited, known);
    var fabricated := AllFabricated(answer, citations, retrieved, alreadyRefused, requireCitations);
    assert forall r | r in early :: Rank(r) < 4 by {
      EarlyRanks(early);
    }
    OneMoreFlag(early, p.directs(answer) && !fabricated, OverconfidentDirective);
  }

  lemma EarlyRanks(reasons: seq<Reason>)
    requires forall r | r in reasons :: OutputReason(r) && r != OverconfidentDirective
    ensures forall r | r in reasons :: Rank(r) < 4
  {
  }

  lemma ReasonsGiven(
    answer: string, citations: seq<string>, retrieved: seq<string>,
    alreadyRefused: bool, requireCitations: bool, p: Patterns)
    ensures var known := Elements(retrieved) + Elements(citations);
            var cited := CitedIds(FindAll(answer));
            var required := requireCitations && retrieved != [] && !alreadyRefused;
            var fabricated := required && Outside(cited, known) != [] && Within(cited, known) == [];
            OutputVerdict(answer, citations, retrieved, alreadyRefused, requireCitations, p).reasons ==
              Reasons(citations, retrieved, alreadyRefused, requireCitations, p.disclaims(answer), cited, known)
            + When(p.directs(answer) && !fabricated, OverconfidentDirective)
  {
    hide FindAll, CitedIds, Outside, Within, StripRight, Reasons, Elements;
  }

  lemma KnownRetrieved(retrieved: seq<string>, citations: seq<string>)
    requires retrieved != []
    ensures Elements(retrieved) + Elements(citations) != {}
  {
    assert retrieved[0] in Elements(retrieved);
  }

  lemma ReasonsMembers(
    citations: seq<string>, retrieved: seq<string>, alreadyRefused: bool, requireCitations: bool,
    disclaimed: bool, cited: seq<string>, known: set<string>)
    ensures var rs := Reasons(citations, retrieved, alreadyRefused, requireCitations, disclaimed, cited, known);
            var required := requireCitations && retrieved != [];
            && (AddedDisclaimer in rs <==> !alreadyRefused && !disclaimed)
            && (CitationsRebuilt in rs <==> required && citations == [])
            && (NoInlineCitations in rs <==> required && !alreadyRefused && cited == [] && known != {})
            && (HallucinatedCitation in rs <==> required && !alreadyRefused && Outside(cited, known) != [])
            && (forall r | r in rs :: OutputReason(r) && r != OverconfidentDirective)
            && InOrder(rs)
  {
    hide When;
    assert cited == [] ==> Outside(cited, known) == [];
    var required := requireCitations && retrieved != [];
    FourFlags(!alreadyRefused && !disclaimed, required && citations == [],
      required && !alreadyRefused && cited == [] && known != {},
      required && !alreadyRefused && Outside(cited, known) != []);
  }

  predicate InOrder(flags: seq<Reason>) {
    forall i, j | 0 <= i < j < |flags| :: Rank(flags[i]) < Rank(flags[j])
  }

  lemma FourFlags(a: bool, b: bool, c: bool, d: bool)
    requires !(c && d)
    ensures var rs := When(a, AddedDisclaimer) + When(b, CitationsRebuilt) + When(c, NoInlineCitations)
                      + When(d, HallucinatedCitation);
            && (AddedDisclaimer in rs <==> a) && (CitationsRebuilt in rs <==> b)
            && (NoInlineCitations in rs <==> c) && (HallucinatedCitation in rs <==> d)
            && (forall r | r in rs :: OutputReason(r) && r != OverconfidentDirective)
            && InOrder(rs)
  {
    hide When, InOrder;
    assert InOrder([]) by { NoFlags(); }
    var one, two := When(a, AddedDisclaimer), When(a, AddedDisclaimer) + When(b, CitationsRebuilt);
    OneMoreFlag([], a, AddedDisclaimer);
    assert [] + one == one;
    OneMoreFlag(one, b, CitationsRebuilt);
    OneMoreFlag(two, c, NoInlineCitations);
    OneMoreFlag(two, d, HallucinatedCitation);
    NotRaised(NoInlineCitations);
    NotRaised(HallucinatedCitation);
    if c {
      assert two + When(c, NoInlineCitations) + [] == two + When(c, NoInlineCitations);
    } else {
      assert two + [] == two;
    }
  }

  lemma NoFlags()
    ensures InOrder([])
  {
  }

  lemma NotRaised(flag: Reason)
    ensures When(false, flag) == []
  {
  }

  lemma OneMoreFlag(flags: seq<Reason>, raised: bool, flag: Reason)
    requires InOrder(flags) && forall r | r in flags :: Rank(r) < Rank(flag)
    ensures var more := flags + When(raised, flag);
            InOrder(more) && forall r :: r in more <==> r in flags || (raised && r == flag)
  {
    hide Rank;
  }

  /** The risk of each outcome: a fabricated answer, a directive, a hallucinated id, another flag, none. */
  lemma VerdictRisk(
    answer: string, citations: seq<string>, retrieved: seq<string>,
    alreadyRefused: bool, requireCitations: bool, p: Patterns)
    ensures var v := OutputVerdict(answer, citations, retrieved, alreadyRefused, requireCitations, p);
            v.risk ==
              if AllFabricated(answer, citations, retrieved, alreadyRefused, requireCitations) then 0.9
              else if p.directs(answer) then 0.6
              else if exists id :: Cites(answer, id) && id !in retrieved && id !in citations then 0.5
              else if v.reasons != [] then 0.1
              else 0.0
  {
    hide FindAll, CitedIds, Cites, Outside, Within, StripRight, Reasons, AllFabricated;
    AllFabricatedIs(answer, citations, retrieved, alreadyRefused, requireCitations);
  }
}
