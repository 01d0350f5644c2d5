/** What holds of every run of the multi-agent graph. */
module OrchestratorSafety {
  import opened Common
  import opened Guardrails
  import opened Orchestrator
  import RetrievalMetrics
  import Text

  // ------------------------------------------------------------------ vetting

  predicate EndsWith(visits: seq<Node>, suffix: seq<Node>) {
    |suffix| <= |visits| && visits[|visits| - |suffix|..] == suffix
  }

  /** What the analyst's prompt reads: the question, the caption of an image, the passages, and the reasons
      for which a draft was rejected. */
  lemma PromptReads(s: State, o: Oracle)
    ensures var caption := if s.turn.caption.Some? then s.turn.caption.value else "";
            var reasons := if s.criticReasons.Some? then s.criticReasons.value else [];
            var image := if caption == "" then "" else "\n\nUser-provided image:\n" + caption;
            var feedback :=
              if reasons == [] then ""
              else
                "\n\nA previous draft was rejected for: " + Text.Join(reasons, "; ")
                + "\nAddress those issues; do not repeat unsupported claims.";
            Prompt(s, o) ==
              "Question: " + s.turn.query + image + "\n\nPassages:\n" + o.context(s.retrieved) + feedback
              + "\n\nAnswer with [chunk_id] citations."
  {
    hide Text.Join;
  }

  /** The gate that ran `back` visits ago passed exactly the passages now held. */
  predicate GatePassed(n: nat, back: nat, s: State, o: Oracle) {
    back <= n && o.gate(n - back, s.turn.query, s.retrieved).answerable
  }

  /** The draft written `back` visits ago from exactly the passages and feedback now held. */
  function DraftOf(n: nat, back: nat, s: State, o: Oracle): string
    requires back <= n
  {
    o.draft(n - back, Prompt(s, o))
  }

  predicate Drafted(n: nat, back: nat, s: State, o: Oracle) {
    && back <= n && s.answer == Some(DraftOf(n, back, s, o))
    && s.refused == Some(false) && s.confidence == Some(TopCosine(s.retrieved))
  }

  /** The run came straight through gate, analyst and critic, and all three spoke of one set of passages. */
  predicate Vetted(visits: seq<Node>, s: State, o: Oracle) {
    var n := |visits|;
    && EndsWith(visits, [Gate, Analyst, Critic])
    && GatePassed(n, 3, s, o) && Drafted(n, 2, s, o)
    && o.review(n - 1, s.turn.query, DraftOf(n, 2, s, o), s.retrieved).approved
  }

  predicate Approved(visits: seq<Node>, s: State) {
    EndsWith(visits, [Critic]) && s.criticApproved == Some(true)
  }

  /** Why the run reached compliance without an approved draft. */
  predicate Stopped(visits: seq<Node>, s: State, o: Oracle, cfg: Settings) {
    || (visits == [Supervisor] && !o.checkInput(s.turn.query).allowed)
    || (EndsWith(visits, [Gate]) && !GatePassed(|visits|, 1, s, o))
    || (EndsWith(visits, [Critic]) && s.criticApproved == Some(false)
        && s.criticAttempts.GetOr(0) > cfg.criticMaxRetries && s.answer == Some(cfg.exhaustedText))
  }

  predicate Inv(visits: seq<Node>, node: Node, s: State, o: Oracle, cfg: Settings) {
    match node
    case Supervisor => visits == []
    case Analyst => EndsWith(visits, [Gate]) && GatePassed(|visits|, 1, s, o)
    case Critic =>
      && EndsWith(visits, [Gate, Analyst]) && GatePassed(|visits|, 2, s, o) && Drafted(|visits|, 1, s, o)
      && s.citations == Citations(s.retrieved)
    case Compliance =>
      && s.citations == Citations(s.retrieved)
      && s.refused == Some(!Approved(visits, s))
      && (if Approved(visits, s) then Vetted(visits, s, o) else Stopped(visits, s, o, cfg))
    case _ => true
  }

  lemma Appended(visits: seq<Node>, node: Node)
    ensures EndsWith(visits + [node], [node])
    ensures forall a: Node | EndsWith(visits, [a]) :: EndsWith(visits + [node], [a, node])
    ensures forall a: Node, b: Node | EndsWith(visits, [a, b]) :: EndsWith(visits + [node], [a, b, node])
    ensures forall a: Node | a != node :: !EndsWith(visits + [node], [a])
  {
    var more := visits + [node];
    assert more[|more| - 1..] == [node];
    forall a: Node | EndsWith(visits, [a]) ensures EndsWith(more, [a, node]) {
      assert more[|more| - 2..] == visits[|visits| - 1..] + [node];
    }
    forall a: Node, b: Node | EndsWith(visits, [a, b]) ensures EndsWith(more, [a, b, node]) {
      assert more[|more| - 3..] == visits[|visits| - 2..] + [node];
    }
  }

  lemma EntryKeeps(s: State, o: Oracle, cfg: Settings)
    ensures var s' := RouteNode(s, o); Inv([Supervisor], RouteFromSupervisor(s'), s', o, cfg)
  {
    hide SearchQuery, Or, EndsWith, Vetted;
    Appended([], Supervisor);
    assert [] + [Supervisor] == [Supervisor];
  }

  lemma GateKeeps(visits: seq<Node>, s: State, o: Oracle, cfg: Settings)
    ensures var s' := GateNode(s, |visits|, o); Inv(visits + [Gate], AfterAnswerability(s'), s', o, cfg)
  {
    hide EndsWith, Vetted, Citations, WebOnly;
    Appended(visits, Gate);
  }

  lemma DraftKeeps(visits: seq<Node>, s: State, o: Oracle, cfg: Settings)
    requires Inv(visits, Analyst, s, o, cfg)
    ensures Inv(visits + [Analyst], Critic, AnalystNode(s, |visits|, o), o, cfg)
  {
    hide EndsWith, Citations, TopCosine;
    Appended(visits, Analyst);
  }

  lemma CriticKeeps(visits: seq<Node>, s: State, o: Oracle, cfg: Settings)
    requires Inv(visits, Critic, s, o, cfg)
    ensures var s' := CriticNode(s, |visits|, o, cfg); Inv(visits + [Critic], AfterCritic(s', cfg), s', o, cfg)
  {
    hide EndsWith, Citations, TopCosine, Or;
    Appended(visits, Critic);
  }

  lemma StepKeeps(visits: seq<Node>, node: Node, s: State, o: Oracle, cfg: Settings)
    requires Inv(visits, node, s, o, cfg) && node != Compliance && node != End
    ensures var s' := Update(node, s, |visits|, o, cfg);
            Inv(visits + [node], Next(node, s', cfg), s', o, cfg)
  {
    hide EndsWith, GatePassed, Drafted, Vetted, Stopped, Approved, Citations, RouteNode, GateNode, AnalystNode, CriticNode;
    match node
    case Supervisor =>
      EntryKeeps(s, o, cfg);
      assert visits + [Supervisor] == [Supervisor];
    case Researcher =>
    case WebSearch =>
    case Gate => GateKeeps(visits, s, o, cfg);
    case Analyst => DraftKeeps(visits, s, o, cfg);
    case Critic => CriticKeeps(visits, s, o, cfg);
  }

  // ------------------------------------------------------------------- bounds

  function Count(visits: seq<Node>, node: Node): nat {
    if visits == [] then 0
    else Count(visits[..|visits| - 1], node) + if visits[|visits| - 1] == node then 1 else 0
  }

  lemma CountSnoc(visits: seq<Node>, last: Node, node: Node)
    ensures Count(visits + [last], node) == Count(visits, node) + if last == node then 1 else 0
  {
    assert (visits + [last])[..|visits|] == visits;
  }

  function Rounds(cfg: Settings): nat {
    Max(cfg.criticMaxRetries, 0) + 1
  }

  /** Retrieval returns no more than the reranker keeps and no web passage, and a web search no more
      than it was asked for. */
  ghost predicate Bounded(o: Oracle, cfg: Settings) {
    && (forall n, q, org, asOf ::
          |o.retrieve(n, q, org, asOf)| <= cfg.rerankTopK && WebOnly(o.retrieve(n, q, org, asOf)) == [])
    && (forall n, q, f :: |o.searchWeb(n, q, f)| <= cfg.webMax)
  }

  /** Visits of a round that are over before a node runs. */
  function Offset(node: Node): nat {
    match node
    case Researcher => 0
    case WebSearch => 1
    case Gate => 2
    case Analyst => 3
    case _ => 4
  }

  predicate Small(s: State, attempts: nat, cfg: Settings) {
    && |s.retrieved| <= cfg.rerankTopK + attempts * cfg.webMax
    && |WebOnly(s.retrieved)| <= attempts * cfg.webMax
  }

  /** While the critic's verdict is still ahead, at most so many visits and drafts have been made. */
  predicate LoopBounds(visits: seq<Node>, node: Node, attempts: nat, cfg: Settings) {
    && attempts < Rounds(cfg)
    && |visits| <= 1 + 5 * attempts + Offset(node)
    && Count(visits, Analyst) <= attempts + (if node.Critic? then 1 else 0)
  }

  predicate InBounds(visits: seq<Node>, node: Node, s: State, cfg: Settings) {
    && Count(visits, Compliance) == 0
    && (if node.Supervisor? then visits == []
        else if node.Compliance? then
          && |visits| <= 1 + 5 * Rounds(cfg) && Count(visits, Analyst) <= Rounds(cfg)
          && s.criticAttempts.GetOr(0) <= Rounds(cfg)
        else if node.End? then true
        else s.criticAttempts.GetOr(-1) >= 0 && LoopBounds(visits, node, s.criticAttempts.GetOr(-1), cfg))
  }

  /** So many passages are held before a node runs. */
  predicate InSize(node: Node, s: State, cfg: Settings) {
    var attempts := s.criticAttempts.GetOr(-1);
    match node
    case Supervisor => true
    case End => true
    case Compliance =>
      && s.criticAttempts.GetOr(0) >= 0
      && |s.retrieved| <= cfg.rerankTopK + (s.criticAttempts.GetOr(0) + 1) * cfg.webMax
    case Researcher => attempts >= 0 && |WebOnly(s.retrieved)| <= attempts * cfg.webMax
    case WebSearch => attempts >= 0 && Small(s, attempts, cfg)
    case _ => attempts >= 0 && Small(s, attempts + 1, cfg)
  }

  lemma {:induction false} WebOnlyAppend(a: seq<Passage>, b: seq<Passage>)
    ensures WebOnly(a + b) == WebOnly(a) + WebOnly(b)
  {
    if a == [] {
      assert a + b == b;
    } else {
      assert (a + b)[1..] == a[1..] + b;
      WebOnlyAppend(a[1..], b);
      var head, x, y := if a[0].web then [a[0]] else [], WebOnly(a[1..]), WebOnly(b);
      assert head + (x + y) == (head + x) + y;
    }
  }

  lemma {:induction false} WebOnlyTwice(s: seq<Passage>)
    ensures WebOnly(WebOnly(s)) == WebOnly(s)
  {
    if s != [] {
      WebOnlyTwice(s[1..]);
      if s[0].web {
        WebOnlyAppend([s[0]], WebOnly(s[1..]));
        assert WebOnly([s[0]]) == [s[0]] + WebOnly([]);
      } else {
        assert [] + WebOnly(s[1..]) == WebOnly(s[1..]);
      }
    }
  }

  lemma OneMore(attempts: nat, cfg: Settings)
    ensures (attempts + 1) * cfg.webMax == attempts * cfg.webMax + cfg.webMax
  {
  }

  lemma ResearchSizes(corpus: seq<Passage>, prior: seq<Passage>, attempts: nat, cfg: Settings)
    requires |corpus| <= cfg.rerankTopK && WebOnly(corpus) == [] && |WebOnly(prior)| <= attempts * cfg.webMax
    ensures var all := corpus + WebOnly(prior);
            && |all| <= cfg.rerankTopK + attempts * cfg.webMax
            && |all| <= cfg.rerankTopK + (attempts + 1) * cfg.webMax
            && |WebOnly(all)| <= attempts * cfg.webMax
            && |WebOnly(all)| <= (attempts + 1) * cfg.webMax
  {
    hide WebOnly;
    WebOnlyAppend(corpus, WebOnly(prior));
    WebOnlyTwice(prior);
    OneMore(attempts, cfg);
  }

  lemma ResearchSize(s: State, n: nat, o: Oracle, cfg: Settings)
    requires Bounded(o, cfg) && InSize(Researcher, s, cfg)
    ensures var s' := ResearchNode(s, n, o); InSize(AfterResearch(s'), s', cfg)
  {
    hide Or, Bounded, WebOnly;
    var query := Or(s.searchQuery, s.turn.query);
    RetrieveBounded(n, query, s, o, cfg);
    ResearchSizes(o.retrieve(n, query, s.turn.orgId, s.turn.asOf), s.retrieved, s.criticAttempts.GetOr(-1), cfg);
  }

  lemma RetrieveBounded(n: nat, query: string, s: State, o: Oracle, cfg: Settings)
    requires Bounded(o, cfg)
    ensures var corpus := o.retrieve(n, query, s.turn.orgId, s.turn.asOf);
            |corpus| <= cfg.rerankTopK && WebOnly(corpus) == []
  {
  }

  lemma SearchBounded(n: nat, query: string, freshness: bool, o: Oracle, cfg: Settings)
    requires Bounded(o, cfg)
    ensures |o.searchWeb(n, query, freshness)| <= cfg.webMax
  {
  }

  lemma WebSize(s: State, n: nat, o: Oracle, cfg: Settings)
    requires Bounded(o, cfg) && InSize(WebSearch, s, cfg)
    ensures InSize(Gate, WebNode(s, n, o), cfg)
  {
    hide Or, Bounded;
    var query, freshness := Or(s.searchQuery, s.turn.query), s.needsFreshness.GetOr(false);
    var results := o.searchWeb(n, query, freshness);
    SearchBounded(n, query, freshness, o, cfg);
    WebOnlyAppend(s.retrieved, results);
    OneMore(s.criticAttempts.GetOr(-1), cfg);
  }

  lemma CriticSize(s: State, n: nat, o: Oracle, cfg: Settings)
    requires InSize(Critic, s, cfg)
    ensures var s' := CriticNode(s, n, o, cfg); InSize(AfterCritic(s', cfg), s', cfg)
  {
    hide Or, WebOnly;
    OneMore(s.criticAttempts.GetOr(-1) + 1, cfg);
  }

  /** Nodes that retrieve nothing. */
  lemma OtherSize(node: Node, s: State, n: nat, o: Oracle, cfg: Settings)
    requires InSize(node, s, cfg) && (node.Supervisor? || node.Gate? || node.Analyst?)
    ensures var s' := Update(node, s, n, o, cfg); InSize(Next(node, s', cfg), s', cfg)
  {
    hide SearchQuery, Or, Citations, TopCosine, Prompt;
  }

  lemma StepSize(node: Node, s: State, n: nat, o: Oracle, cfg: Settings)
    requires Bounded(o, cfg) && InSize(node, s, cfg) && node != Compliance && node != End
    ensures var s' := Update(node, s, n, o, cfg); InSize(Next(node, s', cfg), s', cfg)
  {
    hide InSize, Bounded, RouteNode, ResearchNode, WebNode, GateNode, AnalystNode, CriticNode;
    match node
    case Researcher => ResearchSize(s, n, o, cfg);
    case WebSearch => WebSize(s, n, o, cfg);
    case Critic => CriticSize(s, n, o, cfg);
    case _ => OtherSize(node, s, n, o, cfg);
  }

  lemma EntryBounds(s: State, o: Oracle, cfg: Settings)
    ensures var s' := RouteNode(s, o); InBounds([Supervisor], RouteFromSupervisor(s'), s', cfg)
  {
    hide SearchQuery, Or;
    CountSnoc([], Supervisor, Analyst);
    CountSnoc([], Supervisor, Compliance);
    assert [] + [Supervisor] == [Supervisor];
  }

  lemma SearchBounds(visits: seq<Node>, node: Node, s: State, n: nat, o: Oracle, cfg: Settings)
    requires InBounds(visits, node, s, cfg) && (node.Researcher? || node.WebSearch?)
    ensures var s' := Update(node, s, n, o, cfg); InBounds(visits + [node], Next(node, s', cfg), s', cfg)
  {
    hide Or, WebOnly, Count;
    CountSnoc(visits, node, Analyst);
    CountSnoc(visits, node, Compliance);
  }

  lemma GateBounds(visits: seq<Node>, s: State, n: nat, o: Oracle, cfg: Settings)
    requires InBounds(visits, Gate, s, cfg)
    ensures var s' := GateNode(s, n, o); InBounds(visits + [Gate], AfterAnswerability(s'), s', cfg)
  {
    hide Citations, WebOnly, Count;
    CountSnoc(visits, Gate, Analyst);
    CountSnoc(visits, Gate, Compliance);
  }

  lemma DraftBounds(visits: seq<Node>, s: State, n: nat, o: Oracle, cfg: Settings)
    requires InBounds(visits, Analyst, s, cfg)
    ensures InBounds(visits + [Analyst], Critic, AnalystNode(s, n, o), cfg)
  {
    hide Citations, TopCosine, Prompt, Count;
    CountSnoc(visits, Analyst, Analyst);
    CountSnoc(visits, Analyst, Compliance);
  }

  lemma CriticBounds(visits: seq<Node>, s: State, n: nat, o: Oracle, cfg: Settings)
    requires InBounds(visits, Critic, s, cfg)
    ensures var s' := CriticNode(s, n, o, cfg); InBounds(visits + [Critic], AfterCritic(s', cfg), s', cfg)
  {
    hide Or, Count;
    CountSnoc(visits, Critic, Analyst);
    CountSnoc(visits, Critic, Compliance);
  }

  lemma StepBounds(visits: seq<Node>, node: Node, s: State, n: nat, o: Oracle, cfg: Settings)
    requires InBounds(visits, node, s, cfg) && node != Compliance && node != End
    ensures var s' := Update(node, s, n, o, cfg); InBounds(visits + [node], Next(node, s', cfg), s', cfg)
  {
    hide RouteNode, ResearchNode, WebNode, GateNode, AnalystNode, CriticNode;
    match node
    case Supervisor =>
      EntryBounds(s, o, cfg);
      assert visits + [Supervisor] == [Supervisor];
    case Gate => GateBounds(visits, s, n, o, cfg);
    case Analyst => DraftBounds(visits, s, n, o, cfg);
    case Critic => CriticBounds(visits, s, n, o, cfg);
    case _ => SearchBounds(visits, node, s, n, o, cfg);
  }

  // --------------------------------------------------------------- whole runs

  /** Every run ends in one visit to compliance, in a state that keeps the invariants. */
  lemma {:induction false} RunEnds(visits: seq<Node>, node: Node, s: State, o: Oracle, cfg: Settings)
    returns (before: seq<Node>, last: State)
    requires Inv(visits, node, s, o, cfg) && node != End
    ensures Run(visits, node, s, o, cfg) == Outcome(before + [Compliance], ComplianceNode(last, o, cfg))
    ensures Inv(before, Compliance, last, o, cfg)
    ensures InBounds(visits, node, s, cfg) ==> InBounds(before, Compliance, last, cfg)
    ensures Bounded(o, cfg) && InSize(node, s, cfg) ==> InSize(Compliance, last, cfg)
    ensures last == AtCompliance(visits, node, s, o, cfg) && last.turn == s.turn
    decreases node == Supervisor, RetriesLeft(node, s, cfg), Place(node)
  {
    hide Inv, InBounds, InSize, Bounded, ComplianceNode, RetriesLeft;
    var s' := Update(node, s, |visits|, o, cfg);
    if node == Compliance {
      before, last := visits, s;
      assert Run(visits + [Compliance], End, s', o, cfg) == Outcome(visits + [Compliance], s');
    } else {
      StepKeeps(visits, node, s, o, cfg);
      if InBounds(visits, node, s, cfg) {
        StepBounds(visits, node, s, |visits|, o, cfg);
      }
      if Bounded(o, cfg) && InSize(node, s, cfg) {
        StepSize(node, s, |visits|, o, cfg);
      }
      RunMeasure(node, s, |visits|, o, cfg);
      KeepsTurn(node, s, |visits|, o, cfg);
      before, last := RunEnds(visits + [node], Next(node, s', cfg), s', o, cfg);
    }
  }

  lemma KeepsTurn(node: Node, s: State, n: nat, o: Oracle, cfg: Settings)
    ensures Update(node, s, n, o, cfg).turn == s.turn
    ensures node != Compliance && node != End ==> Next(node, Update(node, s, n, o, cfg), cfg) != End
  {
    hide Citations, TopCosine, WebOnly, Or, OutputVerdict, CitedPassages, SearchQuery;
  }

  /** The state that compliance reviews. */
  function Reviewed(turn: Turn, checkpoint: State, o: Oracle, cfg: Settings): State {
    AtCompliance([], Supervisor, Begin(turn, checkpoint), o, cfg)
  }

  lemma AskEnds(turn: Turn, checkpoint: State, o: Oracle, cfg: Settings)
    returns (before: seq<Node>, last: State)
    ensures Ask(turn, checkpoint, o, cfg) == Outcome(before + [Compliance], ComplianceNode(last, o, cfg))
    ensures Inv(before, Compliance, last, o, cfg) && last.turn == turn
    ensures InBounds(before, Compliance, last, cfg) && (Bounded(o, cfg) ==> InSize(Compliance, last, cfg))
    ensures last == Reviewed(turn, checkpoint, o, cfg)
  {
    before, last := RunEnds([], Supervisor, Begin(turn, checkpoint), o, cfg);
  }

  /** What compliance makes of a draft: it is redacted and may get a disclaimer; should nothing be
      left of it, the draft itself stands. */
  function Released(draft: string, p: Patterns): string {
    Or(Some(p.redact(WithDisclaimer(draft, false, p))), draft)
  }

  /** A draft is released redacted, behind it a disclaimer unless it carries one; should redaction leave
      nothing, the draft itself is. */
  ghost predicate ReleasedAs(answer: string, draft: string, p: Patterns) {
    exists text :: ReleasedText(text, draft, p) && answer == (if text != "" then text else draft)
  }

  ghost predicate ReleasedText(text: string, draft: string, p: Patterns) {
    if p.disclaims(draft) then text == p.redact(draft)
    else exists t :: TrimmedTo(draft, t) && text == p.redact(t + p.disclaimer)
  }

  lemma ReleasedIs(draft: string, p: Patterns)
    ensures ReleasedAs(Released(draft, p), draft, p)
  {
    hide Text.IsSpace;
    var t := Text.StripRight(draft);
    assert TrimmedTo(draft, t);
    var text := p.redact(WithDisclaimer(draft, false, p));
    assert ReleasedText(text, draft, p);
  }

  lemma ApprovedAnswer(s: State, draft: string, o: Oracle, cfg: Settings)
    requires s.refused == Some(false) && s.answer == Some(draft)
    requires !ComplianceNode(s, o, cfg).refused.GetOr(false)
    ensures ComplianceNode(s, o, cfg).answer == Some(Released(draft, o.patterns))
    ensures ComplianceNode(s, o, cfg).confidence == s.confidence
  {
    hide Citations, CitedPassages, PassageIds, CitationIds, FindAll, CitedIds, Reasons, WithDisclaimer;
  }

  /** A response that is not refused came straight from the gate, the analyst and an approving critic,
      all of whom worked on exactly the passages it reports; its answer is the last draft, up to
      disclaimer and redaction. */
  lemma SafeAnswer(turn: Turn, checkpoint: State, o: Oracle, cfg: Settings)
    ensures var out := Ask(turn, checkpoint, o, cfg);
            var r, n, p := Respond(out.final), |out.visits|, out.final.retrieved;
            !r.refused ==>
              && EndsWith(out.visits, [Gate, Analyst, Critic, Compliance])
              && var draft := o.draft(n - 3, Prompt(out.final, o));
                 && o.gate(n - 4, turn.query, p).answerable
                 && o.review(n - 2, turn.query, draft, p).approved
                 && out.final.turn == turn && ReleasedAs(r.answer, draft, o.patterns)
                 && r.retrievedIds == PassageIds(p) && r.confidence == TopCosine(p)
  {
    hide Ask, Inv, ComplianceNode, EndsWith, Released, ReleasedAs, TopCosine, PassageIds, FeedbackText, PromptHead, Reviewed;
    var before, last := AskEnds(turn, checkpoint, o, cfg);
    ComplianceInv(before, last, o, cfg);
    ComplianceKeeps(last, o, cfg);
    RefusedAtCompliance(before, last, o, cfg);
    if Approved(before, last) && !ComplianceNode(last, o, cfg).refused.GetOr(false) {
      Ends4(before);
      ApprovedAnswer(last, DraftOf(|before|, 2, last, o), o, cfg);
      ReleasedIs(DraftOf(|before|, 2, last, o), o.patterns);
    }
  }

  lemma ComplianceInv(visits: seq<Node>, s: State, o: Oracle, cfg: Settings)
    requires Inv(visits, Compliance, s, o, cfg)
    ensures s.citations == Citations(s.retrieved) && s.refused == Some(!Approved(visits, s))
    ensures Approved(visits, s) ==> Vetted(visits, s, o)
    ensures !Approved(visits, s) ==> Stopped(visits, s, o, cfg)
  {
  }

  lemma Ends4(visits: seq<Node>)
    requires EndsWith(visits, [Gate, Analyst, Critic])
    ensures EndsWith(visits + [Compliance], [Gate, Analyst, Critic, Compliance])
  {
    var more := visits + [Compliance];
    assert more[|more| - 4..] == visits[|visits| - 3..] + [Compliance];
  }

  /** Compliance refuses exactly when the run was stopped, or the guardrail blocks the approved draft. */
  lemma RefusedAtCompliance(visits: seq<Node>, s: State, o: Oracle, cfg: Settings)
    requires Inv(visits, Compliance, s, o, cfg)
    ensures ComplianceNode(s, o, cfg).refused.GetOr(false) <==>
            || Stopped(visits, s, o, cfg)
            || (Approved(visits, s) && !OutputVerdict(s.answer.GetOr(""), PassageIds(s.retrieved),
                  PassageIds(s.retrieved), false, cfg.requireCitations, o.patterns).allowed)
  {
    hide Citations, TopCosine, CitedPassages, PassageIds, CitationIds, OutputVerdict, FeedbackText, PromptHead, Or;
    CitationIdsMatch(s.retrieved);
    StoppedShape(visits, s, o, cfg);
  }

  /** Why a finished run refused: a blocked question, a gate that found the passages wanting, a critic
      whose budget is spent, or an output that the guardrail blocks. */
  predicate Cause(visits: seq<Node>, s: State, o: Oracle, cfg: Settings)
    requires |visits| >= 2
  {
    var n := |visits|;
    var ids := PassageIds(s.retrieved);
    match visits[n - 2]
    case Supervisor => n == 2 && !o.checkInput(s.turn.query).allowed
    case Gate => !o.gate(n - 2, s.turn.query, s.retrieved).answerable
    case Critic =>
      || (s.criticApproved == Some(false) && s.criticAttempts.GetOr(0) > cfg.criticMaxRetries)
      || (s.criticApproved == Some(true) && n >= 3
          && !OutputVerdict(DraftOf(n, 3, s, o), ids, ids, false, cfg.requireCitations, o.patterns).allowed)
    case _ => false
  }

  lemma SameDraft(n: nat, s: State, t: State, o: Oracle)
    requires n >= 2 && t.turn == s.turn && t.retrieved == s.retrieved && t.criticReasons == s.criticReasons
    ensures DraftOf(n + 1, 3, t, o) == DraftOf(n, 2, s, o)
  {
    hide FeedbackText, PromptHead;
  }

  lemma LastOf(before: seq<Node>)
    requires before != []
    ensures (before + [Compliance])[|before + [Compliance]| - 2] == before[|before| - 1]
    ensures |before| == 1 && before[0] == Supervisor <==> before == [Supervisor]
  {
  }

  lemma StoppedBySupervisor(before: seq<Node>, s: State, t: State, o: Oracle, cfg: Settings)
    requires Inv(before, Compliance, s, o, cfg) && before != [] && before[|before| - 1] == Supervisor
    requires t == ComplianceNode(s, o, cfg)
    ensures Cause(before + [Compliance], t, o, cfg) <==> t.refused.GetOr(false)
  {
    hide Citations, OutputVerdict, PassageIds, ComplianceNode, DraftOf, Drafted, GatePassed, Vetted, EndsWith;
    RefusedAtCompliance(before, s, o, cfg);
    StoppedShape(before, s, o, cfg);
    ComplianceKeeps(s, o, cfg);
    LastOf(before);
  }

  lemma StoppedByGate(before: seq<Node>, s: State, t: State, o: Oracle, cfg: Settings)
    requires Inv(before, Compliance, s, o, cfg) && before != [] && before[|before| - 1] == Gate
    requires t == ComplianceNode(s, o, cfg)
    ensures Cause(before + [Compliance], t, o, cfg) <==> t.refused.GetOr(false)
  {
    hide Citations, OutputVerdict, PassageIds, ComplianceNode, DraftOf, Drafted, Vetted, EndsWith;
    RefusedAtCompliance(before, s, o, cfg);
    StoppedShape(before, s, o, cfg);
    ComplianceKeeps(s, o, cfg);
    LastOf(before);
  }

  lemma StoppedByCritic(before: seq<Node>, s: State, t: State, o: Oracle, cfg: Settings)
    requires Inv(before, Compliance, s, o, cfg) && before != [] && before[|before| - 1] == Critic
    requires t == ComplianceNode(s, o, cfg)
    ensures Cause(before + [Compliance], t, o, cfg) <==> t.refused.GetOr(false)
  {
    hide Citations, OutputVerdict, PassageIds, ComplianceNode, DraftOf, EndsWith, GatePassed;
    RefusedAtCompliance(before, s, o, cfg);
    StoppedShape(before, s, o, cfg);
    ComplianceKeeps(s, o, cfg);
    LastOf(before);
    if Approved(before, s) {
      SameDraft(|before|, s, t, o);
    }
  }

  lemma StoppedCause(before: seq<Node>, s: State, t: State, o: Oracle, cfg: Settings)
    requires Inv(before, Compliance, s, o, cfg) && |before| >= 1 && t == ComplianceNode(s, o, cfg)
    ensures Cause(before + [Compliance], t, o, cfg) <==> t.refused.GetOr(false)
  {
    hide Citations, OutputVerdict, ComplianceNode, Vetted, Cause, EndsWith, GatePassed;
    StoppedShape(before, s, o, cfg);
    match before[|before| - 1]
    case Supervisor => StoppedBySupervisor(before, s, t, o, cfg);
    case Gate => StoppedByGate(before, s, t, o, cfg);
    case Critic => StoppedByCritic(before, s, t, o, cfg);
    case _ =>
  }

  lemma ComplianceKeeps(s: State, o: Oracle, cfg: Settings)
    ensures var t := ComplianceNode(s, o, cfg);
            && t.turn == s.turn && t.retrieved == s.retrieved && t.criticApproved == s.criticApproved
            && t.criticAttempts == s.criticAttempts && t.criticReasons == s.criticReasons
  {
    hide Citations, CitedPassages, PassageIds, CitationIds, OutputVerdict, Or;
  }

  /** A response is refused exactly for one of the four causes; in particular an exhausted critic
      budget is refused for certain. */
  lemma RefusedExactly(turn: Turn, checkpoint: State, o: Oracle, cfg: Settings)
    ensures var out := Ask(turn, checkpoint, o, cfg);
            |out.visits| >= 2 && (Respond(out.final).refused <==> Cause(out.visits, out.final, o, cfg))
  {
    hide Ask, Inv, Cause, ComplianceNode;
    var before, last := AskEnds(turn, checkpoint, o, cfg);
    ComplianceInv(before, last, o, cfg);
    StoppedShape(before, last, o, cfg);
    StoppedCause(before, last, ComplianceNode(last, o, cfg), o, cfg);
  }

  lemma StoppedShape(visits: seq<Node>, s: State, o: Oracle, cfg: Settings)
    ensures Approved(visits, s) || Stopped(visits, s, o, cfg) ==> visits != []
    ensures forall a: Node :: EndsWith(visits, [a]) <==> visits != [] && visits[|visits| - 1] == a
    ensures EndsWith(visits, [Gate, Analyst, Critic]) ==> |visits| >= 3
  {
    if visits != [] {
      assert visits[|visits| - 1..] == [visits[|visits| - 1]];
    }
  }

  lemma CitationIdsMatch(retrieved: seq<Passage>)
    ensures CitationIds(Citations(retrieved)) == PassageIds(retrieved)
  {
  }

  /** Every run visits compliance once, runs the analyst at most once more than it may retry and stays
      within five visits a round; and where the retrievals are bounded it holds no more passages than
      those of its rounds add up to. */
  lemma RunBounds(turn: Turn, checkpoint: State, o: Oracle, cfg: Settings)
    ensures var out := Ask(turn, checkpoint, o, cfg);
            && Count(out.visits, Compliance) == 1
            && Count(out.visits, Analyst) <= Max(cfg.criticMaxRetries, 0) + 1
            && |out.visits| <= 2 + 5 * (Max(cfg.criticMaxRetries, 0) + 1)
            && (Bounded(o, cfg) ==>
                  |out.final.retrieved| <= cfg.rerankTopK + (out.final.criticAttempts.GetOr(0) + 1) * cfg.webMax)
  {
    hide Citations, TopCosine, Ask, CitedPassages, Inv, PassageIds, CitationIds, OutputVerdict, Bounded, Telemetry, Or,
      Reviewed;
    var before, last := AskEnds(turn, checkpoint, o, cfg);
    CountSnoc(before, Compliance, Compliance);
    CountSnoc(before, Compliance, Analyst);
  }

  // ---------------------------------------------------------------- citations

  lemma {:induction false} CitedPassagesIds(retrieved: seq<Passage>, ids: seq<string>)
    requires forall id | id in ids :: id in PassageIds(retrieved)
    ensures PassageIds(CitedPassages(retrieved, ids)) == ids
  {
    hide PassageIds, ById;
    if ids != [] {
      var p, rest := ById(retrieved, ids[0]), CitedPassages(retrieved, ids[1..]);
      assert forall id | id in ids[1..] :: id in ids;
      CitedPassagesIds(retrieved, ids[1..]);
      PassageIdsCons(p, rest);
      assert ids == [ids[0]] + ids[1..];
    }
  }

  lemma PassageIdsCons(p: Passage, rest: seq<Passage>)
    ensures PassageIds([p] + rest) == [p.id] + PassageIds(rest)
  {
  }

  lemma SameKnown(ids: seq<string>)
    ensures Elements(ids) + Elements(ids) == set id | id in ids
  {
  }

  /** The guardrail's verdict over what compliance holds: its hallucinated ids are those of the
      citation metrics, and its grounded ids were all retrieved. */
  lemma VerdictAgrees(answer: string, ids: seq<string>, refused: bool, required: bool, p: Patterns)
    ensures var v := OutputVerdict(answer, ids, ids, refused, required, p);
            && v.hallucinated == RetrievalMetrics.CiteMetrics(v.citedIds, ids).hallucinated
            && forall id | id in v.groundedIds :: id in ids
  {
    hide NonCitation, FindAll;
    var cited := CitedIds(FindAll(answer));
    CitedIdsCorrect(FindAll(answer));
    SameKnown(ids);
    WithinOutside(cited, Elements(ids) + Elements(ids));
    RetrievalMetrics.UniqueFixed(cited);
    RetrievalMetrics.UniqueFixed([]);
  }

  /** In every run: the response cites retrieved passages only; where the answer cites any id that was
      retrieved, its citations are exactly those ids in order of first mention, and otherwise all that
      was retrieved; and the guardrail and the metrics agree on what was hallucinated. */
  lemma CitationsSound(turn: Turn, checkpoint: State, o: Oracle, cfg: Settings)
    ensures var r := Respond(Ask(turn, checkpoint, o, cfg).final);
            var v := OutputOf(Reviewed(turn, checkpoint, o, cfg), o, cfg);
            && Ask(turn, checkpoint, o, cfg).final == ComplianceNode(Reviewed(turn, checkpoint, o, cfg), o, cfg)
            && (forall id | id in CitationIds(r.citations) :: id in r.retrievedIds)
            && CitationIds(r.citations) == (if v.groundedIds != [] then v.groundedIds else r.retrievedIds)
            && r.metrics.Some? && r.metrics.value.refused == r.refused
            && v.hallucinated == r.metrics.value.hallucinated
  {
    hide Citations, TopCosine, Ask, CitedPassages, Inv, PassageIds, CitationIds, OutputVerdict, Vetted, Stopped, Reviewed;
    var before, last := AskEnds(turn, checkpoint, o, cfg);
    ComplianceInv(before, last, o, cfg);
    CitationIdsMatch(last.retrieved);
    var ids := PassageIds(last.retrieved);
    var v := OutputOf(last, o, cfg);
    VerdictAgrees(last.answer.GetOr(""), ids, last.refused.GetOr(false), cfg.requireCitations, o.patterns);
    CitedPassagesIds(last.retrieved, v.groundedIds);
    CitationIdsMatch(CitedPassages(last.retrieved, v.groundedIds));
    IdsEmpty(CitedPassages(last.retrieved, v.groundedIds));
  }

  lemma IdsEmpty(retrieved: seq<Passage>)
    ensures PassageIds(retrieved) == [] <==> retrieved == []
  {
    assert |PassageIds(retrieved)| == |retrieved|;
  }

  // ------------------------------------------------- what turns do depend on

  /** An oracle that lets every draft through, and whose analyst tells one prompt from all others. */
  function Telltale(prompt: string, newId: string): Oracle {
    Oracle(
      query => InputVerdict(true, [], Some("q")),
      reasons => "",
      reasons => "",
      query => Plan(Corpus, false, None),
      (n, query, org, asOf) => [],
      (n, query, freshness) => [],
      (n, query, passages) => Answerability(true, ""),
      (missing, web, other) => "",
      passages => "",
      (n, told) => if told == prompt then "same" else "other",
      (n, query, draft, passages) => Critique(true, [], None),
      Patterns(text => true, text => false, text => text, ""),
      newId)
  }

  const LENIENT := Settings(0, false, 0, 0, "")

  /** The states a turn passes through when its verdicts are those of a telltale oracle. */
  lemma TelltaleEntry(turn: Turn, s: State, prompt: string, newId: string)
    ensures var s1 := RouteNode(Begin(turn, s), Telltale(prompt, newId));
            && s1.allowed && s1.route == Some(Corpus) && s1.retrieved == [] && s1.turn == turn && Feedback(s1) == Feedback(s)
  {
    hide SearchQuery, Or;
  }

  lemma TelltaleLoop(s1: State, prompt: string, newId: string)
    requires s1.allowed && s1.route == Some(Corpus) && s1.retrieved == []
    ensures var o := Telltale(prompt, newId);
            var s2 := ResearchNode(s1, 1, o);
            var s3 := GateNode(s2, 2, o);
            var s4 := AnalystNode(s3, 3, o);
            var s5 := CriticNode(s4, 4, o, LENIENT);
            && AfterResearch(s2) == Gate && AfterAnswerability(s3) == Analyst
            && AfterCritic(s5, LENIENT) == Compliance
            && s5.answer == Some(if PromptHead(s1.turn, "") + Feedback(s1) + PROMPT_TAIL == prompt then "same" else "other")
            && s5.refused == Some(false)
  {
    hide Or, Citations, Unanswerable, Rejected, TopCosine, FeedbackText, PromptHead;
  }

  lemma TelltaleAnswer(s5: State, prompt: string, newId: string)
    requires s5.answer.Some? && s5.answer.value != "" && s5.refused == Some(false)
    ensures Respond(ComplianceNode(s5, Telltale(prompt, newId), LENIENT)).answer == s5.answer.value
  {
    hide Citations, CitedPassages, PassageIds, CitationIds, CitedIds, FindAll, Reasons;
  }

  lemma TelltaleRun(turn: Turn, s: State, prompt: string, newId: string)
    ensures Respond(Ask(turn, s, Telltale(prompt, newId), LENIENT).final).answer
         == if PromptHead(turn, "") + Feedback(s) + PROMPT_TAIL == prompt then "same" else "other"
  {
    hide Run, Telltale, RouteNode, ResearchNode, GateNode, AnalystNode, CriticNode, ComplianceNode, Respond, FeedbackText, PromptHead;
    var o := Telltale(prompt, newId);
    var s1 := RouteNode(Begin(turn, s), o);
    var s2 := ResearchNode(s1, 1, o);
    var s3 := GateNode(s2, 2, o);
    var s4 := AnalystNode(s3, 3, o);
    var s5 := CriticNode(s4, 4, o, LENIENT);
    TelltaleEntry(turn, s, prompt, newId);
    TelltaleLoop(s1, prompt, newId);
    TelltaleAnswer(s5, prompt, newId);
    RunStep([], Supervisor, Begin(turn, s), o, [Supervisor]);
    RunStep([Supervisor], Researcher, s1, o, [Supervisor, Researcher]);
    RunStep([Supervisor, Researcher], Gate, s2, o, [Supervisor, Researcher, Gate]);
    RunStep([Supervisor, Researcher, Gate], Analyst, s3, o, [Supervisor, Researcher, Gate, Analyst]);
    var visits := [Supervisor, Researcher, Gate, Analyst];
    RunStep(visits, Critic, s4, o, visits + [Critic]);
    RunStep(visits + [Critic], Compliance, s5, o, visits + [Critic, Compliance]);
    RunOver(visits + [Critic, Compliance], ComplianceNode(s5, o, LENIENT), o);
  }

  lemma RunStep(visits: seq<Node>, node: Node, s: State, o: Oracle, more: seq<Node>)
    requires node != End && more == visits + [node]
    ensures var s' := Update(node, s, |visits|, o, LENIENT);
            Run(visits, node, s, o, LENIENT) == Run(more, Next(node, s', LENIENT), s', o, LENIENT)
  {
    hide Update, Next;
  }

  lemma RunOver(visits: seq<Node>, s: State, o: Oracle)
    ensures Run(visits, End, s, o, LENIENT) == Outcome(visits, s)
  {
  }

  predicate SameTurn(turn: Turn, a: State, b: State, o: Oracle, cfg: Settings) {
    var x, y := Ask(turn, a, o, cfg), Ask(turn, b, o, cfg);
    x.visits == y.visits && Respond(x.final) == Respond(y.final)
  }

  lemma PromptTells(head: string, a: string, b: string, tail: string)
    requires head + a + tail == head + b + tail
    ensures a == b
  {
    var s := head + a + tail;
    assert |a| == |b|;
    assert s[|head|..|head| + |a|] == a && s[|head|..|head| + |b|] == b;
  }

  /** Feedback is equal exactly for reasons that read alike: none at all on both sides, or the same text
      once they are joined. So it does not tell one reason "a; b" from the two reasons "a" and "b". */
  lemma FeedbackReads(a: State, b: State)
    ensures var x, y := a.criticReasons.GetOr([]), b.criticReasons.GetOr([]);
            Feedback(a) == Feedback(b) <==>
              if x == [] || y == [] then x == y else Text.Join(x, "; ") == Text.Join(y, "; ")
    ensures Text.Join(["a; b"], "; ") == Text.Join(["a", "b"], "; ")
  {
    hide Text.Join;
    var x, y := a.criticReasons.GetOr([]), b.criticReasons.GetOr([]);
    if x != [] && y != [] && Feedback(a) == Feedback(b) {
      PromptTells("\n\nA previous draft was rejected for: ", Text.Join(x, "; "), Text.Join(y, "; "),
        "\nAddress those issues; do not repeat unsupported claims.");
    }
    JoinedAlike();
  }

  lemma JoinedAlike()
    ensures Text.Join(["a; b"], "; ") == Text.Join(["a", "b"], "; ")
  {
    assert ["a", "b"][1..] == ["b"];
    assert Text.Join(["b"], "; ") == "b";
    assert "a" + "; " + "b" == "a; b";
  }

  /** A trace id, if any. */
  function Trace(s: State): string {
    Or(s.traceId, "")
  }

  lemma TracesTell(x: Option<string>, y: Option<string>, newId: string)
    requires newId == Or(x, "") + Or(y, "") + "!"
    ensures Or(x, newId) == Or(y, newId) <==> Or(x, "") == Or(y, "")
  {
    assert |newId| > |Or(x, "")| && |newId| > |Or(y, "")|;
  }

  lemma SameTrace(x: Option<string>, y: Option<string>, newId: string)
    requires Or(x, "") == Or(y, "")
    ensures Or(x, newId) == Or(y, newId)
  {
  }

  /** Other feedback can give another answer. */
  lemma FeedbackTells(a: State, b: State)
    requires Feedback(a) != Feedback(b)
    ensures exists turn, o :: !SameTurn(turn, a, b, o, LENIENT)
  {
    hide Ask, Respond, Telltale, FeedbackText, PromptHead;
    var turn := Turn("q", None, "", None);
    var head := PromptHead(turn, "");
    var prompt := head + Feedback(a) + PROMPT_TAIL;
    TelltaleRun(turn, a, prompt, "");
    TelltaleRun(turn, b, prompt, "");
    if prompt == head + Feedback(b) + PROMPT_TAIL {
      PromptTells(head, Feedback(a), Feedback(b), PROMPT_TAIL);
    }
    assert !SameTurn(turn, a, b, Telltale(prompt, ""), LENIENT);
  }

  /** Another trace id gives another response. */
  lemma TraceTells(a: State, b: State)
    requires Trace(a) != Trace(b)
    ensures exists turn, o :: !SameTurn(turn, a, b, o, LENIENT)
  {
    hide Ask, Respond, Or;
    var turn, newId := Turn("q", None, "", None), Trace(a) + Trace(b) + "!";
    var o := Telltale("", newId);
    TraceOfTurn(turn, a, o, LENIENT);
    TraceOfTurn(turn, b, o, LENIENT);
    TracesTell(a.traceId, b.traceId, newId);
    assert !SameTurn(turn, a, b, o, LENIENT);
  }

  /** Two things in a checkpoint are all that a turn depends on, the feedback left by the turn before and
      the trace id: two checkpoints give equal turns under all requests, verdicts and settings exactly when
      they agree on the text of the one and on the other, an empty id counting as none. */
  lemma TurnsDependExactly(a: State, b: State)
    ensures (forall turn, o, cfg :: SameTurn(turn, a, b, o, cfg)) <==> Feedback(a) == Feedback(b) && Trace(a) == Trace(b)
  {
    hide Ask, Respond, FeedbackText, Or;
    if Feedback(a) != Feedback(b) {
      FeedbackTells(a, b);
    } else if Trace(a) != Trace(b) {
      TraceTells(a, b);
    } else {
      forall turn, o: Oracle, cfg ensures SameTurn(turn, a, b, o, cfg) {
        TurnsIndependent(turn, a, b, o, cfg);
        SameTrace(a.traceId, b.traceId, o.newTraceId);
      }
    }
  }
}
