/** What a run of the multi-agent graph has to do with the question: where its passages come from, which
    way it takes, what its analyst is told, and what it answers when it refuses. */
module OrchestratorHistory {
  import opened Common
  import opened Guardrails
  import opened Orchestrator
  import opened OrchestratorSafety
  import RetrievalMetrics

  // ------------------------------------------------------------- what is asked

  /** The question as the supervisor reads it. */
  function Asked(turn: Turn, o: Oracle): string {
    var guard := o.checkInput(turn.query);
    if guard.sanitized.Some? && guard.sanitized.value != "" then guard.sanitized.value else turn.query
  }

  /** The first search: the plan's query or else the question, with the caption of an image. */
  function FirstQuery(turn: Turn, o: Oracle): string {
    var planned := o.plan(Asked(turn, o)).searchQuery;
    var query := if planned.Some? && planned.value != "" then planned.value else Asked(turn, o);
    var full :=
      if turn.caption.Some? && turn.caption.value != "" then query + "\n\nImage: " + turn.caption.value else query;
    if full != "" then full else turn.query
  }

  predicate LastCritic(visits: seq<Node>, m: nat) {
    m < |visits| && visits[m] == Critic && forall k | m < k < |visits| :: visits[k] != Critic
  }

  /** The critique of the visit `m`, for some draft and passages. */
  function ReviewAt(m: nat, draft: string, passages: seq<Passage>, turn: Turn, o: Oracle): Critique {
    o.review(m, turn.query, draft, passages)
  }

  /** What a search asks after some visits: the suggestion of the last critic, who rejected a draft; failing
      one, what was asked before; and at first the planned query. */
  ghost predicate QueryAt(visits: seq<Node>, query: string, turn: Turn, o: Oracle)
    decreases |visits|
  {
    if Critic !in visits then query == FirstQuery(turn, o)
    else
      exists m: nat, draft, passages ::
        && LastCritic(visits, m) && !ReviewAt(m, draft, passages, turn, o).approved
        && (var suggested := ReviewAt(m, draft, passages, turn, o).suggestedQuery;
            if suggested.Some? && suggested.value != "" then query == suggested.value
            else QueryAt(visits[..m], query, turn, o))
  }

  /** What the analyst is told after some visits: the reasons of the last critic, who rejected a draft, and
      before that those which the checkpoint holds. */
  ghost predicate ReasonsAt(
    visits: seq<Node>, reasons: Option<seq<string>>, turn: Turn, checkpoint: State, o: Oracle)
  {
    if Critic !in visits then reasons == checkpoint.criticReasons
    else
      exists m: nat, draft, passages ::
        && LastCritic(visits, m) && !ReviewAt(m, draft, passages, turn, o).approved
        && (var given := ReviewAt(m, draft, passages, turn, o).reasons;
            reasons == Some(if given != [] then given else ["unsupported_claims"]))
  }

  predicate NoResearchAfter(visits: seq<Node>, n: nat) {
    forall k | n < k < |visits| :: visits[k] != Researcher
  }

  /** A passage came from the corpus of the caller's org as of the caller's date, or from the web; what the
      corpus gave before the last research is gone. */
  ghost predicate Found(visits: seq<Node>, p: Passage, turn: Turn, o: Oracle) {
    exists n: nat, query ::
      && n < |visits| && QueryAt(visits[..n], query, turn, o) && (p.web || NoResearchAfter(visits, n))
      && (|| (visits[n] == Researcher && p in o.retrieve(n, query, turn.orgId, turn.asOf))
          || (visits[n] == WebSearch && p in o.searchWeb(n, query, o.plan(Asked(turn, o)).needsFreshness)))
  }

  /** What one visit finds. */
  function Searched(node: Node, n: nat, query: string, turn: Turn, o: Oracle): seq<Passage> {
    if node == Researcher then o.retrieve(n, query, turn.orgId, turn.asOf)
    else if node == WebSearch then o.searchWeb(n, query, o.plan(Asked(turn, o)).needsFreshness)
    else []
  }

  ghost predicate KeptAt(visits: seq<Node>, n: nat, query: string, held: seq<Passage>, turn: Turn, o: Oracle) {
    && n < |visits| && QueryAt(visits[..n], query, turn, o)
    && forall p | p in Searched(visits[n], n, query, turn, o) && (p.web || NoResearchAfter(visits, n)) :: p in held
  }

  /** Nothing that was found is lost, but for what the corpus gave before the last research: the critic
      rejects a draft, not its web sources. */
  ghost predicate Kept(visits: seq<Node>, held: seq<Passage>, turn: Turn, o: Oracle) {
    forall n: nat | n < |visits| && visits[n] in {Researcher, WebSearch} ::
      exists query :: KeptAt(visits, n, query, held, turn, o)
  }

  /** The passages held after some visits, in order: research puts its own in front of those from the web,
      and web search adds behind. */
  ghost predicate Holding(visits: seq<Node>, held: seq<Passage>, turn: Turn, o: Oracle)
    decreases |visits|
  {
    if visits == [] then held == []
    else
      var n := |visits| - 1;
      if visits[n] !in {Researcher, WebSearch} then Holding(visits[..n], held, turn, o)
      else
        exists earlier, query :: Holding(visits[..n], earlier, turn, o) && Adds(visits, earlier, query, held, turn, o)
  }

  ghost predicate Adds(
    visits: seq<Node>, earlier: seq<Passage>, query: string, held: seq<Passage>, turn: Turn, o: Oracle)
    requires visits != []
  {
    var n := |visits| - 1;
    var found := Searched(visits[n], n, query, turn, o);
    && QueryAt(visits[..n], query, turn, o)
    && held == if visits[n] == Researcher then found + WebOnly(earlier) else earlier + found
  }

  lemma HoldingStays(visits: seq<Node>, node: Node, held: seq<Passage>, turn: Turn, o: Oracle)
    requires node !in {Researcher, WebSearch} && Holding(visits, held, turn, o)
    ensures Holding(visits + [node], held, turn, o)
  {
    hide Adds;
    assert (visits + [node])[..|visits|] == visits;
  }

  lemma HoldingMore(
    visits: seq<Node>, node: Node, query: string, earlier: seq<Passage>, held: seq<Passage>, turn: Turn, o: Oracle)
    requires node in {Researcher, WebSearch} && Holding(visits, earlier, turn, o) && QueryAt(visits, query, turn, o)
    requires var found := Searched(node, |visits|, query, turn, o);
             held == if node == Researcher then found + WebOnly(earlier) else earlier + found
    ensures Holding(visits + [node], held, turn, o)
  {
    hide QueryAt, Searched, WebOnly;
    var more := visits + [node];
    assert more[..|visits|] == visits;
    assert Adds(more, earlier, query, held, turn, o);
  }

  /** The ways from one node to the next. */
  predicate Edge(a: Node, b: Node, turn: Turn, o: Oracle) {
    var route := o.plan(Asked(turn, o)).route;
    match a
    case Supervisor =>
      b == (if !o.checkInput(turn.query).allowed then Compliance else if route == Web then WebSearch else Researcher)
    case Researcher => b == if route == Both then WebSearch else Gate
    case WebSearch => b == Gate
    case Gate => b == Analyst || b == Compliance
    case Analyst => b == Critic
    case Critic => b == Researcher || b == Compliance
    case Compliance => b == End
    case End => false
  }

  predicate EdgeAt(visits: seq<Node>, i: nat, turn: Turn, o: Oracle) {
    0 < i < |visits| ==> Edge(visits[i - 1], visits[i], turn, o)
  }

  ghost predicate OnGraph(visits: seq<Node>, turn: Turn, o: Oracle) {
    visits != [] && visits[0] == Supervisor && forall i: nat :: EdgeAt(visits, i, turn, o)
  }

  // ------------------------------------------------------------------ invariant

  /** How a state inside a run came about. */
  ghost predicate Known(visits: seq<Node>, node: Node, s: State, turn: Turn, checkpoint: State, o: Oracle) {
    && s.turn == turn && OnGraph(visits + [node], turn, o)
    && (node == Supervisor ==> visits == [] && s.retrieved == [] && s.criticReasons == checkpoint.criticReasons)
    && (node != Supervisor ==> s.guardrailReasons == o.checkInput(turn.query).reasons)
    && (InLoop(node) ==> InLoopKnown(visits, s, turn, checkpoint, o))
    && (forall p | p in s.retrieved :: Found(visits, p, turn, o)) && Kept(visits, s.retrieved, turn, o)
    && Holding(visits, s.retrieved, turn, o)
    && (node == Compliance ==> EndKnown(visits, s, turn, checkpoint, o))
  }

  ghost predicate InLoopKnown(visits: seq<Node>, s: State, turn: Turn, checkpoint: State, o: Oracle) {
    && s.route == Some(o.plan(Asked(turn, o)).route)
    && s.needsFreshness == Some(o.plan(Asked(turn, o)).needsFreshness)
    && QueryAt(visits, Or(s.searchQuery, turn.query), turn, o)
    && ReasonsAt(visits, s.criticReasons, turn, checkpoint, o)
    && s.criticAttempts == Some(Count(visits, Critic))
  }

  /** At the end all critics but an approving one have rejected. */
  ghost predicate EndKnown(visits: seq<Node>, s: State, turn: Turn, checkpoint: State, o: Oracle) {
    && visits != []
    && s.criticAttempts == Some(Count(visits, Critic) - if Approved(visits, s) then 1 else 0)
    && (Approved(visits, s) ==> ReasonsAt(visits[..|visits| - 1], s.criticReasons, turn, checkpoint, o))
    && RefusalKnown(visits, s, turn, o)
  }

  /** What a run says when the question is blocked, or its passages do not answer it. */
  ghost predicate RefusalKnown(visits: seq<Node>, s: State, turn: Turn, o: Oracle)
    requires visits != []
  {
    match visits[|visits| - 1]
    case Supervisor =>
      s.confidence == Some(0.0) && s.answer == Some(o.blockedInput(o.checkInput(turn.query).reasons))
    case Gate => s.confidence == Some(0.0) && s.answer == Some(Wanting(|visits| - 1, s.retrieved, turn, o))
    case Critic => s.criticApproved == Some(false) ==> s.confidence == Some(0.0)
    case _ => true
  }

  /** The refusal of a gate: what is missing, and whether the web and the corpus were searched. */
  ghost function Wanting(n: nat, retrieved: seq<Passage>, turn: Turn, o: Oracle): string {
    o.refusal(o.gate(n, turn.query, retrieved).missing,
      exists p :: p in retrieved && p.web, exists p :: p in retrieved && !p.web)
  }

  lemma {:induction false} WebCounts(retrieved: seq<Passage>)
    ensures WebOnly(retrieved) != [] <==> exists p :: p in retrieved && p.web
    ensures |WebOnly(retrieved)| < |retrieved| <==> exists p :: p in retrieved && !p.web
  {
    if retrieved != [] {
      WebCounts(retrieved[1..]);
      assert forall p :: p in retrieved <==> p == retrieved[0] || p in retrieved[1..];
    }
  }

  // ------------------------------------------------------------- more visits

  lemma CriticAppended(visits: seq<Node>, node: Node)
    requires node != Critic
    ensures Critic in visits + [node] <==> Critic in visits
    ensures forall m: nat :: LastCritic(visits + [node], m) <==> LastCritic(visits, m)
    ensures forall m: nat | LastCritic(visits, m) :: (visits + [node])[..m] == visits[..m]
  {
    var more := visits + [node];
    forall m: nat ensures LastCritic(more, m) <==> LastCritic(visits, m) {
      if LastCritic(visits, m) {
        assert forall k | m < k < |more| :: more[k] == if k < |visits| then visits[k] else node;
      }
      if LastCritic(more, m) {
        assert m < |visits| && forall k | m < k < |visits| :: visits[k] == more[k];
      }
    }
  }

  lemma QueryStays(visits: seq<Node>, node: Node, query: string, turn: Turn, o: Oracle)
    requires node != Critic && QueryAt(visits, query, turn, o)
    ensures QueryAt(visits + [node], query, turn, o)
  {
    hide FirstQuery;
    CriticAppended(visits, node);
    if Critic in visits {
      var m: nat, draft, passages :|
        && LastCritic(visits, m) && !ReviewAt(m, draft, passages, turn, o).approved
        && (var suggested := ReviewAt(m, draft, passages, turn, o).suggestedQuery;
            if suggested.Some? && suggested.value != "" then query == suggested.value
            else QueryAt(visits[..m], query, turn, o));
      assert LastCritic(visits + [node], m);
    }
  }

  lemma ReasonsStay(
    visits: seq<Node>, node: Node, reasons: Option<seq<string>>, turn: Turn, checkpoint: State, o: Oracle)
    requires node != Critic && ReasonsAt(visits, reasons, turn, checkpoint, o)
    ensures ReasonsAt(visits + [node], reasons, turn, checkpoint, o)
  {
    hide LastCritic;
    CriticAppended(visits, node);
    if Critic in visits {
      var m: nat, draft, passages :|
        && LastCritic(visits, m) && !ReviewAt(m, draft, passages, turn, o).approved
        && (var given := ReviewAt(m, draft, passages, turn, o).reasons;
            reasons == Some(if given != [] then given else ["unsupported_claims"]));
      assert LastCritic(visits + [node], m);
    }
  }

  lemma FoundStays(visits: seq<Node>, node: Node, p: Passage, turn: Turn, o: Oracle)
    requires Found(visits, p, turn, o) && (p.web || node != Researcher)
    ensures Found(visits + [node], p, turn, o)
  {
    hide QueryAt, Asked;
    var n: nat, query :|
      && n < |visits| && QueryAt(visits[..n], query, turn, o) && (p.web || NoResearchAfter(visits, n))
      && (|| (visits[n] == Researcher && p in o.retrieve(n, query, turn.orgId, turn.asOf))
          || (visits[n] == WebSearch && p in o.searchWeb(n, query, o.plan(Asked(turn, o)).needsFreshness)));
    assert (visits + [node])[..n] == visits[..n];
    NoResearchAppended(visits, node, n);
  }

  lemma NoResearchAppended(visits: seq<Node>, node: Node, n: nat)
    requires n < |visits|
    ensures NoResearchAfter(visits + [node], n) <==> NoResearchAfter(visits, n) && node != Researcher
  {
    var more := visits + [node];
    if NoResearchAfter(more, n) {
      assert more[|visits|] == node;
      assert forall k | n < k < |visits| :: visits[k] == more[k];
    }
  }

  /** One more visit, to a node that searches or to another. */
  lemma KeptStays(
    visits: seq<Node>, node: Node, query: string, held: seq<Passage>, more: seq<Passage>, turn: Turn, o: Oracle)
    requires Kept(visits, held, turn, o)
    requires forall p | p in held && (p.web || node != Researcher) :: p in more
    requires node in {Researcher, WebSearch} ==>
               QueryAt(visits, query, turn, o) && forall p | p in Searched(node, |visits|, query, turn, o) :: p in more
    ensures Kept(visits + [node], more, turn, o)
  {
    hide QueryAt, Searched, NoResearchAfter;
    var all := visits + [node];
    forall n: nat | n < |all| && all[n] in {Researcher, WebSearch}
      ensures exists query :: KeptAt(all, n, query, more, turn, o)
    {
      if n < |visits| {
        var asked :| KeptAt(visits, n, asked, held, turn, o);
        assert all[..n] == visits[..n];
        NoResearchAppended(visits, node, n);
        assert KeptAt(all, n, asked, more, turn, o);
      } else {
        assert all[..n] == visits;
        assert KeptAt(all, n, query, more, turn, o);
      }
    }
  }

  lemma FoundNow(visits: seq<Node>, node: Node, query: string, p: Passage, turn: Turn, o: Oracle)
    requires QueryAt(visits, query, turn, o)
    requires || (node == Researcher && p in o.retrieve(|visits|, query, turn.orgId, turn.asOf))
             || (node == WebSearch && p in o.searchWeb(|visits|, query, o.plan(Asked(turn, o)).needsFreshness))
    ensures Found(visits + [node], p, turn, o)
  {
    hide QueryAt, Asked;
    assert (visits + [node])[..|visits|] == visits;
  }

  lemma GraphGoesOn(visits: seq<Node>, node: Node, next: Node, turn: Turn, o: Oracle)
    requires OnGraph(visits + [node], turn, o) && Edge(node, next, turn, o)
    ensures OnGraph(visits + [node] + [next], turn, o)
  {
    hide Edge;
    var more := visits + [node] + [next];
    forall i: nat ensures EdgeAt(more, i, turn, o) {
      assert EdgeAt(visits + [node], i, turn, o);
      if i == |visits| + 1 {
        assert more[i - 1] == node && more[i] == next;
      }
    }
  }

  // ---------------------------------------------------------------------- steps

  lemma EntryOnGraph(next: Node, turn: Turn, o: Oracle)
    requires Edge(Supervisor, next, turn, o)
    ensures OnGraph([Supervisor] + [next], turn, o)
  {
    hide Edge;
    forall i: nat ensures EdgeAt([Supervisor] + [next], i, turn, o) {
      if i == 1 {
        assert ([Supervisor] + [next])[0] == Supervisor && ([Supervisor] + [next])[1] == next;
      }
    }
  }

  lemma EntryFields(s: State, turn: Turn, checkpoint: State, o: Oracle)
    requires s == Begin(turn, checkpoint)
    ensures var s', guard := RouteNode(s, o), o.checkInput(turn.query);
            && s'.turn == turn && s'.retrieved == [] && s'.guardrailReasons == guard.reasons
            && s'.criticReasons == checkpoint.criticReasons && s'.criticAttempts == Some(0)
            && Edge(Supervisor, RouteFromSupervisor(s'), turn, o)
            && (guard.allowed ==>
                  && s'.route == Some(o.plan(Asked(turn, o)).route)
                  && s'.needsFreshness == Some(o.plan(Asked(turn, o)).needsFreshness)
                  && RouteFromSupervisor(s') != Compliance)
            && (!guard.allowed ==>
                  && s'.confidence == Some(0.0) && s'.answer == Some(o.blockedInput(guard.reasons))
                  && s'.route == Some(Blocked)
                  && RouteFromSupervisor(s') == Compliance)
  {
    hide SearchQuery;
  }

  lemma EntryKnown(s: State, turn: Turn, checkpoint: State, o: Oracle)
    requires s == Begin(turn, checkpoint)
    ensures var s' := RouteNode(s, o); Known([Supervisor], RouteFromSupervisor(s'), s', turn, checkpoint, o)
  {
    hide Found, Kept, Holding, QueryAt, ReasonsAt, OnGraph, RouteNode, Or, Asked, Approved, Count, Edge;
    var s' := RouteNode(s, o);
    EntryFields(s, turn, checkpoint, o);
    EntryOnGraph(RouteFromSupervisor(s'), turn, o);
    EntryQuery(s, turn, o);
    FirstCounts();
    NoneLost(turn, o);
    AtFirst("", s'.criticReasons, turn, checkpoint, o);
  }

  lemma NoneLost(turn: Turn, o: Oracle)
    ensures Kept([], [], turn, o) && Kept([Supervisor], [], turn, o)
    ensures Holding([], [], turn, o) && Holding([Supervisor], [], turn, o)
  {
    HoldingStays([], Supervisor, [], turn, o);
    assert [] + [Supervisor] == [Supervisor];
  }

  lemma FirstCounts()
    ensures Count([Supervisor], Critic) == 0
    ensures forall s: State :: !Approved([Supervisor], s)
  {
    assert Count([], Critic) == 0 && [Supervisor][..0] == [];
  }

  lemma AtFirst(query: string, reasons: Option<seq<string>>, turn: Turn, checkpoint: State, o: Oracle)
    ensures query == FirstQuery(turn, o) ==> QueryAt([Supervisor], query, turn, o)
    ensures reasons == checkpoint.criticReasons ==> ReasonsAt([Supervisor], reasons, turn, checkpoint, o)
  {
    hide FirstQuery;
  }

  lemma EntryQuery(s: State, turn: Turn, o: Oracle)
    requires s.turn == turn
    ensures var s' := RouteNode(s, o);
            o.checkInput(turn.query).allowed ==> QueryAt([Supervisor], Or(s'.searchQuery, turn.query), turn, o)
  {
    hide QueryAt;
    var s' := RouteNode(s, o);
    if o.checkInput(turn.query).allowed {
      assert Or(s'.searchQuery, turn.query) == FirstQuery(turn, o);
      AtFirst(FirstQuery(turn, o), None, turn, s, o);
    }
  }

  /** What a node other than a critic leaves as it was. */
  lemma LoopKept(visits: seq<Node>, node: Node, s: State, s': State, turn: Turn, checkpoint: State, o: Oracle)
    requires InLoopKnown(visits, s, turn, checkpoint, o) && node != Critic
    requires s'.route == s.route && s'.needsFreshness == s.needsFreshness && s'.searchQuery == s.searchQuery
    requires s'.criticReasons == s.criticReasons && s'.criticAttempts == s.criticAttempts
    ensures InLoopKnown(visits + [node], s', turn, checkpoint, o)
  {
    hide QueryAt, ReasonsAt, Or, Asked;
    QueryStays(visits, node, Or(s.searchQuery, turn.query), turn, o);
    ReasonsStay(visits, node, s.criticReasons, turn, checkpoint, o);
    CountSnoc(visits, node, Critic);
  }

  lemma WebOnlyIn(retrieved: seq<Passage>)
    ensures forall p :: p in WebOnly(retrieved) <==> p in retrieved && p.web
  {
    if retrieved != [] {
      WebOnlyIn(retrieved[1..]);
    }
  }

  lemma ResearchKnown(visits: seq<Node>, s: State, turn: Turn, checkpoint: State, o: Oracle)
    requires Known(visits, Researcher, s, turn, checkpoint, o)
    ensures var s' := ResearchNode(s, |visits|, o); Known(visits + [Researcher], AfterResearch(s'), s', turn, checkpoint, o)
  {
    hide Found, Kept, Holding, QueryAt, ReasonsAt, Or, Asked, WebOnly, OnGraph;
    var s' := ResearchNode(s, |visits|, o);
    var query := Or(s.searchQuery, turn.query);
    GraphGoesOn(visits, Researcher, AfterResearch(s'), turn, o);
    LoopKept(visits, Researcher, s, s', turn, checkpoint, o);
    WebOnlyIn(s.retrieved);
    KeptStays(visits, Researcher, query, s.retrieved, s'.retrieved, turn, o);
    HoldingMore(visits, Researcher, query, s.retrieved, s'.retrieved, turn, o);
    forall p | p in s'.retrieved ensures Found(visits + [Researcher], p, turn, o) {
      if p in o.retrieve(|visits|, query, turn.orgId, turn.asOf) {
        FoundNow(visits, Researcher, query, p, turn, o);
      } else {
        FoundStays(visits, Researcher, p, turn, o);
      }
    }
  }

  lemma WebKnown(visits: seq<Node>, s: State, turn: Turn, checkpoint: State, o: Oracle)
    requires Known(visits, WebSearch, s, turn, checkpoint, o)
    ensures Known(visits + [WebSearch], Gate, WebNode(s, |visits|, o), turn, checkpoint, o)
  {
    hide Found, Kept, Holding, QueryAt, ReasonsAt, Or, Asked, OnGraph;
    var s' := WebNode(s, |visits|, o);
    var query := Or(s.searchQuery, turn.query);
    KeptStays(visits, WebSearch, query, s.retrieved, s'.retrieved, turn, o);
    HoldingMore(visits, WebSearch, query, s.retrieved, s'.retrieved, turn, o);
    GraphGoesOn(visits, WebSearch, Gate, turn, o);
    LoopKept(visits, WebSearch, s, s', turn, checkpoint, o);
    forall p | p in s'.retrieved ensures Found(visits + [WebSearch], p, turn, o) {
      if p in o.searchWeb(|visits|, query, s.needsFreshness.GetOr(false)) {
        FoundNow(visits, WebSearch, query, p, turn, o);
      } else {
        FoundStays(visits, WebSearch, p, turn, o);
      }
    }
  }

  lemma AllStay(visits: seq<Node>, node: Node, s: State, turn: Turn, o: Oracle)
    requires node !in {Researcher, WebSearch}
    requires Kept(visits, s.retrieved, turn, o) && Holding(visits, s.retrieved, turn, o)
    requires forall p | p in s.retrieved :: Found(visits, p, turn, o)
    ensures forall p | p in s.retrieved :: Found(visits + [node], p, turn, o)
    ensures Kept(visits + [node], s.retrieved, turn, o) && Holding(visits + [node], s.retrieved, turn, o)
  {
    hide Found, Kept, Holding;
    HoldingStays(visits, node, s.retrieved, turn, o);
    KeptStays(visits, node, "", s.retrieved, s.retrieved, turn, o);
    forall p | p in s.retrieved ensures Found(visits + [node], p, turn, o) {
      FoundStays(visits, node, p, turn, o);
    }
  }

  lemma UnanswerableKnown(n: nat, s: State, turn: Turn, o: Oracle)
    requires s.turn == turn
    ensures var u := Unanswerable(s, o.gate(n, turn.query, s.retrieved).missing, o);
            && u.answer == Some(Wanting(n, s.retrieved, turn, o)) && u.confidence == Some(0.0)
            && u.answerable == Some(false) && u.turn == s.turn && u.retrieved == s.retrieved
            && u.guardrailReasons == s.guardrailReasons && u.criticAttempts == s.criticAttempts
  {
    hide Citations, WebOnly;
    WebCounts(s.retrieved);
  }

  lemma GateEnd(visits: seq<Node>, s: State, turn: Turn, checkpoint: State, o: Oracle)
    requires s.criticAttempts == Some(Count(visits, Critic)) && s.confidence == Some(0.0)
    requires s.answer == Some(Wanting(|visits|, s.retrieved, turn, o))
    ensures EndKnown(visits + [Gate], s, turn, checkpoint, o)
  {
    hide Wanting, EndsWith;
    Appended(visits, Gate);
    CountSnoc(visits, Gate, Critic);
  }

  lemma GateKnown(visits: seq<Node>, s: State, turn: Turn, checkpoint: State, o: Oracle)
    requires Known(visits, Gate, s, turn, checkpoint, o)
    ensures var s' := GateNode(s, |visits|, o); Known(visits + [Gate], AfterAnswerability(s'), s', turn, checkpoint, o)
  {
    hide Found, Kept, Holding, QueryAt, ReasonsAt, Or, Asked, OnGraph, Wanting, Unanswerable, EndKnown, Count;
    var s' := GateNode(s, |visits|, o);
    GraphGoesOn(visits, Gate, AfterAnswerability(s'), turn, o);
    AllStay(visits, Gate, s, turn, o);
    if o.gate(|visits|, turn.query, s.retrieved).answerable {
      LoopKept(visits, Gate, s, s', turn, checkpoint, o);
    } else {
      UnanswerableKnown(|visits|, s, turn, o);
      GateEnd(visits, s', turn, checkpoint, o);
    }
  }

  lemma DraftKnown(visits: seq<Node>, s: State, turn: Turn, checkpoint: State, o: Oracle)
    requires Known(visits, Analyst, s, turn, checkpoint, o)
    ensures Known(visits + [Analyst], Critic, AnalystNode(s, |visits|, o), turn, checkpoint, o)
  {
    hide Found, Kept, Holding, QueryAt, ReasonsAt, Or, Asked, OnGraph, Citations, TopCosine, Prompt;
    var s' := AnalystNode(s, |visits|, o);
    GraphGoesOn(visits, Analyst, Critic, turn, o);
    LoopKept(visits, Analyst, s, s', turn, checkpoint, o);
    AllStay(visits, Analyst, s, turn, o);
  }

  /** After a rejection its suggestion and its reasons count. */
  lemma RejectionTold(
    visits: seq<Node>, s: State, draft: string, passages: seq<Passage>, turn: Turn, checkpoint: State, o: Oracle,
    cfg: Settings)
    requires var c := ReviewAt(|visits|, draft, passages, turn, o);
             && !c.approved && QueryAt(visits, Or(s.searchQuery, turn.query), turn, o)
    ensures var c := ReviewAt(|visits|, draft, passages, turn, o);
            var suggested := if Or(c.suggestedQuery, "") != "" then c.suggestedQuery else s.searchQuery;
            && QueryAt(visits + [Critic], Or(suggested, turn.query), turn, o)
            && ReasonsAt(visits + [Critic], Some(if c.reasons != [] then c.reasons else ["unsupported_claims"]),
                 turn, checkpoint, o)
  {
    hide FirstQuery;
    var more, m := visits + [Critic], |visits|;
    assert LastCritic(more, m) && more[..m] == visits && Critic in more by { assert more[m] == Critic; }
    var c := ReviewAt(m, draft, passages, turn, o);
  }

  lemma RejectedKnown(s: State, c: Critique, cfg: Settings)
    requires s.criticAttempts.Some?
    ensures var r := Rejected(s, c, cfg);
            && r.turn == s.turn && r.retrieved == s.retrieved && r.guardrailReasons == s.guardrailReasons
            && r.route == s.route && r.needsFreshness == s.needsFreshness
            && r.criticApproved == Some(false) && r.criticAttempts == Some(s.criticAttempts.value + 1)
            && r.criticReasons == Some(if c.reasons != [] then c.reasons else ["unsupported_claims"])
            && (AfterCritic(r, cfg) == Researcher ==>
                  r.searchQuery == if Or(c.suggestedQuery, "") != "" then c.suggestedQuery else s.searchQuery)
            && (AfterCritic(r, cfg) == Compliance ==> r.confidence == Some(0.0) && r.searchQuery == s.searchQuery)
            && (AfterCritic(r, cfg) == Researcher || AfterCritic(r, cfg) == Compliance)
  {
    hide Or;
  }

  lemma CriticEnd(visits: seq<Node>, s: State, turn: Turn, checkpoint: State, o: Oracle)
    requires s.criticAttempts == Some(Count(visits, Critic) + if s.criticApproved == Some(true) then 0 else 1)
    requires s.criticApproved == Some(true) ==> ReasonsAt(visits, s.criticReasons, turn, checkpoint, o)
    requires s.criticApproved == Some(false) ==> s.confidence == Some(0.0)
    ensures EndKnown(visits + [Critic], s, turn, checkpoint, o)
  {
    hide ReasonsAt, EndsWith;
    Appended(visits, Critic);
    CountSnoc(visits, Critic, Critic);
    assert (visits + [Critic])[..|visits|] == visits;
  }

  lemma CriticKnown(visits: seq<Node>, s: State, turn: Turn, checkpoint: State, o: Oracle, cfg: Settings)
    requires Known(visits, Critic, s, turn, checkpoint, o)
    ensures var s' := CriticNode(s, |visits|, o, cfg);
            Known(visits + [Critic], AfterCritic(s', cfg), s', turn, checkpoint, o)
  {
    hide Found, Kept, Holding, QueryAt, ReasonsAt, Asked, OnGraph, EndKnown, Or, Rejected, Count;
    var s' := CriticNode(s, |visits|, o, cfg);
    var c := ReviewAt(|visits|, s.answer.GetOr(""), s.retrieved, turn, o);
    RejectedKnown(s, c, cfg);
    GraphGoesOn(visits, Critic, AfterCritic(s', cfg), turn, o);
    AllStay(visits, Critic, s, turn, o);
    CountSnoc(visits, Critic, Critic);
    if !c.approved {
      RejectionTold(visits, s, s.answer.GetOr(""), s.retrieved, turn, checkpoint, o, cfg);
    }
    if AfterCritic(s', cfg) == Compliance {
      CriticEnd(visits, s', turn, checkpoint, o);
    }
  }

  lemma StepKnown(visits: seq<Node>, node: Node, s: State, turn: Turn, checkpoint: State, o: Oracle, cfg: Settings)
    requires Known(visits, node, s, turn, checkpoint, o) && node != Compliance && node != End
    requires node == Supervisor ==> s == Begin(turn, checkpoint)
    ensures var s' := Update(node, s, |visits|, o, cfg);
            Known(visits + [node], Next(node, s', cfg), s', turn, checkpoint, o)
  {
    hide OnGraph, Found, Kept, Holding, InLoopKnown, EndKnown, RouteNode, ResearchNode, WebNode, GateNode, AnalystNode, CriticNode;
    match node
    case Supervisor =>
      EntryKnown(s, turn, checkpoint, o);
      assert visits + [Supervisor] == [Supervisor];
    case Researcher => ResearchKnown(visits, s, turn, checkpoint, o);
    case WebSearch => WebKnown(visits, s, turn, checkpoint, o);
    case Gate => GateKnown(visits, s, turn, checkpoint, o);
    case Analyst => DraftKnown(visits, s, turn, checkpoint, o);
    case Critic => CriticKnown(visits, s, turn, checkpoint, o, cfg);
  }

  lemma {:induction false} RunKnown(
    visits: seq<Node>, node: Node, s: State, turn: Turn, checkpoint: State, o: Oracle, cfg: Settings)
    returns (before: seq<Node>)
    requires Known(visits, node, s, turn, checkpoint, o) && node != End
    requires node == Supervisor ==> s == Begin(turn, checkpoint)
    ensures Run(visits, node, s, o, cfg).visits == before + [Compliance]
    ensures Known(before, Compliance, AtCompliance(visits, node, s, o, cfg), turn, checkpoint, o)
    decreases node == Supervisor, RetriesLeft(node, s, cfg), Place(node)
  {
    hide Known, ComplianceNode, RetriesLeft;
    var s' := Update(node, s, |visits|, o, cfg);
    if node == Compliance {
      before := visits;
      assert Run(visits + [Compliance], End, s', o, cfg) == Outcome(visits + [Compliance], s');
    } else {
      StepKnown(visits, node, s, turn, checkpoint, o, cfg);
      RunMeasure(node, s, |visits|, o, cfg);
      KeepsTurn(node, s, |visits|, o, cfg);
      before := RunKnown(visits + [node], Next(node, s', cfg), s', turn, checkpoint, o, cfg);
    }
  }

  lemma BeginKnown(turn: Turn, checkpoint: State, o: Oracle)
    ensures Known([], Supervisor, Begin(turn, checkpoint), turn, checkpoint, o)
  {
    hide Kept, Holding, Found, OnGraph, InLoopKnown, EndKnown;
    assert [] + [Supervisor] == [Supervisor];
    NoneLost(turn, o);
    StartOnGraph(turn, o);
  }

  lemma StartOnGraph(turn: Turn, o: Oracle)
    ensures OnGraph([Supervisor], turn, o)
  {
    hide Edge;
  }

  /** Every run of a turn, up to compliance. */
  lemma AskKnown(turn: Turn, checkpoint: State, o: Oracle, cfg: Settings) returns (before: seq<Node>)
    ensures Ask(turn, checkpoint, o, cfg) == Outcome(before + [Compliance], ComplianceNode(Reviewed(turn, checkpoint, o, cfg), o, cfg))
    ensures Known(before, Compliance, Reviewed(turn, checkpoint, o, cfg), turn, checkpoint, o)
    ensures Inv(before, Compliance, Reviewed(turn, checkpoint, o, cfg), o, cfg)
    ensures InBounds(before, Compliance, Reviewed(turn, checkpoint, o, cfg), cfg)
  {
    hide Known, Inv, InBounds, InSize, Run, ComplianceNode, Bounded;
    BeginKnown(turn, checkpoint, o);
    before := RunKnown([], Supervisor, Begin(turn, checkpoint), turn, checkpoint, o, cfg);
    var again, last := AskEnds(turn, checkpoint, o, cfg);
    assert before == (before + [Compliance])[..|before|] == (again + [Compliance])[..|again|] == again;
  }

  // --------------------------------------------------------------- whole runs

  /** Every passage that a run reports was retrieved for the caller's org and date, or found on the web, by
      the query that was in force. */
  lemma PassagesFound(turn: Turn, checkpoint: State, o: Oracle, cfg: Settings, p: Passage)
    requires p in Ask(turn, checkpoint, o, cfg).final.retrieved
    ensures Found(Ask(turn, checkpoint, o, cfg).visits, p, turn, o)
  {
    hide Ask, Inv, InBounds, ComplianceNode, Found, Kept, Holding, OnGraph, Reviewed;
    var before := AskKnown(turn, checkpoint, o, cfg);
    ComplianceKeeps(Reviewed(turn, checkpoint, o, cfg), o, cfg);
    FoundStays(before, Compliance, p, turn, o);
  }

  /** And every run still holds what it found at each visit to research or web search, by the query in force
      there, except for what the corpus gave before the last research. */
  lemma PassagesKept(turn: Turn, checkpoint: State, o: Oracle, cfg: Settings)
    ensures var out := Ask(turn, checkpoint, o, cfg); Kept(out.visits, out.final.retrieved, turn, o)
  {
    hide Ask, Inv, InBounds, ComplianceNode, Found, Kept, Holding, OnGraph, Reviewed;
    var before := AskKnown(turn, checkpoint, o, cfg);
    ComplianceKeeps(Reviewed(turn, checkpoint, o, cfg), o, cfg);
    var held := Reviewed(turn, checkpoint, o, cfg).retrieved;
    KeptStays(before, Compliance, "", held, held, turn, o);
  }

  /** Which passages a response reports, and in which order. */
  lemma PassagesInOrder(turn: Turn, checkpoint: State, o: Oracle, cfg: Settings)
    ensures var out := Ask(turn, checkpoint, o, cfg); Holding(out.visits, out.final.retrieved, turn, o)
  {
    hide Ask, Inv, InBounds, ComplianceNode, Found, Kept, Holding, OnGraph, Reviewed;
    var before := AskKnown(turn, checkpoint, o, cfg);
    ComplianceKeeps(Reviewed(turn, checkpoint, o, cfg), o, cfg);
    HoldingStays(before, Compliance, Reviewed(turn, checkpoint, o, cfg).retrieved, turn, o);
  }

  /** Every run follows the edges of the graph. */
  lemma RunFollowsGraph(turn: Turn, checkpoint: State, o: Oracle, cfg: Settings)
    ensures OnGraph(Ask(turn, checkpoint, o, cfg).visits, turn, o)
  {
    hide Ask, Inv, InBounds, ComplianceNode, Found, Kept, Holding, OnGraph, Reviewed;
    var before := AskKnown(turn, checkpoint, o, cfg);
  }

  /** A draft that is released answers the question, with the feedback of the last rejection if there was
      one in the turn, and else what the checkpoint holds. */
  lemma DraftTold(turn: Turn, checkpoint: State, o: Oracle, cfg: Settings)
    ensures var out := Ask(turn, checkpoint, o, cfg);
            !Respond(out.final).refused ==>
              |out.visits| >= 2
              && ReasonsAt(out.visits[..|out.visits| - 2], out.final.criticReasons, turn, checkpoint, o)
  {
    hide Ask, Inv, InBounds, ComplianceNode, Found, Kept, Holding, OnGraph, Reviewed, ReasonsAt, Count, Vetted, Stopped, OutputVerdict,
      RefusalKnown, EndsWith, Citations;
    var before := AskKnown(turn, checkpoint, o, cfg);
    var last := Reviewed(turn, checkpoint, o, cfg);
    ComplianceKeeps(last, o, cfg);
    ComplianceInv(before, last, o, cfg);
    RefusedAtCompliance(before, last, o, cfg);
    if !ComplianceNode(last, o, cfg).refused.GetOr(false) {
      assert Approved(before, last);
      assert (before + [Compliance])[..|before| - 1] == before[..|before| - 1];
    }
  }

  /** The critic's budget is counted in visits, an approving one aside: a run that ends without approval has
      asked the critic exactly once more than it may retry. */
  lemma BudgetCounted(turn: Turn, checkpoint: State, o: Oracle, cfg: Settings)
    ensures var out := Ask(turn, checkpoint, o, cfg);
            var rejections := out.final.criticAttempts.GetOr(-1);
            && |out.visits| >= 2
            && rejections == Count(out.visits, Critic)
                 - (if out.visits[|out.visits| - 2] == Critic && out.final.criticApproved == Some(true) then 1 else 0)
            && (out.visits[|out.visits| - 2] == Critic && out.final.criticApproved == Some(false) ==>
                  rejections == Max(cfg.criticMaxRetries, 0) + 1)
  {
    hide Ask, ComplianceNode, Found, Kept, Holding, OnGraph, Reviewed, ReasonsAt, Vetted, EndsWith, Count;
    var before := AskKnown(turn, checkpoint, o, cfg);
    var last := Reviewed(turn, checkpoint, o, cfg);
    ComplianceKeeps(last, o, cfg);
    ComplianceInv(before, last, o, cfg);
    StoppedShape(before, last, o, cfg);
    LastOf(before);
    CountSnoc(before, Compliance, Critic);
    CountSnoc(before[..|before| - 1], before[|before| - 1], Critic);
    assert before == before[..|before| - 1] + [before[|before| - 1]];
  }

  // ---------------------------------------------------------------- what is said

  /** A refusal stands as it is, unless it orders a filing itself. */
  predicate Said(r: Response, text: string, o: Oracle) {
    && r.confidence == 0.0
    && r.answer == if o.patterns.directs(text) then o.blockedOutput([OverconfidentDirective]) else text
  }

  lemma RefusalStands(s: State, text: string, o: Oracle, cfg: Settings)
    requires s.refused == Some(true) && s.answer == Some(text) && s.confidence == Some(0.0)
    requires s.citations == Citations(s.retrieved)
    ensures Said(Respond(ComplianceNode(s, o, cfg)), text, o)
  {
    hide CitedPassages, PassageIds, FindAll, CitedIds, WithDisclaimer, Telemetry, Within, Outside, Elements, Reasons,
      Citations, CitationIds, Or;
    CitationIdsMatch(s.retrieved);
    var known := Elements(PassageIds(s.retrieved)) + Elements(CitationIds(s.citations));
    RefusedUnflagged(CitationIds(s.citations), PassageIds(s.retrieved), cfg.requireCitations, o.patterns.disclaims(text),
      CitedIds(FindAll(text)), known);
    assert [] + [OverconfidentDirective] == [OverconfidentDirective];
    AnswerOrElse(o.blockedOutput([OverconfidentDirective]));
  }

  lemma AnswerOrElse(text: string)
    ensures Or(None, text) == text && Or(Some(text), text) == text
  {
  }

  lemma RefusedUnflagged(
    citations: seq<string>, retrieved: seq<string>, requireCitations: bool, disclaimed: bool, cited: seq<string>,
    known: set<string>)
    requires retrieved != [] ==> citations != []
    ensures Reasons(citations, retrieved, true, requireCitations, disclaimed, cited, known) == []
  {
    hide Outside;
  }

  lemma BlockedSaid(s: State, o: Oracle, cfg: Settings)
    requires s.refused == Some(false) && ComplianceNode(s, o, cfg).refused == Some(true)
    ensures var r := Respond(ComplianceNode(s, o, cfg));
            r.answer == o.blockedOutput(OutputOf(s, o, cfg).reasons) && r.confidence == s.confidence.GetOr(0.0)
  {
    hide CitedPassages, PassageIds, CitationIds, FindAll, CitedIds, WithDisclaimer, Telemetry, Within, Outside, Elements,
      Reasons, Citations;
  }

  /** What each refusal says, and how sure it is: nothing for a blocked question, for passages that do not
      answer it and for a spent budget, the best cosine for a draft that the guardrail blocks. */
  lemma RefusalSays(turn: Turn, checkpoint: State, o: Oracle, cfg: Settings)
    ensures var out := Ask(turn, checkpoint, o, cfg);
            var r, n := Respond(out.final), |out.visits|;
            r.refused ==>
              && n >= 2
              && (match out.visits[n - 2]
                  case Supervisor => Said(r, o.blockedInput(o.checkInput(turn.query).reasons), o)
                  case Gate => Said(r, Wanting(n - 2, out.final.retrieved, turn, o), o)
                  case _ =>
                    if out.final.criticApproved == Some(false) then Said(r, cfg.exhaustedText, o)
                    else
                      && r.answer == o.blockedOutput(OutputOf(Reviewed(turn, checkpoint, o, cfg), o, cfg).reasons)
                      && r.confidence == TopCosine(out.final.retrieved))
  {
    hide Ask, InBounds, ComplianceNode, Found, Kept, Holding, OnGraph, Reviewed, ReasonsAt, Count, Citations, OutputOf, TopCosine,
      Respond, Said, Wanting, GatePassed;
    var before := AskKnown(turn, checkpoint, o, cfg);
    var last := Reviewed(turn, checkpoint, o, cfg);
    ComplianceKeeps(last, o, cfg);
    ComplianceInv(before, last, o, cfg);
    StoppedShape(before, last, o, cfg);
    LastOf(before);
    RefusedReported(last, o, cfg);
    if last.refused == Some(true) {
      RefusalStands(last, last.answer.GetOr(""), o, cfg);
    } else if ComplianceNode(last, o, cfg).refused == Some(true) {
      BlockedSaid(last, o, cfg);
    }
  }

  lemma RefusedReported(s: State, o: Oracle, cfg: Settings)
    ensures ComplianceNode(s, o, cfg).refused.Some?
    ensures Respond(ComplianceNode(s, o, cfg)).refused <==> ComplianceNode(s, o, cfg).refused == Some(true)
  {
    hide CitedPassages, PassageIds, CitationIds, OutputVerdict, Telemetry, Citations, Or;
  }

  /** The guardrail reasons of a response: those of the question, then those of the answer. */
  lemma ReasonsReported(turn: Turn, checkpoint: State, o: Oracle, cfg: Settings)
    ensures Respond(Ask(turn, checkpoint, o, cfg).final).guardrails
         == o.checkInput(turn.query).reasons + OutputOf(Reviewed(turn, checkpoint, o, cfg), o, cfg).reasons
  {
    hide Ask, InBounds, Inv, Found, OnGraph, Reviewed, EndKnown, CitedPassages, PassageIds, CitationIds, OutputVerdict,
      Telemetry, Citations, Or;
    var before := AskKnown(turn, checkpoint, o, cfg);
  }

  /** A citation is that of a passage: its id, document, title, source, score and text, and an excerpt of 280
      characters at most. */
  predicate CitationOf(c: Citation, p: Passage) {
    && c.id == p.id && c.docId == p.docId && c.title == p.title && c.source == p.source && c.score == p.score
    && c.text == p.text && c.excerpt <= p.text && (|c.excerpt| == 280 || (|c.excerpt| < 280 && c.excerpt == p.text))
  }

  lemma CitationsOf(passages: seq<Passage>)
    ensures forall c | c in Citations(passages) :: exists p :: p in passages && CitationOf(c, p)
  {
    forall c | c in Citations(passages) ensures exists p :: p in passages && CitationOf(c, p) {
      var i :| 0 <= i < |passages| && Citations(passages)[i] == c;
      assert passages[i] in passages && CitationOf(c, passages[i]);
    }
  }

  /** Every citation of a response shows a passage that was retrieved. */
  lemma CitationsShowPassages(turn: Turn, checkpoint: State, o: Oracle, cfg: Settings)
    ensures var out := Ask(turn, checkpoint, o, cfg);
            forall c | c in Respond(out.final).citations :: exists p :: p in out.final.retrieved && CitationOf(c, p)
  {
    hide Ask, InBounds, Found, OnGraph, Reviewed, EndKnown, PassageIds, CitationIds, OutputVerdict, Telemetry, Citations,
      Or, Vetted, Stopped, CitedPassages, Known, CitationOf, Approved;
    var before := AskKnown(turn, checkpoint, o, cfg);
    var last := Reviewed(turn, checkpoint, o, cfg);
    CitationsOf(last.retrieved);
    var cited := CitedPassages(last.retrieved, OutputOf(last, o, cfg).groundedIds);
    CitationsOf(cited);
    CitedRetrieved(last.retrieved, OutputOf(last, o, cfg).groundedIds);
  }

  lemma CitedRetrieved(retrieved: seq<Passage>, ids: seq<string>)
    ensures forall p | p in CitedPassages(retrieved, ids) :: p in retrieved
  {
    hide PassageIds;
    if ids != [] {
      CitedRetrieved(retrieved, ids[1..]);
    }
  }

  // ------------------------------------------------------------------- metrics

  lemma {:induction false} RerankScores(retrieved: seq<Passage>)
    ensures forall x :: x in Reranks(retrieved) <==> exists p :: p in retrieved && p.rerank == Some(x)
  {
    if retrieved != [] {
      RerankScores(retrieved[1..]);
      assert forall p :: p in retrieved <==> p == retrieved[0] || p in retrieved[1..];
    }
  }

  /** The least and the largest cosine, where there is a passage. */
  ghost predicate CosineRange(low: Option<real>, high: Option<real>, retrieved: seq<Passage>) {
    && (low.Some? <==> retrieved != []) && (high.Some? <==> retrieved != [])
    && (forall p | p in retrieved :: low.value <= p.cosine <= high.value)
    && (retrieved != [] ==>
          (exists p :: p in retrieved && p.cosine == low.value) && (exists p :: p in retrieved && p.cosine == high.value))
  }

  /** The largest rerank score, where a passage has one. */
  ghost predicate RerankBest(top: Option<real>, retrieved: seq<Passage>) {
    && (top.Some? <==> exists p :: p in retrieved && p.rerank.Some?)
    && (top.Some? ==> exists p :: p in retrieved && p.rerank == top)
    && (forall p | p in retrieved && p.rerank.Some? :: p.rerank.value <= top.value)
  }

  /** Figures over the passages, none where there are none; and the share of the cited ids that were
      retrieved, each counted once. */
  ghost predicate Measures(m: OnlineMetrics, retrieved: seq<Passage>, citedIds: seq<string>) {
    && m.numRetrieved == |retrieved|
    && CosineRange(m.minCosine, m.topCosine, retrieved) && RerankBest(m.topRerank, retrieved)
    && (m.meanCosine.Some? <==> retrieved != [])
    && (retrieved != [] ==> m.meanCosine.value * |retrieved| as real == CosineSum(retrieved))
    && GroundedShare(m.grounding, retrieved, citedIds)
  }

  predicate GroundedShare(grounding: real, retrieved: seq<Passage>, citedIds: seq<string>) {
    && (citedIds == [] ==> grounding == 0.0)
    && grounding * |set id | id in citedIds| as real == |set id | id in citedIds && id in PassageIds(retrieved)| as real
  }

  /** The metrics of a response are about the passages that it reports and the ids that its draft cites. */
  lemma MetricsReported(turn: Turn, checkpoint: State, o: Oracle, cfg: Settings)
    ensures var final := Ask(turn, checkpoint, o, cfg).final;
            var r, v := Respond(final), OutputOf(Reviewed(turn, checkpoint, o, cfg), o, cfg);
            && r.metrics.Some? && r.metrics.value.refused == r.refused
            && Measures(r.metrics.value, final.retrieved, v.citedIds)
  {
    hide Ask, Reviewed, Telemetry, Measures, OutputVerdict, Citations, CitedPassages;
    var last := Reviewed(turn, checkpoint, o, cfg);
    CitationsSound(turn, checkpoint, o, cfg);
    ComplianceKeeps(last, o, cfg);
    var out := OutputOf(last, o, cfg);
    var refused := !out.allowed || last.refused.GetOr(false);
    assert ComplianceNode(last, o, cfg).metrics == Some(Telemetry(last.retrieved, refused, out.citedIds));
    TelemetryMeasures(last.retrieved, refused, out.citedIds);
  }

  lemma Grounded(retrieved: seq<Passage>, refused: bool, citedIds: seq<string>)
    ensures GroundedShare(Telemetry(retrieved, refused, citedIds).grounding, retrieved, citedIds)
  {
    hide RetrievalMetrics.CiteMetrics, RetrievalMetrics.InPlaceOrder, PassageIds, Largest, Least, Mean;
    RetrievalMetrics.CitationsCounted(citedIds, PassageIds(retrieved));
  }

  lemma TelemetryMeasures(retrieved: seq<Passage>, refused: bool, citedIds: seq<string>)
    ensures Measures(Telemetry(retrieved, refused, citedIds), retrieved, citedIds)
  {
    Grounded(retrieved, refused, citedIds);
    hide Largest, Least, Reranks, Cosines, RetrievalMetrics.CiteMetrics, RetrievalMetrics.Sum, PassageIds, CosineSum,
      CosineRange, RerankBest, Mean, GroundedShare;
    CosineExtremes(retrieved);
    RerankTop(retrieved);
    CosineMean(retrieved);
  }

  lemma CosineExtremes(retrieved: seq<Passage>)
    ensures CosineRange(Least(Cosines(retrieved)), Largest(Cosines(retrieved)), retrieved)
  {
    hide Largest, Least, Cosines;
    var cosines := Cosines(retrieved);
    CosinesOf(retrieved);
    forall p | p in retrieved ensures p.cosine in cosines {
      CosineIn(retrieved, p);
    }
  }

  lemma CosineIn(retrieved: seq<Passage>, p: Passage)
    requires p in retrieved
    ensures p.cosine in Cosines(retrieved)
  {
    var i :| 0 <= i < |retrieved| && retrieved[i] == p;
    assert Cosines(retrieved)[i] == p.cosine;
  }

  lemma {:induction false} RerankIn(retrieved: seq<Passage>, p: Passage)
    requires p in retrieved && p.rerank.Some?
    ensures p.rerank.value in Reranks(retrieved)
  {
    if p != retrieved[0] {
      RerankIn(retrieved[1..], p);
    }
  }

  lemma RerankTop(retrieved: seq<Passage>)
    ensures RerankBest(Largest(Reranks(retrieved)), retrieved)
  {
    hide Largest, Reranks;
    var reranks := Reranks(retrieved);
    RerankScores(retrieved);
    forall p | p in retrieved && p.rerank.Some? ensures p.rerank.value in reranks {
      RerankIn(retrieved, p);
    }
    if reranks != [] {
      var top := Largest(reranks).value;
      assert top in reranks;
    }
  }

  lemma CosineMean(retrieved: seq<Passage>)
    ensures var mean := Mean(Cosines(retrieved));
            && (mean.Some? <==> retrieved != [])
            && (mean.Some? ==> mean.value * |retrieved| as real == CosineSum(retrieved))
  {
    hide Cosines, CosineSum, RetrievalMetrics.Sum;
    CosinesOf(retrieved);
  }

  function CosineSum(retrieved: seq<Passage>): real {
    if retrieved == [] then 0.0
    else
      var n := |retrieved| - 1;
      CosineSum(retrieved[..n]) + retrieved[n].cosine
  }

  lemma {:induction false} CosinesOf(retrieved: seq<Passage>)
    ensures forall x :: x in Cosines(retrieved) <==> exists p :: p in retrieved && p.cosine == x
    ensures RetrievalMetrics.Sum(Cosines(retrieved)) == CosineSum(retrieved)
    ensures |Cosines(retrieved)| == |retrieved|
  {
    hide RetrievalMetrics.Sum;
    forall x ensures x in Cosines(retrieved) <==> exists p :: p in retrieved && p.cosine == x {
      if x in Cosines(retrieved) {
        var i :| 0 <= i < |retrieved| && Cosines(retrieved)[i] == x;
        assert retrieved[i] in retrieved;
      }
      if p :| p in retrieved && p.cosine == x {
        var i :| 0 <= i < |retrieved| && retrieved[i] == p;
        assert Cosines(retrieved)[i] == x;
      }
    }
    if retrieved != [] {
      var n := |retrieved| - 1;
      CosinesOf(retrieved[..n]);
      assert Cosines(retrieved)[..n] == Cosines(retrieved[..n]);
      RetrievalMetrics.SumSnoc(Cosines(retrieved), n);
      assert Cosines(retrieved)[..n + 1] == Cosines(retrieved);
    } else {
      NoSum();
      assert Cosines(retrieved) == [];
    }
  }

  lemma NoSum()
    ensures RetrievalMetrics.Sum([]) == 0.0
  {
  }
}
