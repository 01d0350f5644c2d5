/** The multi-agent graph: nodes that overwrite a shared record, and a bounded critic loop. */
module Orchestrator {
  import opened Common
  import opened Guardrails
  import RetrievalMetrics
  import Text

  // ------------------------------------------------------------------- records

  datatype Passage = Passage(
    id: string, docId: string, title: string, source: string, text: string, web: bool,
    cosine: real, score: real, rerank: Option<real>)

  datatype Citation = Citation(
    id: string, docId: string, title: string, source: string, excerpt: string, score: real, text: string)

  datatype Route = Corpus | Web | Both | Blocked

  /** What is measured of a request without labels, but for its latency. */
  datatype OnlineMetrics = OnlineMetrics(
    numRetrieved: nat, topCosine: Option<real>, meanCosine: Option<real>, minCosine: Option<real>,
    topRerank: Option<real>, refused: bool, grounding: real, hallucinated: seq<string>)

  /** What the caller supplies anew on every turn. */
  datatype Turn = Turn(query: string, caption: Option<string>, orgId: string, asOf: Option<int>)

  /** The shared record. An option is a key that may be absent; a checkpoint carries all of it over
      to the next turn of a thread. */
  datatype State = State(
    turn: Turn,
    allowed: bool,
    guardrailReasons: seq<Reason>,
    retrieved: seq<Passage>,
    citations: seq<Citation>,
    route: Option<Route>,
    needsFreshness: Option<bool>,
    searchQuery: Option<string>,
    answerable: Option<bool>,
    unanswerableReason: Option<string>,
    answer: Option<string>,
    confidence: Option<real>,
    refused: Option<bool>,
    criticAttempts: Option<int>,
    criticReasons: Option<seq<string>>,
    criticApproved: Option<bool>,
    metrics: Option<OnlineMetrics>,
    traceId: Option<string>)

  datatype InputVerdict = InputVerdict(allowed: bool, reasons: seq<Reason>, sanitized: Option<string>)

  datatype Plan = Plan(route: Route, needsFreshness: bool, searchQuery: Option<string>)

  datatype Answerability = Answerability(answerable: bool, missing: string)

  datatype Critique = Critique(approved: bool, reasons: seq<string>, suggestedQuery: Option<string>)

  /** Everything that happens outside: each verdict may depend on how many nodes ran before it, and
      otherwise on exactly what the node passes along. The analyst is passed one prompt, into which
      `context` formats the passages; a trace id is drawn for a turn that has none. */
  datatype Oracle = Oracle(
    checkInput: string -> InputVerdict,
    blockedInput: seq<Reason> -> string,
    blockedOutput: seq<Reason> -> string,
    plan: string -> Plan,
    retrieve: (nat, string, string, Option<int>) -> seq<Passage>,
    searchWeb: (nat, string, bool) -> seq<Passage>,
    gate: (nat, string, seq<Passage>) -> Answerability,
    refusal: (string, bool, bool) -> string,
    context: seq<Passage> -> string,
    draft: (nat, string) -> string,
    review: (nat, string, string, seq<Passage>) -> Critique,
    patterns: Patterns,
    newTraceId: string)

  datatype Settings = Settings(
    criticMaxRetries: int, requireCitations: bool, rerankTopK: nat, webMax: nat, exhaustedText: string)

  datatype Node = Supervisor | Researcher | WebSearch | Gate | Analyst | Critic | Compliance | End

  // ------------------------------------------------------------------- helpers

  /** `value or default`, for a string. */
  function Or(value: Option<string>, default: string): string {
    if value.Some? && value.value != "" then value.value else default
  }

  function SearchQuery(query: string, caption: Option<string>): string {
    if Or(caption, "") == "" then query else query + "\n\nImage: " + caption.value
  }

  /** What the next draft is told of the reasons for which the last one was rejected. */
  function Feedback(s: State): string {
    FeedbackText(s.criticReasons.GetOr([]))
  }

  function FeedbackText(reasons: seq<string>): string {
    if reasons == [] then ""
    else
      "\n\nA previous draft was rejected for: " + Text.Join(reasons, "; ")
      + "\nAddress those issues; do not repeat unsupported claims."
  }

  const PROMPT_TAIL := "\n\nAnswer with [chunk_id] citations."

  function Prompt(s: State, o: Oracle): string {
    PromptHead(s.turn, o.context(s.retrieved)) + Feedback(s) + PROMPT_TAIL
  }

  function PromptHead(turn: Turn, context: string): string {
    var image := if Or(turn.caption, "") == "" then "" else "\n\nUser-provided image:\n" + turn.caption.value;
    "Question: " + turn.query + image + "\n\nPassages:\n" + context
  }

  function Citations(retrieved: seq<Passage>): (r: seq<Citation>)
    ensures |r| == |retrieved|
  {
    seq(|retrieved|, i requires 0 <= i < |retrieved| =>
      var p := retrieved[i];
      Citation(p.id, p.docId, p.title, p.source, p.text[..Min(280, |p.text|)], p.score, p.text))
  }

  function PassageIds(retrieved: seq<Passage>): (r: seq<string>)
    ensures |r| == |retrieved|
  {
    seq(|retrieved|, i requires 0 <= i < |retrieved| => retrieved[i].id)
  }

  function CitationIds(citations: seq<Citation>): (r: seq<string>)
    ensures |r| == |citations|
  {
    seq(|citations|, i requires 0 <= i < |citations| => citations[i].id)
  }

  function WebOnly(retrieved: seq<Passage>): (r: seq<Passage>)
    ensures |r| <= |retrieved|
  {
    if retrieved == [] then []
    else (if retrieved[0].web then [retrieved[0]] else []) + WebOnly(retrieved[1..])
  }

  function Largest(xs: seq<real>): (r: Option<real>)
    ensures r.Some? <==> xs != []
    ensures r.Some? ==> r.value in xs && forall x | x in xs :: x <= r.value
  {
    if xs == [] then None
    else
      var m := Largest(xs[1..]).GetOr(xs[0]);
      assert forall x | x in xs :: x == xs[0] || x in xs[1..];
      Some(if m > xs[0] then m else xs[0])
  }

  function Least(xs: seq<real>): (r: Option<real>)
    ensures r.Some? <==> xs != []
    ensures r.Some? ==> r.value in xs && forall x | x in xs :: r.value <= x
  {
    if xs == [] then None
    else
      var m := Least(xs[1..]).GetOr(xs[0]);
      assert forall x | x in xs :: x == xs[0] || x in xs[1..];
      Some(if m < xs[0] then m else xs[0])
  }

  function Mean(xs: seq<real>): Option<real> {
    if xs == [] then None else Some(RetrievalMetrics.Sum(xs) / |xs| as real)
  }

  function Cosines(retrieved: seq<Passage>): (r: seq<real>)
    ensures |r| == |retrieved|
  {
    seq(|retrieved|, i requires 0 <= i < |retrieved| => retrieved[i].cosine)
  }

  function Reranks(retrieved: seq<Passage>): seq<real> {
    if retrieved == [] then []
    else (if retrieved[0].rerank.Some? then [retrieved[0].rerank.value] else []) + Reranks(retrieved[1..])
  }

  function TopCosine(retrieved: seq<Passage>): real {
    Largest(Cosines(retrieved)).GetOr(0.0)
  }

  /** `compute_online_telemetry`, with the grounding of the ids that the answer cites. */
  function Telemetry(retrieved: seq<Passage>, refused: bool, citedIds: seq<string>): OnlineMetrics {
    var cosines := Cosines(retrieved);
    var cited := RetrievalMetrics.CiteMetrics(citedIds, PassageIds(retrieved));
    OnlineMetrics(|retrieved|, Largest(cosines), Mean(cosines), Least(cosines), Largest(Reranks(retrieved)),
      refused, cited.grounding, cited.hallucinated)
  }

  predicate LastAt(retrieved: seq<Passage>, i: nat, id: string) {
    i < |retrieved| && retrieved[i].id == id && forall j | i < j < |retrieved| :: retrieved[j].id != id
  }

  /** The last passage with an id, as a dictionary built from the list would hold it. */
  function ById(retrieved: seq<Passage>, id: string): (p: Passage)
    requires id in PassageIds(retrieved)
    ensures exists i :: 0 <= i < |retrieved| && retrieved[i] == p && LastAt(retrieved, i, id)
    ensures p.id == id && p in retrieved
  {
    var n := |retrieved| - 1;
    if retrieved[n].id == id then
      assert LastAt(retrieved, n, id);
      retrieved[n]
    else
      assert PassageIds(retrieved)[..n] == PassageIds(retrieved[..n]);
      LastAbove(retrieved, n, id);
      ById(retrieved[..n], id)
  }

  lemma LastAbove(retrieved: seq<Passage>, n: nat, id: string)
    requires n == |retrieved| - 1 && retrieved[n].id != id
    ensures forall i: nat | LastAt(retrieved[..n], i, id) :: LastAt(retrieved, i, id)
  {
  }

  function CitedPassages(retrieved: seq<Passage>, ids: seq<string>): seq<Passage> {
    if ids == [] then []
    else
      (if ids[0] in PassageIds(retrieved) then [ById(retrieved, ids[0])] else [])
      + CitedPassages(retrieved, ids[1..])
  }

  // ------------------------------------------------------------------- routers

  function RouteFromSupervisor(s: State): Node {
    if !s.allowed then Compliance
    else if s.route == Some(Web) then WebSearch
    else Researcher
  }

  function AfterResearch(s: State): Node {
    if s.route == Some(Both) then WebSearch else Gate
  }

  function AfterAnswerability(s: State): Node {
    if s.answerable.GetOr(true) then Analyst else Compliance
  }

  function AfterCritic(s: State, cfg: Settings): Node {
    if s.criticApproved.GetOr(true) then Compliance
    else if s.criticAttempts.GetOr(0) > cfg.criticMaxRetries then Compliance
    else Researcher
  }

  // --------------------------------------------------------------------- nodes

  function RouteNode(s: State, o: Oracle): State {
    var guard := o.checkInput(s.turn.query);
    var sanitized := Or(guard.sanitized, s.turn.query);
    var s1 := s.(allowed := guard.allowed, guardrailReasons := guard.reasons,
      criticAttempts := Some(0), retrieved := [], citations := [], traceId := Some(Or(s.traceId, o.newTraceId)));
    if !guard.allowed then
      s1.(answer := Some(o.blockedInput(guard.reasons)), refused := Some(true), confidence := Some(0.0),
        route := Some(Blocked))
    else
      var plan := o.plan(sanitized);
      s1.(route := Some(plan.route), needsFreshness := Some(plan.needsFreshness),
        searchQuery := Some(SearchQuery(Or(plan.searchQuery, sanitized), s.turn.caption)))
  }

  function ResearchNode(s: State, n: nat, o: Oracle): State {
    var query := Or(s.searchQuery, s.turn.query);
    s.(retrieved := o.retrieve(n, query, s.turn.orgId, s.turn.asOf) + WebOnly(s.retrieved))
  }

  function WebNode(s: State, n: nat, o: Oracle): State {
    var query := Or(s.searchQuery, s.turn.query);
    s.(retrieved := s.retrieved + o.searchWeb(n, query, s.needsFreshness.GetOr(false)))
  }

  /** The refusal names the sources searched: web material, and whether that was all there was. */
  function Unanswerable(s: State, missing: string, o: Oracle): State {
    var web := WebOnly(s.retrieved);
    s.(answerable := Some(false), unanswerableReason := Some(missing),
      answer := Some(o.refusal(missing, web != [], |web| < |s.retrieved|)),
      refused := Some(true), confidence := Some(0.0), citations := Citations(s.retrieved))
  }

  function GateNode(s: State, n: nat, o: Oracle): State {
    var verdict := o.gate(n, s.turn.query, s.retrieved);
    if verdict.answerable then s.(answerable := Some(true)) else Unanswerable(s, verdict.missing, o)
  }

  function AnalystNode(s: State, n: nat, o: Oracle): State {
    s.(answer := Some(o.draft(n, Prompt(s, o))),
      citations := Citations(s.retrieved), confidence := Some(TopCosine(s.retrieved)), refused := Some(false))
  }

  /** A rejected draft: the reasons are kept for the next one, and once the budget is spent the answer
      is refused rather than shipped. */
  function Rejected(s: State, critique: Critique, cfg: Settings): State {
    var attempts := s.criticAttempts.GetOr(0) + 1;
    var exhausted := attempts > cfg.criticMaxRetries;
    s.(criticApproved := Some(false), criticAttempts := Some(attempts),
      criticReasons := Some(if critique.reasons != [] then critique.reasons else ["unsupported_claims"]),
      searchQuery :=
        if Or(critique.suggestedQuery, "") != "" && !exhausted then critique.suggestedQuery else s.searchQuery,
      answer := if exhausted then Some(cfg.exhaustedText) else s.answer,
      refused := if exhausted then Some(true) else s.refused,
      confidence := if exhausted then Some(0.0) else s.confidence)
  }

  function CriticNode(s: State, n: nat, o: Oracle, cfg: Settings): State {
    var critique := o.review(n, s.turn.query, s.answer.GetOr(""), s.retrieved);
    if critique.approved then Accepted(s)
    else Rejected(s, critique, cfg)
  }

  function OutputOf(s: State, o: Oracle, cfg: Settings): Verdict {
    OutputVerdict(s.answer.GetOr(""), CitationIds(s.citations), PassageIds(s.retrieved),
      s.refused.GetOr(false), cfg.requireCitations, o.patterns)
  }

  function ComplianceNode(s: State, o: Oracle, cfg: Settings): State {
    var refused := s.refused.GetOr(false);
    var out := OutputOf(s, o, cfg);
    var cited := CitedPassages(s.retrieved, out.groundedIds);
    var answer :=
      if !out.allowed then Or(out.sanitized, o.blockedOutput(out.reasons))
      else if !refused then Or(out.sanitized, s.answer.GetOr(""))
      else s.answer.GetOr("");
    s.(answer := Some(answer),
      citations := if cited != [] then Citations(cited) else s.citations,
      refused := Some(!out.allowed || refused),
      metrics := Some(Telemetry(s.retrieved, !out.allowed || refused, out.citedIds)),
      guardrailReasons := s.guardrailReasons + out.reasons)
  }

  // ----------------------------------------------------------------------- runs

  function Update(node: Node, s: State, n: nat, o: Oracle, cfg: Settings): State {
    match node
    case Supervisor => RouteNode(s, o)
    case Researcher => ResearchNode(s, n, o)
    case WebSearch => WebNode(s, n, o)
    case Gate => GateNode(s, n, o)
    case Analyst => AnalystNode(s, n, o)
    case Critic => CriticNode(s, n, o, cfg)
    case Compliance => ComplianceNode(s, o, cfg)
    case End => s
  }

  function Next(node: Node, s: State, cfg: Settings): Node {
    match node
    case Supervisor => RouteFromSupervisor(s)
    case Researcher => AfterResearch(s)
    case WebSearch => Gate
    case Gate => AfterAnswerability(s)
    case Analyst => Critic
    case Critic => AfterCritic(s, cfg)
    case Compliance => End
    case End => End
  }

  /** How far a node is from leaving its round of the loop. */
  function Place(node: Node): nat {
    match node
    case Supervisor => 7
    case Researcher => 6
    case WebSearch => 5
    case Gate => 4
    case Analyst => 3
    case Critic => 2
    case Compliance => 1
    case End => 0
  }

  function RetriesLeft(node: Node, s: State, cfg: Settings): nat {
    if node == Supervisor || node == Compliance || node == End then 0
    else Max(0, cfg.criticMaxRetries - s.criticAttempts.GetOr(0))
  }

  datatype Outcome = Outcome(visits: seq<Node>, final: State)

  /** Run to the end from a node, after the given visits. */
  function Run(visits: seq<Node>, node: Node, s: State, o: Oracle, cfg: Settings): Outcome
    decreases node == Supervisor, RetriesLeft(node, s, cfg), Place(node)
  {
    if node == End then Outcome(visits, s)
    else
      var s' := Update(node, s, |visits|, o, cfg);
      hide Update, Next;
      RunMeasure(node, s, |visits|, o, cfg);
      Run(visits + [node], Next(node, s', cfg), s', o, cfg)
  }

  /** The state in which a turn starts: the keys of the request over those of the checkpoint. */
  function Begin(turn: Turn, checkpoint: State): State {
    checkpoint.(turn := turn, allowed := true, guardrailReasons := [], citations := [], retrieved := [])
  }

  /** The state in which a run reaches compliance. */
  function AtCompliance(visits: seq<Node>, node: Node, s: State, o: Oracle, cfg: Settings): State
    decreases node == Supervisor, RetriesLeft(node, s, cfg), Place(node)
  {
    if node == Compliance || node == End then s
    else
      var s' := Update(node, s, |visits|, o, cfg);
      hide Update, Next;
      RunMeasure(node, s, |visits|, o, cfg);
      AtCompliance(visits + [node], Next(node, s', cfg), s', o, cfg)
  }

  function Ask(turn: Turn, checkpoint: State, o: Oracle, cfg: Settings): Outcome {
    Run([], Supervisor, Begin(turn, checkpoint), o, cfg)
  }

  datatype Response = Response(
    answer: string, citations: seq<Citation>, confidence: real, metrics: Option<OnlineMetrics>,
    guardrails: seq<Reason>, refused: bool, traceId: string, retrievedIds: seq<string>)

  function Respond(final: State): Response {
    Response(final.answer.GetOr(""), final.citations, final.confidence.GetOr(0.0), final.metrics,
      final.guardrailReasons, final.refused.GetOr(false), final.traceId.GetOr(""), PassageIds(final.retrieved))
  }

  // ------------------------------------------------------ independence of turns

  /** A node inside the loop, ahead of the critic's verdict. */
  predicate InLoop(node: Node) {
    node.Researcher? || node.WebSearch? || node.Gate? || node.Analyst? || node.Critic?
  }

  /** A node that reads a finished answer. */
  predicate HasAnswer(node: Node) {
    node.Critic? || node.Compliance? || node.End?
  }

  /** Two states agree on everything the run from a node on will read, but for the trace id. */
  predicate Agree(node: Node, a: State, b: State) {
    && a.turn == b.turn && a.retrieved == b.retrieved && a.guardrailReasons == b.guardrailReasons
    && (node.Supervisor? || InLoop(node) ==> Feedback(a) == Feedback(b))
    && (InLoop(node) ==>
          && a.route == b.route && a.needsFreshness == b.needsFreshness
          && a.searchQuery == b.searchQuery && a.criticAttempts == b.criticAttempts)
    && (HasAnswer(node) ==>
          && a.answer == b.answer && a.refused == b.refused && a.confidence == b.confidence
          && a.citations == b.citations)
    && (node.End? ==> a.metrics == b.metrics)
  }

  ghost predicate KeepsAgreement(node: Node, n: nat, o: Oracle, cfg: Settings) {
    forall a, b | Agree(node, a, b) ::
      var a', b' := Update(node, a, n, o, cfg), Update(node, b, n, o, cfg);
      Next(node, a', cfg) == Next(node, b', cfg) && Agree(Next(node, a', cfg), a', b')
  }

  lemma EntryAgrees(n: nat, o: Oracle, cfg: Settings)
    ensures KeepsAgreement(Supervisor, n, o, cfg)
  {
    hide SearchQuery, FeedbackText;
  }

  lemma SearchAgrees(n: nat, o: Oracle, cfg: Settings)
    ensures KeepsAgreement(Researcher, n, o, cfg) && KeepsAgreement(WebSearch, n, o, cfg)
  {
    hide WebOnly, FeedbackText;
  }

  lemma UnanswerableAgrees(a: State, b: State, missing: string, o: Oracle)
    requires Agree(Gate, a, b)
    ensures Agree(Compliance, Unanswerable(a, missing, o), Unanswerable(b, missing, o))
    ensures Unanswerable(a, missing, o).answerable == Unanswerable(b, missing, o).answerable == Some(false)
  {
    hide WebOnly, Citations, FeedbackText;
  }

  lemma GateAgrees(n: nat, o: Oracle, cfg: Settings)
    ensures KeepsAgreement(Gate, n, o, cfg)
  {
    hide Unanswerable, FeedbackText;
    forall a, b | Agree(Gate, a, b)
      ensures var a', b' := Update(Gate, a, n, o, cfg), Update(Gate, b, n, o, cfg);
              Next(Gate, a', cfg) == Next(Gate, b', cfg) && Agree(Next(Gate, a', cfg), a', b')
    {
      UnanswerableAgrees(a, b, o.gate(n, a.turn.query, a.retrieved).missing, o);
    }
  }

  lemma DraftAgrees(n: nat, o: Oracle, cfg: Settings)
    ensures KeepsAgreement(Analyst, n, o, cfg)
  {
    hide TopCosine, Citations, FeedbackText, PromptHead;
  }

  lemma RejectedAgrees(a: State, b: State, critique: Critique, cfg: Settings)
    requires Agree(Critic, a, b)
    ensures var a', b' := Rejected(a, critique, cfg), Rejected(b, critique, cfg);
            AfterCritic(a', cfg) == AfterCritic(b', cfg) && Agree(AfterCritic(a', cfg), a', b')
  {
    hide Or, FeedbackText;
  }

  lemma CriticAgrees(n: nat, o: Oracle, cfg: Settings)
    ensures KeepsAgreement(Critic, n, o, cfg)
  {
    hide Rejected, FeedbackText, Agree, AfterCritic;
    forall a, b | Agree(Critic, a, b)
      ensures var a', b' := Update(Critic, a, n, o, cfg), Update(Critic, b, n, o, cfg);
              Next(Critic, a', cfg) == Next(Critic, b', cfg) && Agree(Next(Critic, a', cfg), a', b')
    {
      ApprovedAgrees(a, b, cfg);
      RejectedAgrees(a, b, o.review(n, a.turn.query, a.answer.GetOr(""), a.retrieved), cfg);
    }
  }

  function Accepted(s: State): State {
    s.(criticApproved := Some(true), criticAttempts := Some(s.criticAttempts.GetOr(0)))
  }

  lemma ApprovedAgrees(a: State, b: State, cfg: Settings)
    requires Agree(Critic, a, b)
    ensures a.turn == b.turn && a.retrieved == b.retrieved && a.answer == b.answer
    ensures AfterCritic(Accepted(a), cfg) == AfterCritic(Accepted(b), cfg)
    ensures Agree(AfterCritic(Accepted(a), cfg), Accepted(a), Accepted(b))
  {
    hide FeedbackText;
  }

  lemma ComplianceAgrees(n: nat, o: Oracle, cfg: Settings)
    ensures KeepsAgreement(Compliance, n, o, cfg)
  {
    hide OutputVerdict, Citations, TopCosine, WebOnly, CitedPassages, PassageIds, CitationIds, Telemetry;
  }

  lemma StepAgrees(node: Node, n: nat, o: Oracle, cfg: Settings)
    requires node != End
    ensures KeepsAgreement(node, n, o, cfg)
  {
    hide KeepsAgreement;
    match node
    case Supervisor => EntryAgrees(n, o, cfg);
    case Researcher => SearchAgrees(n, o, cfg);
    case WebSearch => SearchAgrees(n, o, cfg);
    case Gate => GateAgrees(n, o, cfg);
    case Analyst => DraftAgrees(n, o, cfg);
    case Critic => CriticAgrees(n, o, cfg);
    case Compliance => ComplianceAgrees(n, o, cfg);
  }

  lemma {:induction false} RunAgrees(visits: seq<Node>, node: Node, a: State, b: State, o: Oracle, cfg: Settings)
    requires Agree(node, a, b)
    ensures var x, y := Run(visits, node, a, o, cfg), Run(visits, node, b, o, cfg);
            x.visits == y.visits && Agree(End, x.final, y.final)
    decreases node == Supervisor, RetriesLeft(node, a, cfg), Place(node)
  {
    hide Agree, Update, Next;
    if node != End {
      StepAgrees(node, |visits|, o, cfg);
      var a', b' := Update(node, a, |visits|, o, cfg), Update(node, b, |visits|, o, cfg);
      RunMeasure(node, a, |visits|, o, cfg);
      RunAgrees(visits + [node], Next(node, a', cfg), a', b', o, cfg);
    }
  }

  /** Every step brings the run nearer its end. */
  lemma RunMeasure(node: Node, s: State, n: nat, o: Oracle, cfg: Settings)
    requires node != End
    ensures var s' := Update(node, s, n, o, cfg);
            var next := Next(node, s', cfg);
            && next != Supervisor
            && (node == Supervisor
                || RetriesLeft(next, s', cfg) < RetriesLeft(node, s, cfg)
                || (RetriesLeft(next, s', cfg) == RetriesLeft(node, s, cfg) && Place(next) < Place(node)))
  {
    hide OutputVerdict, Citations, TopCosine, WebOnly, CitedPassages, PassageIds, CitationIds, Telemetry;
  }

  /** After the first node the trace id stays. */
  lemma {:induction false} TraceKept(visits: seq<Node>, node: Node, s: State, o: Oracle, cfg: Settings)
    requires node != Supervisor
    ensures Run(visits, node, s, o, cfg).final.traceId == s.traceId
    decreases RetriesLeft(node, s, cfg), Place(node)
  {
    hide Update, Next, RetriesLeft;
    if node != End {
      var s' := Update(node, s, |visits|, o, cfg);
      RunMeasure(node, s, |visits|, o, cfg);
      StepKeepsTrace(node, s, |visits|, o, cfg);
      TraceKept(visits + [node], Next(node, s', cfg), s', o, cfg);
    }
  }

  lemma StepKeepsTrace(node: Node, s: State, n: nat, o: Oracle, cfg: Settings)
    ensures Update(node, s, n, o, cfg).traceId ==
              if node == Supervisor then Some(Or(s.traceId, o.newTraceId)) else s.traceId
  {
    hide OutputVerdict, Citations, TopCosine, WebOnly, CitedPassages, PassageIds, CitationIds, Telemetry, Prompt,
      SearchQuery;
  }

  /** A turn answers under the trace id that the checkpoint holds, and draws one only if it holds none. */
  lemma TraceOfTurn(turn: Turn, checkpoint: State, o: Oracle, cfg: Settings)
    ensures Respond(Ask(turn, checkpoint, o, cfg).final).traceId == Or(checkpoint.traceId, o.newTraceId)
  {
    hide Update, Next, Run, Or;
    var s := Begin(turn, checkpoint);
    var s' := Update(Supervisor, s, 0, o, cfg);
    StepKeepsTrace(Supervisor, s, 0, o, cfg);
    RunMeasure(Supervisor, s, 0, o, cfg);
    FirstStep(s, o, cfg);
    TraceKept([Supervisor], Next(Supervisor, s', cfg), s', o, cfg);
  }

  lemma FirstStep(s: State, o: Oracle, cfg: Settings)
    ensures var s' := Update(Supervisor, s, 0, o, cfg);
            Run([], Supervisor, s, o, cfg) == Run([Supervisor], Next(Supervisor, s', cfg), s', o, cfg)
  {
    hide Update, Next;
    assert [] + [Supervisor] == [Supervisor];
  }

  /** Two turns of a thread with equal requests, outside verdicts and left-over feedback visit the same
      nodes and give the same response but for its trace id, whatever else their checkpoints hold. */
  lemma TurnsIndependent(turn: Turn, a: State, b: State, o: Oracle, cfg: Settings)
    requires Feedback(a) == Feedback(b)
    ensures var x, y := Ask(turn, a, o, cfg), Ask(turn, b, o, cfg);
            && x.visits == y.visits
            && Respond(x.final).traceId == Or(a.traceId, o.newTraceId)
            && Respond(y.final) == Respond(x.final).(traceId := Or(b.traceId, o.newTraceId))
  {
    hide Run, FeedbackText, Or, Ask;
    RunAgrees([], Supervisor, Begin(turn, a), Begin(turn, b), o, cfg);
    AskRuns(turn, a, o, cfg);
    AskRuns(turn, b, o, cfg);
    TraceOfTurn(turn, a, o, cfg);
    TraceOfTurn(turn, b, o, cfg);
  }

  lemma AskRuns(turn: Turn, checkpoint: State, o: Oracle, cfg: Settings)
    ensures Ask(turn, checkpoint, o, cfg) == Run([], Supervisor, Begin(turn, checkpoint), o, cfg)
  {
    hide Run;
  }
}
