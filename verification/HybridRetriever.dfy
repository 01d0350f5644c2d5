/** Hybrid retrieval: a page of SQL rows, and entity neighbours folded into it in place. */
module HybridRetriever {
  import opened Common
  import opened Ordering
  import opened Fusion
  import opened PgVectorStore

  /** A retrieved chunk, whose scores change in place. */
  class Retrieved {
    const id: Id
    var score: real
    var rrfScore: real
    var graphScore: real
    var graphRank: Option<nat>

    constructor FromRow(row: Row)
      ensures id == row.id && score == rrfScore == row.Score() && graphScore == 0.0 && graphRank == None
    {
      id, score, rrfScore, graphScore, graphRank := row.id, row.Score(), row.Score(), 0.0, None;
    }

    constructor FromGraph(id: Id, contribution: real, rank: nat)
      ensures this.id == id && score == rrfScore == graphScore == contribution && graphRank == Some(rank)
    {
      this.id, score, rrfScore, graphScore, graphRank := id, contribution, contribution, contribution, Some(rank);
    }

    method AddGraph(contribution: real, rank: nat)
      modifies this
      ensures score == old(score) + contribution && rrfScore == old(rrfScore) + contribution
      ensures graphScore == contribution && graphRank == Some(rank)
    {
      graphScore := contribution;
      graphRank := Some(rank);
      score := score + contribution;
      rrfScore := rrfScore + contribution;
    }
  }

  // ------------------------------------------------------------ specification

  /** The part of a score that the graph ranker contributes. */
  function GraphPart(graph: seq<Id>, id: Id, k: nat, w: real): real {
    var r := RankIn(graph, id);
    if r.Some? then Contribution(r.value, k, w) else 0.0
  }

  function SqlPart(page: seq<Row>, id: Id): real {
    if page == [] then 0.0 else if page[0].id == id then page[0].Score() else SqlPart(page[1..], id)
  }

  function FoldedScore(page: seq<Row>, graph: seq<Id>, id: Id, k: nat, w: real): real {
    SqlPart(page, id) + GraphPart(graph, id, k, w)
  }

  function FoldedScores(page: seq<Row>, graph: seq<Id>, k: nat, w: real): map<Id, real> {
    map id | id in Elements(RowIds(page)) + Elements(graph) :: FoldedScore(page, graph, id, k, w)
  }

  // ------------------------------------------------------------ the retriever

  /** The entry that an id should have once the rows `graph` are folded in. */
  ghost predicate IsEntry(e: Retrieved, page: seq<Row>, graph: seq<Id>, id: Id, k: nat, w: real)
    reads e
  {
    && e.id == id && e.score == e.rrfScore == FoldedScore(page, graph, id, k, w)
    && e.graphScore == GraphPart(graph, id, k, w) && e.graphRank == RankIn(graph, id)
  }

  class Candidates {
    var byId: map<Id, Retrieved>

    /** Every id of the page and of the folded rows has its entry, under its own id; so no two
        entries are one object. */
    ghost predicate Holds(page: seq<Row>, graph: seq<Id>, k: nat, w: real)
      reads this, byId.Values
    {
      && byId.Keys == Elements(RowIds(page)) + Elements(graph)
      && forall id | id in byId :: IsEntry(byId[id], page, graph, id, k, w)
    }

    constructor (page: seq<Row>)
      requires Distinct(RowIds(page))
      ensures forall id | id in byId :: fresh(byId[id])
      ensures Holds(page, [], 0, 0.0)
    {
      byId := map[];
      new;
      for n := 0 to |page|
        invariant forall id | id in byId :: fresh(byId[id])
        invariant byId.Keys == Elements(RowIds(page[..n]))
        invariant forall id | id in byId :: IsEntry(byId[id], page, [], id, 0, 0.0)
      {
        var entry := new Retrieved.FromRow(page[n]);
        SqlPartAt(page, n);
        NextRow(page, n);
        byId := byId[page[n].id := entry];
      }
      assert page[..|page|] == page;
    }

    /** The scores now held. */
    function Scores(): map<Id, real>
      reads this, byId.Values
    {
      map id | id in byId :: byId[id].score
    }

    /** An id that is known gains its contribution in place. */
    method FoldKnown(graph: seq<Id>, n: nat, k: nat, w: real, ghost page: seq<Row>)
      requires n < |graph| && Distinct(graph) && Holds(page, graph[..n], k, w) && graph[n] in byId
      modifies byId[graph[n]]
      ensures Holds(page, graph[..n + 1], k, w)
    {
      hide FoldedScore, GraphPart, RankIn, RowIds, Distinct;
      assert forall a | a in byId :: byId[a].id == a;
      var id := graph[n];
      byId[id].AddGraph(Contribution(n + 1, k, w), n + 1);
      FoldStep(page, graph, n, k, w);
      forall d | d in byId ensures IsEntry(byId[d], page, graph[..n + 1], d, k, w) {
        EntryStep(page, graph, n, d, k, w);
      }
    }

    /** An id that neither SQL ranker put on the page gains an entry. */
    method FoldUnknown(graph: seq<Id>, n: nat, k: nat, w: real, ghost page: seq<Row>)
      requires n < |graph| && Distinct(graph) && Holds(page, graph[..n], k, w) && graph[n] !in byId
      modifies this
      ensures Holds(page, graph[..n + 1], k, w)
      ensures byId.Keys == old(byId.Keys) + {graph[n]} && fresh(byId[graph[n]])
      ensures forall id | id in old(byId) :: byId[id] == old(byId[id])
    {
      hide FoldedScore, GraphPart, RankIn, RowIds, Distinct;
      var id := graph[n];
      var entry := new Retrieved.FromGraph(id, Contribution(n + 1, k, w), n + 1);
      FoldStep(page, graph, n, k, w);
      forall d | d in byId || d == id
        ensures IsEntry(if d == id then entry else byId[d], page, graph[..n + 1], d, k, w)
      {
        EntryStep(page, graph, n, d, k, w);
      }
      byId := byId[id := entry];
    }

    /** `_apply_graph_ranker`, given the rows that the expansion of the seeds returned. */
    method ApplyGraphRanker(graph: seq<Id>, k: nat, w: real, ghost page: seq<Row>)
      requires Distinct(graph) && Holds(page, [], 0, 0.0)
      modifies this, byId.Values
      ensures Holds(page, graph, k, w)
      ensures forall id | id in old(byId) :: id in byId && byId[id] == old(byId[id])
      ensures forall id | id in byId && id !in old(byId) :: fresh(byId[id])
    {
      hide IsEntry;
      NoGraph(page, k, w);
      assert Holds(page, graph[..0], k, w) by {
        forall id | id in byId ensures IsEntry(byId[id], page, graph[..0], id, k, w) {
          NoEntryYet(byId[id], page, graph, id, k, w);
        }
      }
      ghost var entries := byId;
      for n := 0 to |graph|
        invariant Holds(page, graph[..n], k, w)
        invariant forall id | id in entries :: id in byId && byId[id] == entries[id]
        invariant forall id | id in byId && id !in entries :: fresh(byId[id])
      {
        if graph[n] in byId {
          FoldKnown(graph, n, k, w, page);
        } else {
          FoldUnknown(graph, n, k, w, page);
        }
      }
      assert graph[..|graph|] == graph;
    }
  }

  lemma NoEntryYet(e: Retrieved, page: seq<Row>, graph: seq<Id>, id: Id, k: nat, w: real)
    requires IsEntry(e, page, [], id, 0, 0.0)
    ensures IsEntry(e, page, graph[..0], id, k, w)
  {
  }

  lemma {:induction false} SqlPartAt(page: seq<Row>, n: nat)
    requires n < |page| && Distinct(RowIds(page))
    ensures SqlPart(page, page[n].id) == page[n].Score()
  {
    if n > 0 {
      assert RowIds(page)[0] != RowIds(page)[n];
      assert RowIds(page[1..]) == RowIds(page)[1..];
      SqlPartAt(page[1..], n - 1);
    }
  }

  lemma NextRow(page: seq<Row>, n: nat)
    requires n < |page| && Distinct(RowIds(page))
    ensures Elements(RowIds(page[..n + 1])) == Elements(RowIds(page[..n])) + {page[n].id}
    ensures page[n].id !in Elements(RowIds(page[..n]))
  {
    assert RowIds(page[..n + 1]) == RowIds(page[..n]) + [page[n].id];
    assert forall i | 0 <= i < n :: RowIds(page[..n])[i] == RowIds(page)[i] != RowIds(page)[n];
  }

  lemma NoGraph(page: seq<Row>, k: nat, w: real)
    ensures FoldedScores(page, [], k, w) == FoldedScores(page, [], 0, 0.0)
  {
  }

  lemma RankSnoc(graph: seq<Id>, n: nat, id: Id)
    requires n < |graph| && Distinct(graph)
    ensures RankIn(graph[..n + 1], id) == if id == graph[n] then Some(n + 1) else RankIn(graph[..n], id)
    ensures graph[n] !in graph[..n]
  {
    var more, less := graph[..n + 1], graph[..n];
    assert more == less + [graph[n]];
    if id == graph[n] {
      RankAt(more, n);
    } else if id in less {
      var i :| 0 <= i < n && less[i] == id;
      RankAt(less, i);
      RankAt(more, i);
    }
  }

  lemma RankAt(docs: seq<Id>, i: nat)
    requires Distinct(docs) && i < |docs|
    ensures RankIn(docs, docs[i]) == Some(i + 1)
  {
    var r := RankIn(docs, docs[i]);
    assert docs[r.value - 1] == docs[i];
  }

  /** What one pass of the fold does to the figures of an id. */
  lemma EntryStep(page: seq<Row>, graph: seq<Id>, n: nat, id: Id, k: nat, w: real)
    requires n < |graph| && Distinct(graph)
    ensures var gain := if id == graph[n] then Contribution(n + 1, k, w) else 0.0;
            && FoldedScore(page, graph[..n + 1], id, k, w) == FoldedScore(page, graph[..n], id, k, w) + gain
            && GraphPart(graph[..n + 1], id, k, w) == GraphPart(graph[..n], id, k, w) + gain
    ensures id == graph[n] ==> GraphPart(graph[..n], id, k, w) == 0.0
    ensures RankIn(graph[..n + 1], id) == if id == graph[n] then Some(n + 1) else RankIn(graph[..n], id)
  {
    RankSnoc(graph, n, id);
  }

  /** One pass of the fold concerns one id, which has an SQL part only if it is on the page. */
  lemma FoldStep(page: seq<Row>, graph: seq<Id>, n: nat, k: nat, w: real)
    requires n < |graph| && Distinct(graph)
    ensures Elements(graph[..n + 1]) == Elements(graph[..n]) + {graph[n]}
    ensures graph[n] !in Elements(RowIds(page)) ==> FoldedScore(page, graph[..n], graph[n], k, w) == 0.0
  {
    assert graph[..n + 1] == graph[..n] + [graph[n]];
    RankSnoc(graph, n, graph[n]);
    if graph[n] !in Elements(RowIds(page)) {
      SqlPartNone(page, graph[n]);
    }
  }

  lemma {:induction false} SqlPartNone(page: seq<Row>, id: Id)
    requires id !in Elements(RowIds(page))
    ensures SqlPart(page, id) == 0.0
  {
    if page != [] {
      assert RowIds(page)[0] == page[0].id;
      assert RowIds(page[1..]) == RowIds(page)[1..];
      SqlPartNone(page[1..], id);
    }
  }

  datatype Settings = Settings(topK: nat, rrfK: nat, candidates: nat, expandLimit: nat, expandWeight: real)

  lemma ScoresHeld(c: Candidates, page: seq<Row>, graph: seq<Id>, k: nat, w: real)
    requires c.Holds(page, graph, k, w)
    ensures c.Scores() == FoldedScores(page, graph, k, w)
  {
    hide FoldedScore, GraphPart, RankIn, RowIds;
  }

  /** `retrieve` up to the reranker: the page, its eight best as seeds, their neighbours folded in, and
      the best of all that. Everything is reported by id. */
  method Retrieve(dense: seq<Id>, sparse: seq<Id>, links: set<Link>, children: set<Id>, cfg: Settings)
    returns (top: seq<Id>, page: seq<Row>, seeds: seq<Id>, graph: seq<Id>)
    ensures IsPage(page, dense, sparse, cfg.rrfK, cfg.topK)
    ensures TopOf(seeds, FoldedScores(page, [], 0, 0.0), 8)
    ensures if seeds == [] then graph == [] else IsExpansion(graph, links, children, seeds, cfg.expandLimit)
    ensures TopOf(top, FoldedScores(page, graph, cfg.rrfK, cfg.expandWeight), cfg.topK)
  {
    hide IsPage, TopOf, IsExpansion, FoldedScores;
    page := HybridSearchRrf(dense, sparse, cfg.rrfK, cfg.topK);
    PageDistinct(page, dense, sparse, cfg.rrfK, cfg.topK);
    var candidates := new Candidates(page);
    ScoresHeld(candidates, page, [], 0, 0.0);
    seeds := TakeTop(candidates.Scores(), 8);
    graph := [];
    if seeds != [] {
      graph := GraphExpand(links, children, seeds, cfg.expandLimit);
      ExpansionShape(graph, links, children, seeds, cfg.expandLimit);
    }
    candidates.ApplyGraphRanker(graph, cfg.rrfK, cfg.expandWeight, page);
    ScoresHeld(candidates, page, graph, cfg.rrfK, cfg.expandWeight);
    top := TakeTop(candidates.Scores(), cfg.topK);
  }

  // --------------------------------------------------- the fold refines fusion

  /** The three rankers that are fused. */
  function Three(dense: seq<Id>, sparse: seq<Id>, graph: seq<Id>, w: real): seq<Ranking> {
    [Ranking(dense, 1.0), Ranking(sparse, 1.0), Ranking(graph, w)]
  }

  lemma ListScoreRank(docs: seq<Id>, id: Id, k: nat, w: real)
    requires Distinct(docs)
    ensures ListScore(docs, 1, id, k, w)
         == var r := RankIn(docs, id); if r.Some? then Contribution(r.value, k, w) else 0.0
  {
    var r := RankIn(docs, id);
    if r.Some? {
      ListScoreAt(docs, 1, id, k, w, r.value - 1);
    } else {
      ListScoreNone(docs, 1, id, k, w);
    }
  }

  lemma ThreeScore(dense: seq<Id>, sparse: seq<Id>, graph: seq<Id>, id: Id, k: nat, w: real)
    requires Distinct(dense) && Distinct(sparse) && Distinct(graph)
    ensures RrfScore(Three(dense, sparse, graph, w), id, k)
         == JoinRow(dense, sparse, id, k).Score() + GraphPart(graph, id, k, w)
  {
    hide ListScore, RankIn;
    var all := Three(dense, sparse, graph, w);
    ListScoreRank(dense, id, k, 1.0);
    ListScoreRank(sparse, id, k, 1.0);
    ListScoreRank(graph, id, k, w);
    assert all[..2][..1] == all[..1] && all[..1][..0] == [];
    assert RrfScore(all[..1], id, k) == RrfScore([], id, k) + ListScore(dense, 1, id, k, 1.0);
    assert RrfScore(all[..2], id, k) == RrfScore(all[..1], id, k) + ListScore(sparse, 1, id, k, 1.0);
  }

  lemma PageScore(page: seq<Row>, dense: seq<Id>, sparse: seq<Id>, k: nat, topK: nat, id: Id)
    requires IsPage(page, dense, sparse, k, topK)
    ensures SqlPart(page, id) == if id in RowIds(page) then JoinRow(dense, sparse, id, k).Score() else 0.0
  {
    hide JoinRow;
    if id in RowIds(page) {
      var n :| 0 <= n < |page| && RowIds(page)[n] == id;
      SqlPartAt(page, n);
    } else {
      SqlPartNone(page, id);
    }
  }

  lemma RowPositive(dense: seq<Id>, sparse: seq<Id>, k: nat, id: Id)
    ensures var s := JoinRow(dense, sparse, id, k).Score();
            s >= 0.0 && (s > 0.0 <==> id in dense || id in sparse)
  {
    if id in dense || id in sparse {
      RowAtLeast(dense, sparse, k, Max(|dense|, |sparse|), id);
    }
  }

  /** The folded score of an id is its score under the fusion of all three rankers, unless the SQL limit
      cut the id from the page: then it falls short by what the SQL rankers gave it. */
  lemma FoldRefinesFusion(
    page: seq<Row>, dense: seq<Id>, sparse: seq<Id>, graph: seq<Id>, k: nat, w: real, topK: nat, id: Id)
    requires IsPage(page, dense, sparse, k, topK)
    requires Distinct(dense) && Distinct(sparse) && Distinct(graph)
    ensures var folded := FoldedScore(page, graph, id, k, w);
            var fused := RrfScore(Three(dense, sparse, graph, w), id, k);
            && folded <= fused
            && (folded == fused <==> id in RowIds(page) || (id !in dense && id !in sparse))
  {
    hide JoinRow, RrfScore, SqlPart;
    ThreeScore(dense, sparse, graph, id, k, w);
    PageScore(page, dense, sparse, k, topK, id);
    RowPositive(dense, sparse, k, id);
  }

  /** A page that is not full has lost nothing, so the fold is then the fusion of all three rankers
      for every id. */
  lemma ShortPageFoldsExactly(
    page: seq<Row>, dense: seq<Id>, sparse: seq<Id>, graph: seq<Id>, k: nat, w: real, topK: nat, id: Id)
    requires IsPage(page, dense, sparse, k, topK) && |page| < topK
    requires Distinct(dense) && Distinct(sparse) && Distinct(graph)
    ensures FoldedScore(page, graph, id, k, w) == RrfScore(Three(dense, sparse, graph, w), id, k)
  {
    hide JoinRow, RrfScore, SqlPart, FoldedScore;
    FoldRefinesFusion(page, dense, sparse, graph, k, w, topK, id);
    var scores := SqlScores(dense, sparse, k);
    DistinctSize(RowIds(page));
    assert |scores.Keys| == |scores| == |page|;
    SubsetWhole(Elements(RowIds(page)), scores.Keys);
    if id in dense || id in sparse {
      assert id in scores.Keys;
      assert id in Elements(RowIds(page));
    }
  }

  lemma SubsetWhole(a: set<Id>, b: set<Id>)
    requires a <= b && |a| == |b|
    ensures a == b
  {
    assert |b - a| == |b| - |a|;
  }

  /** The seeds keep their scores through the fold, and so their order among themselves. */
  lemma SeedsUnmoved(
    page: seq<Row>, links: set<Link>, children: set<Id>, seeds: seq<Id>, graph: seq<Id>, limit: nat,
    k: nat, w: real, seed: Id)
    requires IsExpansion(graph, links, children, seeds, limit) && seed in seeds
    ensures FoldedScore(page, graph, seed, k, w) == FoldedScore(page, [], seed, 0, 0.0)
  {
    ExpansionShape(graph, links, children, seeds, limit);
  }

  /** When w (k + c) < k + 1, no id that only the graph ranker found reaches the score of any SQL row. */
  lemma GraphOnlyBelow(
    page: seq<Row>, dense: seq<Id>, sparse: seq<Id>, graph: seq<Id>, k: nat, c: nat, w: real, topK: nat,
    row: Id, other: Id)
    requires IsPage(page, dense, sparse, k, topK) && |dense| <= c && |sparse| <= c && c >= 1
    requires w >= 0.0 && w * (k + c) as real < (k + 1) as real
    requires row in RowIds(page) && other !in RowIds(page) && other in graph
    ensures FoldedScore(page, graph, other, k, w) < FoldedScore(page, graph, row, k, w)
  {
    hide JoinRow, SqlPart;
    PageScore(page, dense, sparse, k, topK, row);
    PageScore(page, dense, sparse, k, topK, other);
    assert row in Elements(RowIds(page));
    assert row in SqlScores(dense, sparse, k);
    RowAtLeast(dense, sparse, k, c, row);
    NeighbourStaysBelow(k, c, w);
    var r := RankIn(graph, other).value;
    assert Contribution(r, k, w) < Contribution(c, k, 1.0);
    GraphPartSign(graph, row, k, w);
  }

  lemma GraphPartSign(graph: seq<Id>, id: Id, k: nat, w: real)
    requires w >= 0.0
    ensures GraphPart(graph, id, k, w) >= 0.0
  {
    var r := RankIn(graph, id);
    if r.Some? {
      ContributionsFall(r.value, r.value, k, w);
    }
  }

  /** A full page therefore keeps exactly its own ids: neighbours may reorder it, never enter it. */
  lemma FullPageKeepsItsIds(
    page: seq<Row>, dense: seq<Id>, sparse: seq<Id>, graph: seq<Id>, k: nat, c: nat, w: real, topK: nat,
    top: seq<Id>)
    requires IsPage(page, dense, sparse, k, topK) && |dense| <= c && |sparse| <= c && c >= 1
    requires w >= 0.0 && w * (k + c) as real < (k + 1) as real && |page| == topK
    requires TopOf(top, FoldedScores(page, graph, k, w), topK)
    ensures Elements(top) == Elements(RowIds(page))
  {
    hide JoinRow, FoldedScore, IsPage;
    var scores, ids := FoldedScores(page, graph, k, w), RowIds(page);
    PageDistinct(page, dense, sparse, k, topK);
    DistinctSize(ids);
    DistinctSize(top);
    SubsetSize(Elements(ids), scores.Keys);
    assert |scores.Keys| == |scores|;
    forall id | id in Elements(top) ensures id in Elements(ids) {
      if id !in Elements(ids) {
        var lost := MissingFrom(Elements(ids), Elements(top), id);
        GraphOnlyBelow(page, dense, sparse, graph, k, c, w, topK, lost, id);
        ExcludedBelow(top, scores, topK, id, lost);
      }
    }
    SubsetWhole(Elements(top), Elements(ids));
  }

  lemma ExcludedBelow(top: seq<Id>, scores: map<Id, real>, n: nat, kept: Id, lost: Id)
    requires TopOf(top, scores, n) && kept in Elements(top) && lost in scores && lost !in Elements(top)
    ensures ScoreOf(scores, kept) >= scores[lost]
  {
    var i :| 0 <= i < |top| && top[i] == kept;
  }

  lemma PageDistinct(page: seq<Row>, dense: seq<Id>, sparse: seq<Id>, k: nat, topK: nat)
    requires IsPage(page, dense, sparse, k, topK)
    ensures Distinct(RowIds(page))
  {
  }

  /** Of two sets of one size, if the second has a member of its own then so has the first. */
  lemma MissingFrom(a: set<Id>, b: set<Id>, own: Id) returns (lost: Id)
    requires |a| == |b| && own in b && own !in a
    ensures lost in a && lost !in b
  {
    if a <= b {
      SubsetWhole(a, b);
    }
    lost :| lost in a && lost !in b;
  }

  /** An id that the SQL limit cut and the graph brings back: it is scored without its SQL part. */
  lemma CutIdReturns(w: real)
    ensures var dense, page := ["a", "b"], [JoinRow(["a", "b"], [], "a", 60)];
            var links := {Link("a", "e"), Link("b", "e")};
            && IsPage(page, dense, [], 60, 1)
            && IsExpansion(["b"], links, {"b"}, ["a"], 8)
            && FoldedScore(page, ["b"], "b", 60, w) < RrfScore(Three(dense, [], ["b"], w), "b", 60)
  {
    hide JoinRow, SqlScores, TopOf, RankIn, RrfScore, FoldedScore, IsExpansion;
    var dense, page := ["a", "b"], [JoinRow(["a", "b"], [], "a", 60)];
    TopOfTwo(dense);
    RowOfA(dense);
    assert RowIds(page) == ["a"];
    OneNeighbour();
    FoldRefinesFusion(page, dense, [], ["b"], 60, w, 1, "b");
    assert "b" in dense && "b" !in ["a"];
  }

  lemma RowOfA(dense: seq<Id>)
    ensures JoinRow(dense, [], "a", 60).id == "a"
  {
  }

  lemma TwoRanks(dense: seq<Id>)
    requires dense == ["a", "b"]
    ensures RankIn(dense, "a") == Some(1) && RankIn(dense, "b") == Some(2)
    ensures RankIn([], "a") == None && RankIn([], "b") == None
  {
    assert dense[1..] == ["b"] && RankIn(dense[1..], "b") == Some(1);
  }

  lemma TopOfTwo(dense: seq<Id>)
    requires dense == ["a", "b"]
    ensures TopOf(["a"], SqlScores(dense, [], 60), 1)
  {
    hide RankIn;
    var scores := SqlScores(dense, [], 60);
    TwoRanks(dense);
    assert Elements(dense) + Elements([]) == {"a", "b"};
    TwoKeys(scores);
    assert JoinRow(dense, [], "a", 60).Score() == 1.0 / 61.0 && JoinRow(dense, [], "b", 60).Score() == 1.0 / 62.0;
  }

  lemma TwoKeys(scores: map<Id, real>)
    ensures scores.Keys == {"a", "b"} ==> |scores| == 2
  {
    if scores.Keys == {"a", "b"} {
      assert |scores| == |scores.Keys| == |{"a", "b"}|;
    }
  }

  lemma OneNeighbour()
    ensures IsExpansion(["b"], {Link("a", "e"), Link("b", "e")}, {"b"}, ["a"], 8)
  {
    var links := {Link("a", "e"), Link("b", "e")};
    assert Shared(links, ["a"], "b") == {"e"} by {
      assert Link("a", "e") in links && Link("b", "e") in links;
    }
    var found := Neighbours(links, {"b"}, ["a"]);
    assert found.Keys == {"b"};
    assert |found| == |found.Keys| == 1;
  }

  const DEFAULTS := Settings(12, 60, 50, 8, 0.5)

  lemma DefaultsMeetTheBounds()
    ensures DEFAULTS.candidates <= DEFAULTS.rrfK + 1
    ensures DEFAULTS.expandWeight * (DEFAULTS.rrfK + DEFAULTS.candidates) as real < (DEFAULTS.rrfK + 1) as real
  {
  }

  /** As configured, agreement outranks any one ranker, and neighbours never displace a row of a full page. */
  lemma DefaultsSuffice(page: seq<Row>, dense: seq<Id>, sparse: seq<Id>, graph: seq<Id>, top: seq<Id>)
    requires |dense| <= DEFAULTS.candidates && |sparse| <= DEFAULTS.candidates
    requires IsPage(page, dense, sparse, DEFAULTS.rrfK, DEFAULTS.topK) && |page| == DEFAULTS.topK
    requires TopOf(top, FoldedScores(page, graph, DEFAULTS.rrfK, DEFAULTS.expandWeight), DEFAULTS.topK)
    ensures Elements(top) == Elements(RowIds(page))
    ensures forall both, one | both in dense && both in sparse && (one in dense <==> one !in sparse) ::
              JoinRow(dense, sparse, both, DEFAULTS.rrfK).Score() > JoinRow(dense, sparse, one, DEFAULTS.rrfK).Score()
  {
    hide JoinRow, FoldedScores, IsPage, TopOf;
    DefaultsMeetTheBounds();
    FullPageKeepsItsIds(page, dense, sparse, graph, DEFAULTS.rrfK, DEFAULTS.candidates, DEFAULTS.expandWeight,
      DEFAULTS.topK, top);
    forall both, one | both in dense && both in sparse && (one in dense <==> one !in sparse)
      ensures JoinRow(dense, sparse, both, DEFAULTS.rrfK).Score() > JoinRow(dense, sparse, one, DEFAULTS.rrfK).Score()
    {
      FoundByBothOutranks(dense, sparse, DEFAULTS.rrfK, DEFAULTS.candidates, both, one);
    }
  }
}
