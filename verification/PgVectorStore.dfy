/** The meaning of the retrieval SQL: the fused dense and sparse rankings, and entity expansion. */
module PgVectorStore {
  import opened Common
  import opened Ordering
  import opened Fusion

  /** 1-based position in a ranked list. */
  function RankIn(docs: seq<Id>, id: Id): (r: Option<nat>)
    ensures r.Some? <==> id in docs
    ensures r.Some? ==> 1 <= r.value <= |docs| && docs[r.value - 1] == id
    ensures r.Some? ==> forall i | 0 <= i < r.value - 1 :: docs[i] != id
  {
    if docs == [] then None
    else if docs[0] == id then Some(1)
    else
      var r := RankIn(docs[1..], id);
      if r.Some? then Some(r.value + 1) else None
  }

  /** `COALESCE(1.0 / (:k + rank), 0.0)`. */
  function Part(rank: Option<nat>, k: nat): real
    requires rank.Some? ==> rank.value >= 1
  {
    if rank.Some? then Contribution(rank.value, k, 1.0) else 0.0
  }

  datatype Row = Row(id: Id, denseRrf: real, sparseRrf: real, denseRank: Option<nat>, sparseRank: Option<nat>) {
    function Score(): real {
      denseRrf + sparseRrf
    }
  }

  /** The row of the full outer join for an id that either ranker found. */
  function JoinRow(dense: seq<Id>, sparse: seq<Id>, id: Id, k: nat): (row: Row)
    ensures row.id == id
  {
    var d, s := RankIn(dense, id), RankIn(sparse, id);
    Row(id, Part(d, k), Part(s, k), d, s)
  }

  function SqlScores(dense: seq<Id>, sparse: seq<Id>, k: nat): map<Id, real> {
    map id | id in Elements(dense) + Elements(sparse) :: JoinRow(dense, sparse, id, k).Score()
  }

  /** What the query may return: the joined rows of the best `topK` ids, in order of score. Both
      rankers list no id twice and at most `candidates` ids. */
  predicate IsPage(page: seq<Row>, dense: seq<Id>, sparse: seq<Id>, k: nat, topK: nat) {
    && TopOf(RowIds(page), SqlScores(dense, sparse, k), topK)
    && forall i | 0 <= i < |page| :: page[i] == JoinRow(dense, sparse, page[i].id, k)
  }

  function RowIds(page: seq<Row>): (ids: seq<Id>)
    ensures |ids| == |page|
  {
    seq(|page|, i requires 0 <= i < |page| => page[i].id)
  }

  predicate FirstAt(docs: seq<Id>, i: nat, id: Id) {
    i < |docs| && docs[i] == id && id !in docs[..i]
  }

  /** The place of an id in a ranking, counted from 1, with the reciprocal of the constant plus that place;
      no place and nothing where the ranking lacks it. */
  ghost predicate Placed(docs: seq<Id>, id: Id, k: nat, rank: Option<nat>, rrf: real) {
    && (id !in docs ==> rank == None && rrf == 0.0)
    && forall i: nat | FirstAt(docs, i, id) :: rank == Some(i + 1) && rrf == 1.0 / (k + i + 1) as real
  }

  /** What the row of an id holds for each ranking, and its score. */
  lemma RowFields(dense: seq<Id>, sparse: seq<Id>, id: Id, k: nat)
    ensures var row := JoinRow(dense, sparse, id, k);
            && row.id == id && row.Score() == row.denseRrf + row.sparseRrf
            && Placed(dense, id, k, row.denseRank, row.denseRrf)
            && Placed(sparse, id, k, row.sparseRank, row.sparseRrf)
  {
    hide RankIn, Part, Placed;
    PartPlaced(dense, id, k);
    PartPlaced(sparse, id, k);
  }

  lemma PartPlaced(docs: seq<Id>, id: Id, k: nat)
    ensures Placed(docs, id, k, RankIn(docs, id), Part(RankIn(docs, id), k))
  {
    hide FirstAt;
    forall i: nat | FirstAt(docs, i, id)
      ensures RankIn(docs, id) == Some(i + 1) && Part(RankIn(docs, id), k) == 1.0 / (k + i + 1) as real
    {
      FirstPlace(docs, id, i);
    }
  }

  lemma FirstPlace(docs: seq<Id>, id: Id, i: nat)
    requires FirstAt(docs, i, id)
    ensures RankIn(docs, id) == Some(i + 1)
  {
    hide RankIn;
    var k := RankIn(docs, id).value - 1;
    ListedBefore(docs, id, k, i);
  }

  lemma ListedBefore(docs: seq<Id>, id: Id, i: nat, n: nat)
    requires i < |docs| && n < |docs| && docs[i] == id
    ensures i < n ==> id in docs[..n]
  {
    if i < n {
      assert docs[..n][i] == id;
    }
  }

  method HybridSearchRrf(dense: seq<Id>, sparse: seq<Id>, k: nat, topK: nat) returns (page: seq<Row>)
    ensures IsPage(page, dense, sparse, k, topK)
  {
    hide SqlScores, JoinRow, TopOf;
    var ids := TakeTop(SqlScores(dense, sparse, k), topK);
    page := seq(|ids|, i requires 0 <= i < |ids| => JoinRow(dense, sparse, ids[i], k));
    assert RowIds(page) == ids;
  }

  // --------------------------------------------------------- entity expansion

  datatype Link = Link(chunk: Id, entity: string)

  /** The distinct entities a chunk shares with the seeds. */
  function Shared(links: set<Link>, seeds: seq<Id>, chunk: Id): set<string> {
    set l | l in links && l.chunk in seeds && Link(chunk, l.entity) in links :: l.entity
  }

  function Neighbours(links: set<Link>, children: set<Id>, seeds: seq<Id>): map<Id, real> {
    map l | l in links && l.chunk in children && l.chunk !in seeds && Shared(links, seeds, l.chunk) != {}
      :: l.chunk := |Shared(links, seeds, l.chunk)| as real
  }

  /** What the expansion query may return: the children that share most entities with the seeds,
      none of them a seed. */
  predicate IsExpansion(rows: seq<Id>, links: set<Link>, children: set<Id>, seeds: seq<Id>, limit: nat) {
    TopOf(rows, Neighbours(links, children, seeds), limit)
  }

  lemma ExpansionShape(rows: seq<Id>, links: set<Link>, children: set<Id>, seeds: seq<Id>, limit: nat)
    requires IsExpansion(rows, links, children, seeds, limit)
    ensures Distinct(rows) && |rows| <= limit
    ensures forall id | id in rows :: id !in seeds && id in children && Shared(links, seeds, id) != {}
  {
    forall id | id in rows ensures id !in seeds && id in children && Shared(links, seeds, id) != {} {
      assert id in Elements(rows);
      assert id in Neighbours(links, children, seeds);
    }
  }

  /** A chunk that shares entities with the seeds, and is a child and no seed. */
  predicate Related(links: set<Link>, children: set<Id>, seeds: seq<Id>, id: Id) {
    id in children && id !in seeds && Shared(links, seeds, id) != {}
  }

  /** The expansion takes the related chunks that share most entities: it is in order of how many, and what
      it leaves out shares no more than what it takes. */
  lemma ExpansionTakesMost(rows: seq<Id>, links: set<Link>, children: set<Id>, seeds: seq<Id>, limit: nat)
    requires IsExpansion(rows, links, children, seeds, limit)
    ensures forall id | id in rows :: Related(links, children, seeds, id)
    ensures forall i, j | 0 <= i < j < |rows| ::
              |Shared(links, seeds, rows[i])| >= |Shared(links, seeds, rows[j])|
    ensures forall id, other | id in rows && Related(links, children, seeds, other) && other !in rows ::
              |Shared(links, seeds, id)| >= |Shared(links, seeds, other)|
    ensures (exists other :: Related(links, children, seeds, other) && other !in rows) ==> |rows| == limit
  {
    hide Shared;
    var scores := Neighbours(links, children, seeds);
    forall id ensures id in scores <==> Related(links, children, seeds, id) {
      LinkedBy(links, seeds, id);
    }
    forall id | id in rows ensures id in scores {
      assert id in Elements(rows);
    }
    if other :| Related(links, children, seeds, other) && other !in rows {
      MoreThanRows(rows, scores, other);
    }
    forall id, other | id in rows && Related(links, children, seeds, other) && other !in rows
      ensures |Shared(links, seeds, id)| >= |Shared(links, seeds, other)|
    {
      var i :| 0 <= i < |rows| && rows[i] == id;
      assert ScoreOf(scores, rows[i]) >= scores[other];
    }
    forall i, j | 0 <= i < j < |rows| ensures |Shared(links, seeds, rows[i])| >= |Shared(links, seeds, rows[j])| {
      assert ScoreOf(scores, rows[i]) >= ScoreOf(scores, rows[j]);
    }
  }

  /** An entity that a chunk shares links it. */
  lemma LinkedBy(links: set<Link>, seeds: seq<Id>, id: Id)
    ensures Shared(links, seeds, id) != {} ==> exists l :: l in links && l.chunk == id
  {
    if e :| e in Shared(links, seeds, id) {
      assert Link(id, e) in links;
    }
  }

  lemma MoreThanRows(rows: seq<Id>, scores: map<Id, real>, other: Id)
    requires Distinct(rows) && (forall id | id in rows :: id in scores) && other in scores && other !in rows
    ensures |rows| < |scores|
  {
    DistinctSize(rows);
    SubsetSize(Elements(rows) + {other}, scores.Keys);
    assert |scores| == |scores.Keys|;
  }

  method GraphExpand(links: set<Link>, children: set<Id>, seeds: seq<Id>, limit: nat) returns (rows: seq<Id>)
    ensures IsExpansion(rows, links, children, seeds, limit)
  {
    rows := TakeTop(Neighbours(links, children, seeds), limit);
  }

  // -------------------------------------------------- bounds of the SQL scores

  lemma ContributionsFall(low: nat, high: nat, k: nat, w: real)
    requires 1 <= low <= high && w >= 0.0
    ensures 0.0 <= Contribution(high, k, w) <= Contribution(low, k, w)
    ensures w > 0.0 ==> Contribution(high, k, w) > 0.0
  {
    Quotients(w, (k + low) as real, (k + high) as real);
  }

  lemma Quotients(w: real, a: real, b: real)
    requires 0.0 < a <= b && w >= 0.0
    ensures 0.0 <= w / b <= w / a
    ensures w > 0.0 ==> w / b > 0.0
  {
    var p, q := w / a, w / b;
    assert p * a == w && q * b == w;
    NonNegativeFactor(q, b, w);
    NonNegativeFactor(p - q, a, q * (b - a)) by {
      assert (p - q) * a == q * (b - a);
      assert q * (b - a) >= 0.0;
    }
  }

  lemma NonNegativeFactor(x: real, y: real, product: real)
    requires y > 0.0 && x * y == product && product >= 0.0
    ensures x >= 0.0 && (product > 0.0 ==> x > 0.0)
  {
  }

  /** Two contributions at the worst of c ranks against one at the best. */
  lemma TwoAgainstOne(k: nat, c: nat)
    requires c >= 1
    ensures 2.0 * Contribution(c, k, 1.0) > Contribution(1, k, 1.0) <==> c <= k + 1
  {
    var a, b := (k + 1) as real, (k + c) as real;
    var x, y := 1.0 / a, 1.0 / b;
    assert x * a == 1.0 && y * b == 1.0;
    assert (2.0 * y - x) * (a * b) == 2.0 * a - b by {
      assert y * (a * b) == a && x * (a * b) == b;
    }
    assert a * b > 0.0;
    assert 2.0 * a - b > 0.0 <==> 2.0 * y - x > 0.0 by {
      SignOfProduct(2.0 * y - x, a * b);
    }
    assert 2.0 * a - b == (k + 2 - c) as real;
  }

  lemma SignOfProduct(x: real, y: real)
    requires y > 0.0
    ensures x * y > 0.0 <==> x > 0.0
  {
  }

  /** Agreement of both rankers outweighs the first place in one, over all ranks up to c,
      exactly when c <= k + 1. */
  lemma AgreementOutweighsFirst(k: nat, c: nat)
    requires c >= 1
    ensures (forall r: nat, s: nat, t: nat | 1 <= r <= c && 1 <= s <= c && 1 <= t <= c ::
               Contribution(r, k, 1.0) + Contribution(s, k, 1.0) > Contribution(t, k, 1.0))
       <==> c <= k + 1
  {
    TwoAgainstOne(k, c);
    if c <= k + 1 {
      forall r: nat, s: nat, t: nat | 1 <= r <= c && 1 <= s <= c && 1 <= t <= c
        ensures Contribution(r, k, 1.0) + Contribution(s, k, 1.0) > Contribution(t, k, 1.0)
      {
        ContributionsFall(r, c, k, 1.0);
        ContributionsFall(s, c, k, 1.0);
        ContributionsFall(1, t, k, 1.0);
      }
    } else {
      assert !(Contribution(c, k, 1.0) + Contribution(c, k, 1.0) > Contribution(1, k, 1.0));
    }
  }

  /** Hence, with at most k + 1 candidates, a document that both rankers found strictly outranks every
      document that only one of them found. */
  lemma FoundByBothOutranks(dense: seq<Id>, sparse: seq<Id>, k: nat, c: nat, both: Id, one: Id)
    requires |dense| <= c && |sparse| <= c && c <= k + 1
    requires both in dense && both in sparse && (one in dense <==> one !in sparse)
    ensures JoinRow(dense, sparse, both, k).Score() > JoinRow(dense, sparse, one, k).Score()
  {
    AgreementOutweighsFirst(k, c);
    var r, s := RankIn(dense, both).value, RankIn(sparse, both).value;
    var t := if one in dense then RankIn(dense, one).value else RankIn(sparse, one).value;
    assert Contribution(r, k, 1.0) + Contribution(s, k, 1.0) > Contribution(t, k, 1.0);
  }

  /** Every fused row scores at least as much as the last candidate of one ranker. */
  lemma RowAtLeast(dense: seq<Id>, sparse: seq<Id>, k: nat, c: nat, id: Id)
    requires |dense| <= c && |sparse| <= c && (id in dense || id in sparse)
    ensures JoinRow(dense, sparse, id, k).Score() >= Contribution(c, k, 1.0) > 0.0
  {
    if id in dense {
      ContributionsFall(RankIn(dense, id).value, c, k, 1.0);
    }
    if id in sparse {
      ContributionsFall(RankIn(sparse, id).value, c, k, 1.0);
    }
  }

  /** A weighted neighbour stays below every rank up to c of one ranker exactly when w (k + c) < k + 1. */
  lemma NeighbourStaysBelow(k: nat, c: nat, w: real)
    requires c >= 1 && w >= 0.0
    ensures (forall r: nat, t: nat | 1 <= r && 1 <= t <= c :: Contribution(r, k, w) < Contribution(t, k, 1.0))
       <==> w * (k + c) as real < (k + 1) as real
  {
    FirstAgainstLast(k, c, w);
    if Contribution(1, k, w) < Contribution(c, k, 1.0) {
      forall r: nat, t: nat | 1 <= r && 1 <= t <= c ensures Contribution(r, k, w) < Contribution(t, k, 1.0) {
        ContributionsFall(1, r, k, w);
        ContributionsFall(t, c, k, 1.0);
      }
    }
  }

  lemma FirstAgainstLast(k: nat, c: nat, w: real)
    requires c >= 1
    ensures Contribution(1, k, w) < Contribution(c, k, 1.0) <==> w * (k + c) as real < (k + 1) as real
  {
    var a, b := (k + 1) as real, (k + c) as real;
    var x, y := w / a, 1.0 / b;
    assert x * a == w && y * b == 1.0;
    assert (y - x) * (a * b) == a - w * b by {
      assert y * (a * b) == a && x * (a * b) == w * b;
    }
    assert a * b > 0.0;
    SignOfProduct(y - x, a * b);
  }
}
