/** Reciprocal Rank Fusion over named ranked lists. */
module Fusion {
  import opened Common
  import opened Ordering

  datatype RrfError = RankNotPositive | DivisionByZero

  /** What one ranker contributes to a document at a 1-based rank. */
  function RrfContribution(rank: int, k: int, weight: real): Result<real, RrfError> {
    if rank < 1 then Err(RankNotPositive)
    else if k + rank == 0 then Err(DivisionByZero)
    else Ok(weight / (k + rank) as real)
  }

  /** The contribution where there is one. */
  function Contribution(rank: int, k: int, weight: real): real
    requires rank >= 1
  {
    if k + rank == 0 then 0.0 else weight / (k + rank) as real
  }

  /** With a smoothing constant of at least 0 no valid rank fails; a constant below 0 fails at exactly
      one rank. */
  lemma ContributionDefined(rank: int, k: int, weight: real)
    ensures RrfContribution(rank, k, weight).Ok? <==> rank >= 1 && rank != -k
    ensures rank >= 1 && rank != -k ==> RrfContribution(rank, k, weight) == Ok(Contribution(rank, k, weight))
  {
  }

  datatype Ranking = Ranking(docs: seq<Id>, weight: real)

  /** What a ranked list, of which `rank - 1` documents are gone, contributes to a document. */
  function ListScore(docs: seq<Id>, rank: int, id: Id, k: int, weight: real): real
    requires rank >= 1
  {
    if docs == [] then 0.0
    else (if docs[0] == id then Contribution(rank, k, weight) else 0.0)
         + ListScore(docs[1..], rank + 1, id, k, weight)
  }

  function RrfScore(rankings: seq<Ranking>, id: Id, k: int): real {
    if rankings == [] then 0.0
    else
      var n := |rankings| - 1;
      RrfScore(rankings[..n], id, k) + ListScore(rankings[n].docs, 1, id, k, rankings[n].weight)
  }

  function Ranked(rankings: seq<Ranking>): set<Id> {
    set r, id | r in rankings && id in r.docs :: id
  }

  lemma {:induction false} ListScoreSnoc(docs: seq<Id>, n: nat, rank: int, id: Id, k: int, weight: real)
    requires n < |docs| && rank >= 1
    ensures ListScore(docs[..n + 1], rank, id, k, weight)
         == ListScore(docs[..n], rank, id, k, weight)
            + if docs[n] == id then Contribution(rank + n, k, weight) else 0.0
  {
    if n == 0 {
      assert docs[..1][1..] == [] && docs[..0] == [];
    } else {
      ListScoreSnoc(docs[1..], n - 1, rank + 1, id, k, weight);
      assert docs[..n + 1][1..] == docs[1..][..n];
      assert docs[..n][1..] == docs[1..][..n - 1];
    }
  }

  /** In a list without duplicates a document scores by its one rank. */
  lemma {:induction false} ListScoreAt(docs: seq<Id>, rank: int, id: Id, k: int, weight: real, i: nat)
    requires Distinct(docs) && rank >= 1 && i < |docs| && docs[i] == id
    ensures ListScore(docs, rank, id, k, weight) == Contribution(rank + i, k, weight)
  {
    if i == 0 {
      ListScoreNone(docs[1..], rank + 1, id, k, weight);
    } else {
      assert docs[1..][i - 1] == id;
      ListScoreAt(docs[1..], rank + 1, id, k, weight, i - 1);
    }
  }

  lemma {:induction false} ListScoreNone(docs: seq<Id>, rank: int, id: Id, k: int, weight: real)
    requires rank >= 1 && id !in docs
    ensures ListScore(docs, rank, id, k, weight) == 0.0
  {
    if docs != [] {
      ListScoreNone(docs[1..], rank + 1, id, k, weight);
    }
  }

  // ------------------------------------------------------------- the fold loop

  /** A score dictionary holds exactly the documents of the rankings seen, each with its score. */
  ghost predicate Holds(scores: map<Id, real>, rankings: seq<Ranking>, docs: seq<Id>, weight: real, k: int) {
    && scores.Keys == Ranked(rankings) + Elements(docs)
    && forall id | id in scores :: scores[id] == RrfScore(rankings, id, k) + ListScore(docs, 1, id, k, weight)
  }

  lemma {:induction false} UnrankedScore(rankings: seq<Ranking>, id: Id, k: int)
    requires id !in Ranked(rankings)
    ensures RrfScore(rankings, id, k) == 0.0
  {
    if rankings != [] {
      var n := |rankings| - 1;
      assert rankings[n] in rankings;
      assert forall r | r in rankings[..n] :: r in rankings;
      UnrankedScore(rankings[..n], id, k);
      ListScoreNone(rankings[n].docs, 1, id, k, rankings[n].weight);
    }
  }

  lemma AddOne(
    scores: map<Id, real>, rankings: seq<Ranking>, docs: seq<Id>, n: nat, weight: real, k: int)
    requires n < |docs| && Holds(scores, rankings, docs[..n], weight, k)
    ensures var id := docs[n];
            Holds(scores[id := ScoreOf(scores, id) + Contribution(n + 1, k, weight)],
              rankings, docs[..n + 1], weight, k)
  {
    var id := docs[n];
    assert docs[..n + 1] == docs[..n] + [id];
    if id !in scores {
      UnrankedScore(rankings, id, k);
      assert id !in docs[..n] by { assert id !in Elements(docs[..n]); }
      ListScoreNone(docs[..n], 1, id, k, weight);
    }
    forall d ensures ListScore(docs[..n + 1], 1, d, k, weight)
                  == ListScore(docs[..n], 1, d, k, weight) + if d == id then Contribution(n + 1, k, weight) else 0.0
    {
      ListScoreSnoc(docs, n, 1, d, k, weight);
    }
  }

  lemma NextRanking(scores: map<Id, real>, rankings: seq<Ranking>, n: nat, k: int)
    requires n < |rankings|
    requires Holds(scores, rankings[..n], rankings[n].docs, rankings[n].weight, k)
    ensures Holds(scores, rankings[..n + 1], [], 1.0, k)
  {
    var more := rankings[..n + 1];
    assert more[..n] == rankings[..n] && more == rankings[..n] + [rankings[n]];
    assert Ranked(more) == Ranked(rankings[..n]) + Elements(rankings[n].docs) by {
      forall id | id in Elements(rankings[n].docs) ensures id in Ranked(more) {
        assert more[n] in more;
      }
    }
  }

  lemma StartRanking(scores: map<Id, real>, rankings: seq<Ranking>, weight: real, k: int)
    requires Holds(scores, rankings, [], 1.0, k)
    ensures Holds(scores, rankings, [], weight, k)
  {
    assert forall id, w :: ListScore([], 1, id, k, w) == 0.0;
  }

  predicate FusedBefore(scores: map<Id, real>, a: Id, b: Id) {
    ScoreOf(scores, a) > ScoreOf(scores, b) || (ScoreOf(scores, a) == ScoreOf(scores, b) && (a == b || LexLess(a, b)))
  }

  lemma FusedOrder(scores: map<Id, real>)
    ensures TotalOrder((a: Id, b: Id) => FusedBefore(scores, a, b))
  {
    hide LexLess;
    var le := (a: Id, b: Id) => FusedBefore(scores, a, b);
    forall a, b ensures le(a, b) || le(b, a) {
      LexTotal(a, b);
    }
    forall a, b, c | le(a, b) && le(b, c) ensures le(a, c) {
      if LexLess(a, b) && LexLess(b, c) {
        LexTransitive(a, b, c);
      }
    }
  }

  /** Every ranked document once, with its fused score, by descending score and then by id. */
  ghost predicate IsFusion(fused: seq<(Id, real)>, rankings: seq<Ranking>, k: int) {
    && (forall id :: id in Ranked(rankings) <==> exists i :: 0 <= i < |fused| && fused[i].0 == id)
    && (forall i | 0 <= i < |fused| :: fused[i].1 == RrfScore(rankings, fused[i].0, k))
    && (forall i, j | 0 <= i < j < |fused| ::
          fused[i].1 > fused[j].1 || (fused[i].1 == fused[j].1 && LexLess(fused[i].0, fused[j].0)))
  }

  /** A ranked list is long enough for its contribution at rank -k to divide by zero. */
  predicate Divides(rankings: seq<Ranking>, k: int) {
    k < 0 && exists r :: 0 <= r < |rankings| && -k <= |rankings[r].docs|
  }

  /** The inner loop: one ranked list is added to the scores. */
  method AddRanking(scores: map<Id, real>, docs: seq<Id>, weight: real, k: int, ghost before: seq<Ranking>)
    returns (result: Result<map<Id, real>, RrfError>)
    requires Holds(scores, before, [], weight, k)
    ensures result.Err? <==> k < 0 && -k <= |docs|
    ensures result.Err? ==> result.error == DivisionByZero
    ensures result.Ok? ==> Holds(result.value, before, docs, weight, k)
  {
    hide RrfContribution, Contribution, Holds, ScoreOf;
    var sums := scores;
    assert docs[..0] == [];
    for n := 0 to |docs|
      invariant Holds(sums, before, docs[..n], weight, k)
      invariant k < 0 ==> n < -k
    {
      var contribution := RrfContribution(n + 1, k, weight);
      ContributionFails(n + 1, k, weight);
      ContributionDefined(n + 1, k, weight);
      if contribution.Err? {
        return Err(contribution.error);
      }
      AddOne(sums, before, docs, n, weight, k);
      sums := sums[docs[n] := ScoreOf(sums, docs[n]) + contribution.value];
    }
    assert docs[..|docs|] == docs;
    result := Ok(sums);
  }

  method ReciprocalRankFusion(rankings: seq<Ranking>, k: int) returns (result: Result<seq<(Id, real)>, RrfError>)
    ensures result.Err? <==> Divides(rankings, k)
    ensures result.Err? ==> result.error == DivisionByZero
    ensures result.Ok? ==> IsFusion(result.value, rankings, k)
  {
    hide LexLess, Holds, IsFusion;
    var scores: map<Id, real> := map[];
    NothingScored(k);
    for r := 0 to |rankings|
      invariant Holds(scores, rankings[..r], [], 1.0, k)
      invariant k < 0 ==> forall q | 0 <= q < r :: |rankings[q].docs| < -k
    {
      StartRanking(scores, rankings[..r], rankings[r].weight, k);
      var added := AddRanking(scores, rankings[r].docs, rankings[r].weight, k, rankings[..r]);
      if added.Err? {
        return Err(added.error);
      }
      scores := added.value;
      NextRanking(scores, rankings, r, k);
    }
    assert rankings[..|rankings|] == rankings;
    var fused := SortItems(scores);
    Fused(scores, fused, rankings, k);
    result := Ok(fused);
  }

  lemma NothingScored(k: int)
    ensures Holds(map[], [], [], 1.0, k)
  {
  }

  lemma Fused(scores: map<Id, real>, fused: seq<(Id, real)>, rankings: seq<Ranking>, k: int)
    requires Holds(scores, rankings, [], 1.0, k)
    requires forall id :: id in scores <==> exists i :: 0 <= i < |fused| && fused[i].0 == id
    requires forall i | 0 <= i < |fused| :: fused[i].1 == ScoreOf(scores, fused[i].0)
    requires forall i, j | 0 <= i < j < |fused| ::
               fused[i].1 > fused[j].1 || (fused[i].1 == fused[j].1 && LexLess(fused[i].0, fused[j].0))
    ensures IsFusion(fused, rankings, k)
  {
    hide LexLess, Holds, RrfScore;
    NothingAdded(scores, rankings, k);
  }

  lemma ContributionFails(rank: int, k: int, weight: real)
    ensures RrfContribution(rank, k, weight).Err? && rank >= 1 ==>
              RrfContribution(rank, k, weight) == Err(DivisionByZero) && rank == -k
  {
  }

  lemma NothingAdded(scores: map<Id, real>, rankings: seq<Ranking>, k: int)
    requires Holds(scores, rankings, [], 1.0, k)
    ensures scores.Keys == Ranked(rankings) && forall id | id in scores :: scores[id] == RrfScore(rankings, id, k)
  {
    assert forall id :: ListScore([], 1, id, k, 1.0) == 0.0;
  }

  method SortItems(scores: map<Id, real>) returns (items: seq<(Id, real)>)
    ensures forall id :: id in scores <==> exists i :: 0 <= i < |items| && items[i].0 == id
    ensures forall i | 0 <= i < |items| :: items[i].1 == ScoreOf(scores, items[i].0)
    ensures forall i, j | 0 <= i < j < |items| ::
              items[i].1 > items[j].1 || (items[i].1 == items[j].1 && LexLess(items[i].0, items[j].0))
  {
    hide LexLess;
    FusedOrder(scores);
    var le := (a: Id, b: Id) => FusedBefore(scores, a, b);
    var ids := Sort(scores.Keys, le);
    items := seq(|ids|, i requires 0 <= i < |ids| => (ids[i], ScoreOf(scores, ids[i])));
    forall id ensures id in scores <==> exists i :: 0 <= i < |items| && items[i].0 == id {
      assert id in scores <==> id in Elements(ids);
      if id in scores {
        var i :| 0 <= i < |ids| && ids[i] == id;
        assert items[i].0 == id;
      }
    }
    forall i, j | 0 <= i < j < |items|
      ensures items[i].1 > items[j].1 || (items[i].1 == items[j].1 && LexLess(items[i].0, items[j].0))
    {
      assert le(ids[i], ids[j]) && ids[i] != ids[j];
    }
  }
}
