/** Average precision at a cutoff: the one metric that a promotion can lower, and exactly when. */
module CutAveragePrecision {
  import opened Common
  import opened RetrievalMetrics
  import opened LabeledEvaluation

  /** How many of n results a cutoff keeps. */
  function Kept(n: nat, k: Option<int>): (c: nat)
    ensures c <= n
  {
    |Cut(Ones(n), k)|
  }

  lemma CutKeeps(s: seq<real>, k: Option<int>)
    ensures Cut(s, k) == s[..Kept(|s|, k)]
  {
  }

  /** The reciprocals of the ranks at which a relevant result stands. */
  function RankSum(s: seq<real>, rank: nat): (r: real)
    requires rank >= 1
    ensures r >= 0.0
  {
    if s == [] then 0.0
    else if s[0] > 0.0 then 1.0 / rank as real + RankSum(s[1..], rank + 1)
    else RankSum(s[1..], rank + 1)
  }

  lemma QuotientSum(x: real, y: real, z: real)
    requires z > 0.0
    ensures (x + y) / z == x / z + y / z
  {
  }

  /** One more hit ahead adds the reciprocal of its rank at every later hit. */
  lemma {:induction false} OneHitMore(s: seq<real>, rank: nat, hits: nat)
    requires rank >= 1
    ensures ApSum(s, rank, hits + 1) == ApSum(s, rank, hits) + RankSum(s, rank)
  {
    if s != [] {
      if s[0] > 0.0 {
        OneHitMore(s[1..], rank + 1, hits + 1);
        QuotientSum((hits + 1) as real, 1.0, rank as real);
        assert (hits + 2) as real == (hits + 1) as real + 1.0;
      } else {
        OneHitMore(s[1..], rank + 1, hits);
      }
    }
  }

  lemma Scale(x: real, y: real, z: real)
    requires 0.0 <= x <= y && z >= 0.0
    ensures x * z <= y * z
  {
    assert (y - x) * z >= 0.0;
  }

  lemma FirstHit(s: seq<real>, rank: nat, hits: nat)
    requires rank >= 1 && s != [] && s[0] > 0.0
    ensures ApSum(s, rank, hits) == (hits + 1) as real / rank as real + ApSum(s[1..], rank + 1, hits + 1)
    ensures RankSum(s, rank) == 1.0 / rank as real + RankSum(s[1..], rank + 1)
    ensures Hits(s) == 1 + Hits(s[1..])
  {
  }

  lemma FirstMiss(s: seq<real>, rank: nat, hits: nat)
    requires rank >= 1 && (s == [] || s[0] <= 0.0)
    ensures var t := if s == [] then s else s[1..];
            && ApSum(s, rank, hits) == ApSum(t, rank + 1, hits)
            && RankSum(s, rank) == RankSum(t, rank + 1) && Hits(s) == Hits(t)
    ensures s == [] ==> ApSum(s, rank, hits) == RankSum(s, rank) == 0.0
  {
  }

  /** No later hit has more hits up to it than there are in all. */
  lemma {:induction false} ApSumAtMost(s: seq<real>, rank: nat, hits: nat)
    requires rank >= 1
    ensures ApSum(s, rank, hits) <= (hits + Hits(s)) as real * RankSum(s, rank)
  {
    hide ApSum, RankSum, Hits;
    if s == [] || s[0] <= 0.0 {
      FirstMiss(s, rank, hits);
      if s != [] {
        ApSumAtMost(s[1..], rank + 1, hits);
      }
    } else {
      FirstHit(s, rank, hits);
      ApSumAtMost(s[1..], rank + 1, hits + 1);
      var all := (hits + Hits(s)) as real;
      assert all == (hits + 1 + Hits(s[1..])) as real;
      AtMostStep((hits + 1) as real, all, rank as real, RankSum(s[1..], rank + 1),
        ApSum(s[1..], rank + 1, hits + 1));
    }
  }

  lemma AtMostStep(own: real, all: real, rank: real, rest: real, sum: real)
    requires 0.0 <= own <= all && rank > 0.0 && sum <= all * rest
    ensures own / rank + sum <= all * (1.0 / rank + rest)
  {
    var q := 1.0 / rank;
    assert q >= 0.0;
    Scale(own, all, q);
    assert own / rank == own * q;
    assert all * (q + rest) == all * q + all * rest;
  }

  /** A mean does not fall when a value joins it that is no less. */
  lemma MeanGrows(sum: real, more: real, n: nat)
    requires n > 0 && sum <= n as real * more
    ensures sum / n as real <= (sum + more) / (n + 1) as real
  {
    var a := n as real;
    var q := sum / a;
    assert q * a == sum;
    assert q <= more by {
      assert (more - q) * a >= 0.0;
    }
    assert (n + 1) as real == a + 1.0;
    assert q * (a + 1.0) == sum + q;
    assert (q * (a + 1.0)) / (a + 1.0) == q;
    QuotientsGrow(q * (a + 1.0), sum + more, a + 1.0);
  }

  /** A list whose result at `i`, one of the first two, becomes relevant. */
  function Raised(s: seq<real>, i: nat): (r: seq<real>)
    requires i < |s|
    ensures |r| == |s|
  {
    s[i := 1.0]
  }

  lemma RaisedFirst(s: seq<real>)
    requires s != [] && s[0] == 0.0
    ensures MeanPrecision(s) <= MeanPrecision(Raised(s, 0))
  {
    hide RankSum;
    ApSumSign(s, 1, 0);
    var t, r := s[1..], Raised(s, 0);
    assert r[1..] == t;
    OneHitMore(t, 2, 0);
    ApSumAtMost(t, 2, 0);
    Joined(ApSum(t, 2, 0), 1.0, RankSum(t, 2), Hits(t));
    assert ApSum(s, 1, 0) == ApSum(t, 2, 0) && Hits(s) == Hits(t);
    assert ApSum(r, 1, 0) == 1.0 + ApSum(t, 2, 1) && Hits(r) == Hits(t) + 1;
    RaisedMean(s, r, 1.0 + RankSum(t, 2));
  }

  lemma Joined(sum: real, own: real, ranks: real, n: nat)
    requires own >= 0.0 && sum <= n as real * ranks
    ensures sum <= n as real * (own + ranks)
  {
    assert n as real * own >= 0.0;
    assert n as real * (own + ranks) == n as real * own + n as real * ranks;
  }

  lemma RaisedMean(s: seq<real>, r: seq<real>, more: real)
    requires Hits(r) == Hits(s) + 1 && ApSum(r, 1, 0) == ApSum(s, 1, 0) + more && more >= 0.0
    requires ApSum(s, 1, 0) <= Hits(s) as real * more && ApSum(s, 1, 0) >= 0.0
    ensures MeanPrecision(s) <= MeanPrecision(r)
  {
    hide ApSum, Hits;
    if Hits(s) > 0 {
      MeanGrows(ApSum(s, 1, 0), more, Hits(s));
    } else {
      QuotientsGrow(0.0, ApSum(r, 1, 0), Hits(r) as real);
    }
  }

  lemma {:induction false} ApSumSign(s: seq<real>, rank: nat, hits: nat)
    requires rank >= 1
    ensures ApSum(s, rank, hits) >= 0.0
  {
    if s != [] {
      ApSumSign(s[1..], rank + 1, hits);
      ApSumSign(s[1..], rank + 1, hits + 1);
      QuotientsGrow(0.0, (hits + 1) as real, rank as real);
    }
  }

  lemma RaisedSecond(s: seq<real>)
    requires |s| >= 2 && IsBinary(s) && s[1] == 0.0
    ensures MeanPrecision(s) <= MeanPrecision(Raised(s, 1))
  {
    hide RankSum, ApSum, Hits, MeanPrecision;
    var t, r := s[2..], Raised(s, 1);
    var x: nat := if s[0] > 0.0 then 1 else 0;
    assert r[2..] == t;
    FirstTwo(s, x, 0);
    FirstTwo(r, x, 1);
    OneHitMore(t, 3, x);
    ApSumAtMost(t, 3, x);
    var own := (x + 1) as real / 2.0;
    SecondSum(x, Hits(t), ApSum(t, 3, x), RankSum(t, 3), own);
    ApSumSign(s, 1, 0);
    RaisedMean(s, r, own + RankSum(t, 3));
  }

  /** The sum behind the mean, with its first two terms split off. */
  lemma FirstTwo(s: seq<real>, x: nat, y: nat)
    requires |s| >= 2 && IsBinary(s) && x <= 1 && y <= 1 && s[0] == x as real && s[1] == y as real
    ensures Hits(s) == x + y + Hits(s[2..])
    ensures ApSum(s, 1, 0) == x as real + (if y == 1 then (x + 1) as real / 2.0 else 0.0) + ApSum(s[2..], 3, x + y)
  {
    assert s[1..][1..] == s[2..] && s[1..][0] == s[1];
    assert ApSum(s[1..], 2, x) == (if y == 1 then (x + 1) as real / 2.0 else 0.0) + ApSum(s[2..], 3, x + y);
  }

  lemma SecondSum(x: nat, later: nat, sum: real, ranks: real, own: real)
    requires x <= 1 && own == (x + 1) as real / 2.0 && sum <= (x + later) as real * ranks
    ensures x as real + sum <= (x + later) as real * (own + ranks)
  {
    var n := (x + later) as real;
    assert n * (own + ranks) == n * own + n * ranks;
    assert n * own >= x as real by {
      if x == 1 {
        assert own == 1.0 && n >= 1.0;
      } else {
        assert n * own >= 0.0;
      }
    }
  }

  /** A promotion inside the kept results, or below them, or to one of the first two places. */
  lemma HarmlessPromotion(s: seq<real>, i: nat, j: nat, k: Option<int>)
    requires Promotable(s, i, j)
    requires var c := Kept(|s|, k); j < c || c <= i || i <= 1
    ensures MeanPrecision(Cut(s, k)) <= MeanPrecision(Cut(Swap(s, i, j), k))
  {
    hide MeanPrecision, Kept, Cut;
    var c, t := Kept(|s|, k), Swap(s, i, j);
    CutKeeps(s, k);
    CutKeeps(t, k);
    if c <= i {
      assert s[..c] == t[..c];
    } else if j < c {
      assert t[..c] == Swap(s[..c], i, j);
      PromotionRaises(s[..c], i, j, 0, 0, 0, n => n as real + 1.0);
    } else {
      assert t[..c] == Raised(s[..c], i);
      if i == 0 {
        RaisedFirst(s[..c]);
      } else {
        RaisedSecond(s[..c]);
      }
    }
  }

  // ---------------------------------------------------------- a promotion that harms

  /** A relevant result on top, and one more at `j`. */
  function TopAnd(n: nat, j: nat): (r: seq<real>)
    requires 0 < j < n
    ensures |r| == n && forall i | 0 <= i < n :: r[i] == if i == 0 || i == j then 1.0 else 0.0
  {
    seq(n, i => if i == 0 || i == j then 1.0 else 0.0)
  }

  lemma {:induction false} NothingRelevant(s: seq<real>, rank: nat, hits: nat)
    requires rank >= 1 && forall i | 0 <= i < |s| :: s[i] == 0.0
    ensures ApSum(s, rank, hits) == 0.0 && Hits(s) == 0
  {
    if s != [] {
      NothingRelevant(s[1..], rank + 1, hits);
    }
  }

  lemma {:induction false} OneRelevant(s: seq<real>, i: nat, rank: nat, hits: nat)
    requires rank >= 1 && i < |s| && forall m | 0 <= m < |s| :: s[m] == if m == i then 1.0 else 0.0
    ensures ApSum(s, rank, hits) == (hits + 1) as real / (rank + i) as real && Hits(s) == 1
  {
    if i == 0 {
      NothingRelevant(s[1..], rank + 1, hits + 1);
    } else {
      OneRelevant(s[1..], i - 1, rank + 1, hits);
    }
  }

  /** With the best result on top, a second one that enters the kept results below the second place
      lowers the average. */
  lemma HarmfulPromotion(n: nat, i: nat, j: nat, c: nat)
    requires 2 <= i < c <= j < n
    ensures var s := TopAnd(n, j);
            && Promotable(s, i, j)
            && MeanPrecision(s[..c]) == 1.0
            && MeanPrecision(Swap(s, i, j)[..c]) == 0.5 + 1.0 / (i + 1) as real < 1.0
  {
    var s := TopAnd(n, j);
    var a, b := s[..c], Swap(s, i, j)[..c];
    NothingRelevant(a[1..], 2, 1);
    OneRelevant(b[1..], i - 1, 2, 1);
    assert ApSum(a, 1, 0) == 1.0 && Hits(a) == 1;
    assert ApSum(b, 1, 0) == 1.0 + 2.0 / (i + 1) as real && Hits(b) == 2;
    HalfOf(i);
  }

  lemma HalfOf(i: nat)
    requires i >= 2
    ensures (1.0 + 2.0 / (i + 1) as real) / 2.0 == 0.5 + 1.0 / (i + 1) as real < 1.0
  {
    var q := 1.0 / (i + 1) as real;
    assert q * (i + 1) as real == 1.0;
    assert 2.0 / (i + 1) as real == 2.0 * q;
    assert q < 0.5;
  }

  /** Average precision at a cutoff that keeps c of n results: promoting the result at j to place i
      never lowers it, whatever the other results are, exactly when the promotion stays inside the kept
      results, stays below them, or ends on one of the first two places. */
  lemma CutAveragePrecisionExactly(n: nat, i: nat, j: nat, k: Option<int>)
    requires i < j < n
    ensures (forall s | |s| == n && Promotable(s, i, j) ::
               MeanPrecision(Cut(s, k)) <= MeanPrecision(Cut(Swap(s, i, j), k)))
       <==> var c := Kept(n, k); j < c || c <= i || i <= 1
  {
    hide MeanPrecision, Kept, Cut, Promotable;
    var c := Kept(n, k);
    if j < c || c <= i || i <= 1 {
      forall s | |s| == n && Promotable(s, i, j)
        ensures MeanPrecision(Cut(s, k)) <= MeanPrecision(Cut(Swap(s, i, j), k))
      {
        HarmlessPromotion(s, i, j, k);
      }
    } else {
      var s := TopAnd(n, j);
      HarmfulPromotion(n, i, j, c);
      CutKeeps(s, k);
      CutKeeps(Swap(s, i, j), k);
    }
  }
}
