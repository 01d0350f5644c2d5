/** Ranking metrics over exact reals. The discount `log2(rank + 1)` is any positive, strictly
    increasing function of the rank. */
module RetrievalMetrics {
  import opened Common

  // ----------------------------------------------------------------- slicing

  /** `s[:k] if k else s`. */
  function Cut<T>(s: seq<T>, k: Option<int>): seq<T> {
    if k.Some? && k.value != 0 then Slice(s, k.value) else s
  }

  // ---------------------------------------------------- average precision, MRR

  function ApSum(s: seq<real>, rank: nat, hits: nat): real
    requires rank >= 1
  {
    if s == [] then 0.0
    else if s[0] > 0.0 then (hits + 1) as real / rank as real + ApSum(s[1..], rank + 1, hits + 1)
    else ApSum(s[1..], rank + 1, hits)
  }

  function Hits(s: seq<real>): nat {
    if s == [] then 0 else (if s[0] > 0.0 then 1 else 0) + Hits(s[1..])
  }

  /** The mean, over the relevant results, of the precision at each of them. */
  function MeanPrecision(s: seq<real>): real {
    if Hits(s) == 0 then 0.0 else ApSum(s, 1, 0) / Hits(s) as real
  }

  method AveragePrecision(relevances: seq<real>, cutoff: Option<int>) returns (ap: real)
    ensures ap == MeanPrecision(Cut(relevances, cutoff))
  {
    var vals := Cut(relevances, cutoff);
    if vals == [] {
      return 0.0;
    }
    var hits: nat := 0;
    var sumPrec := 0.0;
    for i := 0 to |vals|
      invariant Hits(vals) == hits + Hits(vals[i..])
      invariant ApSum(vals, 1, 0) == sumPrec + ApSum(vals[i..], i + 1, hits)
    {
      assert vals[i..][1..] == vals[i + 1..];
      if vals[i] > 0.0 {
        hits := hits + 1;
        sumPrec := sumPrec + hits as real / (i + 1) as real;
      }
    }
    return if hits != 0 then sumPrec / hits as real else 0.0;
  }

  function ReciprocalRank(s: seq<real>, rank: nat): real
    requires rank >= 1
  {
    if s == [] then 0.0
    else if s[0] > 0.0 then 1.0 / rank as real
    else ReciprocalRank(s[1..], rank + 1)
  }

  method Mrr(relevances: seq<real>) returns (r: real)
    ensures r == ReciprocalRank(relevances, 1)
  {
    for i := 0 to |relevances|
      invariant ReciprocalRank(relevances, 1) == ReciprocalRank(relevances[i..], i + 1)
    {
      assert relevances[i..][1..] == relevances[i + 1..];
      if relevances[i] > 0.0 {
        return 1.0 / (i + 1) as real;
      }
    }
    return 0.0;
  }

  /** The reciprocal rank points at the first relevant result. */
  lemma {:induction false} ReciprocalRankFirst(s: seq<real>, rank: nat, i: nat)
    requires rank >= 1 && i < |s| && s[i] > 0.0 && forall j | 0 <= j < i :: s[j] <= 0.0
    ensures ReciprocalRank(s, rank) == 1.0 / (rank + i) as real
  {
    if i > 0 {
      ReciprocalRankFirst(s[1..], rank + 1, i - 1);
    }
  }

  function PrecisionAt(relevances: seq<real>, k: int): real {
    var vals := Slice(relevances, k);
    if vals == [] then 0.0 else Hits(vals) as real / |vals| as real
  }

  function RecallAt(relevances: seq<real>, totalRelevant: int, k: int): real {
    if totalRelevant <= 0 then 0.0
    else
      var r := Hits(Slice(relevances, k)) as real / totalRelevant as real;
      if r <= 1.0 then r else 1.0
  }

  function HitRate(relevances: seq<real>): real {
    if exists i :: 0 <= i < |relevances| && relevances[i] > 0.0 then 1.0 else 0.0
  }

  // ----------------------------------------------------- what the measures count

  function Relevant(s: seq<real>, n: nat): set<nat> {
    set i: nat | i < n && i < |s| && s[i] > 0.0
  }

  lemma {:induction false} HitsCounted(s: seq<real>, n: nat)
    requires n <= |s|
    ensures Hits(s[..n]) == |Relevant(s, n)|
  {
    if n == 0 {
      assert Relevant(s, n) == {};
    } else {
      HitsCounted(s, n - 1);
      assert s[..n] == s[..n - 1] + [s[n - 1]];
      HitsLast(s[..n - 1], s[n - 1]);
      assert Relevant(s, n) == Relevant(s, n - 1) + if s[n - 1] > 0.0 then {n - 1} else {};
    }
  }

  lemma {:induction false} HitsLast(s: seq<real>, x: real)
    ensures Hits(s + [x]) == Hits(s) + if x > 0.0 then 1 else 0
  {
    if s != [] {
      assert (s + [x])[1..] == s[1..] + [x];
      HitsLast(s[1..], x);
    }
  }

  /** Precision is the share of relevant results among the first k, or among all where there are
      fewer; a negative k drops results from the end. */
  lemma PrecisionExactly(s: seq<real>, k: int)
    ensures var n := if k >= 0 then Min(k, |s|) else Max(0, |s| + k);
            && PrecisionAt(s, k) * n as real == |Relevant(s, n)| as real
            && (n == 0 ==> PrecisionAt(s, k) == 0.0)
  {
    HitsCounted(s, |Slice(s, k)|);
  }

  /** Recall is the share of the known relevant documents that these results hold, at most 1. */
  lemma RecallExactly(s: seq<real>, totalRelevant: int, k: int)
    ensures totalRelevant <= 0 ==> RecallAt(s, totalRelevant, k) == 0.0
    ensures var n := if k >= 0 then Min(k, |s|) else Max(0, |s| + k);
            totalRelevant > 0 ==>
              RecallAt(s, totalRelevant, k) * totalRelevant as real == Min(|Relevant(s, n)|, totalRelevant) as real
  {
    HitsCounted(s, |Slice(s, k)|);
    if totalRelevant > 0 {
      RatioTimes(Hits(Slice(s, k)), totalRelevant);
    }
  }

  lemma RatioTimes(x: nat, y: nat)
    requires y > 0
    ensures x as real / y as real * y as real == x as real
    ensures x as real / y as real <= 1.0 <==> x <= y
  {
    var q := x as real / y as real;
    QuotientTimes(x as real, y as real);
    assert q <= 1.0 ==> q * y as real <= y as real;
    assert q > 1.0 ==> q * y as real > y as real;
  }

  /** The precisions at the relevant results among the first n, added up. */
  function PrecisionsAtHits(s: seq<real>, n: nat): real
    requires n <= |s|
  {
    if n == 0 then 0.0
    else PrecisionsAtHits(s, n - 1) + if s[n - 1] > 0.0 then PrecisionAt(s, n) else 0.0
  }

  lemma {:induction false} ApSumLast(s: seq<real>, x: real, rank: nat, hits: nat)
    requires rank >= 1
    ensures ApSum(s + [x], rank, hits)
         == ApSum(s, rank, hits) + if x > 0.0 then (hits + Hits(s) + 1) as real / (rank + |s|) as real else 0.0
  {
    if s == [] {
      assert s + [x] == [x];
    } else {
      assert (s + [x])[1..] == s[1..] + [x];
      ApSumLast(s[1..], x, rank + 1, if s[0] > 0.0 then hits + 1 else hits);
    }
  }

  lemma {:induction false} ApSumIsPrecisions(s: seq<real>, n: nat)
    requires n <= |s|
    ensures ApSum(s[..n], 1, 0) == PrecisionsAtHits(s, n)
  {
    if n > 0 {
      ApSumIsPrecisions(s, n - 1);
      assert s[..n] == s[..n - 1] + [s[n - 1]];
      ApSumLast(s[..n - 1], s[n - 1], 1, 0);
      HitsLast(s[..n - 1], s[n - 1]);
      assert Slice(s, n) == s[..n];
    }
  }

  /** Average precision is the mean of the precisions at the relevant results. */
  lemma AveragePrecisionExactly(s: seq<real>)
    ensures MeanPrecision(s) * |Relevant(s, |s|)| as real == PrecisionsAtHits(s, |s|)
    ensures Relevant(s, |s|) == {} ==> MeanPrecision(s) == 0.0
  {
    hide ApSum, Hits, MeanPrecision, PrecisionsAtHits;
    HitsCounted(s, |s|);
    assert s[..|s|] == s;
    ApSumIsPrecisions(s, |s|);
    MeanTimesHits(s);
    if Relevant(s, |s|) == {} {
      NothingAtHits(s, |s|);
    }
  }

  lemma MeanTimesHits(s: seq<real>)
    ensures Hits(s) == 0 ==> MeanPrecision(s) == 0.0
    ensures Hits(s) != 0 ==> MeanPrecision(s) * Hits(s) as real == ApSum(s, 1, 0)
  {
    hide ApSum, Hits;
    if Hits(s) != 0 {
      QuotientTimes(ApSum(s, 1, 0), Hits(s) as real);
    }
  }

  lemma QuotientTimes(x: real, y: real)
    requires y != 0.0
    ensures x / y * y == x
  {
  }

  lemma {:induction false} NothingAtHits(s: seq<real>, n: nat)
    requires n <= |s| && Relevant(s, |s|) == {}
    ensures PrecisionsAtHits(s, n) == 0.0
  {
    if n > 0 {
      NothingAtHits(s, n - 1);
      assert n - 1 !in Relevant(s, |s|);
    }
  }

  // ------------------------------------------------------------------- sorting

  predicate Descending(s: seq<real>) {
    forall i, j | 0 <= i < j < |s| :: s[i] >= s[j]
  }

  function Insert(x: real, s: seq<real>): seq<real> {
    if s == [] || x > s[0] then [x] + s else [s[0]] + Insert(x, s[1..])
  }

  /** `sorted(s, reverse=True)`. */
  function SortDesc(s: seq<real>): seq<real> {
    if s == [] then [] else Insert(s[|s| - 1], SortDesc(s[..|s| - 1]))
  }

  lemma {:induction false} InsertElements(x: real, s: seq<real>)
    ensures multiset(Insert(x, s)) == multiset{x} + multiset(s)
  {
    if s != [] {
      InsertElements(x, s[1..]);
      assert s == [s[0]] + s[1..];
    }
  }

  /** No element of `s` exceeds `x`. */
  predicate Below(s: seq<real>, x: real) {
    forall i | 0 <= i < |s| :: s[i] <= x
  }

  lemma {:induction false} InsertDescending(x: real, s: seq<real>)
    requires Descending(s)
    ensures Descending(Insert(x, s))
    ensures forall y | x <= y && Below(s, y) :: Below(Insert(x, s), y)
  {
    if s == [] || x > s[0] {
      assert forall i | 0 < i < |s| :: s[0] >= s[i];
    } else {
      InsertDescending(x, s[1..]);
      var t := Insert(x, s[1..]);
      assert Below(s[1..], s[0]);
      assert Below(t, s[0]);
      forall y | x <= y && Below(s, y) ensures Below(Insert(x, s), y) {
        assert Below(s[1..], y);
      }
    }
  }

  lemma {:induction false} SortCorrect(s: seq<real>)
    ensures Descending(SortDesc(s)) && multiset(SortDesc(s)) == multiset(s)
    ensures |SortDesc(s)| == |s|
  {
    if s != [] {
      var t := s[..|s| - 1];
      SortCorrect(t);
      InsertElements(s[|s| - 1], SortDesc(t));
      InsertDescending(s[|s| - 1], SortDesc(t));
      assert s == t + [s[|s| - 1]];
    }
    assert |SortDesc(s)| == |multiset(SortDesc(s))| == |multiset(s)| == |s|;
  }

  lemma HeadAtMost(a: seq<real>, b: seq<real>)
    requires a != [] && Descending(b) && multiset(a) == multiset(b)
    ensures b != [] && a[0] <= b[0]
  {
    assert a[0] in multiset(a);
    var i :| 0 <= i < |b| && b[i] == a[0];
  }

  lemma TailElements(a: seq<real>, b: seq<real>)
    requires a != [] && b != [] && a[0] == b[0] && multiset(a) == multiset(b)
    ensures multiset(a[1..]) == multiset(b[1..])
  {
    assert a == [a[0]] + a[1..] && b == [b[0]] + b[1..];
    assert multiset(a[1..]) == multiset(a) - multiset{a[0]};
    assert multiset(b[1..]) == multiset(b) - multiset{b[0]};
  }

  /** A descending list is determined by its elements. */
  lemma {:induction false} SortedUnique(a: seq<real>, b: seq<real>)
    requires Descending(a) && Descending(b) && multiset(a) == multiset(b)
    ensures a == b
  {
    if a == [] {
      assert |multiset(b)| == 0;
    } else {
      HeadAtMost(a, b);
      HeadAtMost(b, a);
      TailElements(a, b);
      SortedUnique(a[1..], b[1..]);
      assert a == [a[0]] + a[1..] && b == [b[0]] + b[1..];
    }
  }

  // ----------------------------------------------------------------------- DCG

  ghost predicate Discounting(d: nat -> real) {
    && (forall i: nat | i >= 1 :: d(i) > 0.0)
    && (forall i: nat, j: nat | 1 <= i < j :: d(i) < d(j))
  }

  type Discount = d: nat -> real | Discounting(d) ghost witness ((n: nat) => n as real + 1.0)

  function Gain(s: seq<real>, rank: nat, d: Discount): real
    requires rank >= 1
  {
    if s == [] then 0.0 else s[0] / d(rank) + Gain(s[1..], rank + 1, d)
  }

  function Dcg(relevances: seq<real>, k: Option<int>, d: Discount): real {
    Gain(Cut(relevances, k), 1, d)
  }

  function Ndcg(relevances: seq<real>, k: Option<int>, idealRelevances: Option<seq<real>>, d: Discount): real {
    var vals := Cut(relevances, k);
    var pool := idealRelevances.GetOr(relevances);
    var ideal := Cut(SortDesc(pool), k);
    var idealDcg := Dcg(ideal, k, d);
    if idealDcg == 0.0 then 0.0 else Dcg(vals, k, d) / idealDcg
  }

  lemma {:induction false} GainAppend(a: seq<real>, b: seq<real>, rank: nat, d: Discount)
    requires rank >= 1
    ensures Gain(a + b, rank, d) == Gain(a, rank, d) + Gain(b, rank + |a|, d)
  {
    if a == [] {
      assert a + b == b;
    } else {
      assert (a + b)[1..] == a[1..] + b;
      GainAppend(a[1..], b, rank + 1, d);
    }
  }

  lemma GainSnoc(s: seq<real>, n: nat, d: Discount)
    requires n < |s|
    ensures Gain(s[..n + 1], 1, d) == Gain(s[..n], 1, d) + s[n] / d(n + 1)
  {
    assert s[..n + 1] == s[..n] + [s[n]];
    GainAppend(s[..n], [s[n]], 1, d);
    assert Gain([s[n]], 1 + n, d) == s[n] / d(1 + n) + Gain([], 2 + n, d);
  }

  predicate NonNegative(s: seq<real>) {
    forall i | 0 <= i < |s| :: s[i] >= 0.0
  }

  predicate AllZero(s: seq<real>) {
    forall i | 0 <= i < |s| :: s[i] == 0.0
  }

  lemma {:induction false} GainNonNegative(s: seq<real>, rank: nat, d: Discount)
    requires rank >= 1 && NonNegative(s)
    ensures Gain(s, rank, d) >= 0.0
    ensures Gain(s, rank, d) == 0.0 <==> AllZero(s)
  {
    if s != [] {
      GainNonNegative(s[1..], rank + 1, d);
      QuotientSign(s[0], d(rank));
      if Gain(s, rank, d) == 0.0 {
        forall i | 0 <= i < |s| ensures s[i] == 0.0 {
          if i > 0 {
            assert s[i] == s[1..][i - 1];
          }
        }
      }
    }
  }

  lemma QuotientSign(x: real, y: real)
    requires x >= 0.0 && y > 0.0
    ensures x / y >= 0.0 && (x / y == 0.0 <==> x == 0.0)
  {
  }

  // ------------------------------------------------------- prefix dominance

  function Sum(s: seq<real>): real {
    if s == [] then 0.0 else Sum(s[..|s| - 1]) + s[|s| - 1]
  }

  lemma SumSnoc(s: seq<real>, n: nat)
    requires n < |s|
    ensures Sum(s[..n + 1]) == Sum(s[..n]) + s[n]
  {
    assert s[..n + 1][..n] == s[..n];
  }

  lemma {:induction false} SumRemove(s: seq<real>, i: nat)
    requires i < |s|
    ensures Sum(s) == s[i] + Sum(s[..i] + s[i + 1..])
  {
    var n := |s| - 1;
    if i == n {
      assert s[..i] + s[i + 1..] == s[..n];
    } else {
      var rest := s[..i] + s[i + 1..];
      SumRemove(s[..n], i);
      assert rest[..|rest| - 1] == s[..n][..i] + s[..n][i + 1..];
      assert rest[|rest| - 1] == s[n];
    }
  }

  function MinIndex(s: seq<real>): (m: nat)
    requires s != []
    ensures m < |s| && forall i | 0 <= i < |s| :: s[m] <= s[i]
  {
    if |s| == 1 then 0
    else
      var m := MinIndex(s[..|s| - 1]);
      assert forall i | 0 <= i < |s| - 1 :: s[..|s| - 1][i] == s[i];
      if s[m] <= s[|s| - 1] then m else |s| - 1
  }

  /** If every element of `a` is at least `x`, the |a|-th largest element of the pool is too. */
  lemma EnoughLarge(a: seq<real>, p: seq<real>, x: real)
    requires a != [] && Descending(p) && multiset(a) <= multiset(p)
    requires forall i | 0 <= i < |a| :: a[i] >= x
    ensures |a| <= |p| && p[|a| - 1] >= x
  {
    var n := |a|;
    assert |multiset(a)| <= |multiset(p)| by { SubMultisetSize(multiset(a), multiset(p)); }
    assert |multiset(a)| == n && |multiset(p[..n - 1])| == n - 1;
    if p[n - 1] < x {
      var top, low := p[..n - 1], p[n - 1..];
      assert p == top + low;
      forall e | e in multiset(a) ensures multiset(a)[e] <= multiset(top)[e] {
        assert e in a;
        assert e !in low;
        assert multiset(p)[e] == multiset(top)[e] + multiset(low)[e];
      }
      SubMultisetSize(multiset(a), multiset(top));
    }
  }

  lemma SubMultisetSize(a: multiset<real>, b: multiset<real>)
    requires a <= b
    ensures |a| <= |b|
  {
    assert b == a + (b - a);
  }

  function Without(s: seq<real>, i: nat): (r: seq<real>)
    requires i < |s|
    ensures |r| == |s| - 1
  {
    s[..i] + s[i + 1..]
  }

  lemma WithoutElements(s: seq<real>, i: nat)
    requires i < |s|
    ensures multiset(Without(s, i)) == multiset(s) - multiset{s[i]}
  {
    assert s == s[..i] + [s[i]] + s[i + 1..];
  }

  lemma WithoutFits(a: seq<real>, i: nat, p: seq<real>)
    requires i < |a| && multiset(a) <= multiset(p)
    ensures multiset(Without(a, i)) <= multiset(p)
  {
    WithoutElements(a, i);
  }

  /** No choice of n elements of a pool sums to more than its n largest. */
  lemma {:induction false} TopSum(a: seq<real>, p: seq<real>)
    requires Descending(p) && multiset(a) <= multiset(p)
    ensures |a| <= |p| && Sum(a) <= Sum(p[..|a|])
    decreases |a|
  {
    hide Without, Descending, MinIndex;
    if a == [] {
      assert p[..0] == [];
    } else {
      hide Sum;
      var m := MinIndex(a);
      var rest := Without(a, m);
      WithoutFits(a, m, p);
      TopSum(rest, p);
      SumWithout(a, m);
      EnoughLarge(a, p, a[m]);
      SumSnoc(p, |rest|);
    }
  }

  lemma SumWithout(a: seq<real>, i: nat)
    requires i < |a|
    ensures Sum(a) == a[i] + Sum(Without(a, i))
  {
    SumRemove(a, i);
  }

  /** Abel summation: if every prefix of `b` sums to at least as much as that of `a`, the discounted
      sum of `b` exceeds that of `a` by at least the last surplus over the last discount used, and
      by exactly that only if all earlier surpluses are nil. */
  lemma {:induction false} Surplus(a: seq<real>, b: seq<real>, n: nat, d: Discount)
    requires 1 <= n <= |a| && n <= |b|
    requires forall j: nat | j <= n :: Sum(a[..j]) <= Sum(b[..j])
    ensures Gain(b[..n], 1, d) - Gain(a[..n], 1, d) >= (Sum(b[..n]) - Sum(a[..n])) / d(n)
    ensures Gain(b[..n], 1, d) - Gain(a[..n], 1, d) == (Sum(b[..n]) - Sum(a[..n])) / d(n)
        ==> forall j: nat | j < n :: Sum(a[..j]) == Sum(b[..j])
  {
    GainSnoc(a, n - 1, d);
    GainSnoc(b, n - 1, d);
    SumSnoc(a, n - 1);
    SumSnoc(b, n - 1);
    if n == 1 {
      assert a[..0] == [] && b[..0] == [];
      QuotientDifference(b[0], a[0], d(1));
    } else {
      hide Gain, Sum;
      Surplus(a, b, n - 1, d);
      var s := Sum(b[..n - 1]) - Sum(a[..n - 1]);
      SurplusStep(s, b[n - 1] - a[n - 1], d(n - 1), d(n));
      QuotientDifference(b[n - 1], a[n - 1], d(n));
    }
  }

  lemma QuotientDifference(x: real, y: real, z: real)
    requires z > 0.0
    ensures (x - y) / z == x / z - y / z
  {
  }

  lemma SurplusStep(s: real, t: real, low: real, high: real)
    requires s >= 0.0 && 0.0 < low < high
    ensures s / low + t / high >= (s + t) / high
    ensures s / low + t / high == (s + t) / high ==> s == 0.0
  {
    var w, v := 1.0 / low, 1.0 / high;
    assert w > v by {
      assert w * low == 1.0 && v * high == 1.0;
      assert v * low < v * high;
      assert (w - v) * low > 0.0;
    }
    assert s / low == s * w && t / high == t * v && (s + t) / high == s * v + t * v;
    assert s * (w - v) >= 0.0;
    assert s > 0.0 ==> s * (w - v) > 0.0;
  }

  // ------------------------------------------------------------- nDCG theorem

  /** The rearrangement inequality with its equality case. */
  lemma Rearrangement(a: seq<real>, p: seq<real>, m: nat, d: Discount)
    requires Descending(p) && NonNegative(p) && multiset(a) <= multiset(p) && |a| <= m <= |p|
    ensures Gain(a, 1, d) <= Gain(p[..m], 1, d)
    ensures Gain(a, 1, d) == Gain(p[..m], 1, d) <==> a == p[..|a|] && AllZero(p[|a|..m])
  {
    var head, tail := p[..|a|], p[|a|..m];
    assert p[..m] == head + tail;
    GainAppend(head, tail, 1, d);
    assert NonNegative(tail);
    GainNonNegative(tail, |a| + 1, d);
    PrefixesDominated(a, p);
    HeadDominates(a, head, d);
  }

  lemma HeadDominates(a: seq<real>, b: seq<real>, d: Discount)
    requires |a| == |b| && forall j: nat | j <= |a| :: Sum(a[..j]) <= Sum(b[..j])
    ensures Gain(a, 1, d) <= Gain(b, 1, d)
    ensures Gain(a, 1, d) == Gain(b, 1, d) <==> a == b
  {
    var n := |a|;
    if n > 0 {
      assert a[..n] == a && b[..n] == b;
      Surplus(a, b, n, d);
      QuotientSign(Sum(b) - Sum(a), d(n));
      if Gain(a, 1, d) == Gain(b, 1, d) {
        SamePrefixSums(a, b);
      }
    } else {
      assert a == b;
    }
  }

  lemma PrefixesDominated(a: seq<real>, p: seq<real>)
    requires Descending(p) && multiset(a) <= multiset(p)
    ensures |a| <= |p| && forall j: nat | j <= |a| :: Sum(a[..j]) <= Sum(p[..|a|][..j])
  {
    TopSum(a, p);
    forall j: nat | j <= |a| ensures Sum(a[..j]) <= Sum(p[..|a|][..j]) {
      assert a == a[..j] + a[j..];
      assert multiset(a[..j]) <= multiset(a);
      TopSum(a[..j], p);
      assert p[..|a|][..j] == p[..j];
    }
  }

  lemma SamePrefixSums(a: seq<real>, b: seq<real>)
    requires |a| == |b| && forall j: nat | j < |a| :: Sum(a[..j]) == Sum(b[..j])
    requires Sum(a) == Sum(b)
    ensures a == b
  {
    forall i | 0 <= i < |a| ensures a[i] == b[i] {
      SumSnoc(a, i);
      SumSnoc(b, i);
      if i == |a| - 1 {
        assert a[..i + 1] == a && b[..i + 1] == b;
      }
    }
  }

  lemma CutPrefix<T>(s: seq<T>, k: Option<int>)
    ensures var c := Cut(Cut(s, k), k); |c| <= |s| && c == s[..|c|]
  {
  }

  lemma CutLengths<T>(s: seq<T>, t: seq<T>, k: Option<int>)
    requires |s| <= |t|
    ensures |Cut(Cut(s, k), k)| <= |Cut(Cut(t, k), k)|
  {
  }

  /** The results that count at the cutoff, and the best ones there could have been. Both lists are
      sliced twice, which shows only for a negative cutoff. */
  function Judged(relevances: seq<real>, k: Option<int>): seq<real> {
    Cut(Cut(relevances, k), k)
  }

  /** The judged results are a choice from the pool, no longer than the judged ideal. */
  lemma JudgedFits(relevances: seq<real>, k: Option<int>, p: seq<real>)
    requires multiset(relevances) <= multiset(p)
    ensures var a, b := Judged(relevances, k), Judged(p, k);
            multiset(a) <= multiset(p) && |a| <= |b| <= |p| && b == p[..|b|]
  {
    var a := Judged(relevances, k);
    CutPrefix(relevances, k);
    CutPrefix(p, k);
    SubMultisetSize(multiset(relevances), multiset(p));
    assert |multiset(relevances)| == |relevances| && |multiset(p)| == |p|;
    CutLengths(relevances, p, k);
    assert relevances == a + relevances[|a|..];
  }

  lemma NonNegativeChoice(a: seq<real>, p: seq<real>)
    requires NonNegative(p) && multiset(a) <= multiset(p)
    ensures NonNegative(a)
  {
    forall i | 0 <= i < |a| ensures a[i] >= 0.0 {
      assert a[i] in multiset(a);
      assert a[i] in multiset(p);
      var j :| 0 <= j < |p| && p[j] == a[i];
    }
  }

  /** nDCG lies between 0 and 1 at every cutoff, and it is 1 exactly when the judged results are the
      first of the ideal ones, what is left of these is worth nothing, and something is worth anything. */
  lemma NdcgBounds(relevances: seq<real>, k: Option<int>, pool: seq<real>, d: Discount)
    requires NonNegative(pool) && multiset(relevances) <= multiset(pool)
    ensures 0.0 <= Ndcg(relevances, k, Some(pool), d) <= 1.0
    ensures var judged, ideal := Judged(relevances, k), Judged(SortDesc(pool), k);
            Ndcg(relevances, k, Some(pool), d) == 1.0 <==>
              judged <= ideal && AllZero(ideal[|judged|..]) && !AllZero(ideal)
  {
    hide Cut, SortDesc, Descending, NonNegative, AllZero, Gain;
    var p := SortDesc(pool);
    var a, b := Judged(relevances, k), Judged(p, k);
    SortCorrect(pool);
    NonNegativeChoice(p, pool);
    JudgedFits(relevances, k, p);
    NonNegativeChoice(a, p);
    NonNegativePrefix(p, |b|);
    Rearrangement(a, p, |b|, d);
    assert p[|a|..|b|] == b[|a|..] && p[..|a|] == b[..|a|];
    assert a <= b <==> a == b[..|a|];
    GainNonNegative(a, 1, d);
    GainNonNegative(b, 1, d);
    if Gain(b, 1, d) > 0.0 {
      RatioBounds(Gain(a, 1, d), Gain(b, 1, d));
    }
  }

  /** Each result's relevance over the discount of its rank. */
  function Discounted(s: seq<real>, d: Discount): (r: seq<real>)
    ensures |r| == |s| && forall i | 0 <= i < |s| :: r[i] == s[i] / d(i + 1)
  {
    seq(|s|, i requires 0 <= i < |s| => s[i] / d(i + 1))
  }

  lemma {:induction false} GainSum(s: seq<real>, n: nat, d: Discount)
    requires n <= |s|
    ensures Gain(s[..n], 1, d) == Sum(Discounted(s, d)[..n])
  {
    if n > 0 {
      GainSum(s, n - 1, d);
      GainSnoc(s, n - 1, d);
      SumSnoc(Discounted(s, d), n - 1);
    }
  }

  predicate IsJudged(a: seq<real>, s: seq<real>, k: Option<int>) {
    && a <= s
    && |a| == if k.GetOr(0) == 0 then |s|
              else if k.value > 0 then Min(k.value, |s|)
              else Max(0, Max(0, |s| + k.value) + k.value)
  }

  /** nDCG is the discounted sum of the judged results over that of the best ones: those of the pool,
      or of the results themselves where no pool is given, in falling order. */
  lemma NdcgExactly(
    relevances: seq<real>, k: Option<int>, pool: Option<seq<real>>, d: Discount,
    a: seq<real>, p: seq<real>, b: seq<real>)
    requires Descending(p) && multiset(p) == multiset(if pool.Some? then pool.value else relevances)
    requires IsJudged(a, relevances, k) && IsJudged(b, p, k)
    ensures var best := Sum(Discounted(b, d));
            && (best == 0.0 ==> Ndcg(relevances, k, pool, d) == 0.0)
            && (best != 0.0 ==> Ndcg(relevances, k, pool, d) * best == Sum(Discounted(a, d)))
  {
    hide Gain, SortDesc, Sum, Descending, Ndcg, Cut, IsJudged;
    var drawn := pool.GetOr(relevances);
    SortCorrect(drawn);
    SortedUnique(SortDesc(drawn), p);
    JudgedExactly(relevances, k, a);
    JudgedExactly(p, k, b);
    GainSum(a, |a|, d);
    GainSum(b, |b|, d);
    NdcgTimes(relevances, k, pool, d);
    assert a[..|a|] == a && b[..|b|] == b;
    assert Discounted(a, d)[..|a|] == Discounted(a, d) && Discounted(b, d)[..|b|] == Discounted(b, d);
  }

  lemma NdcgTimes(relevances: seq<real>, k: Option<int>, pool: Option<seq<real>>, d: Discount)
    ensures var best := Gain(Judged(SortDesc(pool.GetOr(relevances)), k), 1, d);
            && (best == 0.0 ==> Ndcg(relevances, k, pool, d) == 0.0)
            && (best != 0.0 ==> Ndcg(relevances, k, pool, d) * best == Gain(Judged(relevances, k), 1, d))
  {
    hide Gain, SortDesc, Cut;
    var best := Gain(Judged(SortDesc(pool.GetOr(relevances)), k), 1, d);
    if best != 0.0 {
      QuotientTimes(Gain(Judged(relevances, k), 1, d), best);
    }
  }

  lemma JudgedExactly(s: seq<real>, k: Option<int>, a: seq<real>)
    requires IsJudged(a, s, k)
    ensures Judged(s, k) == a
  {
    assert a == s[..|a|];
  }

  lemma NonNegativePrefix(s: seq<real>, n: nat)
    requires NonNegative(s) && n <= |s|
    ensures NonNegative(s[..n])
  {
  }

  lemma RatioBounds(x: real, y: real)
    requires 0.0 <= x <= y && y > 0.0
    ensures 0.0 <= x / y <= 1.0 && (x / y == 1.0 <==> x == y)
  {
  }

  // ---------------------------------------------------------------- citations

  /** `list(dict.fromkeys(ids))`: every id once, where it first stands. */
  function Unique(ids: seq<string>): seq<string> {
    if ids == [] then []
    else
      var n := |ids| - 1;
      var before := Unique(ids[..n]);
      if ids[n] in before then before else before + [ids[n]]
  }

  datatype CitationMetrics = CitationMetrics(grounding: real, hallucinated: seq<string>, numCited: nat)

  function CiteMetrics(citedIds: seq<string>, retrievedIds: seq<string>): CitationMetrics {
    var cited := Unique(citedIds);
    var retrieved := set id | id in retrievedIds;
    CitationMetrics(
      if cited == [] then 0.0 else |Within(cited, retrieved)| as real / |cited| as real,
      Outside(cited, retrieved), |cited|)
  }

  lemma {:induction false} UniqueFixed(ids: seq<string>)
    requires forall i, j | 0 <= i < j < |ids| :: ids[i] != ids[j]
    ensures Unique(ids) == ids
  {
    if ids != [] {
      var n := |ids| - 1;
      UniqueFixed(ids[..n]);
      assert ids == ids[..n] + [ids[n]];
      assert ids[n] !in ids[..n];
    }
  }

  /** Where an id first stands. */
  function Place(ids: seq<string>, id: string): (n: nat)
    ensures n <= |ids| && (n < |ids| ==> ids[n] == id) && forall i | 0 <= i < n :: ids[i] != id
  {
    if ids == [] || ids[0] == id then 0
    else
      var n := Place(ids[1..], id);
      assert forall i | 0 < i < n + 1 :: ids[i] == ids[1..][i - 1];
      n + 1
  }

  predicate InPlaceOrder(some: seq<string>, ids: seq<string>) {
    forall i, j | 0 <= i < j < |some| :: Place(ids, some[i]) < Place(ids, some[j])
  }

  lemma PlaceAppend(ids: seq<string>, last: string, id: string)
    ensures Place(ids + [last], id) == if id in ids then Place(ids, id) else if id == last then |ids| else |ids| + 1
  {
    var all := ids + [last];
    var n := Place(all, id);
    assert forall i | 0 <= i < |ids| :: all[i] == ids[i];
    if id in ids {
      var m := Place(ids, id);
      assert all[m] == id;
      assert n < |ids| ==> ids[n] == id;
    } else {
      assert all[|ids|] == last;
    }
  }

  lemma {:induction false} UniqueExactly(ids: seq<string>)
    ensures InPlaceOrder(Unique(ids), ids)
    ensures forall id :: id in Unique(ids) <==> id in ids
  {
    if ids != [] {
      var n := |ids| - 1;
      UniqueExactly(ids[..n]);
      assert ids == ids[..n] + [ids[n]];
      var us := Unique(ids);
      forall i, j | 0 <= i < j < |us| ensures Place(ids, us[i]) < Place(ids, us[j]) {
        PlaceAppend(ids[..n], ids[n], us[i]);
        PlaceAppend(ids[..n], ids[n], us[j]);
      }
    }
  }

  /** An id stands ahead of all of these. */
  predicate Ahead(first: string, some: seq<string>, ids: seq<string>) {
    forall id | id in some :: Place(ids, first) < Place(ids, id)
  }

  lemma OrderTail(some: seq<string>, ids: seq<string>)
    requires some != [] && InPlaceOrder(some, ids)
    ensures InPlaceOrder(some[1..], ids) && Ahead(some[0], some[1..], ids)
  {
    hide Place;
    var rest := some[1..];
    forall i, j | 0 <= i < j < |rest| ensures Place(ids, rest[i]) < Place(ids, rest[j]) {
      assert rest[i] == some[i + 1] && rest[j] == some[j + 1];
    }
    forall id | id in rest ensures Place(ids, some[0]) < Place(ids, id) {
      var i :| 0 <= i < |rest| && rest[i] == id;
      assert some[i + 1] == id;
    }
  }

  lemma OrderCons(first: string, rest: seq<string>, ids: seq<string>)
    requires InPlaceOrder(rest, ids) && Ahead(first, rest, ids)
    ensures InPlaceOrder([first] + rest, ids)
  {
    hide Place;
    var all := [first] + rest;
    forall i, j | 0 <= i < j < |all| ensures Place(ids, all[i]) < Place(ids, all[j]) {
      assert all[j] == rest[j - 1] && rest[j - 1] in rest;
    }
  }

  lemma FewerAhead(first: string, some: seq<string>, fewer: seq<string>, ids: seq<string>)
    requires Ahead(first, some, ids) && forall id | id in fewer :: id in some
    ensures Ahead(first, fewer, ids)
  {
    hide Place;
  }

  lemma {:induction false} OutsideInOrder(cited: seq<string>, known: set<string>, ids: seq<string>)
    requires InPlaceOrder(cited, ids)
    ensures InPlaceOrder(Outside(cited, known), ids)
  {
    hide Place, InPlaceOrder, Within, Ahead;
    if cited == [] {
      assert Outside(cited, known) == cited;
    } else {
      OrderTail(cited, ids);
      OutsideInOrder(cited[1..], known, ids);
      WithinOutside(cited[1..], known);
      var rest := Outside(cited[1..], known);
      FewerAhead(cited[0], cited[1..], rest, ids);
      OrderCons(cited[0], rest, ids);
      assert Outside(cited, known) == if cited[0] in known then rest else [cited[0]] + rest;
    }
  }

  lemma DistinctSize(ids: seq<string>, some: seq<string>)
    requires InPlaceOrder(some, ids)
    ensures |some| == |Elements(some)|
  {
    hide Place;
    if some != [] {
      var n := |some| - 1;
      DistinctSize(ids, some[..n]);
      assert some == some[..n] + [some[n]];
      assert some[n] !in some[..n] by {
        assert forall i | 0 <= i < n :: Place(ids, some[i]) < Place(ids, some[n]);
      }
      assert Elements(some) == Elements(some[..n]) + {some[n]};
    }
  }

  lemma GroundingTimes(citedIds: seq<string>, retrievedIds: seq<string>)
    ensures var cited, m := Unique(citedIds), CiteMetrics(citedIds, retrievedIds);
            m.grounding * |cited| as real == |Within(cited, set id | id in retrievedIds)| as real
  {
    hide Unique, Within, Outside;
    var cited := Unique(citedIds);
    var grounded := Within(cited, set id | id in retrievedIds);
    if cited != [] {
      QuotientTimes(|grounded| as real, |cited| as real);
    } else {
      WithinOutside(cited, set id | id in retrievedIds);
    }
  }

  /** The figures reported for citations: each id counts once, the share of those retrieved is the
      grounding, and the others are listed in the order of their first mention. */
  lemma CitationsCounted(citedIds: seq<string>, retrievedIds: seq<string>)
    ensures var m := CiteMetrics(citedIds, retrievedIds);
            && m.numCited == |set id | id in citedIds|
            && m.grounding * m.numCited as real == |set id | id in citedIds && id in retrievedIds| as real
            && (citedIds == [] ==> m.grounding == 0.0)
            && (forall id :: id in m.hallucinated <==> id in citedIds && id !in retrievedIds)
            && InPlaceOrder(m.hallucinated, citedIds)
  {
    hide *;
    MetricFields(citedIds, retrievedIds);
    CitedSizes(citedIds, retrievedIds);
    GroundingTimes(citedIds, retrievedIds);
  }

  lemma CitedSizes(citedIds: seq<string>, retrievedIds: seq<string>)
    ensures var cited, retrieved := Unique(citedIds), set id | id in retrievedIds;
            && |cited| == |set id | id in citedIds|
            && |Within(cited, retrieved)| == |set id | id in citedIds && id in retrievedIds|
            && (forall id :: id in Outside(cited, retrieved) <==> id in citedIds && id !in retrievedIds)
            && InPlaceOrder(Outside(cited, retrieved), citedIds)
  {
    hide InPlaceOrder, Unique, Within, Outside;
    var cited, retrieved := Unique(citedIds), set id | id in retrievedIds;
    UniqueExactly(citedIds);
    OutsideInOrder(cited, retrieved, citedIds);
    WithinOutside(cited, retrieved);
    DistinctSize(citedIds, cited);
    DistinctSize(citedIds, Outside(cited, retrieved));
    assert Elements(cited) == set id | id in citedIds;
    var grounded := set id | id in citedIds && id in retrievedIds;
    assert Elements(cited) == grounded + Elements(Outside(cited, retrieved));
  }

  lemma MetricFields(citedIds: seq<string>, retrievedIds: seq<string>)
    ensures var m, cited := CiteMetrics(citedIds, retrievedIds), Unique(citedIds);
            && m.numCited == |cited| && m.hallucinated == Outside(cited, set id | id in retrievedIds)
            && (citedIds == [] ==> m.grounding == 0.0)
  {
    hide Within, Outside;
  }

  /** Grounding is 1 exactly when something is cited and nothing is hallucinated. */
  lemma GroundingExactly(citedIds: seq<string>, retrievedIds: seq<string>)
    ensures var m := CiteMetrics(citedIds, retrievedIds);
            && 0.0 <= m.grounding <= 1.0
            && (m.grounding == 1.0 <==> m.numCited > 0 && m.hallucinated == [])
  {
    var cited := Unique(citedIds);
    var retrieved := set id | id in retrievedIds;
    WithinOutside(cited, retrieved);
    if cited != [] {
      RatioBounds(|Within(cited, retrieved)| as real, |cited| as real);
    }
  }
}
