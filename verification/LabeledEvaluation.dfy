/** Evaluation against relevance labels, and what promoting a relevant result does to it. */
module LabeledEvaluation {
  import opened Common
  import opened RetrievalMetrics

  datatype Metrics = Metrics(
    hitRate: real,
    mrr: real,
    ndcg: real,
    precisionAtK: real,
    recallAtK: real,
    contextPrecision: real,
    contextRecall: real,
    numRetrieved: nat)

  function Binary(retrievedIds: seq<string>, relevantIds: set<string>): (b: seq<real>)
    ensures |b| == |retrievedIds|
    ensures forall i | 0 <= i < |b| :: b[i] == if retrievedIds[i] in relevantIds then 1.0 else 0.0
  {
    seq(|retrievedIds|, i requires 0 <= i < |retrievedIds| =>
      if retrievedIds[i] in relevantIds then 1.0 else 0.0)
  }

  function Ones(n: nat): seq<real> {
    seq(n, _ => 1.0)
  }

  function Cutoff(retrievedIds: seq<string>, k: Option<int>): int {
    if k.Some? && k.value != 0 then k.value else if retrievedIds != [] then |retrievedIds| else 1
  }

  /** The relevant documents that retrieval missed still belong to the ideal. */
  function IdealPool(binary: seq<real>, known: int): seq<real> {
    binary + Ones(Max(known - Hits(binary), 0))
  }

  function Evaluated(
    retrievedIds: seq<string>, relevantIds: set<string>, k: Option<int>, totalRelevant: Option<int>,
    d: Discount): Metrics
  {
    var binary := Binary(retrievedIds, relevantIds);
    var cutoff := Cutoff(retrievedIds, k);
    var known := totalRelevant.GetOr(|relevantIds|);
    Metrics(
      HitRate(binary),
      ReciprocalRank(binary, 1),
      Ndcg(binary, Some(cutoff), Some(IdealPool(binary, known)), d),
      PrecisionAt(binary, cutoff),
      RecallAt(binary, known, cutoff),
      MeanPrecision(binary),
      if known != 0 then |(set id | id in retrievedIds) * relevantIds| as real / known as real else 0.0,
      |retrievedIds|)
  }

  method EvaluateLabeled(
    retrievedIds: seq<string>, relevantIds: set<string>, k: Option<int>, totalRelevant: Option<int>,
    d: Discount)
    returns (m: Metrics)
    ensures m == Evaluated(retrievedIds, relevantIds, k, totalRelevant, d)
    ensures m.hitRate == if exists id :: id in retrievedIds && id in relevantIds then 1.0 else 0.0
    ensures forall i | FirstRelevant(retrievedIds, relevantIds, i) :: m.mrr == 1.0 / (i + 1) as real
    ensures m.hitRate == 0.0 ==> m.mrr == 0.0 && m.precisionAtK == 0.0 && m.recallAtK == 0.0
    ensures 0.0 <= m.ndcg <= 1.0
    ensures Cutoff(retrievedIds, k) > 0 ==>
              (m.ndcg == 1.0 <==> TopIsRelevant(retrievedIds, relevantIds, Cutoff(retrievedIds, k), totalRelevant))
  {
    hide ReciprocalRank, Ndcg, PrecisionAt, RecallAt, MeanPrecision, HitRate, TopIsRelevant;
    HitsAndMisses(retrievedIds, relevantIds, Cutoff(retrievedIds, k), totalRelevant.GetOr(|relevantIds|));
    LabeledNdcg(retrievedIds, relevantIds, k, totalRelevant, d);
    var binary := Binary(retrievedIds, relevantIds);
    var cutoff := Cutoff(retrievedIds, k);
    var known := totalRelevant.GetOr(|relevantIds|);
    var mrr := Mrr(binary);
    var contextPrecision := AveragePrecision(binary, None);
    m := Metrics(
      HitRate(binary), mrr,
      Ndcg(binary, Some(cutoff), Some(IdealPool(binary, known)), d),
      PrecisionAt(binary, cutoff), RecallAt(binary, known, cutoff), contextPrecision,
      if known != 0 then |(set id | id in retrievedIds) * relevantIds| as real / known as real else 0.0,
      |retrievedIds|);
  }

  predicate FirstRelevant(ids: seq<string>, relevantIds: set<string>, i: nat) {
    i < |ids| && ids[i] in relevantIds && forall j | 0 <= j < i :: ids[j] !in relevantIds
  }

  lemma {:induction false} NothingHit(s: seq<real>, rank: nat)
    requires rank >= 1 && forall i | 0 <= i < |s| :: s[i] <= 0.0
    ensures Hits(s) == 0 && ReciprocalRank(s, rank) == 0.0
  {
    if s != [] {
      NothingHit(s[1..], rank + 1);
    }
  }

  /** What the relevances say of the documents. */
  lemma HitsAndMisses(ids: seq<string>, relevantIds: set<string>, k: int, known: int)
    ensures var b := Binary(ids, relevantIds);
            && HitRate(b) == (if exists id :: id in ids && id in relevantIds then 1.0 else 0.0)
            && (forall i | FirstRelevant(ids, relevantIds, i) :: ReciprocalRank(b, 1) == 1.0 / (i + 1) as real)
            && (HitRate(b) == 0.0 ==>
                  ReciprocalRank(b, 1) == 0.0 && PrecisionAt(b, k) == 0.0 && RecallAt(b, known, k) == 0.0)
  {
    hide ReciprocalRank;
    var b := Binary(ids, relevantIds);
    if id :| id in ids && id in relevantIds {
      var i :| 0 <= i < |ids| && ids[i] == id;
      assert b[i] > 0.0;
    }
    forall i | FirstRelevant(ids, relevantIds, i) ensures ReciprocalRank(b, 1) == 1.0 / (i + 1) as real {
      ReciprocalRankFirst(b, 1, i);
    }
    if HitRate(b) == 0.0 {
      NothingHit(b, 1);
      NothingHit(Slice(b, k), 1);
    }
  }

  /** As many of the top results are relevant as the cutoff has room for and relevant documents are known. */
  predicate TopIsRelevant(ids: seq<string>, relevantIds: set<string>, cutoff: int, totalRelevant: Option<int>) {
    var wanted := Max(totalRelevant.GetOr(|relevantIds|), Hits(Binary(ids, relevantIds)));
    && wanted > 0 && Min(cutoff, wanted) <= |ids|
    && forall i | 0 <= i < Min(cutoff, wanted) :: ids[i] in relevantIds
  }

  // --------------------------------------------------------- perfect rankings

  predicate IsBinary(s: seq<real>) {
    forall i | 0 <= i < |s| :: s[i] == 0.0 || s[i] == 1.0
  }

  lemma {:induction false} HitsCount(s: seq<real>)
    requires IsBinary(s)
    ensures Hits(s) == multiset(s)[1.0] && Hits(s) <= |s|
  {
    if s != [] {
      HitsCount(s[1..]);
      assert s == [s[0]] + s[1..];
    }
  }

  /** A sorted binary list is ones, as many as there are hits, and then zeros. */
  lemma {:induction false} SortedBinary(p: seq<real>)
    requires IsBinary(p) && Descending(p)
    ensures forall i | 0 <= i < |p| :: p[i] == if i < Hits(p) then 1.0 else 0.0
  {
    if p != [] {
      SortedBinary(p[1..]);
      var h := Hits(p[1..]);
      forall i | 0 <= i < |p| ensures p[i] == if i < Hits(p) then 1.0 else 0.0 {
        if i > 0 {
          assert p[i] == p[1..][i - 1];
        }
      }
    }
  }

  lemma {:induction false} HitsAppend(a: seq<real>, b: seq<real>)
    ensures Hits(a + b) == Hits(a) + Hits(b)
  {
    if a == [] {
      assert a + b == b;
    } else {
      assert (a + b)[1..] == a[1..] + b;
      HitsAppend(a[1..], b);
    }
  }

  lemma {:induction false} HitsAll(s: seq<real>)
    requires forall i | 0 <= i < |s| :: s[i] > 0.0
    ensures Hits(s) == |s|
  {
    if s != [] {
      HitsAll(s[1..]);
    }
  }

  lemma {:induction false} HitsNone(s: seq<real>)
    requires IsBinary(s)
    ensures Hits(s) == 0 <==> AllZero(s)
  {
    if s != [] {
      HitsNone(s[1..]);
      assert s == [s[0]] + s[1..];
      if AllZero(s) {
        assert AllZero(s[1..]);
      }
    }
  }

  lemma PoolShape(binary: seq<real>, known: int)
    requires IsBinary(binary)
    ensures var pool := IdealPool(binary, known);
            && IsBinary(pool) && multiset(binary) <= multiset(pool)
            && Hits(pool) == Max(known, Hits(binary))
  {
    var missed := Max(known - Hits(binary), 0);
    HitsAppend(binary, Ones(missed));
    HitsAll(Ones(missed));
  }

  /** The sorted pool, entry by entry. */
  lemma SortedPool(pool: seq<real>)
    requires IsBinary(pool)
    ensures var p := SortDesc(pool);
            |p| == |pool| && forall i | 0 <= i < |p| :: p[i] == if i < Hits(pool) then 1.0 else 0.0
  {
    var p := SortDesc(pool);
    SortCorrect(pool);
    assert IsBinary(p) by {
      forall i | 0 <= i < |p| ensures p[i] == 0.0 || p[i] == 1.0 {
        assert p[i] in multiset(p);
        assert p[i] in multiset(pool);
        var j :| 0 <= j < |pool| && pool[j] == p[i];
      }
    }
    HitsCount(p);
    HitsCount(pool);
    SortedBinary(p);
  }

  /** The first n results are all relevant. */
  predicate AllRelevant(binary: seq<real>, n: nat) {
    n <= |binary| && forall i | 0 <= i < n :: binary[i] == 1.0
  }

  lemma NoMoreHits(binary: seq<real>, n: nat)
    requires IsBinary(binary) && AllRelevant(binary, n) && Hits(binary) <= n
    ensures AllZero(binary[n..])
  {
    assert binary == binary[..n] + binary[n..];
    HitsAppend(binary[..n], binary[n..]);
    HitsAll(binary[..n]);
    HitsNone(binary[n..]);
  }

  lemma JudgedPositive(s: seq<real>, cutoff: int)
    requires cutoff > 0
    ensures Judged(s, Some(cutoff)) == s[..Min(cutoff, |s|)]
  {
  }

  /** The best results there could have been: ones, as many as are wanted, then zeros. */
  predicate OnesThenZeros(b: seq<real>, wanted: nat) {
    forall i | 0 <= i < |b| :: b[i] == if i < wanted then 1.0 else 0.0
  }

  lemma TopFilled(binary: seq<real>, b: seq<real>, cutoff: nat, wanted: nat)
    requires IsBinary(binary) && Hits(binary) <= wanted && cutoff > 0 && wanted > 0
    requires |binary| <= |b| || |b| == cutoff
    requires OnesThenZeros(b, wanted) && Min(cutoff, wanted) <= |b| <= cutoff
    requires AllRelevant(binary, Min(cutoff, wanted))
    ensures var a := binary[..Min(cutoff, |binary|)];
            |a| <= |b| && a <= b && AllZero(b[|a|..]) && !AllZero(b)
  {
    hide Hits;
    var a := binary[..Min(cutoff, |binary|)];
    assert b[0] == 1.0;
    forall i | 0 <= i < |a| ensures a[i] == b[i] {
      if i >= wanted {
        NoMoreHits(binary, wanted);
        assert binary[i] == binary[wanted..][i - wanted];
      }
    }
    assert a == b[..|a|];
  }

  lemma ZeroAt(b: seq<real>, n: nat)
    requires n < |b| && AllZero(b[n..])
    ensures b[n] == 0.0
  {
    assert b[n..][0] == b[n];
  }

  lemma TopNeeded(binary: seq<real>, b: seq<real>, cutoff: nat, wanted: nat)
    requires OnesThenZeros(b, wanted) && Min(cutoff, wanted) <= |b|
    requires var a := binary[..Min(cutoff, |binary|)]; a <= b && AllZero(b[|a|..]) && !AllZero(b)
    ensures wanted > 0 && AllRelevant(binary, Min(cutoff, wanted))
  {
    var a, top := binary[..Min(cutoff, |binary|)], Min(cutoff, wanted);
    if |a| < |b| {
      ZeroAt(b, |a|);
    }
    assert forall i | 0 <= i < |a| :: a[i] == b[i] == binary[i];
  }

  /** The judged results are ideal exactly when relevant documents fill the top, as many as the
      cutoff has room for. */
  lemma IdealTop(binary: seq<real>, known: int, cutoff: int)
    requires IsBinary(binary) && cutoff > 0
    ensures var pool := IdealPool(binary, known);
            var a, b := Judged(binary, Some(cutoff)), Judged(SortDesc(pool), Some(cutoff));
            && |a| <= |b|
            && (a <= b && AllZero(b[|a|..]) && !AllZero(b)
                <==> Hits(pool) > 0 && AllRelevant(binary, Min(cutoff, Hits(pool))))
  {
    hide SortDesc, Judged, Hits, AllZero, AllRelevant, IsBinary;
    var pool := IdealPool(binary, known);
    PoolShape(binary, known);
    SortedPool(pool);
    HitsCount(pool);
    JudgedPositive(binary, cutoff);
    JudgedPositive(SortDesc(pool), cutoff);
    var a, b := Judged(binary, Some(cutoff)), Judged(SortDesc(pool), Some(cutoff));
    if Hits(pool) > 0 && AllRelevant(binary, Min(cutoff, Hits(pool))) {
      TopFilled(binary, b, cutoff, Hits(pool));
    }
    if a <= b && AllZero(b[|a|..]) && !AllZero(b) {
      TopNeeded(binary, b, cutoff, Hits(pool));
    }
  }

  lemma AllRelevantIds(ids: seq<string>, relevantIds: set<string>, n: nat)
    ensures AllRelevant(Binary(ids, relevantIds), n)
       <==> n <= |ids| && forall i | 0 <= i < n :: ids[i] in relevantIds
  {
    var b := Binary(ids, relevantIds);
    assert forall i | 0 <= i < |ids| :: b[i] == 1.0 <==> ids[i] in relevantIds;
  }

  lemma BinaryIsBinary(ids: seq<string>, relevantIds: set<string>)
    ensures IsBinary(Binary(ids, relevantIds))
  {
  }

  lemma BinaryNonNegative(s: seq<real>)
    requires IsBinary(s)
    ensures NonNegative(s)
  {
  }

  /** Labelled nDCG lies between 0 and 1, and for a positive cutoff it is 1 exactly when relevant
      documents exist and fill the top of the ranking, up to the cutoff. */
  lemma LabeledNdcg(
    retrievedIds: seq<string>, relevantIds: set<string>, k: Option<int>, totalRelevant: Option<int>,
    d: Discount)
    ensures var m := Evaluated(retrievedIds, relevantIds, k, totalRelevant, d);
            var cutoff := Cutoff(retrievedIds, k);
            && 0.0 <= m.ndcg <= 1.0
            && (cutoff > 0 ==> (m.ndcg == 1.0 <==> TopIsRelevant(retrievedIds, relevantIds, cutoff, totalRelevant)))
  {
    hide Judged, SortDesc, Ndcg, IsBinary, IdealPool, Hits;
    var binary := Binary(retrievedIds, relevantIds);
    var known := totalRelevant.GetOr(|relevantIds|);
    var pool := IdealPool(binary, known);
    BinaryIsBinary(retrievedIds, relevantIds);
    PoolShape(binary, known);
    BinaryNonNegative(pool);
    NdcgBounds(binary, Some(Cutoff(retrievedIds, k)), pool, d);
    if Cutoff(retrievedIds, k) > 0 {
      IdealTop(binary, known, Cutoff(retrievedIds, k));
      AllRelevantIds(retrievedIds, relevantIds, Min(Cutoff(retrievedIds, k), Hits(pool)));
    }
  }

  /** The positions of relevant documents among the first n. */
  function RelevantAt(ids: seq<string>, relevantIds: set<string>, n: nat): set<nat> {
    set i: nat | i < n && i < |ids| && ids[i] in relevantIds
  }

  /** What the metrics count, in terms of the documents. */
  lemma MetricsExactly(
    retrievedIds: seq<string>, relevantIds: set<string>, k: Option<int>, totalRelevant: Option<int>,
    d: Discount)
    ensures var m := Evaluated(retrievedIds, relevantIds, k, totalRelevant, d);
            var cutoff := if k.Some? && k.value != 0 then k.value else |retrievedIds|;
            var n := if cutoff >= 0 then Min(cutoff, |retrievedIds|) else Max(0, |retrievedIds| + cutoff);
            var known := if totalRelevant.Some? then totalRelevant.value else |relevantIds|;
            var hits := |RelevantAt(retrievedIds, relevantIds, n)|;
            && m.precisionAtK * n as real == hits as real && (n == 0 ==> m.precisionAtK == 0.0)
            && (if known > 0 then m.recallAtK * known as real == Min(hits, known) as real else m.recallAtK == 0.0)
            && m.numRetrieved == |retrievedIds|
  {
    hide *;
    var b := Binary(retrievedIds, relevantIds);
    var cutoff := if k.Some? && k.value != 0 then k.value else |retrievedIds|;
    var n := if cutoff >= 0 then Min(cutoff, |retrievedIds|) else Max(0, |retrievedIds| + cutoff);
    var known := if totalRelevant.Some? then totalRelevant.value else |relevantIds|;
    EvaluatedFields(retrievedIds, relevantIds, k, totalRelevant, d);
    PrecisionExactly(b, cutoff);
    RecallExactly(b, known, cutoff);
    RelevantBinary(retrievedIds, relevantIds, n);
  }

  lemma EvaluatedFields(
    retrievedIds: seq<string>, relevantIds: set<string>, k: Option<int>, totalRelevant: Option<int>,
    d: Discount)
    ensures var m, b := Evaluated(retrievedIds, relevantIds, k, totalRelevant, d), Binary(retrievedIds, relevantIds);
            var cutoff := if k.Some? && k.value != 0 then k.value else |retrievedIds|;
            var known := if totalRelevant.Some? then totalRelevant.value else |relevantIds|;
            && m.precisionAtK == PrecisionAt(b, cutoff) && m.recallAtK == RecallAt(b, known, cutoff)
            && m.contextPrecision == MeanPrecision(b) && m.numRetrieved == |retrievedIds|
  {
    hide ReciprocalRank, Ndcg, HitRate, MeanPrecision;
  }

  lemma RelevantBinary(ids: seq<string>, relevantIds: set<string>, n: nat)
    ensures Relevant(Binary(ids, relevantIds), n) == RelevantAt(ids, relevantIds, n)
  {
  }

  lemma ContextRecallTimes(
    retrievedIds: seq<string>, relevantIds: set<string>, k: Option<int>, totalRelevant: Option<int>,
    d: Discount)
    ensures var m := Evaluated(retrievedIds, relevantIds, k, totalRelevant, d);
            var known := if totalRelevant.Some? then totalRelevant.value else |relevantIds|;
            && (known != 0 ==>
                  m.contextRecall * known as real == |set id | id in retrievedIds && id in relevantIds| as real)
            && (known == 0 ==> m.contextRecall == 0.0)
  {
    hide *;
    var found := set id | id in retrievedIds && id in relevantIds;
    var known := if totalRelevant.Some? then totalRelevant.value else |relevantIds|;
    ContextRecallField(retrievedIds, relevantIds, k, totalRelevant, d);
    if known != 0 {
      QuotientTimes(|found| as real, known as real);
    }
  }

  lemma ContextRecallField(
    retrievedIds: seq<string>, relevantIds: set<string>, k: Option<int>, totalRelevant: Option<int>,
    d: Discount)
    ensures var known := if totalRelevant.Some? then totalRelevant.value else |relevantIds|;
            Evaluated(retrievedIds, relevantIds, k, totalRelevant, d).contextRecall
            == if known == 0 then 0.0
               else |set id | id in retrievedIds && id in relevantIds| as real / known as real
  {
    hide ReciprocalRank, Ndcg, HitRate, MeanPrecision, PrecisionAt, RecallAt;
    assert (set id | id in retrievedIds) * relevantIds == set id | id in retrievedIds && id in relevantIds;
  }

  /** The two context metrics: the mean of the precisions at relevant documents, and the share of the
      known documents that were retrieved at all. */
  lemma ContextExactly(
    retrievedIds: seq<string>, relevantIds: set<string>, k: Option<int>, totalRelevant: Option<int>,
    d: Discount)
    ensures var m := Evaluated(retrievedIds, relevantIds, k, totalRelevant, d);
            var known := if totalRelevant.Some? then totalRelevant.value else |relevantIds|;
            var hits := |RelevantAt(retrievedIds, relevantIds, |retrievedIds|)|;
            && m.contextPrecision * hits as real
               == PrecisionsAtHits(Binary(retrievedIds, relevantIds), |retrievedIds|)
            && (hits == 0 ==> m.contextPrecision == 0.0)
            && (known != 0 ==>
                  m.contextRecall * known as real == |set id | id in retrievedIds && id in relevantIds| as real)
            && (known == 0 ==> m.contextRecall == 0.0)
  {
    hide *;
    EvaluatedFields(retrievedIds, relevantIds, k, totalRelevant, d);
    ContextRecallTimes(retrievedIds, relevantIds, k, totalRelevant, d);
    AveragePrecisionExactly(Binary(retrievedIds, relevantIds));
    RelevantBinary(retrievedIds, relevantIds, |retrievedIds|);
    NoneAmong(RelevantAt(retrievedIds, relevantIds, |retrievedIds|));
  }

  lemma NoneAmong(positions: set<nat>)
    ensures |positions| == 0 <==> positions == {}
  {
  }

  /** Labelled nDCG divides by the discounted sum of ones, as many as relevant documents are known or
      retrieved, whichever is more. */
  lemma LabeledNdcgExactly(
    retrievedIds: seq<string>, relevantIds: set<string>, k: Option<int>, totalRelevant: Option<int>,
    d: Discount, a: seq<real>, p: seq<real>, b: seq<real>)
    requires var cutoff := if k.Some? && k.value != 0 then k.value else Max(|retrievedIds|, 1);
             && IsJudged(a, Binary(retrievedIds, relevantIds), Some(cutoff))
             && IsJudged(b, p, Some(cutoff))
    requires var known := if totalRelevant.Some? then totalRelevant.value else |relevantIds|;
             var hits := |RelevantAt(retrievedIds, relevantIds, |retrievedIds|)|;
             && |p| == |retrievedIds| + Max(known - hits, 0)
             && OnesThenZeros(p, Max(known, hits))
    ensures var m, best := Evaluated(retrievedIds, relevantIds, k, totalRelevant, d), Sum(Discounted(b, d));
            && (best == 0.0 ==> m.ndcg == 0.0)
            && (best != 0.0 ==> m.ndcg * best == Sum(Discounted(a, d)))
  {
    hide *;
    var binary := Binary(retrievedIds, relevantIds);
    var known := if totalRelevant.Some? then totalRelevant.value else |relevantIds|;
    var cutoff := if k.Some? && k.value != 0 then k.value else Max(|retrievedIds|, 1);
    NdcgField(retrievedIds, relevantIds, k, totalRelevant, d);
    BestPool(retrievedIds, relevantIds, known, p);
    NdcgExactly(binary, Some(cutoff), Some(IdealPool(binary, known)), d, a, p, b);
  }

  lemma NdcgField(
    retrievedIds: seq<string>, relevantIds: set<string>, k: Option<int>, totalRelevant: Option<int>,
    d: Discount)
    ensures var b := Binary(retrievedIds, relevantIds);
            var cutoff := if k.Some? && k.value != 0 then k.value else Max(|retrievedIds|, 1);
            var known := if totalRelevant.Some? then totalRelevant.value else |relevantIds|;
            Evaluated(retrievedIds, relevantIds, k, totalRelevant, d).ndcg
            == Ndcg(b, Some(cutoff), Some(IdealPool(b, known)), d)
  {
    hide ReciprocalRank, Ndcg, HitRate, MeanPrecision, PrecisionAt, RecallAt;
  }

  lemma BestPool(ids: seq<string>, relevantIds: set<string>, known: int, p: seq<real>)
    requires var hits := |RelevantAt(ids, relevantIds, |ids|)|;
             |p| == |ids| + Max(known - hits, 0) && OnesThenZeros(p, Max(known, hits))
    ensures Descending(p) && multiset(p) == multiset(IdealPool(Binary(ids, relevantIds), known))
  {
    hide SortDesc, Descending;
    var binary := Binary(ids, relevantIds);
    var pool := IdealPool(binary, known);
    HitsCounted(binary, |binary|);
    assert binary[..|binary|] == binary;
    RelevantBinary(ids, relevantIds, |ids|);
    BinaryIsBinary(ids, relevantIds);
    PoolShape(binary, known);
    SortedPool(pool);
    SortCorrect(pool);
    assert SortDesc(pool) == p;
  }

  // ---------------------------------------------------------------- promotion

  /** Exchange the results at two positions. */
  function Swap<T>(s: seq<T>, i: nat, j: nat): (r: seq<T>)
    requires i < |s| && j < |s|
    ensures |r| == |s|
  {
    s[i := s[j]][j := s[i]]
  }

  predicate Promotable(s: seq<real>, i: nat, j: nat) {
    IsBinary(s) && i < j < |s| && s[i] == 0.0 && s[j] == 1.0
  }

  /** The result at p + 1 can take the place right above it. */
  predicate Climbs(s: seq<real>, p: nat) {
    Promotable(s, p, p + 1)
  }

  function Climb(s: seq<real>, p: nat): (r: seq<real>)
    requires p + 1 < |s|
    ensures |r| == |s|
  {
    Swap(s, p, p + 1)
  }

  /** A measure that no promotion past the next place above lowers, on lists of length n. */
  ghost predicate Rises(measure: seq<real> -> real, n: nat) {
    forall s: seq<real>, p: nat | |s| == n && Climbs(s, p) :: measure(s) <= measure(Climb(s, p))
  }

  /** Such a measure is lowered by no promotion at all. */
  lemma {:induction false} PromotionFromSwaps(measure: seq<real> -> real, s: seq<real>, i: nat, j: nat)
    requires Rises(measure, |s|) && Promotable(s, i, j)
    ensures measure(s) <= measure(Swap(s, i, j))
    decreases j - i
  {
    hide Rises;
    if j == i + 1 {
      OneStep(measure, s, i);
    } else if s[j - 1] == 0.0 {
      var t := Climb(s, j - 1);
      OneStep(measure, s, j - 1);
      PromotionFromSwaps(measure, t, i, j - 1);
      assert Swap(t, i, j - 1) == Swap(s, i, j);
    } else {
      var t := Swap(s, i, j - 1);
      PromotionFromSwaps(measure, s, i, j - 1);
      OneStep(measure, t, j - 1);
      assert Climb(t, j - 1) == Swap(s, i, j);
    }
  }

  lemma OneStep(measure: seq<real> -> real, s: seq<real>, p: nat)
    requires Rises(measure, |s|) && Climbs(s, p)
    ensures measure(s) <= measure(Climb(s, p))
  {
  }

  lemma {:induction false} ReciprocalRankRises(s: seq<real>, p: nat, rank: nat)
    requires Climbs(s, p) && rank >= 1
    ensures ReciprocalRank(s, rank) <= ReciprocalRank(Climb(s, p), rank)
  {
    var t := Climb(s, p);
    if p == 0 {
      Reciprocals(rank);
      assert s[1..][0] == 1.0 && t[0] == 1.0;
    } else {
      assert t[0] == s[0] && t[1..] == Climb(s[1..], p - 1);
      if s[0] <= 0.0 {
        ReciprocalRankRises(s[1..], p - 1, rank + 1);
      }
    }
  }

  lemma Reciprocals(n: nat)
    requires n >= 1
    ensures 1.0 / (n + 1) as real <= 1.0 / n as real
  {
    QuotientsFall(1.0, n as real, (n + 1) as real);
  }

  lemma QuotientsFall(x: real, low: real, high: real)
    requires x >= 0.0 && 0.0 < low <= high
    ensures x / high <= x / low
  {
    var q := x / high;
    assert q * high == x && q >= 0.0;
    assert q * low <= q * high;
    assert (q * low) / low <= x / low;
  }

  lemma {:induction false} ApSumRises(s: seq<real>, p: nat, rank: nat, hits: nat)
    requires Climbs(s, p) && rank >= 1
    ensures ApSum(s, rank, hits) <= ApSum(Climb(s, p), rank, hits)
  {
    var t := Climb(s, p);
    if p == 0 {
      QuotientsFall((hits + 1) as real, rank as real, (rank + 1) as real);
      assert s[1..][0] == 1.0 && t[0] == 1.0 && t[1..][0] == 0.0;
      assert s[1..][1..] == t[1..][1..];
    } else {
      assert t[0] == s[0] && t[1..] == Climb(s[1..], p - 1);
      ApSumRises(s[1..], p - 1, rank + 1, if s[0] > 0.0 then hits + 1 else hits);
    }
  }

  /** A prefix of a list before and after one climb: untouched, parted, or holding the pair. */
  lemma ClimbPrefix(s: seq<real>, p: nat, n: nat)
    requires Climbs(s, p) && n <= |s|
    ensures var t := Climb(s, p);
            && (n <= p ==> t[..n] == s[..n])
            && (n == p + 1 ==> s[..n] == s[..p] + [0.0] && t[..n] == s[..p] + [1.0])
            && (n > p + 1 ==>
                  && s[..n] == s[..p] + ([0.0, 1.0] + s[p + 2..n])
                  && t[..n] == s[..p] + ([1.0, 0.0] + s[p + 2..n]))
  {
  }

  lemma PairHits(x: real, y: real, rest: seq<real>)
    ensures Hits([x, y] + rest) == (if x > 0.0 then 1 else 0) + (if y > 0.0 then 1 else 0) + Hits(rest)
  {
    assert ([x, y] + rest)[1..] == [y] + rest;
    assert ([y] + rest)[1..] == rest;
  }

  lemma PrefixHits(s: seq<real>, p: nat, n: nat)
    requires Climbs(s, p) && n <= |s|
    ensures Hits(Climb(s, p)[..n]) == Hits(s[..n]) + if n == p + 1 then 1 else 0
  {
    hide Climb, Climbs;
    ClimbPrefix(s, p, n);
    if n == p + 1 {
      HitsAppend(s[..p], [0.0]);
      HitsAppend(s[..p], [1.0]);
      assert Hits([0.0]) == 0 && Hits([1.0]) == 1;
    } else if n > p + 1 {
      var rest := s[p + 2..n];
      HitsAppend(s[..p], [0.0, 1.0] + rest);
      HitsAppend(s[..p], [1.0, 0.0] + rest);
      PairHits(0.0, 1.0, rest);
      PairHits(1.0, 0.0, rest);
    }
  }

  lemma HitsSwap(s: seq<real>, p: nat)
    requires Climbs(s, p)
    ensures Hits(Climb(s, p)) == Hits(s)
    ensures forall n: nat | n <= |s| :: Hits(s[..n]) <= Hits(Climb(s, p)[..n])
  {
    var t := Climb(s, p);
    PrefixHits(s, p, |s|);
    assert s[..|s|] == s && t[..|s|] == t;
    forall n: nat | n <= |s| ensures Hits(s[..n]) <= Hits(t[..n]) {
      PrefixHits(s, p, n);
    }
  }

  lemma OneGain(x: real, rank: nat, d: Discount)
    requires rank >= 1
    ensures Gain([x], rank, d) == x / d(rank)
  {
    assert [x][1..] == [];
  }

  lemma GainRises(s: seq<real>, p: nat, n: nat, d: Discount)
    requires Climbs(s, p) && n <= |s|
    ensures Gain(s[..n], 1, d) <= Gain(Climb(s, p)[..n], 1, d)
  {
    hide Climb, Gain;
    ClimbPrefix(s, p, n);
    if n == p + 1 {
      GainAppend(s[..p], [0.0], 1, d);
      GainAppend(s[..p], [1.0], 1, d);
      OneGain(0.0, p + 1, d);
      OneGain(1.0, p + 1, d);
      QuotientSign(1.0, d(p + 1));
    } else if n > p + 1 {
      var rest := s[p + 2..n];
      GainAppend(s[..p], [0.0, 1.0] + rest, 1, d);
      GainAppend(s[..p], [1.0, 0.0] + rest, 1, d);
      PairGain(0.0, 1.0, rest, p + 1, d);
      PairGain(1.0, 0.0, rest, p + 1, d);
      QuotientsFall(1.0, d(p + 1), d(p + 2));
    }
  }

  lemma PairGain(x: real, y: real, rest: seq<real>, rank: nat, d: Discount)
    requires rank >= 1
    ensures Gain([x, y] + rest, rank, d) == x / d(rank) + y / d(rank + 1) + Gain(rest, rank + 2, d)
  {
    assert ([x, y] + rest)[1..] == [y] + rest;
    assert ([y] + rest)[1..] == rest;
  }

  lemma SwapElements(s: seq<real>, p: nat)
    requires p + 1 < |s|
    ensures multiset(Climb(s, p)) == multiset(s)
  {
    var t := Climb(s, p);
    assert s == s[..p] + [s[p]] + [s[p + 1]] + s[p + 2..];
    assert t == s[..p] + [s[p + 1]] + [s[p]] + s[p + 2..];
  }

  lemma NdcgRises(s: seq<real>, p: nat, k: Option<int>, missed: nat, d: Discount)
    requires Climbs(s, p)
    ensures Ndcg(s, k, Some(s + Ones(missed)), d)
         <= Ndcg(Climb(s, p), k, Some(Climb(s, p) + Ones(missed)), d)
  {
    hide Gain, SortDesc, Climb;
    var t := Climb(s, p);
    var pool, pool' := s + Ones(missed), t + Ones(missed);
    PromotableShape(s, p);
    SwapElements(s, p);
    SortCorrect(pool);
    SortCorrect(pool');
    SortedUnique(SortDesc(pool), SortDesc(pool'));
    var n := |Judged(s, k)|;
    CutPrefix(s, k);
    CutPrefix(t, k);
    CutLengths(s, t, k);
    CutLengths(t, s, k);
    GainRises(s, p, n, d);
    var ideal := Gain(Judged(SortDesc(pool), k), 1, d);
    BinaryNonNegative(s);
    NonNegativeChoice(SortDesc(pool), pool);
    CutPrefix(SortDesc(pool), k);
    NonNegativePrefix(SortDesc(pool), |Judged(SortDesc(pool), k)|);
    GainNonNegative(Judged(SortDesc(pool), k), 1, d);
    if ideal != 0.0 {
      QuotientsGrow(Gain(Judged(s, k), 1, d), Gain(Judged(t, k), 1, d), ideal);
    }
  }

  lemma PromotableShape(s: seq<real>, p: nat)
    requires Climbs(s, p)
    ensures p + 1 < |s| && IsBinary(s)
  {
  }

  lemma QuotientsGrow(x: real, y: real, z: real)
    requires x <= y && z > 0.0
    ensures x / z <= y / z
  {
  }

  lemma PrecisionRises(s: seq<real>, p: nat, k: int)
    requires Climbs(s, p)
    ensures PrecisionAt(s, k) <= PrecisionAt(Climb(s, p), k)
  {
    HitsSwap(s, p);
    var t := Climb(s, p);
    var n := |Slice(s, k)|;
    assert Slice(s, k) == s[..n] && Slice(t, k) == t[..n];
    if n > 0 {
      QuotientsGrow(Hits(s[..n]) as real, Hits(t[..n]) as real, n as real);
    }
  }

  lemma RecallRises(s: seq<real>, p: nat, total: int, k: int)
    requires Climbs(s, p)
    ensures RecallAt(s, total, k) <= RecallAt(Climb(s, p), total, k)
  {
    HitsSwap(s, p);
    var t := Climb(s, p);
    var n := |Slice(s, k)|;
    assert Slice(s, k) == s[..n] && Slice(t, k) == t[..n];
    if total > 0 {
      QuotientsGrow(Hits(s[..n]) as real, Hits(t[..n]) as real, total as real);
    }
  }

  lemma MeanPrecisionRises(s: seq<real>, p: nat)
    requires Climbs(s, p)
    ensures MeanPrecision(s) <= MeanPrecision(Climb(s, p))
  {
    HitsSwap(s, p);
    ApSumRises(s, p, 1, 0);
    if Hits(s) > 0 {
      QuotientsGrow(ApSum(s, 1, 0), ApSum(Climb(s, p), 1, 0), Hits(s) as real);
    }
  }

  lemma {:induction false} SwapHits(s: seq<real>, i: nat, j: nat)
    requires Promotable(s, i, j)
    ensures Hits(Swap(s, i, j)) == Hits(s)
  {
    var measure, inverse := (t: seq<real>) => Hits(t) as real, (t: seq<real>) => -(Hits(t) as real);
    forall t: seq<real>, p: nat | |t| == |s| && Climbs(t, p)
      ensures Hits(t) == Hits(Climb(t, p))
    {
      HitsSwap(t, p);
    }
    PromotionFromSwaps(measure, s, i, j);
    PromotionFromSwaps(inverse, s, i, j);
  }

  /** Moving a relevant result above an irrelevant one never lowers a metric of binary relevance. */
  lemma PromotionRaises(s: seq<real>, i: nat, j: nat, k: int, total: int, missed: nat, d: Discount)
    requires Promotable(s, i, j)
    ensures var t := Swap(s, i, j);
            && ReciprocalRank(s, 1) <= ReciprocalRank(t, 1)
            && MeanPrecision(s) <= MeanPrecision(t)
            && PrecisionAt(s, k) <= PrecisionAt(t, k)
            && RecallAt(s, total, k) <= RecallAt(t, total, k)
            && Ndcg(s, Some(k), Some(s + Ones(missed)), d) <= Ndcg(t, Some(k), Some(t + Ones(missed)), d)
  {
    hide ReciprocalRank, MeanPrecision, PrecisionAt, RecallAt, Ndcg, Climb;
    var n := |s|;
    var rr := (t: seq<real>) => ReciprocalRank(t, 1);
    assert Rises(rr, n) by {
      forall t: seq<real>, p: nat | |t| == n && Climbs(t, p) ensures rr(t) <= rr(Climb(t, p)) {
        ReciprocalRankRises(t, p, 1);
      }
    }
    var ap := (t: seq<real>) => MeanPrecision(t);
    assert Rises(ap, n) by {
      forall t: seq<real>, p: nat | |t| == n && Climbs(t, p) ensures ap(t) <= ap(Climb(t, p)) {
        MeanPrecisionRises(t, p);
      }
    }
    PromotionFromSwaps(rr, s, i, j);
    PromotionFromSwaps(ap, s, i, j);
    AtCutoffRaises(s, i, j, k, total);
    NdcgRaises(s, i, j, k, missed, d);
  }

  lemma AtCutoffRaises(s: seq<real>, i: nat, j: nat, k: int, total: int)
    requires Promotable(s, i, j)
    ensures PrecisionAt(s, k) <= PrecisionAt(Swap(s, i, j), k)
    ensures RecallAt(s, total, k) <= RecallAt(Swap(s, i, j), total, k)
  {
    hide PrecisionAt, RecallAt, Climb;
    var n := |s|;
    var pk := (t: seq<real>) => PrecisionAt(t, k);
    assert Rises(pk, n) by {
      forall t: seq<real>, p: nat | |t| == n && Climbs(t, p) ensures pk(t) <= pk(Climb(t, p)) {
        PrecisionRises(t, p, k);
      }
    }
    var rk := (t: seq<real>) => RecallAt(t, total, k);
    assert Rises(rk, n) by {
      forall t: seq<real>, p: nat | |t| == n && Climbs(t, p) ensures rk(t) <= rk(Climb(t, p)) {
        RecallRises(t, p, total, k);
      }
    }
    PromotionFromSwaps(pk, s, i, j);
    PromotionFromSwaps(rk, s, i, j);
  }

  lemma NdcgRaises(s: seq<real>, i: nat, j: nat, k: int, missed: nat, d: Discount)
    requires Promotable(s, i, j)
    ensures Ndcg(s, Some(k), Some(s + Ones(missed)), d)
         <= Ndcg(Swap(s, i, j), Some(k), Some(Swap(s, i, j) + Ones(missed)), d)
  {
    hide Ndcg, Climb;
    var nd := (t: seq<real>) => Ndcg(t, Some(k), Some(t + Ones(missed)), d);
    assert Rises(nd, |s|) by {
      forall t: seq<real>, p: nat | |t| == |s| && Climbs(t, p)
        ensures nd(t) <= nd(Climb(t, p))
      {
        NdcgRises(t, p, Some(k), missed, d);
      }
    }
    PromotionFromSwaps(nd, s, i, j);
  }

  /** For the labelled evaluation: exchanging a relevant id with an irrelevant one ranked above it
      lowers none of its scores. */
  lemma PromotionImprovesEvaluation(
    ids: seq<string>, relevantIds: set<string>, k: Option<int>, totalRelevant: Option<int>,
    d: Discount, i: nat, j: nat)
    requires i < j < |ids| && ids[i] !in relevantIds && ids[j] in relevantIds
    ensures var m := Evaluated(ids, relevantIds, k, totalRelevant, d);
            var n := Evaluated(Swap(ids, i, j), relevantIds, k, totalRelevant, d);
            && m.mrr <= n.mrr && m.contextPrecision <= n.contextPrecision
            && m.precisionAtK <= n.precisionAtK && m.recallAtK <= n.recallAtK && m.ndcg <= n.ndcg
  {
    hide ReciprocalRank, MeanPrecision, PrecisionAt, RecallAt, Ndcg, Hits, HitRate;
    var s := Binary(ids, relevantIds);
    assert Binary(Swap(ids, i, j), relevantIds) == Swap(s, i, j);
    BinaryIsBinary(ids, relevantIds);
    SwapHits(s, i, j);
    var known := totalRelevant.GetOr(|relevantIds|);
    PromotionRaises(s, i, j, Cutoff(ids, k), known, Max(known - Hits(s), 0), d);
  }
}
