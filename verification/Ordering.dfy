/** Sorting of ids by a total order, and the top of a scored collection. */
module Ordering {
  import opened Common

  type Id = string

  ghost predicate TotalOrder(le: (Id, Id) -> bool) {
    && (forall a, b :: le(a, b) || le(b, a))
    && (forall a, b, c :: le(a, b) && le(b, c) ==> le(a, c))
  }

  predicate SortedBy(le: (Id, Id) -> bool, s: seq<Id>) {
    forall i, j | 0 <= i < j < |s| :: le(s[i], s[j])
  }

  function Insert(x: Id, s: seq<Id>, le: (Id, Id) -> bool): seq<Id> {
    if s == [] || le(x, s[0]) then [x] + s else [s[0]] + Insert(x, s[1..], le)
  }

  lemma {:induction false} InsertElements(x: Id, s: seq<Id>, le: (Id, Id) -> bool)
    ensures forall id :: id in Insert(x, s, le) <==> id == x || id in s
    ensures x !in s && Distinct(s) ==> Distinct(Insert(x, s, le))
  {
    if s != [] && !le(x, s[0]) {
      InsertElements(x, s[1..], le);
      var r := Insert(x, s[1..], le);
      assert forall id :: id in s <==> id == s[0] || id in s[1..];
      if x !in s && Distinct(s) {
        assert s[0] !in s[1..];
        assert Distinct([s[0]] + r);
      }
    }
  }

  lemma {:induction false} InsertSorted(x: Id, s: seq<Id>, le: (Id, Id) -> bool)
    requires TotalOrder(le) && SortedBy(le, s)
    ensures SortedBy(le, Insert(x, s, le))
  {
    if s != [] && !le(x, s[0]) {
      var r := Insert(x, s[1..], le);
      InsertSorted(x, s[1..], le);
      InsertElements(x, s[1..], le);
      forall i | 0 <= i < |r| ensures le(s[0], r[i]) {
        assert r[i] in r;
      }
    } else if s != [] {
      assert forall i | 0 <= i < |s| :: le(x, s[i]) by {
        assert forall i | 0 < i < |s| :: le(s[0], s[i]);
      }
    }
  }

  /** `sorted(ids, key=...)`. */
  method Sort(ids: set<Id>, le: (Id, Id) -> bool) returns (s: seq<Id>)
    requires TotalOrder(le)
    ensures SortedBy(le, s) && Distinct(s) && Elements(s) == ids
  {
    s := [];
    var rest := ids;
    while rest != {}
      invariant rest <= ids && Elements(s) == ids - rest
      invariant SortedBy(le, s) && Distinct(s)
      decreases rest
    {
      var x :| x in rest;
      InsertElements(x, s, le);
      InsertSorted(x, s, le);
      assert x !in s by { assert x !in Elements(s); }
      assert Elements(Insert(x, s, le)) == Elements(s) + {x};
      s := Insert(x, s, le);
      rest := rest - {x};
    }
  }

  lemma {:induction false} DistinctSize(s: seq<Id>)
    requires Distinct(s)
    ensures |Elements(s)| == |s|
  {
    if s != [] {
      DistinctSize(s[1..]);
      assert s[0] !in s[1..];
      assert Elements(s) == {s[0]} + Elements(s[1..]);
    }
  }

  // --------------------------------------------------------------------- tops

  function ScoreOf(scores: map<Id, real>, id: Id): real {
    if id in scores then scores[id] else 0.0
  }

  /** `ids` is what `ORDER BY score DESC LIMIT n` returns, however ties fall. */
  predicate TopOf(ids: seq<Id>, scores: map<Id, real>, n: nat) {
    && Distinct(ids) && Elements(ids) <= scores.Keys && |ids| == Min(n, |scores|)
    && (forall i, j | 0 <= i < j < |ids| :: ScoreOf(scores, ids[i]) >= ScoreOf(scores, ids[j]))
    && (forall i, id | 0 <= i < |ids| && id in scores && id !in ids :: ScoreOf(scores, ids[i]) >= scores[id])
  }

  method TakeTop(scores: map<Id, real>, n: nat) returns (ids: seq<Id>)
    ensures TopOf(ids, scores, n)
  {
    var le := (a: Id, b: Id) => ScoreOf(scores, a) >= ScoreOf(scores, b);
    var all := Sort(scores.Keys, le);
    DistinctSize(all);
    ids := all[..Min(n, |all|)];
    assert |scores.Keys| == |scores|;
    forall i, id | 0 <= i < |ids| && id in scores && id !in ids
      ensures ScoreOf(scores, ids[i]) >= scores[id]
    {
      assert id in Elements(all);
      var j :| 0 <= j < |all| && all[j] == id;
      assert forall m | 0 <= m < |ids| :: all[m] == ids[m] != id;
      assert le(all[i], all[j]);
    }
    assert Elements(ids) <= Elements(all);
  }

  // -------------------------------------------------------- order of strings

  /** Python's order of strings. */
  predicate LexLess(a: string, b: string) {
    b != "" && (a == "" || a[0] < b[0] || (a[0] == b[0] && LexLess(a[1..], b[1..])))
  }

  lemma {:induction false} LexTotal(a: string, b: string)
    ensures a == b || LexLess(a, b) || LexLess(b, a)
    ensures !(LexLess(a, b) && LexLess(b, a)) && !LexLess(a, a)
  {
    if a != "" && b != "" {
      LexTotal(a[1..], b[1..]);
      assert a == [a[0]] + a[1..] && b == [b[0]] + b[1..];
    }
    if a != "" {
      LexIrreflexive(a);
    }
  }

  lemma {:induction false} LexIrreflexive(a: string)
    ensures !LexLess(a, a)
  {
    if a != "" {
      LexIrreflexive(a[1..]);
    }
  }

  lemma {:induction false} LexTransitive(a: string, b: string, c: string)
    requires LexLess(a, b) && LexLess(b, c)
    ensures LexLess(a, c)
  {
    if a != "" && a[0] == b[0] == c[0] {
      LexTransitive(a[1..], b[1..], c[1..]);
    }
  }
}
