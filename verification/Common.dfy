/** Option and Result, used in place of `None` and of raised exceptions. */
module Common {
  datatype Option<+T> = None | Some(value: T) {
    function GetOr(default: T): T {
      if Some? then value else default
    }
  }

  datatype Result<+T, +E> = Ok(value: T) | Err(error: E)

  function Min(a: int, b: int): (r: int)
    ensures r <= a && r <= b && (r == a || r == b)
  {
    if a <= b then a else b
  }

  function Max(a: int, b: int): (r: int)
    ensures r >= a && r >= b && (r == a || r == b)
  {
    if a <= b then b else a
  }

  /** `s[:k]`. */
  function Slice<T>(s: seq<T>, k: int): (r: seq<T>)
    ensures r <= s && |r| == if k >= 0 then Min(k, |s|) else Max(0, |s| + k)
  {
    if k >= 0 then s[..Min(k, |s|)] else s[..Max(0, |s| + k)]
  }

  predicate Distinct<T(==)>(xs: seq<T>) {
    forall i, j | 0 <= i < j < |xs| :: xs[i] != xs[j]
  }

  function Elements(ids: seq<string>): set<string> {
    set id | id in ids
  }

  method AnyOf<T>(s: set<T>) returns (x: T)
    requires s != {}
    ensures x in s
  {
    x :| x in s;
  }

  lemma SubsetSize<T>(a: set<T>, b: set<T>)
    requires a <= b
    ensures |a| <= |b|
  {
    assert b == a + (b - a);
  }

  /** The ids that are known, and those that are not, in order. */
  function Within(ids: seq<string>, known: set<string>): seq<string> {
    if ids == [] then []
    else (if ids[0] in known then [ids[0]] else []) + Within(ids[1..], known)
  }

  function Outside(ids: seq<string>, known: set<string>): seq<string> {
    if ids == [] then []
    else (if ids[0] in known then [] else [ids[0]]) + Outside(ids[1..], known)
  }

  lemma {:induction false} WithinOutside(ids: seq<string>, known: set<string>)
    ensures forall id :: id in Within(ids, known) <==> id in ids && id in known
    ensures forall id :: id in Outside(ids, known) <==> id in ids && id !in known
    ensures |Within(ids, known)| + |Outside(ids, known)| == |ids|
  {
    if ids != [] {
      WithinOutside(ids[1..], known);
      assert forall id :: id in ids <==> id == ids[0] || id in ids[1..];
    }
  }
}
