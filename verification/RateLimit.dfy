/** Fixed-window rate limiting, with in-process counters or with INCR and EXPIRE. */
module RateLimit {
  import opened Common
  import Ordering
  import Text

  // -------------------------------------------------------------------- limits

  datatype Limit = Limit(requests: int, window: int) {
    predicate Tighter(other: Limit)
      requires window > 0 && other.window > 0
    {
      requests * other.window < other.requests * window
    }
  }

  datatype Settings = Settings(ask: int, index: int, read: int)

  function Override(scope: string, s: Settings): Option<Limit> {
    if scope == "ask" then Some(Limit(s.ask, 60))
    else if scope == "index" then Some(Limit(s.index, 3600))
    else if scope == "read" then Some(Limit(s.read, 60))
    else None
  }

  /** The limits of the scopes that have one, in the order in which the set is enumerated. */
  function LimitsOf(scopes: seq<string>, s: Settings): (r: seq<Limit>)
    ensures forall i | 0 <= i < |r| :: r[i].window > 0
  {
    if scopes == [] then []
    else
      (if Override(scopes[0], s).Some? then [Override(scopes[0], s).value] else [])
      + LimitsOf(scopes[1..], s)
  }

  /** `min` by requests per second: the first of the least. */
  method Tightest(limits: seq<Limit>) returns (best: Limit)
    requires limits != [] && forall i | 0 <= i < |limits| :: limits[i].window > 0
    ensures best in limits && forall i | 0 <= i < |limits| :: !limits[i].Tighter(best)
  {
    best := limits[0];
    for n := 1 to |limits|
      invariant best in limits[..n] && best.window > 0
      invariant forall i | 0 <= i < n :: !limits[i].Tighter(best)
    {
      if limits[n].Tighter(best) {
        forall i | 0 <= i < n ensures !limits[i].Tighter(limits[n]) {
          TighterChain(limits[n], best, limits[i]);
        }
        best := limits[n];
      }
    }
  }

  lemma TighterChain(a: Limit, b: Limit, c: Limit)
    requires a.window > 0 && b.window > 0 && c.window > 0 && a.Tighter(b) && !c.Tighter(b)
    ensures !c.Tighter(a)
  {
    assert a.window * (c.requests * b.window) >= a.window * (b.requests * c.window);
    assert c.window * (b.requests * a.window) >= c.window * (a.requests * b.window);
    CancelFactor(b.window, a.requests * c.window, c.requests * a.window) by {
      assert b.window * (c.requests * a.window) == a.window * (c.requests * b.window);
      assert a.window * (b.requests * c.window) == c.window * (b.requests * a.window);
      assert c.window * (a.requests * b.window) == b.window * (a.requests * c.window);
    }
  }

  lemma CancelFactor(k: int, x: int, y: int)
    requires k > 0 && k * x <= k * y
    ensures x <= y
  {
    assert k * (y - x) >= 0;
  }

  /** No scope of a route has a limit of its own. */
  predicate Unlimited(scopes: seq<string>, s: Settings) {
    forall scope | scope in scopes :: Override(scope, s).None?
  }

  /** `_limits_for`: a route that demands several scopes gets the tightest of their limits, and one
      without any gets the read limit. */
  method LimitsFor(scopes: seq<string>, s: Settings) returns (limit: Limit)
    ensures limit.window > 0
    ensures forall scope | scope in scopes && Override(scope, s).Some? ::
              !Override(scope, s).value.Tighter(limit)
    ensures if Unlimited(scopes, s) then limit == Limit(s.read, 60)
            else exists scope :: scope in scopes && Override(scope, s) == Some(limit)
    ensures scopes == ["ask"] ==> limit == Limit(s.ask, 60)
    ensures scopes == ["index"] ==> limit == Limit(s.index, 3600)
    ensures scopes == ["read"] || scopes == ["metrics"] || scopes == [] ==> limit == Limit(s.read, 60)
  {
    var candidates := LimitsOf(scopes, s);
    LimitsOfAll(scopes, s);
    if candidates == [] {
      candidates := [Limit(s.read, 60)];
    }
    limit := Tightest(candidates);
  }

  lemma {:induction false} LimitsOfAll(scopes: seq<string>, s: Settings)
    ensures forall scope | scope in scopes && Override(scope, s).Some? :: Override(scope, s).value in LimitsOf(scopes, s)
    ensures forall l | l in LimitsOf(scopes, s) :: exists scope :: scope in scopes && Override(scope, s) == Some(l)
  {
    if scopes != [] {
      LimitsOfAll(scopes[1..], s);
      forall l | l in LimitsOf(scopes, s) ensures exists scope :: scope in scopes && Override(scope, s) == Some(l) {
        if Override(scopes[0], s) == Some(l) {
          assert scopes[0] in scopes;
        } else {
          assert l in LimitsOf(scopes[1..], s);
          var scope :| scope in scopes[1..] && Override(scope, s) == Some(l);
          assert scope in scopes;
        }
      }
    }
  }

  // ------------------------------------------------------------------- windows

  /** `now // window`. */
  function Bucket(now: real, window: int): int
    requires window > 0
  {
    (now / window as real).Floor
  }

  /** The instant at which a window opens. */
  function Opens(bucket: int, window: int): real
    requires window > 0
  {
    bucket as real * window as real
  }

  lemma OpensNext(bucket: int, window: int)
    requires window > 0
    ensures Opens(bucket + 1, window) == Opens(bucket, window) + window as real
  {
  }

  lemma BucketBounds(now: real, window: int)
    requires window > 0
    ensures var b := Bucket(now, window); Opens(b, window) <= now < Opens(b + 1, window)
  {
    var w, b := window as real, Bucket(now, window);
    Quotient(now, w);
    Scaled(b as real, now / w, w);
    Scaled(now / w, (b + 1) as real, w);
    assert Opens(b + 1, window) == (b + 1) as real * w;
    assert now / w < (b + 1) as real;
    assert (now / w) * w < (b + 1) as real * w;
  }

  lemma Quotient(now: real, w: real)
    requires w > 0.0
    ensures (now / w) * w == now
  {
  }

  lemma Scaled(x: real, y: real, w: real)
    requires w > 0.0
    ensures x <= y ==> x * w <= y * w
    ensures x < y ==> x * w < y * w
  {
    assert (y - x) * w == y * w - x * w;
  }

  /** A window is known by an instant inside it. */
  lemma BucketOf(now: real, window: int, bucket: int)
    requires window > 0 && Opens(bucket, window) <= now < Opens(bucket + 1, window)
    ensures Bucket(now, window) == bucket
  {
    var w, q := window as real, now / window as real;
    assert q * w == now;
    assert Opens(bucket, window) == bucket as real * w;
    assert Opens(bucket + 1, window) == (bucket + 1) as real * w;
    Scaled(q, bucket as real, w);
    Scaled((bucket + 1) as real, q, w);
    FloorOf(q, bucket);
  }

  lemma FloorOf(q: real, b: int)
    requires b as real <= q < (b + 1) as real
    ensures q.Floor == b
  {
    assert q.Floor as real <= q < (q.Floor + 1) as real;
  }

  lemma BucketMonotone(s: real, t: real, window: int)
    requires window > 0 && s <= t
    ensures Bucket(s, window) <= Bucket(t, window)
  {
    var w := window as real;
    assert (s / w) * w == s && (t / w) * w == t;
    Scaled(t / w, s / w, w);
  }

  lemma NextBucket(t: real, window: int)
    requires window > 0
    ensures Bucket(t + window as real, window) == Bucket(t, window) + 1
  {
    hide Bucket, Opens;
    var b := Bucket(t, window);
    BucketBounds(t, window);
    OpensNext(b, window);
    OpensNext(b + 1, window);
    BucketOf(t + window as real, window, b + 1);
  }

  /** The key of a counter: credential, scopes and window number. */
  datatype Key = Key(keyId: string, scopes: set<string>, bucket: int)

  // ------------------------------------------------------------- keys as text

  /** `f"rl:{key_id}:{'-'.join(sorted(scopes))}:{int(now // window)}"`, with the sorted scopes given. */
  function KeyText(keyId: string, names: seq<string>, bucket: int): string {
    "rl:" + keyId + ":" + (Text.Join(names, "-") + ":" + Text.Integer(bucket))
  }

  /** Scopes are names without the characters that separate the parts of a key. */
  predicate PlainNames(names: seq<string>) {
    forall name | name in names :: name != "" && '-' !in name && ':' !in name
  }

  /** Counters do not share a key text: text tells credentials, scope sets and windows apart, whatever
      the credential's name holds. */
  lemma KeyTextsDistinct(
    keyId: string, names: seq<string>, bucket: int, otherId: string, otherNames: seq<string>, otherBucket: int)
    requires PlainNames(names) && PlainNames(otherNames)
    requires KeyText(keyId, names, bucket) == KeyText(otherId, otherNames, otherBucket)
    ensures keyId == otherId && names == otherNames && bucket == otherBucket
  {
    hide Text.Integer, Text.Join;
    var head, other := "rl:" + keyId, "rl:" + otherId;
    var middle, otherMiddle := Text.Join(names, "-"), Text.Join(otherNames, "-");
    var tail, otherTail := Text.Integer(bucket), Text.Integer(otherBucket);
    Text.IntegerPlain(bucket);
    Text.IntegerPlain(otherBucket);
    ColonFree(names);
    ColonFree(otherNames);
    assert head + ":" + (middle + ":" + tail) == (head + ":" + middle) + ":" + tail;
    assert other + ":" + (otherMiddle + ":" + otherTail) == (other + ":" + otherMiddle) + ":" + otherTail;
    Text.SplitAtLast(head + ":" + middle, tail, other + ":" + otherMiddle, otherTail, ':');
    Text.SplitAtLast(head, middle, other, otherMiddle, ':');
    Text.IntegerInjective(bucket, otherBucket);
    assert keyId == head[3..] && otherId == other[3..];
    JoinedNames(names, otherNames);
  }

  lemma {:induction false} ColonFree(names: seq<string>)
    requires PlainNames(names)
    ensures ':' !in Text.Join(names, "-")
  {
    if names != [] {
      assert forall name | name in names[1..] :: name in names;
      ColonFree(names[1..]);
      assert names[0] in names;
    }
  }

  lemma JoinedNames(a: seq<string>, b: seq<string>)
    requires PlainNames(a) && PlainNames(b) && Text.Join(a, "-") == Text.Join(b, "-")
    ensures a == b
  {
    NothingJoined(a);
    NothingJoined(b);
    if a != [] {
      Text.SplitJoin(a, '-');
      Text.SplitJoin(b, '-');
    }
  }

  lemma NothingJoined(names: seq<string>)
    requires PlainNames(names)
    ensures Text.Join(names, "-") == "" <==> names == []
  {
    if names != [] {
      assert names[0] in names && names[0] <= Text.Join(names, "-");
    }
  }

  /** `sorted(scopes)`. */
  predicate SortedNames(names: seq<string>, scopes: set<string>) {
    Elements(names) == scopes && forall i, j | 0 <= i < j < |names| :: Ordering.LexLess(names[i], names[j])
  }

  lemma {:induction false} SortedOnce(a: seq<string>, b: seq<string>, scopes: set<string>)
    requires SortedNames(a, scopes) && SortedNames(b, scopes)
    ensures a == b
  {
    hide Ordering.LexLess;
    NoNames(a, scopes);
    NoNames(b, scopes);
    if a != [] {
      assert a[0] in Elements(b) && b[0] in Elements(a);
      assert a[0] == b[0] by {
        var i :| 0 <= i < |b| && b[i] == a[0];
        var j :| 0 <= j < |a| && a[j] == b[0];
        if i > 0 && j > 0 {
          Ordering.LexTransitive(a[0], b[0], a[0]);
          Ordering.LexIrreflexive(a[0]);
        }
      }
      RestSorted(a, scopes);
      RestSorted(b, scopes);
      SortedOnce(a[1..], b[1..], scopes - {a[0]});
    }
  }

  lemma NoNames(names: seq<string>, scopes: set<string>)
    requires SortedNames(names, scopes)
    ensures names == [] <==> scopes == {}
  {
    if names != [] {
      assert names[0] in Elements(names);
    }
  }

  lemma RestSorted(names: seq<string>, scopes: set<string>)
    requires SortedNames(names, scopes) && names != []
    ensures SortedNames(names[1..], scopes - {names[0]})
  {
    hide Ordering.LexLess;
    assert names[0] !in names[1..] by {
      Ordering.LexIrreflexive(names[0]);
    }
    assert names == [names[0]] + names[1..];
    assert Elements(names) == {names[0]} + Elements(names[1..]);
  }

  /** Two counters have one key text exactly if they have one key. */
  lemma KeyTextsExactly(a: Key, b: Key, aNames: seq<string>, bNames: seq<string>)
    requires SortedNames(aNames, a.scopes) && SortedNames(bNames, b.scopes)
    requires PlainNames(aNames) && PlainNames(bNames)
    ensures KeyText(a.keyId, aNames, a.bucket) == KeyText(b.keyId, bNames, b.bucket) <==> a == b
  {
    hide KeyText;
    if a == b {
      SortedOnce(aNames, bNames, a.scopes);
    } else if KeyText(a.keyId, aNames, a.bucket) == KeyText(b.keyId, bNames, b.bucket) {
      KeyTextsDistinct(a.keyId, aNames, a.bucket, b.keyId, bNames, b.bucket);
    }
  }

  datatype Call = Call(keyId: string, scopes: set<string>, now: real) {
    function KeyOf(window: int): Key
      requires window > 0
    {
      Key(keyId, scopes, Bucket(now, window))
    }
  }

  datatype Decision = Decision(allowed: bool, limit: int, remaining: int, retryAfter: int)

  function Decided(count: int, limit: int, resetAt: real, now: real): Decision {
    Decision(count <= limit, limit, Max(0, limit - count), Max(1, (resetAt - now).Floor))
  }

  // ------------------------------------------------------ what limiting means

  /** How many calls of a history fall to a counter. */
  function Calls(history: seq<Call>, key: Key, window: int): nat
    requires window > 0
  {
    if history == [] then 0
    else
      var n := |history| - 1;
      Calls(history[..n], key, window) + if history[n].KeyOf(window) == key then 1 else 0
  }

  /** The decision on a call after a history: it is counted with its own window only. */
  function Ruling(history: seq<Call>, call: Call, limit: int, window: int): Decision
    requires window > 0
  {
    var key := call.KeyOf(window);
    Decided(Calls(history, key, window) + 1, limit, Opens(key.bucket + 1, window), call.now)
  }

  predicate Monotone(history: seq<Call>) {
    forall i, j | 0 <= i < j < |history| :: history[i].now <= history[j].now
  }

  /** The clock does not run backwards from the history to the call. */
  predicate Follows(history: seq<Call>, call: Call) {
    forall i | 0 <= i < |history| :: history[i].now <= call.now
  }

  lemma CallsSnoc(history: seq<Call>, call: Call, key: Key, window: int)
    requires window > 0
    ensures Calls(history + [call], key, window)
         == Calls(history, key, window) + if call.KeyOf(window) == key then 1 else 0
  {
    assert (history + [call])[..|history|] == history;
  }

  // ------------------------------------------------------- in-process counters

  const MAX_KEYS := 10000

  /** The window of a counter had closed when some call of the history arrived. */
  ghost predicate Closed(key: Key, history: seq<Call>, window: int)
    requires window > 0
  {
    exists i :: 0 <= i < |history| && Opens(key.bucket, window) < history[i].now - window as real
  }

  /** Counters hold the calls that fall to them, and one that is gone has closed. */
  ghost predicate LocalAgrees(counts: map<Key, (int, real)>, history: seq<Call>, window: int)
    requires window > 0
  {
    && (forall key | key in counts :: counts[key] == (Calls(history, key, window), Opens(key.bucket, window)))
    && (forall key | key !in counts && Calls(history, key, window) > 0 :: Closed(key, history, window))
  }

  /** A counter of the current window is never one that was dropped. */
  lemma LiveCounter(counts: map<Key, (int, real)>, history: seq<Call>, call: Call, window: int)
    requires window > 0 && LocalAgrees(counts, history, window) && Follows(history, call)
    requires call.KeyOf(window) !in counts
    ensures Calls(history, call.KeyOf(window), window) == 0
  {
    hide Bucket, Opens, Calls;
    BucketBounds(call.now, window);
    OpensNext(call.KeyOf(window).bucket, window);
  }

  lemma CountedLocally(counts: map<Key, (int, real)>, history: seq<Call>, call: Call, window: int)
    requires window > 0 && LocalAgrees(counts, history, window)
    ensures var key := call.KeyOf(window);
            var counter := (Calls(history, key, window) + 1, Opens(key.bucket, window));
            LocalAgrees(counts[key := counter], history + [call], window)
  {
    hide Bucket, Opens, Calls;
    var key, longer := call.KeyOf(window), history + [call];
    forall k ensures Calls(longer, k, window) == Calls(history, k, window) + if k == key then 1 else 0 {
      CallsSnoc(history, call, k, window);
    }
    forall k | k != key && k !in counts && Calls(longer, k, window) > 0 ensures Closed(k, longer, window) {
      var i :| 0 <= i < |history| && Opens(k.bucket, window) < history[i].now - window as real;
      assert longer[i] == history[i];
    }
  }

  /** What pruning drops has closed. */
  lemma PrunedLocally(counts: map<Key, (int, real)>, history: seq<Call>, call: Call, window: int)
    requires window > 0 && LocalAgrees(counts, history + [call], window)
    ensures LocalAgrees(map k | k in counts && counts[k].1 >= call.now - window as real :: counts[k],
                        history + [call], window)
  {
    hide Bucket, Opens, Calls;
    var longer := history + [call];
    forall k | k in counts && counts[k].1 < call.now - window as real ensures Closed(k, longer, window) {
      assert longer[|history|] == call;
    }
  }

  class LocalWindows {
    const window: int
    var counts: map<Key, (int, real)>
    ghost var history: seq<Call>

    ghost predicate Valid()
      reads this
    {
      window > 0 && LocalAgrees(counts, history, window)
    }

    constructor (window: int)
      requires window > 0
      ensures Valid() && history == [] && this.window == window
    {
      this.window, counts, history := window, map[], [];
    }

    /** `incr`; beyond 10,000 counters those of windows that closed more than a window ago are dropped. */
    method Incr(key: Key, now: real, ghost call: Call) returns (count: int, resetAt: real)
      requires Valid() && call.now == now && call.KeyOf(window) == key && Follows(history, call)
      modifies this
      ensures Valid() && history == old(history) + [call]
      ensures count == Calls(old(history), key, window) + 1
      ensures resetAt == Opens(key.bucket + 1, window)
    {
      hide Bucket, Opens, Calls, Closed, Follows;
      var bucketStart := Opens(Bucket(now, window), window);
      var start := bucketStart;
      count := 0;
      if key in counts {
        count, start := counts[key].0, counts[key].1;
      } else {
        LiveCounter(counts, history, call, window);
      }
      if start < bucketStart {
        count, start := 0, bucketStart;
      }
      count := count + 1;
      CountedLocally(counts, history, call, window);
      counts := counts[key := (count, start)];
      if |counts| > MAX_KEYS {
        PrunedLocally(counts, history, call, window);
        var cutoff := now - window as real;
        counts := map k | k in counts && counts[k].1 >= cutoff :: counts[k];
      }
      history := history + [call];
      resetAt := start + window as real;
      OpensNext(key.bucket, window);
    }

    /** `check` on the in-process backend. */
    method Check(call: Call, limit: int) returns (d: Decision)
      requires Valid() && Follows(history, call)
      modifies this
      ensures Valid() && history == old(history) + [call]
      ensures d == Ruling(old(history), call, limit, window)
    {
      hide Bucket, Opens, Calls, Closed, Follows, LocalAgrees;
      var count, resetAt := Incr(call.KeyOf(window), call.now, call);
      d := Decided(count, limit, resetAt, call.now);
    }
  }

  // ----------------------------------------------------------- INCR and EXPIRE

  /** A counter holds its calls and outlives its window; a counter that is not there has none. */
  ghost predicate RedisAgrees(counters: map<Key, (int, real)>, history: seq<Call>, window: int)
    requires window > 0
  {
    && (forall key | key in counters ::
          && counters[key].0 == Calls(history, key, window)
          && counters[key].1 >= Opens(key.bucket + 1, window))
    && (forall key | key !in counters :: Calls(history, key, window) == 0)
  }

  lemma CountedRemotely(counters: map<Key, (int, real)>, history: seq<Call>, call: Call, window: int)
    requires window > 0 && RedisAgrees(counters, history, window)
    ensures var key := call.KeyOf(window);
            var counter := (Calls(history, key, window) + 1, call.now + window as real);
            && (key in counters ==> call.now < counters[key].1)
            && RedisAgrees(counters[key := counter], history + [call], window)
  {
    hide Bucket, Opens, Calls;
    var key, longer := call.KeyOf(window), history + [call];
    BucketBounds(call.now, window);
    OpensNext(key.bucket, window);
    forall k ensures Calls(longer, k, window) == Calls(history, k, window) + if k == key then 1 else 0 {
      CallsSnoc(history, call, k, window);
    }
  }

  class RedisWindows {
    const window: int
    var counters: map<Key, (int, real)>
    ghost var history: seq<Call>

    ghost predicate Valid()
      reads this
    {
      window > 0 && RedisAgrees(counters, history, window)
    }

    constructor (window: int)
      requires window > 0
      ensures Valid() && history == [] && this.window == window
    {
      this.window, counters, history := window, map[], [];
    }

    /** `check` on the shared backend: a counter past its expiry counts as absent. */
    method Check(call: Call, limit: int) returns (d: Decision)
      requires Valid() && Follows(history, call)
      modifies this
      ensures Valid() && history == old(history) + [call]
      ensures d == Ruling(old(history), call, limit, window)
    {
      hide Bucket, Opens, Calls, Follows;
      var key, now := call.KeyOf(window), call.now;
      CountedRemotely(counters, history, call, window);
      var count := (if key in counters && now < counters[key].1 then counters[key].0 else 0) + 1;
      counters := counters[key := (count, now + window as real)];
      history := history + [call];
      var resetAt := Opens(Bucket(now, window) + 1, window);
      d := Decided(count, limit, resetAt, now);
    }
  }

  /** Both backends, fed the same calls under a clock that does not run backwards, decide alike. */
  method BackendsAgree(calls: seq<Call>, limitOf: set<string> -> int, window: int)
    returns (local: seq<Decision>, redis: seq<Decision>)
    requires window > 0 && Monotone(calls)
    ensures local == redis == Rulings(calls, limitOf, window)
  {
    hide Bucket, Opens, Calls, Ruling, LocalAgrees, RedisAgrees;
    var a := new LocalWindows(window);
    var b := new RedisWindows(window);
    local, redis := [], [];
    for n := 0 to |calls|
      invariant a.Valid() && b.Valid() && a.window == b.window == window
      invariant fresh(a) && fresh(b)
      invariant a.history == b.history == calls[..n]
      invariant local == redis == Rulings(calls[..n], limitOf, window)
    {
      var call := calls[n];
      assert Follows(calls[..n], call);
      assert calls[..n + 1] == calls[..n] + [call];
      assert calls[..n + 1][..n] == calls[..n];
      var d := a.Check(call, limitOf(call.scopes));
      var e := b.Check(call, limitOf(call.scopes));
      local, redis := local + [d], redis + [e];
    }
    assert calls[..|calls|] == calls;
  }

  // ----------------------------------------------------------- what is allowed

  function Rulings(calls: seq<Call>, limitOf: set<string> -> int, window: int): (r: seq<Decision>)
    requires window > 0
    ensures |r| == |calls|
  {
    if calls == [] then []
    else
      var n := |calls| - 1;
      Rulings(calls[..n], limitOf, window)
      + [Ruling(calls[..n], calls[n], limitOf(calls[n].scopes), window)]
  }

  /** How many calls of one credential and scope set are allowed, of those that `counts` selects. */
  function Allowed(calls: seq<Call>, limitOf: set<string> -> int, window: int, counts: Call -> bool): nat
    requires window > 0
  {
    if calls == [] then 0
    else
      var n := |calls| - 1;
      var d := Ruling(calls[..n], calls[n], limitOf(calls[n].scopes), window);
      Allowed(calls[..n], limitOf, window, counts) + if d.allowed && counts(calls[n]) then 1 else 0
  }

  function InWindow(key: Key, window: int): Call -> bool
    requires window > 0
  {
    (call: Call) => call.KeyOf(window) == key
  }

  /** Exactly the first `limit` calls of a window are allowed. */
  lemma {:induction false} FirstCallsAllowed(calls: seq<Call>, limitOf: set<string> -> int, window: int, key: Key)
    requires window > 0
    ensures Allowed(calls, limitOf, window, InWindow(key, window))
         == Min(Calls(calls, key, window), Max(limitOf(key.scopes), 0))
  {
    if calls != [] {
      FirstCallsAllowed(calls[..|calls| - 1], limitOf, window, key);
    }
  }

  /** Calls of one credential and scope set within one window's length from `from`, ends included. */
  function Interval(keyId: string, scopes: set<string>, from: real, window: int): Call -> bool {
    (call: Call) => call.keyId == keyId && call.scopes == scopes && from <= call.now <= from + window as real
  }

  lemma {:induction false} TwoWindowsCover(
    calls: seq<Call>, limitOf: set<string> -> int, window: int, keyId: string, scopes: set<string>, from: real)
    requires window > 0
    ensures var b := Bucket(from, window);
            Allowed(calls, limitOf, window, Interval(keyId, scopes, from, window))
            <= Allowed(calls, limitOf, window, InWindow(Key(keyId, scopes, b), window))
               + Allowed(calls, limitOf, window, InWindow(Key(keyId, scopes, b + 1), window))
  {
    if calls != [] {
      var call := calls[|calls| - 1];
      TwoWindowsCover(calls[..|calls| - 1], limitOf, window, keyId, scopes, from);
      if from <= call.now <= from + window as real {
        BucketMonotone(from, call.now, window);
        BucketMonotone(call.now, from + window as real, window);
        NextBucket(from, window);
      }
    }
  }

  /** In no interval of one window's length are more than twice the limit allowed. */
  lemma BurstBound(
    calls: seq<Call>, limitOf: set<string> -> int, window: int, keyId: string, scopes: set<string>, from: real)
    requires window > 0
    ensures Allowed(calls, limitOf, window, Interval(keyId, scopes, from, window)) <= 2 * Max(limitOf(scopes), 0)
  {
    var b := Bucket(from, window);
    TwoWindowsCover(calls, limitOf, window, keyId, scopes, from);
    FirstCallsAllowed(calls, limitOf, window, Key(keyId, scopes, b));
    FirstCallsAllowed(calls, limitOf, window, Key(keyId, scopes, b + 1));
  }

  // ----------------------------------------------------------- what a decision says

  /** After a decision exactly so many more calls of its window are allowed as it says remain. */
  lemma RemainingExactly(
    history: seq<Call>, call: Call, n: nat, limitOf: set<string> -> int, window: int)
    requires window > 0
    ensures var d := Ruling(history, call, limitOf(call.scopes), window);
            var counts := InWindow(call.KeyOf(window), window);
            Allowed(history + [call] + Burst(call, n), limitOf, window, counts)
              - Allowed(history + [call], limitOf, window, counts) == Min(n, d.remaining)
  {
    hide Burst;
    var key := call.KeyOf(window);
    FirstCallsAllowed(history + [call], limitOf, window, key);
    FirstCallsAllowed(history + [call] + Burst(call, n), limitOf, window, key);
    CallsSnoc(history, call, key, window);
    BurstCounted(history + [call], call, n, window);
  }

  lemma {:induction false} BurstCounted(before: seq<Call>, call: Call, n: nat, window: int)
    requires window > 0
    ensures Calls(before + Burst(call, n), call.KeyOf(window), window) == Calls(before, call.KeyOf(window), window) + n
  {
    var all := before + Burst(call, n);
    if n == 0 {
      assert all == before;
    } else {
      BurstCounted(before, call, n - 1, window);
      assert all == (before + Burst(call, n - 1)) + [call];
      CallsSnoc(before + Burst(call, n - 1), call, call.KeyOf(window), window);
    }
  }

  /** A decision says what was allowed and by which limit, and when to come back: in a whole number of
      seconds, at least one, that ends no later than the window and less than a second before it. */
  lemma DecisionSays(history: seq<Call>, call: Call, limit: int, window: int)
    requires window > 0
    ensures var d := Ruling(history, call, limit, window);
            var left := Opens(Bucket(call.now, window) + 1, window) - call.now;
            && d.limit == limit && (d.allowed <==> Calls(history, call.KeyOf(window), window) < limit)
            && d.retryAfter >= 1
            && (left >= 1.0 ==> left - 1.0 < d.retryAfter as real <= left)
            && (left < 1.0 ==> d.retryAfter == 1)
  {
    hide Bucket, Opens, Calls;
    var left := Opens(Bucket(call.now, window) + 1, window) - call.now;
    assert left.Floor as real <= left < left.Floor as real + 1.0;
  }

  // -------------------------------------------------------- the bound is reached

  function Burst(call: Call, n: nat): (r: seq<Call>)
    ensures |r| == n
  {
    seq(n, _ => call)
  }

  lemma {:induction false} BurstAllowed(
    before: seq<Call>, call: Call, n: nat, limitOf: set<string> -> int, window: int, counts: Call -> bool)
    requires window > 0 && counts(call)
    requires Calls(before, call.KeyOf(window), window) + n <= limitOf(call.scopes)
    ensures Calls(before + Burst(call, n), call.KeyOf(window), window) == Calls(before, call.KeyOf(window), window) + n
    ensures Allowed(before + Burst(call, n), limitOf, window, counts) == Allowed(before, limitOf, window, counts) + n
  {
    var all := before + Burst(call, n);
    if n == 0 {
      assert all == before;
    } else {
      BurstAllowed(before, call, n - 1, limitOf, window, counts);
      assert all == (before + Burst(call, n - 1)) + [call];
      assert all[..|all| - 1] == before + Burst(call, n - 1);
    }
  }

  lemma {:induction false} OtherKeyUncounted(before: seq<Call>, call: Call, n: nat, key: Key, window: int)
    requires window > 0 && call.KeyOf(window) != key
    ensures Calls(before + Burst(call, n), key, window) == Calls(before, key, window)
  {
    var all := before + Burst(call, n);
    if n == 0 {
      assert all == before;
    } else {
      OtherKeyUncounted(before, call, n - 1, key, window);
      assert all == (before + Burst(call, n - 1)) + [call];
      assert all[..|all| - 1] == before + Burst(call, n - 1);
    }
  }

  lemma NoCalls(key: Key, window: int)
    requires window > 0
    ensures Calls([], key, window) == 0
  {
  }

  /** Twice the limit can indeed be allowed across the instant that parts two windows. */
  lemma BurstReached(limit: nat, window: int)
    requires window > 1
    ensures var limitOf := (scopes: set<string>) => limit as int;
            var calls := Burst(Call("k", {}, (window - 1) as real), limit) + Burst(Call("k", {}, window as real), limit);
            && Monotone(calls)
            && Allowed(calls, limitOf, window, Interval("k", {}, (window - 1) as real, window)) == 2 * limit
  {
    hide Bucket, Ruling, Calls;
    var limitOf := (scopes: set<string>) => limit as int;
    var early, late := Call("k", {}, (window - 1) as real), Call("k", {}, window as real);
    var counts := Interval("k", {}, (window - 1) as real, window);
    BucketOf(early.now, window, 0);
    BucketOf(late.now, window, 1);
    NoCalls(early.KeyOf(window), window);
    BurstAllowed([], early, limit, limitOf, window, counts);
    assert [] + Burst(early, limit) == Burst(early, limit);
    NoCalls(late.KeyOf(window), window);
    OtherKeyUncounted([], early, limit, late.KeyOf(window), window);
    BurstAllowed(Burst(early, limit), late, limit, limitOf, window, counts);
  }
}
