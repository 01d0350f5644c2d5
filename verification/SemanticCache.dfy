/** The versioned answer cache: exact keys, and vectors that are scanned for the nearest. */
module SemanticCache {
  import opened Common
  import Text

  // ------------------------------------------------------------------------ keys

  /** Text up to the first bar is known from the whole. */
  lemma SplitAtBar(a: string, x: string, b: string, y: string)
    requires '|' !in a && '|' !in b && a + "|" + x == b + "|" + y
    ensures a == b && x == y
  {
    var s := a + "|" + x;
    BarNotInside(a, x, b, y);
    BarNotInside(b, y, a, x);
    assert s[..|a|] == a && s[..|b|] == b;
    assert s[|a| + 1..] == x && s[|b| + 1..] == y;
  }

  lemma BarNotInside(a: string, x: string, b: string, y: string)
    requires '|' !in a && a + "|" + x == b + "|" + y
    ensures |a| <= |b|
  {
    assert (b + "|" + y)[|b|] == '|';
    assert forall i | 0 <= i < |a| :: (a + "|" + x)[i] == a[i];
  }

  /** The part of a raw key after the version. */
  function Body(line: string, norm: string): string {
    line + "|" + norm
  }

  /** `_hash_key`. */
  function Id(hash: string -> string, version: nat, body: string): string {
    hash(Text.Decimal(version) + "|" + body)
  }

  ghost predicate CollisionFree(hash: string -> string) {
    && (forall a, b :: hash(a) == hash(b) ==> a == b)
    && (forall a :: hash(a) != "")
  }

  /** Ids tell versions and bodies apart. */
  lemma IdsDistinct(hash: string -> string)
    requires CollisionFree(hash)
    ensures forall v, w, x, y :: Id(hash, v, x) == Id(hash, w, y) ==> v == w && x == y
  {
    forall v: nat, w: nat, x, y | Id(hash, v, x) == Id(hash, w, y) ensures v == w && x == y {
      Text.DecimalPlain(v);
      Text.DecimalPlain(w);
      SplitAtBar(Text.Decimal(v), x, Text.Decimal(w), y);
      Text.DecimalInjective(v, w);
    }
  }

  // ------------------------------------------------- what was stored since a bump

  datatype Response = Response(
    answer: string,
    confidence: real,
    refused: bool,
    retrievedIds: seq<string>,
    cacheHit: bool,
    cacheLayer: Option<string>)

  /** A response that is read back says which layer it came from. */
  function Served(response: Response, layer: string): (r: Response)
    ensures r.answer == response.answer && r.confidence == response.confidence && r.refused == response.refused
    ensures r.retrievedIds == response.retrievedIds && r.cacheHit && r.cacheLayer == Some(layer)
  {
    response.(cacheHit := true, cacheLayer := Some(layer))
  }

  type Vector = seq<real>

  /** A response as it was stored: for a query, kept as it was asked and as it was normalised. */
  datatype Entry = Entry(
    line: string, query: string, norm: string, vector: Vector, response: Response, expiry: int)
  {
    function Key(): string {
      Body(line, norm)
    }
  }

  /** The last entry stored under a body. */
  function LastUnder(log: seq<Entry>, body: string): (r: Option<Entry>)
    ensures r.Some? ==> r.value in log && r.value.Key() == body
    ensures r.None? ==> forall e | e in log :: e.Key() != body
  {
    if log == [] then None
    else if log[|log| - 1].Key() == body then Some(log[|log| - 1])
    else LastUnder(log[..|log| - 1], body)
  }

  /** The last entry stored for a service line and a normalised query. */
  function LastFor(log: seq<Entry>, line: string, norm: string): Option<Entry> {
    if log == [] then None
    else if log[|log| - 1].line == line && log[|log| - 1].norm == norm then Some(log[|log| - 1])
    else LastFor(log[..|log| - 1], line, norm)
  }

  /** What the lowering of the host does: it is idempotent, works on both sides of a bar apart, and neither
      makes nor removes white space at the ends of a text. */
  ghost predicate Lowering(lower: string -> string) {
    && lower("") == ""
    && (forall t :: lower(lower(t)) == lower(t))
    && (forall a, b :: lower(a + "|" + b) == lower(a) + "|" + lower(b))
    && (forall t :: Text.Tight(t) ==> Text.Tight(lower(t)))
  }

  /** `text.strip().lower()`. */
  function Normalised(text: string, lower: string -> string): string {
    lower(Text.Strip(text))
  }

  /** A text that some query is normalised to. */
  predicate IsNorm(t: string, lower: string -> string) {
    Normalised(t, lower) == t
  }

  /** Normalising is idempotent, so these are exactly the normalised texts; and they are their own lower
      form, without white space at the ends. */
  lemma NormShape(t: string, lower: string -> string)
    requires Lowering(lower)
    ensures IsNorm(Normalised(t, lower), lower)
    ensures IsNorm(t, lower) <==> lower(t) == t && (t == "" || Text.Tight(t))
  {
    hide Text.Strip, Text.Tight;
    var n := Normalised(t, lower);
    Text.StripTight(n);
    if t == "" || Text.Tight(t) {
      Text.StripTight(t);
    }
  }

  /** The rest of a service line after a bar could start a normalised query. */
  predicate StartsNorm(rest: string, lower: string -> string) {
    lower(rest) == rest && (rest == "" || !Text.IsSpace(rest[0]))
  }

  /** One service line is another one, a bar, and text that could start a normalised query. */
  predicate Extends(a: string, b: string, lower: string -> string) {
    a + "|" <= b && StartsNorm(b[|a| + 1..], lower)
  }

  /** No service line extends another one. */
  predicate Separate(lines: set<string>, lower: string -> string) {
    forall a, b | a in lines && b in lines :: !Extends(a, b, lower)
  }

  lemma HoldsBar(a: string, b: string)
    ensures a + "|" <= b ==> '|' in b
  {
    assert (a + "|")[|a|] == '|';
  }

  lemma LoweredAroundBar(a: string, b: string, lower: string -> string)
    requires Lowering(lower)
    ensures lower(a + "|" + b) == lower(a) + "|" + lower(b)
  {
  }

  lemma TightAroundBar(rest: string, n: string)
    requires n == "" || Text.Tight(n)
    ensures Text.Tight(rest + "|" + n) <==> rest == "" || !Text.IsSpace(rest[0])
  {
    var m := rest + "|" + n;
    assert m[0] == if rest == "" then '|' else rest[0];
    assert m[|m| - 1] == if n == "" then '|' else n[|n| - 1];
  }

  lemma LowerAhead(rest: string, n: string, lower: string -> string)
    requires Lowering(lower) && lower(n) == n
    ensures lower(rest + "|" + n) == rest + "|" + n <==> lower(rest) == rest
  {
    hide Lowering;
    LoweredAroundBar(rest, n, lower);
    SameBeforeBar(lower(rest), rest, n);
  }

  lemma NormAhead(rest: string, n: string, lower: string -> string)
    requires Lowering(lower) && lower(n) == n
    ensures IsNorm(rest + "|" + n, lower) <==> lower(rest) == rest && Text.Tight(rest + "|" + n)
  {
    hide Lowering, IsNorm, Text.Tight;
    LowerAhead(rest, n, lower);
    NormShape(rest + "|" + n, lower);
    assert |rest + "|" + n| > 0;
  }

  lemma BarAhead(rest: string, n: string, lower: string -> string)
    requires Lowering(lower) && IsNorm(n, lower)
    ensures IsNorm(rest + "|" + n, lower) <==> StartsNorm(rest, lower)
  {
    hide Lowering, IsNorm, Text.Tight, Text.IsSpace;
    NormShape(n, lower);
    NormAhead(rest, n, lower);
    TightAroundBar(rest, n);
  }

  lemma SameBeforeBar(x: string, y: string, n: string)
    ensures x + "|" + n == y + "|" + n <==> x == y
  {
    if x + "|" + n == y + "|" + n {
      assert |x| == |y|;
      assert x == (x + "|" + n)[..|x|] && y == (y + "|" + n)[..|y|];
    }
  }

  lemma ShorterLine(a: string, m: string, b: string, n: string)
    requires Body(a, m) == Body(b, n) && |a| < |b|
    ensures a + "|" <= b
  {
    var s := Body(a, m);
    assert s[..|a| + 1] == a + "|";
    assert s[..|b|] == b && s[..|b|][..|a| + 1] == s[..|a| + 1];
  }

  lemma ExtendedBy(a: string, m: string, b: string, n: string, lower: string -> string)
    requires Lowering(lower) && Body(a, m) == Body(b, n) && |a| < |b| && IsNorm(m, lower) && IsNorm(n, lower)
    ensures Extends(a, b, lower)
  {
    hide IsNorm, StartsNorm, Lowering;
    ShorterLine(a, m, b, n);
    var s, rest := Body(a, m), b[|a| + 1..];
    assert s[|a| + 1..] == m;
    assert b == a + "|" + rest;
    assert s == a + "|" + (rest + "|" + n);
    assert s[|a| + 1..] == rest + "|" + n;
    BarAhead(rest, n, lower);
  }

  lemma SameBody(a: string, m: string, b: string, n: string, lower: string -> string)
    requires Lowering(lower) && Body(a, m) == Body(b, n) && IsNorm(m, lower) && IsNorm(n, lower)
    requires !Extends(a, b, lower) && !Extends(b, a, lower)
    ensures a == b && m == n
  {
    hide IsNorm, Extends, Lowering;
    var s := Body(a, m);
    assert |a| == |b| by {
      if |a| < |b| {
        ExtendedBy(a, m, b, n, lower);
      } else if |b| < |a| {
        ExtendedBy(b, n, a, m, lower);
      }
    }
    assert a == s[..|a|] && b == s[..|b|];
    assert m == s[|a| + 1..] && n == s[|b| + 1..];
  }

  lemma NormEmpty(lower: string -> string)
    requires Lowering(lower)
    ensures IsNorm("", lower)
  {
    NormShape("", lower);
  }

  /** Keys tell service lines and queries apart, for all normalised queries. */
  ghost predicate KeysDistinguish(lines: set<string>, lower: string -> string) {
    forall a, m, b, n | a in lines && b in lines && IsNorm(m, lower) && IsNorm(n, lower) && Body(a, m) == Body(b, n)
      :: a == b && m == n
  }

  /** They do so exactly when no line extends another one: when none is another one followed by a bar and
      by text in lower case that does not start with white space. */
  lemma KeysDistinguishExactly(lines: set<string>, lower: string -> string)
    requires Lowering(lower)
    ensures KeysDistinguish(lines, lower) <==> Separate(lines, lower)
  {
    hide IsNorm, StartsNorm, Lowering;
    if Separate(lines, lower) {
      forall a, m, b, n | a in lines && b in lines && IsNorm(m, lower) && IsNorm(n, lower) && Body(a, m) == Body(b, n)
        ensures a == b && m == n
      {
        SameBody(a, m, b, n, lower);
      }
    } else {
      var a, b :| a in lines && b in lines && Extends(a, b, lower);
      var rest := b[|a| + 1..];
      NormEmpty(lower);
      BarAhead(rest, "", lower);
      assert b == a + "|" + rest;
      assert Body(a, rest + "|" + "") == Body(b, "");
      assert a != b;
    }
  }

  function LinesOf(log: seq<Entry>): set<string> {
    set e | e in log :: e.line
  }

  predicate NormsIn(log: seq<Entry>, lower: string -> string) {
    forall e | e in log :: IsNorm(e.norm, lower)
  }

  /** Then the last entry under a key is the last for its service line and query. */
  lemma {:induction false} LastIsForLine(log: seq<Entry>, line: string, norm: string, lower: string -> string)
    requires Lowering(lower) && NormsIn(log, lower) && IsNorm(norm, lower)
    requires Separate(LinesOf(log) + {line}, lower)
    ensures LastUnder(log, Body(line, norm)) == LastFor(log, line, norm)
  {
    hide IsNorm, Extends, Lowering;
    if log != [] {
      var last := log[|log| - 1];
      assert last.line in LinesOf(log) && LinesOf(log[..|log| - 1]) <= LinesOf(log);
      if last.Key() == Body(line, norm) {
        SameBody(last.line, last.norm, line, norm, lower);
      } else {
        LastIsForLine(log[..|log| - 1], line, norm, lower);
      }
    }
  }

  /** Entries are filed under their queries, stripped and lowered. */
  predicate QueriesIn(log: seq<Entry>, lower: string -> string) {
    forall e | e in log :: e.norm == lower(Text.Strip(e.query))
  }

  /** An entry answers a query: it was stored for the same service line and, white space around it and its
      case aside, the same query. */
  predicate Matches(e: Entry, line: string, query: string, lower: string -> string) {
    e.line == line && lower(Text.Strip(e.query)) == lower(Text.Strip(query))
  }

  /** The latest entry that answers a query. */
  predicate IsLatest(log: seq<Entry>, i: nat, line: string, query: string, lower: string -> string) {
    i < |log| && Matches(log[i], line, query, lower) && forall j | i < j < |log| :: !Matches(log[j], line, query, lower)
  }

  /** White space around a query makes no difference. */
  lemma OuterSpaceIgnored(l: string, query: string, r: string)
    requires Text.Blank(l) && Text.Blank(r)
    ensures Text.Strip(l + query + r) == Text.Strip(query)
  {
    hide Text.IsSpace, Text.Strip;
    var a, core, b := Text.StripParts(query);
    if core == "" {
      assert Text.Blank(l + query + r);
      Text.StripBlank(l + query + r);
      Text.StripBlank(query);
    } else {
      assert l + query + r == (l + a) + core + (b + r);
      Text.StripPadded(l + a, core, b + r);
    }
  }

  lemma OneMoreFiled(log: seq<Entry>, e: Entry, lower: string -> string)
    requires QueriesIn(log, lower) && e.norm == lower(Text.Strip(e.query))
    ensures QueriesIn(log + [e], lower)
  {
  }

  lemma NormsFiled(log: seq<Entry>, lower: string -> string)
    requires Lowering(lower) && QueriesIn(log, lower)
    ensures NormsIn(log, lower)
  {
    hide Lowering, Text.Strip, IsNorm;
    forall e | e in log ensures IsNorm(e.norm, lower) {
      NormShape(e.query, lower);
    }
  }

  lemma {:induction false} LastForLatest(log: seq<Entry>, line: string, query: string, lower: string -> string)
    requires QueriesIn(log, lower)
    ensures var last := LastFor(log, line, lower(Text.Strip(query)));
            && (forall i: nat | IsLatest(log, i, line, query, lower) :: last == Some(log[i]))
            && (last.Some? ==> exists i: nat :: IsLatest(log, i, line, query, lower))
  {
    hide Text.Strip;
    if log != [] {
      var n := |log| - 1;
      if Matches(log[n], line, query, lower) {
        assert IsLatest(log, n, line, query, lower);
      } else {
        LastForLatest(log[..n], line, query, lower);
        assert forall i: nat :: IsLatest(log, i, line, query, lower) <==> IsLatest(log[..n], i, line, query, lower);
      }
    }
  }

  /** What is found under the key of a query is the latest entry that answers it. */
  lemma LatestUnderKey(log: seq<Entry>, line: string, query: string, lower: string -> string)
    requires Lowering(lower) && QueriesIn(log, lower) && Separate(LinesOf(log) + {line}, lower)
    ensures var last := LastUnder(log, Body(line, Normalised(query, lower)));
            && (forall i: nat | IsLatest(log, i, line, query, lower) :: last == Some(log[i]))
            && (last.Some? ==> exists i: nat :: IsLatest(log, i, line, query, lower))
  {
    hide Lowering, Text.Strip, IsNorm, NormsIn, Separate, IsLatest, LastUnder, LastFor;
    NormsFiled(log, lower);
    NormShape(query, lower);
    LastIsForLine(log, line, Normalised(query, lower), lower);
    LastForLatest(log, line, query, lower);
  }

  /** In particular where service lines hold no bar. */
  lemma LastIsForPlainLine(log: seq<Entry>, line: string, norm: string, lower: string -> string)
    requires Lowering(lower) && NormsIn(log, lower) && IsNorm(norm, lower)
    requires '|' !in line && forall e | e in log :: '|' !in e.line
    ensures LastUnder(log, Body(line, norm)) == LastFor(log, line, norm)
  {
    hide IsNorm, StartsNorm, Lowering;
    var lines := LinesOf(log) + {line};
    forall a, b | a in lines && b in lines ensures !Extends(a, b, lower) {
      HoldsBar(a, b);
    }
    LastIsForLine(log, line, norm, lower);
  }

  /** With such a line they can be confused: here the answer for another line and query is found. */
  lemma BarConfuses(vector: Vector, response: Response, expiry: int)
    ensures var log := [Entry("tax|audit", "fees", "fees", vector, response, expiry)];
            && LastUnder(log, Body("tax", "audit|fees")) == Some(log[0])
            && LastFor(log, "tax", "audit|fees") == None
  {
    var e := Entry("tax|audit", "fees", "fees", vector, response, expiry);
    assert e.Key() == Body("tax", "audit|fees");
    assert [e][..|[e]| - 1] == [];
  }

  // ------------------------------------------------------------------- the stores

  datatype Stores = Stores(
    version: nat,
    exact: map<string, (Response, int)>,
    vectors: map<string, (Vector, int)>,
    payloads: map<string, (Response, int)>,
    ids: set<string>)

  /** Under a body the stores hold what was last stored under it in this version, or nothing. */
  predicate Holds(s: Stores, id: string, last: Option<Entry>) {
    match last
    case None => id !in s.exact && id !in s.ids
    case Some(e) =>
      && id in s.exact && s.exact[id] == (e.response, e.expiry)
      && id in s.vectors && s.vectors[id] == (e.vector, e.expiry)
      && id in s.payloads && s.payloads[id] == (e.response, e.expiry)
      && id in s.ids
  }

  ghost predicate Faithful(s: Stores, log: seq<Entry>, hash: string -> string) {
    && (forall body :: Holds(s, Id(hash, s.version, body), LastUnder(log, body)))
    && (forall v: nat, body | v > s.version :: Id(hash, v, body) !in s.exact)
    && (forall id | id in s.ids :: exists body :: id == Id(hash, s.version, body) && LastUnder(log, body).Some?)
  }

  function Stored(s: Stores, id: string, e: Entry): Stores {
    s.(exact := s.exact[id := (e.response, e.expiry)],
       vectors := s.vectors[id := (e.vector, e.expiry)],
       payloads := s.payloads[id := (e.response, e.expiry)],
       ids := s.ids + {id})
  }

  lemma StoredFaithful(s: Stores, log: seq<Entry>, hash: string -> string, e: Entry)
    requires CollisionFree(hash) && Faithful(s, log, hash)
    ensures Faithful(Stored(s, Id(hash, s.version, e.Key()), e), log + [e], hash)
  {
    hide Id, LastUnder, CollisionFree, Holds;
    var t := Stored(s, Id(hash, s.version, e.Key()), e);
    forall body ensures Holds(t, Id(hash, t.version, body), LastUnder(log + [e], body)) {
      StoredHolds(s, log, hash, e, body);
    }
    forall v: nat, body | v > t.version ensures Id(hash, v, body) !in t.exact {
      FutureFree(s, log, hash, e, v, body);
    }
    forall id | id in t.ids ensures exists body :: id == Id(hash, t.version, body) && LastUnder(log + [e], body).Some? {
      StoredKnown(s, log, hash, e, id);
    }
  }

  lemma LastAfter(log: seq<Entry>, e: Entry, body: string)
    ensures LastUnder(log + [e], body) == if e.Key() == body then Some(e) else LastUnder(log, body)
  {
    assert (log + [e])[..|log|] == log;
  }

  lemma StoredHolds(s: Stores, log: seq<Entry>, hash: string -> string, e: Entry, body: string)
    requires CollisionFree(hash) && Faithful(s, log, hash)
    ensures var t := Stored(s, Id(hash, s.version, e.Key()), e);
            Holds(t, Id(hash, t.version, body), LastUnder(log + [e], body))
  {
    hide Id, LastUnder, CollisionFree;
    IdsDistinct(hash);
    LastAfter(log, e, body);
    assert Holds(s, Id(hash, s.version, body), LastUnder(log, body));
  }

  lemma FutureFree(s: Stores, log: seq<Entry>, hash: string -> string, e: Entry, v: nat, body: string)
    requires CollisionFree(hash) && Faithful(s, log, hash) && v > s.version
    ensures Id(hash, v, body) !in Stored(s, Id(hash, s.version, e.Key()), e).exact
  {
    hide Id, LastUnder, CollisionFree;
    IdsDistinct(hash);
  }

  lemma StoredKnown(s: Stores, log: seq<Entry>, hash: string -> string, e: Entry, id: string)
    requires Faithful(s, log, hash) && id in Stored(s, Id(hash, s.version, e.Key()), e).ids
    ensures exists body :: id == Id(hash, s.version, body) && LastUnder(log + [e], body).Some?
  {
    hide Id, LastUnder;
    if id == Id(hash, s.version, e.Key()) {
      LastAfter(log, e, e.Key());
    } else {
      var body :| id == Id(hash, s.version, body) && LastUnder(log, body).Some?;
      LastAfter(log, e, body);
    }
  }

  lemma BumpedFaithful(s: Stores, log: seq<Entry>, hash: string -> string)
    requires Faithful(s, log, hash)
    ensures Faithful(s.(version := s.version + 1, ids := {}), [], hash)
  {
    hide Id;
  }

  /** An entry that is the last under its key, has not expired and is among some ids. */
  ghost predicate Among(e: Entry, s: Stores, log: seq<Entry>, hash: string -> string, ids: seq<string>, now: int) {
    LastUnder(log, e.Key()) == Some(e) && now < e.expiry && Id(hash, s.version, e.Key()) in ids
  }

  predicate Live(s: Stores, id: string, now: int) {
    id in s.vectors && now < s.vectors[id].1
  }

  lemma EntryLive(s: Stores, log: seq<Entry>, hash: string -> string, ids: seq<string>, now: int, e: Entry)
    requires Faithful(s, log, hash) && Among(e, s, log, hash, ids, now)
    ensures var id := Id(hash, s.version, e.Key()); id in ids && Live(s, id, now) && s.vectors[id].0 == e.vector
  {
    hide Id, LastUnder;
    assert Holds(s, Id(hash, s.version, e.Key()), LastUnder(log, e.Key()));
  }

  lemma LiveEntry(s: Stores, log: seq<Entry>, hash: string -> string, ids: seq<string>, now: int, id: string)
    returns (e: Entry)
    requires Faithful(s, log, hash) && id in s.ids && id in ids && Live(s, id, now)
    ensures Among(e, s, log, hash, ids, now) && e in log
    ensures s.vectors[id].0 == e.vector && id in s.payloads && s.payloads[id] == (e.response, e.expiry)
  {
    hide Id;
    var body :| id == Id(hash, s.version, body) && LastUnder(log, body).Some?;
    e := LastUnder(log, body).value;
    assert Holds(s, id, LastUnder(log, body));
  }

  lemma ExactHolds(s: Stores, log: seq<Entry>, hash: string -> string, body: string)
    requires Faithful(s, log, hash)
    ensures Holds(s, Id(hash, s.version, body), LastUnder(log, body))
  {
  }

  lemma NotEmpty(s: Stores, log: seq<Entry>, hash: string -> string, id: string)
    requires CollisionFree(hash) && Faithful(s, log, hash) && id in s.ids
    ensures id != ""
  {
  }

  // -------------------------------------------------------------------- the cache

  class Cache {
    const enabled: bool
    const ttl: int
    const threshold: real
    const maxScan: int
    const hash: string -> string
    const lower: string -> string
    const embed: string -> Vector
    const cosine: (Vector, Vector) -> real
    var stores: Stores
    /** What was stored since the last bump. */
    ghost var log: seq<Entry>

    ghost predicate Valid()
      reads this
    {
      && CollisionFree(hash) && Faithful(stores, log, hash)
      && Lowering(lower) && QueriesIn(log, lower)
      && forall e | e in log :: !e.response.refused
    }

    constructor (
      enabled: bool, ttl: int, threshold: real, maxScan: int,
      hash: string -> string, lower: string -> string, embed: string -> Vector, cosine: (Vector, Vector) -> real)
      requires CollisionFree(hash) && Lowering(lower)
      ensures Valid() && log == [] && this.enabled == enabled && this.ttl == ttl
      ensures this.threshold == threshold && this.maxScan == maxScan && this.hash == hash
      ensures this.lower == lower && this.embed == embed && this.cosine == cosine
    {
      this.enabled, this.ttl, this.threshold, this.maxScan := enabled, ttl, threshold, maxScan;
      this.hash, this.lower, this.embed, this.cosine := hash, lower, embed, cosine;
      stores, log := Stores(0, map[], map[], map[], {}), [];
    }

    function Norm(query: string): string {
      Normalised(query, lower)
    }

    /** `query_embedding or embed_query(query)`. */
    function VectorOf(query: string, given: Option<Vector>): Vector {
      if given.GetOr([]) == [] then embed(query) else given.value
    }

    function EntryFor(query: string, response: Response, line: Option<string>, given: Option<Vector>, now: int): Entry {
      Entry(line.GetOr(""), query, Norm(query), VectorOf(query, given), response, now + ttl)
    }

    method BumpCorpusVersion()
      requires Valid()
      modifies this
      ensures Valid() && log == if enabled then [] else old(log)
    {
      hide Faithful, CollisionFree, Lowering, IsNorm;
      if !enabled {
        return;
      }
      BumpedFaithful(stores, log, hash);
      stores := stores.(version := stores.version + 1, ids := {});
      log := [];
    }

    /** A refusal is never stored. */
    method Set(query: string, response: Response, line: Option<string>, given: Option<Vector>, now: int)
      requires Valid()
      modifies this
      ensures Valid()
      ensures !enabled || response.refused ==> log == old(log)
      ensures enabled && !response.refused ==>
                && |log| == |old(log)| + 1 && log[..|old(log)|] == old(log)
                && var e := log[|old(log)|];
                   && e.query == query && e.response == response && e.expiry == now + ttl
                   && e.line == (if line.Some? then line.value else "")
                   && e.vector == if given.Some? && given.value != [] then given.value else embed(query)
    {
      hide Faithful, CollisionFree, Id, LastUnder, Lowering, IsNorm, QueriesIn;
      if !enabled || response.refused {
        return;
      }
      var e := EntryFor(query, response, line, given, now);
      Store(Id(hash, stores.version, e.Key()), e);
    }

    /** The three keys and the member of the id set. */
    method Store(id: string, e: Entry)
      requires Valid() && id == Id(hash, stores.version, e.Key()) && !e.response.refused
      requires e.norm == lower(Text.Strip(e.query))
      modifies this
      ensures Valid() && log == old(log) + [e]
    {
      hide Faithful, CollisionFree, Id, LastUnder, Lowering, IsNorm, QueriesIn, Text.Strip;
      OneMoreFiled(log, e, lower);
      StoredFaithful(stores, log, hash, e);
      var exact := stores.exact[id := (e.response, e.expiry)];
      var vectors := stores.vectors[id := (e.vector, e.expiry)];
      var payloads := stores.payloads[id := (e.response, e.expiry)];
      stores := Stores(stores.version, exact, vectors, payloads, stores.ids + {id});
      log := log + [e];
    }

    /** An unexpired entry whose id is scanned. */
    ghost predicate InScan(e: Entry, members: seq<string>, now: int)
      reads this
    {
      Among(e, stores, log, hash, Slice(members, maxScan), now)
    }

    /** What a stored response must meet to be served for a vector. */
    ghost predicate Nearest(e: Entry, v: Vector, members: seq<string>, now: int)
      reads this
    {
      && InScan(e, members, now) && cosine(v, e.vector) >= threshold
      && forall other | InScan(other, members, now) :: cosine(v, other.vector) <= cosine(v, e.vector)
    }

    /** `get`, with the members of the id set in the order in which they are enumerated. */
    method Get(query: string, line: Option<string>, given: Option<Vector>, members: seq<string>, now: int)
      returns (r: Option<Response>)
      requires Valid() && forall id :: id in members <==> id in stores.ids
      ensures !enabled ==> r == None
      ensures r.Some? ==>
                exists e, layer :: e in log && !e.response.refused && now < e.expiry && r == Some(Served(e.response, layer))
      ensures var own := LastUnder(log, Body(line.GetOr(""), Norm(query)));
              enabled && own.Some? && now < own.value.expiry ==> r == Some(Served(own.value.response, "exact"))
      ensures var own := LastUnder(log, Body(line.GetOr(""), Norm(query)));
              var v := VectorOf(query, given);
              enabled && !(own.Some? && now < own.value.expiry) ==>
                && (r.Some? <==> exists e ::
                      InScan(e, members, now) && cosine(v, e.vector) > -1.0 && cosine(v, e.vector) >= threshold)
                && (r.Some? ==> exists e :: Nearest(e, v, members, now) && r == Some(Served(e.response, "semantic")))
      ensures enabled && Separate(LinesOf(log) + {line.GetOr("")}, lower) ==>
                && (forall i: nat | IsLatest(log, i, line.GetOr(""), query, lower) && now < log[i].expiry ::
                      r == Some(Served(log[i].response, "exact")))
                && (r.Some? && r.value.cacheLayer == Some("exact") ==>
                      exists i: nat :: IsLatest(log, i, line.GetOr(""), query, lower) && now < log[i].expiry)
    {
      hide Faithful, CollisionFree, LastUnder, Id, InScan, Nearest, Slice, Lowering, IsNorm, QueriesIn, Normalised,
        Separate, LinesOf, IsLatest;
      if !enabled {
        return None;
      }
      if Separate(LinesOf(log) + {line.GetOr("")}, lower) {
        LatestUnderKey(log, line.GetOr(""), query, lower);
      }
      var exactId := Id(hash, stores.version, Body(line.GetOr(""), Norm(query)));
      ExactHolds(stores, log, hash, Body(line.GetOr(""), Norm(query)));
      if exactId in stores.exact && now < stores.exact[exactId].1 {
        return Some(Served(stores.exact[exactId].0, "exact"));
      }
      r := GetNearest(VectorOf(query, given), members, now);
    }

    /** The second half of `get`: the response of a nearest entry, if it is near enough. */
    method GetNearest(v: Vector, members: seq<string>, now: int) returns (r: Option<Response>)
      requires Valid() && forall id :: id in members <==> id in stores.ids
      ensures r.Some? <==> exists e ::
                InScan(e, members, now) && cosine(v, e.vector) > -1.0 && cosine(v, e.vector) >= threshold
      ensures r.Some? ==> exists e ::
                Nearest(e, v, members, now) && e in log && now < e.expiry && r == Some(Served(e.response, "semantic"))
    {
      hide Faithful, CollisionFree, LastUnder, Id, Lowering, IsNorm, QueriesIn;
      var ids := Slice(members, maxScan);
      var best := NearestId(v, ids, now);
      forall e | InScan(e, members, now)
        ensures exists id :: id in ids && Live(stores, id, now) && stores.vectors[id].0 == e.vector
      {
        EntryLive(stores, log, hash, ids, now, e);
      }
      r := None;
      if best.Some? {
        assert best.value in members;
        ghost var e := LiveEntry(stores, log, hash, ids, now, best.value);
        NotEmpty(stores, log, hash, best.value);
        if best.value != "" && cosine(v, stores.vectors[best.value].0) >= threshold {
          if best.value in stores.payloads && now < stores.payloads[best.value].1 {
            r := Some(Served(stores.payloads[best.value].0, "semantic"));
            assert Nearest(e, v, members, now);
          }
        }
      }
    }

    /** No live vector ahead of this one is as near. */
    predicate FirstBest(v: Vector, ids: seq<string>, i: nat, now: int)
      reads this
    {
      && i < |ids| && Live(stores, ids[i], now)
      && forall j | 0 <= j < i && Live(stores, ids[j], now) ::
           cosine(v, stores.vectors[ids[j]].0) < cosine(v, stores.vectors[ids[i]].0)
    }

    /** The scan: the first of the live vectors that are nearest, if any is nearer than opposite. */
    method NearestId(v: Vector, ids: seq<string>, now: int) returns (best: Option<string>)
      ensures best.None? ==> forall id | id in ids && Live(stores, id, now) :: cosine(v, stores.vectors[id].0) <= -1.0
      ensures best.Some? ==>
                && best.value in ids && Live(stores, best.value, now)
                && cosine(v, stores.vectors[best.value].0) > -1.0
                && forall id | id in ids && Live(stores, id, now) ::
                     cosine(v, stores.vectors[id].0) <= cosine(v, stores.vectors[best.value].0)
      ensures best.Some? ==> exists i :: 0 <= i < |ids| && ids[i] == best.value && FirstBest(v, ids, i, now)
    {
      best := None;
      var bestScore := -1.0;
      for n := 0 to |ids|
        invariant best.None? ==> bestScore == -1.0
        invariant best.Some? ==>
                    && best.value in ids[..n] && Live(stores, best.value, now)
                    && bestScore == cosine(v, stores.vectors[best.value].0) > -1.0
        invariant forall id | id in ids[..n] && Live(stores, id, now) :: cosine(v, stores.vectors[id].0) <= bestScore
        invariant best.Some? ==> exists i :: 0 <= i < n && ids[i] == best.value && FirstBest(v, ids, i, now)
      {
        var id := ids[n];
        if id in stores.vectors && now < stores.vectors[id].1 {
          var score := cosine(v, stores.vectors[id].0);
          if score > bestScore {
            assert FirstBest(v, ids, n, now) by {
              assert forall j | 0 <= j < n :: ids[j] in ids[..n];
            }
            bestScore, best := score, Some(id);
          }
        }
      }
    }
  }
}
