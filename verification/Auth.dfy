/** The table of API keys, and who a request is authenticated as. */
module Auth {
  import opened Common
  import Text

  const ALL: set<string> := {"ask", "index", "read", "metrics"}
  const WILDCARD := "*"

  datatype Principal = Principal(orgId: string, keyId: string, scopes: set<string>, subject: string, kind: string)

  /** A principal made from a key is its own subject. */
  function KeyPrincipal(orgId: string, keyId: string, scopes: set<string>): Principal {
    Principal(orgId, keyId, scopes, keyId, "api_key")
  }

  datatype Error =
    | NoScopes(keyId: string)
    | UnknownScopes(keyId: string, unknown: set<string>)
    | Malformed(position: nat)
    | EmptyField(position: nat)
    | SharedSecret(holder: string, keyId: string)

  /** The host's string lowering and the digest of secrets. */
  datatype Host = Host(lower: string -> string, digest: string -> string) {
    ghost predicate CollisionFree() {
      forall a, b :: digest(a) == digest(b) ==> a == b
    }

    predicate LowersNames() {
      && lower("Bearer") == "bearer" && lower(WILDCARD) == WILDCARD
      && forall name | name in ALL :: lower(name) == name
    }
  }

  // ---------------------------------------------------------------------- scopes

  function ScopeNames(field: string, lower: string -> string): set<string> {
    set p | p in Text.Split(field, "|") && Text.Strip(p) != "" :: lower(Text.Strip(p))
  }

  /** `_parse_scopes`. */
  function ParseScopes(field: string, keyId: string, lower: string -> string): (r: Result<set<string>, Error>)
    ensures r.Ok? ==> r.value != {} && r.value <= ALL
  {
    var names := ScopeNames(field, lower);
    if names == {} then Err(NoScopes(keyId))
    else if WILDCARD in names then
      assert "ask" in ALL;
      Ok(ALL)
    else if names - ALL != {} then Err(UnknownScopes(keyId, names - ALL))
    else
      assert names <= ALL by {
        assert forall n | n in names :: n !in names - ALL;
      }
      Ok(names)
  }

  /** Some part of a scope field, between its bars, names a scope. */
  ghost predicate Names(field: string, name: string, lower: string -> string) {
    exists p :: p in Text.Split(field, "|") && Text.Strip(p) != "" && lower(Text.Strip(p)) == name
  }

  /** A field parses exactly if it names something, and either names the wildcard or nothing unknown; it
      then grants exactly the scopes it names, or all by the wildcard. */
  lemma ScopesGranted(field: string, keyId: string, lower: string -> string)
    ensures var r := ParseScopes(field, keyId, lower);
            && (r.Ok? <==>
                  && (exists name :: Names(field, name, lower))
                  && (Names(field, WILDCARD, lower) || forall name | Names(field, name, lower) :: name in ALL))
            && (r.Ok? ==> forall scope ::
                  scope in r.value <==> scope in ALL && (Names(field, scope, lower) || Names(field, WILDCARD, lower)))
            && (r == Err(NoScopes(keyId)) <==> !exists name :: Names(field, name, lower))
  {
    hide Text.Split, Text.Strip;
    var names := ScopeNames(field, lower);
    forall name ensures name in names <==> Names(field, name, lower) {
      NamesIn(field, name, lower);
    }
    if names != {} {
      var name :| name in names;
      assert Names(field, name, lower);
    }
    if n :| n in names && n !in ALL {
      assert n in names - ALL;
    }
  }

  /** An error of a scope field names the key and, for unknown scopes, exactly the names in the
      field that are no scopes. */
  lemma UnknownScopesNamed(field: string, keyId: string, lower: string -> string)
    requires ParseScopes(field, keyId, lower).Err?
    ensures ParseScopes(field, keyId, lower).error.keyId == keyId
    ensures ParseScopes(field, keyId, lower).error.UnknownScopes? ==>
              forall name :: name in ParseScopes(field, keyId, lower).error.unknown
                             <==> Names(field, name, lower) && name !in ALL
  {
    hide Text.Split, Text.Strip;
    forall name ensures name in ScopeNames(field, lower) <==> Names(field, name, lower) {
      NamesIn(field, name, lower);
    }
  }

  lemma NamesIn(field: string, name: string, lower: string -> string)
    ensures name in ScopeNames(field, lower) <==> Names(field, name, lower)
  {
  }

  // ------------------------------------------------------------------- key lines

  /** `s.split(sep, max)`. */
  function SplitAtMost(s: string, sep: string, max: nat): (parts: seq<string>)
    requires sep != ""
    ensures 1 <= |parts| <= max + 1
    decreases max
  {
    var n := Text.Find(s, sep);
    if max == 0 || n == |s| then [s]
    else [s[..n]] + SplitAtMost(s[n + |sep|..], sep, max - 1)
  }

  datatype Line = Line(keyId: string, orgId: string, scopeField: string, secret: string) {
    predicate Complete() {
      keyId != "" && orgId != "" && secret != ""
    }
  }

  /** The four fields of an entry, if it has four. */
  function Fields(entry: string): Option<Line> {
    var parts := SplitAtMost(Text.Strip(entry), ":", 3);
    if |parts| != 4 then None
    else Some(Line(Text.Strip(parts[0]), Text.Strip(parts[1]), Text.Strip(parts[2]), Text.Strip(parts[3])))
  }

  predicate Skipped(entry: string) {
    Text.Strip(entry) == ""
  }

  type Table = map<string, Principal>

  /** One turn of the loop of `parse_api_keys`. */
  function WithEntry(table: Table, entry: string, position: nat, host: Host): Result<Table, Error> {
    if Skipped(entry) then Ok(table)
    else if Fields(entry).None? then Err(Malformed(position))
    else
      var line := Fields(entry).value;
      if !line.Complete() then Err(EmptyField(position))
      else
        var digest := host.digest(line.secret);
        if digest in table then Err(SharedSecret(table[digest].keyId, line.keyId))
        else
          match ParseScopes(line.scopeField, line.keyId, host.lower)
          case Err(e) => Err(e)
          case Ok(scopes) => Ok(table[digest := KeyPrincipal(line.orgId, line.keyId, scopes)])
  }

  function Parsed(entries: seq<string>, host: Host): Result<Table, Error> {
    if entries == [] then Ok(map[])
    else
      var n := |entries| - 1;
      match Parsed(entries[..n], host)
      case Err(e) => Err(e)
      case Ok(table) => WithEntry(table, entries[n], n + 1, host)
  }

  lemma {:induction false} ErrorStays(entries: seq<string>, n: nat, host: Host)
    requires n <= |entries| && Parsed(entries[..n], host).Err?
    ensures Parsed(entries, host) == Parsed(entries[..n], host)
    decreases |entries|
  {
    if n < |entries| {
      assert entries[..|entries| - 1][..n] == entries[..n];
      ErrorStays(entries[..|entries| - 1], n, host);
    } else {
      assert entries[..n] == entries;
    }
  }

  /** `parse_api_keys`: the first bad entry decides the error. */
  method ParseApiKeys(raw: string, host: Host) returns (r: Result<Table, Error>)
    ensures r == Parsed(Text.Split(raw, ","), host)
  {
    hide Fields, ParseScopes, Text.Split, Text.Strip;
    var entries := Text.Split(raw, ",");
    var table: Table := map[];
    for n := 0 to |entries|
      invariant Parsed(entries[..n], host) == Ok(table)
    {
      assert entries[..n + 1][..n] == entries[..n];
      ghost var next := WithEntry(table, entries[n], n + 1, host);
      assert Parsed(entries[..n + 1], host) == next;
      if next.Err? {
        ErrorStays(entries, n + 1, host);
      }
      if Skipped(entries[n]) {
        continue;
      }
      var fields := Fields(entries[n]);
      if fields.None? {
        return Err(Malformed(n + 1));
      }
      var line := fields.value;
      if line.keyId == "" || line.orgId == "" || line.secret == "" {
        return Err(EmptyField(n + 1));
      }
      var digest := host.digest(line.secret);
      if digest in table {
        return Err(SharedSecret(table[digest].keyId, line.keyId));
      }
      var scopes := ParseScopes(line.scopeField, line.keyId, host.lower);
      if scopes.Err? {
        return Err(scopes.error);
      }
      table := table[digest := KeyPrincipal(line.orgId, line.keyId, scopes.value)];
    }
    assert entries[..|entries|] == entries;
    r := Ok(table);
  }

  // ------------------------------------------------------- what a table contains

  /** An entry that grants someone something. */
  predicate Grants(entry: string, host: Host) {
    && Fields(entry).Some? && Fields(entry).value.Complete()
    && ParseScopes(Fields(entry).value.scopeField, Fields(entry).value.keyId, host.lower).Ok?
  }

  function Granted(entry: string, host: Host): Principal
    requires Grants(entry, host)
  {
    var line := Fields(entry).value;
    KeyPrincipal(line.orgId, line.keyId, ParseScopes(line.scopeField, line.keyId, host.lower).value)
  }

  function Secret(entry: string): string {
    if Fields(entry).Some? then Fields(entry).value.secret else ""
  }

  /** The entry at `i` is where `secret` comes from. */
  predicate Source(entries: seq<string>, i: nat, secret: string) {
    i < |entries| && !Skipped(entries[i]) && Secret(entries[i]) == secret
  }

  predicate AllGrant(entries: seq<string>, host: Host) {
    forall i | 0 <= i < |entries| :: Skipped(entries[i]) || Grants(entries[i], host)
  }

  predicate SecretsDistinct(entries: seq<string>) {
    forall i, j | 0 <= i < j < |entries| && !Skipped(entries[i]) && !Skipped(entries[j]) ::
      Secret(entries[i]) != Secret(entries[j])
  }

  /** The table is that of the entries: one principal per entry that is not blank. */
  ghost predicate TableOf(table: Table, entries: seq<string>, host: Host)
    requires AllGrant(entries, host)
  {
    && (forall i | 0 <= i < |entries| && !Skipped(entries[i]) ::
          var d := host.digest(Secret(entries[i])); d in table && table[d] == Granted(entries[i], host))
    && (forall d | d in table :: exists i: nat, secret :: d == host.digest(secret) && Source(entries, i, secret))
  }

  /** A setting parses exactly if every entry that is not blank grants something and no two share a
      secret; then the table drops no entry and invents none. */
  lemma {:induction false} ParsedExactly(entries: seq<string>, host: Host)
    requires host.CollisionFree()
    ensures Parsed(entries, host).Ok? <==> AllGrant(entries, host) && SecretsDistinct(entries)
    ensures Parsed(entries, host).Ok? ==> TableOf(Parsed(entries, host).value, entries, host)
  {
    hide Fields, ParseScopes, Skipped, Text.Split, Text.Strip;
    if entries != [] {
      var n := |entries| - 1;
      var init, last := entries[..n], entries[n];
      ParsedExactly(init, host);
      assert entries == init + [last];
      AllGrantSnoc(init, last, host);
      DistinctSnoc(init, last);
      if Parsed(init, host).Ok? {
        var table := Parsed(init, host).value;
        NextEntry(table, init, last, host);
        if WithEntry(table, last, n + 1, host).Ok? {
          TableGrows(table, init, last, host);
        }
      }
    }
  }

  lemma AllGrantSnoc(entries: seq<string>, entry: string, host: Host)
    ensures AllGrant(entries + [entry], host) <==> AllGrant(entries, host) && (Skipped(entry) || Grants(entry, host))
  {
    hide Grants, Skipped;
    var longer := entries + [entry];
    assert longer[|entries|] == entry;
    assert forall i | 0 <= i < |entries| :: longer[i] == entries[i];
  }

  lemma DistinctSnoc(entries: seq<string>, entry: string)
    ensures SecretsDistinct(entries + [entry]) <==>
              SecretsDistinct(entries) && (Skipped(entry) || forall i: nat :: !Source(entries, i, Secret(entry)))
  {
    hide Secret, Skipped;
    var longer := entries + [entry];
    assert longer[|entries|] == entry;
    assert forall i | 0 <= i < |entries| :: longer[i] == entries[i];
    if SecretsDistinct(longer) && !Skipped(entry) {
      assert forall i: nat | i < |entries| && !Skipped(longer[i]) :: Secret(longer[i]) != Secret(longer[|entries|]);
    }
    if SecretsDistinct(entries) && (Skipped(entry) || forall i: nat :: !Source(entries, i, Secret(entry))) {
      forall i, j | 0 <= i < j < |longer| && !Skipped(longer[i]) && !Skipped(longer[j])
        ensures Secret(longer[i]) != Secret(longer[j])
      {
        if j == |entries| {
          assert !Source(entries, i, Secret(entry));
        }
      }
    }
  }

  /** One turn succeeds exactly if the entry is blank, or grants something under a new secret. */
  lemma NextEntry(table: Table, entries: seq<string>, entry: string, host: Host)
    requires host.CollisionFree() && AllGrant(entries, host) && TableOf(table, entries, host)
    ensures WithEntry(table, entry, |entries| + 1, host).Ok? <==>
              Skipped(entry) || (Grants(entry, host) && forall i: nat :: !Source(entries, i, Secret(entry)))
  {
    hide Fields, ParseScopes, Skipped;
    if !Skipped(entry) && Grants(entry, host) {
      var d := host.digest(Secret(entry));
      if d in table {
        var i: nat, secret :| d == host.digest(secret) && Source(entries, i, secret);
        assert Source(entries, i, Secret(entry));
      } else {
        assert forall i | 0 <= i < |entries| && !Skipped(entries[i]) :: host.digest(Secret(entries[i])) in table;
      }
    }
  }

  lemma TableGrows(table: Table, entries: seq<string>, entry: string, host: Host)
    requires AllGrant(entries, host) && TableOf(table, entries, host)
    requires AllGrant(entries + [entry], host) && WithEntry(table, entry, |entries| + 1, host).Ok?
    ensures TableOf(WithEntry(table, entry, |entries| + 1, host).value, entries + [entry], host)
  {
    hide Fields, ParseScopes, Skipped;
    var longer, after := entries + [entry], WithEntry(table, entry, |entries| + 1, host).value;
    assert longer[|entries|] == entry;
    assert Skipped(entry) || Grants(entry, host);
    forall i | 0 <= i < |longer| && !Skipped(longer[i])
      ensures var d := host.digest(Secret(longer[i])); d in after && after[d] == Granted(longer[i], host)
    {
      if i < |entries| {
        assert longer[i] == entries[i];
      }
    }
    forall d | d in after ensures exists i: nat, secret :: d == host.digest(secret) && Source(longer, i, secret) {
      if d in table {
        var i: nat, secret :| d == host.digest(secret) && Source(entries, i, secret);
        assert Source(longer, i, secret);
      } else {
        assert Source(longer, |entries|, Secret(entry));
      }
    }
  }

  /** Every principal of a table that parses has an org, and scopes, all of them known. */
  lemma TablesGrantKnownScopes(entries: seq<string>, host: Host)
    requires host.CollisionFree() && Parsed(entries, host).Ok?
    ensures forall d | d in Parsed(entries, host).value ::
              var p := Parsed(entries, host).value[d];
              && p.orgId != "" && p.keyId != "" && p.subject == p.keyId
              && p.scopes != {} && p.scopes <= ALL
  {
    hide Fields, Skipped;
    ParsedExactly(entries, host);
    var table := Parsed(entries, host).value;
    forall d | d in table
      ensures table[d].orgId != "" && table[d].keyId != "" && table[d].subject == table[d].keyId
      ensures table[d].scopes != {} && table[d].scopes <= ALL
    {
      var i: nat, secret :| d == host.digest(secret) && Source(entries, i, secret);
      assert Grants(entries[i], host);
    }
  }

  // -------------------------------------------------------------- authentication

  datatype Settings = Settings(
    authRequired: bool,
    jwksUrl: string,
    apiKeys: string,
    enforceTenancy: bool,
    defaultOrg: string)

  datatype Failure = NoCredential | InvalidCredential | BadKeys(error: Error) | BadToken(detail: string)

  /** `_credential`: the value of a bearer header. */
  function Credential(authorization: Option<string>, lower: string -> string): (r: Option<string>)
    ensures r.Some? ==> Text.Tight(r.value)
  {
    if authorization.GetOr("") == "" then None
    else
      var a := authorization.value;
      var n := Text.Find(a, " ");
      var scheme, value := a[..n], if n < |a| then a[n + 1..] else "";
      if lower(Text.Strip(scheme)) != "bearer" then None
      else if Text.Strip(value) == "" then None
      else Some(Text.Strip(value))
  }

  function LooksLikeJwt(credential: string): bool {
    |Text.Split(credential, ".")| == 3 && forall p | p in Text.Split(credential, ".") :: p != ""
  }

  function Tenant(xOrgId: Option<string>, s: Settings): string {
    if !s.enforceTenancy then s.defaultOrg
    else
      var org := Text.Strip(if xOrgId.GetOr("") == "" then s.defaultOrg else xOrgId.value);
      if org == "" then s.defaultOrg else org
  }

  /** `authenticate`; `token` is what validation of a signed token yields. */
  function Authenticate(
    authorization: Option<string>, xOrgId: Option<string>, s: Settings, host: Host,
    token: string -> Result<Principal, Failure>): Result<Principal, Failure>
  {
    if !s.authRequired then Ok(KeyPrincipal(Tenant(xOrgId, s), "anonymous", ALL))
    else
      match Credential(authorization, host.lower)
      case None => Err(NoCredential)
      case Some(presented) =>
        var found: Result<Principal, Failure> :=
          if s.jwksUrl != "" && LooksLikeJwt(presented) then token(presented)
          else
            match Parsed(Text.Split(s.apiKeys, ","), host)
            case Err(e) => Err(BadKeys(e))
            case Ok(table) =>
              var d := host.digest(presented);
              if d in table then Ok(table[d]) else Err(InvalidCredential);
        match found
        case Err(e) => found
        case Ok(p) => Ok(ActingFor(p, s))
  }

  predicate ByKey(presented: string, s: Settings) {
    s.jwksUrl == "" || !LooksLikeJwt(presented)
  }

  /** With authentication on, the org header has no say. */
  lemma OrgHeaderIgnored(
    authorization: Option<string>, x: Option<string>, y: Option<string>, s: Settings, host: Host,
    token: string -> Result<Principal, Failure>)
    ensures Authenticate(authorization, x, s, host, token) == Authenticate(authorization, y, s, host, token) <==>
              s.authRequired || Tenant(x, s) == Tenant(y, s)
  {
    hide Credential, LooksLikeJwt, Tenant, Parsed;
    if !s.authRequired {
      assert Authenticate(authorization, x, s, host, token).value.orgId == Tenant(x, s);
      assert Authenticate(authorization, y, s, host, token).value.orgId == Tenant(y, s);
    }
  }

  function ActingFor(p: Principal, s: Settings): Principal {
    if s.enforceTenancy then p else p.(orgId := s.defaultOrg)
  }

  /** An entry holds this secret, and this is whom it names: its key, its scopes, and its org or, where
      tenancy is not enforced, the default one. */
  predicate HeldBy(entry: string, host: Host, secret: string, p: Principal, s: Settings) {
    && Fields(entry).Some? && Fields(entry).value.secret == secret
    && var line := Fields(entry).value;
       && p.keyId == line.keyId && p.subject == line.keyId && p.kind == "api_key"
       && ParseScopes(line.scopeField, line.keyId, host.lower) == Ok(p.scopes)
       && (s.enforceTenancy ==> p.orgId == line.orgId)
       && (!s.enforceTenancy ==> p.orgId == s.defaultOrg)
  }

  ghost predicate Holder(entries: seq<string>, host: Host, secret: string, p: Principal, s: Settings) {
    exists i: nat :: i < |entries| && !Skipped(entries[i]) && HeldBy(entries[i], host, secret, p, s)
  }

  lemma HeldAs(entry: string, host: Host, secret: string, p: Principal, s: Settings)
    requires Grants(entry, host)
    ensures HeldBy(entry, host, secret, p, s) <==> Secret(entry) == secret && ActingFor(Granted(entry, host), s) == p
  {
    hide Fields, ParseScopes;
  }

  /** On the key path a request is let in exactly as the principal of the one entry whose secret it
      presents, acting for the default org where tenancy is not enforced. */
  lemma AuthenticatedExactly(
    authorization: Option<string>, xOrgId: Option<string>, s: Settings, host: Host,
    token: string -> Result<Principal, Failure>, p: Principal)
    requires host.CollisionFree() && s.authRequired
    requires var c := Credential(authorization, host.lower); c.Some? ==> ByKey(c.value, s)
    ensures var entries := Text.Split(s.apiKeys, ",");
            var c := Credential(authorization, host.lower);
            Authenticate(authorization, xOrgId, s, host, token) == Ok(p) <==>
              && AllGrant(entries, host) && SecretsDistinct(entries)
              && c.Some? && Holder(entries, host, c.value, p, s)
  {
    hide Credential, LooksLikeJwt, Parsed, AllGrant, SecretsDistinct, TableOf, Holder, Text.Split;
    var entries := Text.Split(s.apiKeys, ",");
    var c := Credential(authorization, host.lower);
    ParsedExactly(entries, host);
    if Parsed(entries, host).Ok? && c.Some? {
      var table, d := Parsed(entries, host).value, host.digest(c.value);
      LookedUp(table, entries, host, c.value, p, s);
      assert Authenticate(authorization, xOrgId, s, host, token)
          == if d in table then Ok(ActingFor(table[d], s)) else Err(InvalidCredential);
    }
  }

  /** A lookup finds the principal of the entry that holds the secret. */
  lemma LookedUp(table: Table, entries: seq<string>, host: Host, secret: string, p: Principal, s: Settings)
    requires host.CollisionFree() && AllGrant(entries, host) && TableOf(table, entries, host)
    ensures var d := host.digest(secret);
            d in table && ActingFor(table[d], s) == p <==> Holder(entries, host, secret, p, s)
  {
    hide Fields, Skipped, ParseScopes, Secret, Grants, Granted, HeldBy, ActingFor;
    var d := host.digest(secret);
    if d in table {
      var i: nat, other :| d == host.digest(other) && Source(entries, i, other);
      assert Source(entries, i, secret) && table[d] == Granted(entries[i], host);
      HeldAs(entries[i], host, secret, p, s);
    }
    forall i: nat | i < |entries| && !Skipped(entries[i]) && HeldBy(entries[i], host, secret, p, s)
      ensures d in table && ActingFor(table[d], s) == p
    {
      assert Grants(entries[i], host);
      HeldAs(entries[i], host, secret, p, s);
      assert host.digest(Secret(entries[i])) == d;
    }
  }

  // ------------------------------------------------------------------ round trip

  /** A key as an operator means it. */
  datatype Key = Key(keyId: string, orgId: string, scopes: seq<string>, secret: string) {
    /** Fields are free of the separators that end them; the secret may hold colons. */
    predicate WellFormed() {
      && Text.Tight(keyId) && ':' !in keyId && ',' !in keyId
      && Text.Tight(orgId) && ':' !in orgId && ',' !in orgId
      && Text.Tight(secret) && ',' !in secret
      && scopes != [] && forall name | name in scopes :: name in ALL || name == WILDCARD
    }

    function Format(): string {
      keyId + ":" + (orgId + ":" + (Text.Join(scopes, "|") + ":" + secret))
    }

    function Meaning(): Principal {
      KeyPrincipal(orgId, keyId, if WILDCARD in scopes then ALL else set name | name in scopes)
    }
  }

  function Formats(keys: seq<Key>): (r: seq<string>)
    ensures |r| == |keys| && forall i | 0 <= i < |keys| :: r[i] == keys[i].Format()
  {
    seq(|keys|, i requires 0 <= i < |keys| => keys[i].Format())
  }

  predicate Plain(name: string) {
    Text.Tight(name) && '|' !in name && ':' !in name && ',' !in name
  }

  lemma NamesPlain(name: string)
    requires name in ALL || name == WILDCARD
    ensures Plain(name)
  {
  }

  lemma {:induction false} JoinedFree(names: seq<string>, c: char)
    requires c != '|' && forall name | name in names :: c !in name
    ensures c !in Text.Join(names, "|")
  {
    if names != [] {
      JoinedFree(names[1..], c);
    }
  }

  lemma {:induction false} JoinedTight(names: seq<string>)
    requires names != [] && forall name | name in names :: Text.Tight(name)
    ensures Text.Tight(Text.Join(names, "|"))
  {
    hide Text.IsSpace;
    assert Text.Tight(names[0]);
    if |names| > 1 {
      JoinedTight(names[1..]);
      var rest := Text.Join(names[1..], "|");
      assert Text.Join(names, "|") == names[0] + "|" + rest;
      assert (names[0] + "|" + rest)[0] == names[0][0];
      assert Text.Join(names, "|")[|names[0]| + 1..] == rest;
    }
  }

  lemma ScopesReadBack(key: Key, host: Host)
    requires key.WellFormed() && host.LowersNames()
    ensures ParseScopes(Text.Join(key.scopes, "|"), key.keyId, host.lower) == Ok(key.Meaning().scopes)
  {
    hide Text.Split, Text.Strip, Text.Join, Text.IsSpace;
    forall name | name in key.scopes ensures Plain(name) && Text.Strip(name) == name && host.lower(name) == name {
      NamesPlain(name);
      Text.StripTight(name);
    }
    Text.SplitJoin(key.scopes, '|');
    var names := ScopeNames(Text.Join(key.scopes, "|"), host.lower);
    assert names == set name | name in key.scopes;
    assert key.scopes[0] in names;
  }

  /** Four fields, of which only the last may hold the separator. */
  lemma FourFields(a: string, b: string, c: string, d: string)
    requires ':' !in a && ':' !in b && ':' !in c
    ensures SplitAtMost(a + ":" + (b + ":" + (c + ":" + d)), ":", 3) == [a, b, c, d]
  {
    hide Text.Find;
    FirstField(c, d, 0);
    FirstField(b, c + ":" + d, 1);
    FirstField(a, b + ":" + (c + ":" + d), 2);
  }

  lemma FirstField(a: string, rest: string, max: nat)
    requires ':' !in a
    ensures SplitAtMost(a + ":" + rest, ":", max + 1) == [a] + SplitAtMost(rest, ":", max)
  {
    hide Text.Find;
    var s := a + ":" + rest;
    assert s == a + (":" + rest);
    Text.FindChar(a, ':', ":" + rest);
    assert s[..|a|] == a && s[|a| + 1..] == rest;
  }

  lemma FormatTight(a: string, middle: string, d: string)
    requires Text.Tight(a) && Text.Tight(d)
    ensures Text.Tight(a + ":" + (middle + ":" + d))
  {
    hide Text.IsSpace;
    var s := a + ":" + (middle + ":" + d);
    assert s[0] == a[0] && s[|s| - 1] == d[|d| - 1];
  }

  lemma KeyReadsBack(key: Key, host: Host)
    requires key.WellFormed() && host.LowersNames()
    ensures ',' !in key.Format() && !Skipped(key.Format())
    ensures Grants(key.Format(), host) && Granted(key.Format(), host) == key.Meaning()
    ensures Secret(key.Format()) == key.secret
  {
    hide Text.Split, Text.Strip, Text.Join, Text.IsSpace, ParseScopes, SplitAtMost;
    var scopes := Text.Join(key.scopes, "|");
    forall name | name in key.scopes ensures Plain(name) {
      NamesPlain(name);
    }
    JoinedFree(key.scopes, ':');
    JoinedFree(key.scopes, ',');
    JoinedTight(key.scopes);
    FourFields(key.keyId, key.orgId, scopes, key.secret);
    FormatTight(key.keyId, key.orgId + ":" + scopes, key.secret);
    assert key.Format() == key.keyId + ":" + ((key.orgId + ":" + scopes) + ":" + key.secret);
    Text.StripTight(key.Format());
    Text.StripTight(key.keyId);
    Text.StripTight(key.orgId);
    Text.StripTight(scopes);
    Text.StripTight(key.secret);
    assert Fields(key.Format()) == Some(Line(key.keyId, key.orgId, scopes, key.secret));
    ScopesReadBack(key, host);
  }

  predicate KeysWellFormed(keys: seq<Key>) {
    && (forall i | 0 <= i < |keys| :: keys[i].WellFormed())
    && (forall i, j | 0 <= i < j < |keys| :: keys[i].secret != keys[j].secret)
  }

  /** The entries of a formatted list are its keys, or one blank when there is none. */
  lemma EntriesOf(keys: seq<Key>, host: Host)
    requires KeysWellFormed(keys) && host.LowersNames()
    ensures var entries := Text.Split(Text.Join(Formats(keys), ","), ",");
            && AllGrant(entries, host) && SecretsDistinct(entries)
            && (keys == [] ==> entries == [""] && Skipped(""))
            && (keys != [] ==> entries == Formats(keys))
  {
    hide Text.Split, Text.Strip, Text.Join, Text.Tight, Skipped, Grants, Secret, Text.Find;
    var entries := Text.Split(Text.Join(Formats(keys), ","), ",");
    if keys == [] {
      NoKeys();
    } else {
      forall i | 0 <= i < |keys|
        ensures ',' !in keys[i].Format() && Grants(keys[i].Format(), host) && Secret(keys[i].Format()) == keys[i].secret
      {
        KeyReadsBack(keys[i], host);
      }
      Text.SplitJoin(Formats(keys), ',');
    }
  }

  lemma NoKeys()
    ensures Text.Split(Text.Join([], ","), ",") == [""] && Skipped("")
  {
  }

  /** A key bears a secret, and this is whom it means: itself, with the scopes listed, all by the wildcard,
      and for its org or, where tenancy is not enforced, the default one. */
  predicate Bears(key: Key, secret: string, p: Principal, s: Settings) {
    && key.secret == secret && p.keyId == key.keyId && p.subject == key.keyId && p.kind == "api_key"
    && p.scopes == (if "*" in key.scopes then {"ask", "index", "read", "metrics"} else set name | name in key.scopes)
    && (s.enforceTenancy ==> p.orgId == key.orgId)
    && (!s.enforceTenancy ==> p.orgId == s.defaultOrg)
  }

  lemma BornBy(key: Key, host: Host, secret: string, p: Principal, s: Settings)
    requires key.WellFormed() && host.LowersNames()
    ensures !Skipped(key.Format()) && (HeldBy(key.Format(), host, secret, p, s) <==> Bears(key, secret, p, s))
  {
    hide Fields, Granted, Grants, Skipped, Secret, Text.Tight, HeldBy;
    KeyReadsBack(key, host);
    HeldAs(key.Format(), host, secret, p, s);
  }

  /** However the keys are listed, `Bearer <secret>` authenticates as what the key means, whatever
      the org header says, and no other secret does as anyone. */
  lemma KeysRoundTrip(
    keys: seq<Key>, secret: string, xOrgId: Option<string>, s: Settings, host: Host,
    token: string -> Result<Principal, Failure>, p: Principal)
    requires KeysWellFormed(keys) && host.LowersNames() && host.CollisionFree()
    requires s.authRequired && s.apiKeys == Text.Join(Formats(keys), ",")
    requires Text.Tight(secret) && ByKey(secret, s)
    ensures Authenticate(Some("Bearer " + secret), xOrgId, s, host, token) == Ok(p) <==>
              exists i :: 0 <= i < |keys| && Bears(keys[i], secret, p, s)
  {
    hide Authenticate, Credential, ByKey, Fields, Granted, Grants, Skipped, Secret, Text.Split, Text.Join, Text.Tight,
      HeldBy, Bears;
    BearerCredential(secret, host);
    EntriesOf(keys, host);
    AuthenticatedExactly(Some("Bearer " + secret), xOrgId, s, host, token, p);
    var entries := Text.Split(s.apiKeys, ",");
    forall i: nat | i < |keys|
      ensures !Skipped(entries[i]) && (HeldBy(entries[i], host, secret, p, s) <==> Bears(keys[i], secret, p, s))
    {
      BornBy(keys[i], host, secret, p, s);
    }
  }

  lemma BearerCredential(secret: string, host: Host)
    requires host.LowersNames() && Text.Tight(secret)
    ensures Credential(Some("Bearer " + secret), host.lower) == Some(secret)
  {
    hide Text.Strip, Text.Find, Text.IsSpace;
    var a := "Bearer " + secret;
    assert a == "Bearer" + (" " + secret);
    Text.FindChar("Bearer", ' ', " " + secret);
    assert a[..6] == "Bearer" && a[7..] == secret;
    Text.StripTight(secret);
    TightBearer();
    Text.StripTight("Bearer");
  }

  lemma TightBearer()
    ensures Text.Tight("Bearer")
  {
  }

  // ------------------------------------------------------------ what is read how

  /** A header is a credential exactly if it is a scheme that reads `bearer`, a space, and a value that is
      not blank; the credential is the value without the white space around it. */
  lemma CredentialExactly(authorization: string, value: string, lower: string -> string)
    ensures Credential(Some(authorization), lower) == Some(value) <==>
              exists scheme, rest :: IsBearer(authorization, scheme, rest, value, lower)
    ensures lower("") != "bearer" ==>
              (Credential(None, lower) == None && Credential(Some(""), lower) == None)
  {
    hide Text.Strip, Text.Find, Text.OccursAt;
    var n := Text.Find(authorization, " ");
    if n < |authorization| {
      var scheme, rest := authorization[..n], authorization[n + 1..];
      SpaceFound(authorization);
      forall a, b, v | IsBearer(authorization, a, b, v, lower) ensures a == scheme && b == rest {
        FirstSpace(authorization, a, b);
      }
      if Credential(Some(authorization), lower) == Some(value) {
        assert IsBearer(authorization, scheme, rest, value, lower);
      }
    } else {
      forall a, b, v ensures !IsBearer(authorization, a, b, v, lower) {
        if IsBearer(authorization, a, b, v, lower) {
          FirstSpace(authorization, a, b);
        }
      }
      EmptyValue();
    }
  }

  predicate IsBearer(authorization: string, scheme: string, rest: string, value: string, lower: string -> string) {
    && authorization == scheme + " " + rest && ' ' !in scheme && lower(Text.Strip(scheme)) == "bearer"
    && value == Text.Strip(rest) != ""
  }

  lemma EmptyValue()
    ensures Text.Strip("") == ""
  {
  }

  lemma SpaceFound(a: string)
    requires Text.Find(a, " ") < |a|
    ensures var n := Text.Find(a, " "); a == a[..n] + " " + a[n + 1..] && ' ' !in a[..n]
  {
    var n := Text.Find(a, " ");
    assert a[n..n + 1] == " ";
    forall i | 0 <= i < n ensures a[i] != ' ' {
      assert !Text.OccursAt(a, " ", i);
      assert a[i..i + 1] == [a[i]];
    }
  }

  lemma FirstSpace(a: string, scheme: string, rest: string)
    requires a == scheme + " " + rest && ' ' !in scheme
    ensures Text.Find(a, " ") == |scheme| < |a| && a[..|scheme|] == scheme && a[|scheme| + 1..] == rest
  {
    assert a == scheme + (" " + rest);
    Text.FindChar(scheme, ' ', " " + rest);
  }

  /** A credential is taken for a signed token exactly if it is three parts, none of them empty and none with
      a dot, between two dots. */
  lemma LooksLikeJwtExactly(credential: string)
    ensures LooksLikeJwt(credential) <==> exists a, b, c :: IsThreeParts(credential, a, b, c)
  {
    hide Text.Split, Text.Contains;
    var parts := Text.Split(credential, ".");
    Text.JoinSplit(credential, ".");
    if |parts| == 3 {
      JoinThree(parts);
      forall p | p in parts ensures '.' !in p {
        DotFree(p);
      }
      if LooksLikeJwt(credential) {
        assert IsThreeParts(credential, parts[0], parts[1], parts[2]);
      }
    }
    forall a, b, c | IsThreeParts(credential, a, b, c) ensures parts == [a, b, c] {
      JoinThree([a, b, c]);
      Text.SplitJoin([a, b, c], '.');
    }
  }

  predicate IsThreeParts(s: string, a: string, b: string, c: string) {
    s == a + "." + (b + "." + c) && a != "" && b != "" && c != "" && '.' !in a && '.' !in b && '.' !in c
  }

  lemma JoinThree(parts: seq<string>)
    requires |parts| == 3
    ensures Text.Join(parts, ".") == parts[0] + "." + (parts[1] + "." + parts[2])
  {
    assert parts[1..] == [parts[1], parts[2]] && parts[1..][1..] == [parts[2]];
    assert Text.Join(parts[1..], ".") == parts[1] + "." + parts[2];
  }

  lemma DotFree(p: string)
    requires !Text.Contains(p, ".")
    ensures '.' !in p
  {
    forall i | 0 <= i < |p| ensures p[i] != '.' {
      assert !Text.OccursAt(p, ".", i);
      assert p[i..i + 1] == [p[i]];
    }
  }

  /** Without authentication everyone is the same principal, with all scopes, for the org that the header
      names where tenancy is enforced and it names one. */
  lemma AnonymousHasAll(
    authorization: Option<string>, xOrgId: Option<string>, s: Settings, host: Host,
    token: string -> Result<Principal, Failure>)
    requires !s.authRequired
    ensures var r := Authenticate(authorization, xOrgId, s, host, token);
            && r.Ok? && r.value.keyId == "anonymous" && r.value.subject == "anonymous" && r.value.kind == "api_key"
            && r.value.scopes == {"ask", "index", "read", "metrics"}
            && r.value.orgId ==
                 if s.enforceTenancy && xOrgId.Some? && xOrgId.value != "" && Text.Strip(xOrgId.value) != "" then
                   Text.Strip(xOrgId.value)
                 else if s.enforceTenancy && (xOrgId.None? || xOrgId.value == "") && Text.Strip(s.defaultOrg) != "" then
                   Text.Strip(s.defaultOrg)
                 else s.defaultOrg
  {
  }

  /** The fields of an entry, without white space around them: what stands before its first three colons, and
      all the rest, in which there may be more. */
  lemma FieldsExactly(entry: string, line: Line)
    ensures Fields(entry) == Some(line) <==> exists a, b, c, d :: IsFields(entry, line, a, b, c, d)
  {
    hide Text.Strip, SplitAtMost;
    var parts := SplitAtMost(Text.Strip(entry), ":", 3);
    if |parts| == 4 {
      FourParts(Text.Strip(entry));
      if Fields(entry) == Some(line) {
        assert IsFields(entry, line, parts[0], parts[1], parts[2], parts[3]);
      }
    }
    forall a, b, c, d | IsFields(entry, line, a, b, c, d) ensures parts == [a, b, c, d] {
      FourFields(a, b, c, d);
    }
  }

  predicate IsFields(entry: string, line: Line, a: string, b: string, c: string, d: string) {
    && Text.Strip(entry) == a + ":" + (b + ":" + (c + ":" + d)) && ':' !in a && ':' !in b && ':' !in c
    && line == Line(Text.Strip(a), Text.Strip(b), Text.Strip(c), Text.Strip(d))
  }

  lemma OneMorePart(s: string, max: nat)
    requires |SplitAtMost(s, ":", max + 1)| > 1
    ensures var n := Text.Find(s, ":");
            && n < |s| && s == s[..n] + ":" + s[n + 1..] && ':' !in s[..n]
            && SplitAtMost(s, ":", max + 1) == [s[..n]] + SplitAtMost(s[n + 1..], ":", max)
  {
    var n := Text.Find(s, ":");
    assert s[n..n + 1] == ":";
    forall i | 0 <= i < n ensures s[i] != ':' {
      assert !Text.OccursAt(s, ":", i);
      assert s[i..i + 1] == [s[i]];
    }
  }

  lemma FourParts(s: string)
    requires |SplitAtMost(s, ":", 3)| == 4
    ensures var parts := SplitAtMost(s, ":", 3);
            && s == parts[0] + ":" + (parts[1] + ":" + (parts[2] + ":" + parts[3]))
            && ':' !in parts[0] && ':' !in parts[1] && ':' !in parts[2]
  {
    hide SplitAtMost, Text.Find;
    OneMorePart(s, 2);
    var t := s[Text.Find(s, ":") + 1..];
    OneMorePart(t, 1);
    var u := t[Text.Find(t, ":") + 1..];
    OneMorePart(u, 0);
    LastPart(u[Text.Find(u, ":") + 1..]);
  }

  lemma LastPart(s: string)
    ensures SplitAtMost(s, ":", 0) == [s]
  {
  }

  /** Each error says what is wrong with the first bad entry, and where it stands. */
  lemma ErrorsExactly(entries: seq<string>, host: Host)
    requires host.CollisionFree() && Parsed(entries, host).Err?
    ensures exists n: nat :: n < |entries| && Parsed(entries[..n], host).Ok? && !Skipped(entries[n])
              && BadEntry(Parsed(entries, host).error, entries, n, host)
    decreases |entries|
  {
    hide Fields, ParseScopes, Skipped, BadEntry, WithEntry;
    var n := |entries| - 1;
    if Parsed(entries[..n], host).Err? {
      ErrorsExactly(entries[..n], host);
      var m: nat :| m < n && Parsed(entries[..n][..m], host).Ok? && !Skipped(entries[..n][m])
                    && BadEntry(Parsed(entries[..n], host).error, entries[..n], m, host);
      assert entries[..n][..m] == entries[..m];
      BadEntryAmong(Parsed(entries, host).error, entries, n, m, host);
    } else {
      LastBad(entries, host);
    }
  }

  /** What the error of an entry says. */
  ghost predicate BadEntry(e: Error, entries: seq<string>, n: nat, host: Host)
    requires n < |entries|
  {
    match e
    case Malformed(position) => position == n + 1 && Fields(entries[n]).None?
    case EmptyField(position) =>
      position == n + 1 && Fields(entries[n]).Some? && !Fields(entries[n]).value.Complete()
    case SharedSecret(holder, keyId) =>
      && Fields(entries[n]).Some? && keyId == Fields(entries[n]).value.keyId
      && exists m: nat :: m < n && SharesWith(entries, m, n, holder)
    case _ =>
      && Fields(entries[n]).Some?
      && ParseScopes(Fields(entries[n]).value.scopeField, Fields(entries[n]).value.keyId, host.lower) == Err(e)
  }

  predicate SharesWith(entries: seq<string>, m: nat, n: nat, holder: string)
    requires m < n < |entries|
  {
    && !Skipped(entries[m]) && Fields(entries[m]).Some? && Fields(entries[n]).Some?
    && Fields(entries[m]).value.keyId == holder && Fields(entries[m]).value.secret == Fields(entries[n]).value.secret
  }

  lemma BadEntryAmong(e: Error, entries: seq<string>, n: nat, m: nat, host: Host)
    requires m < n <= |entries| && BadEntry(e, entries[..n], m, host)
    ensures BadEntry(e, entries, m, host)
  {
    hide Fields, ParseScopes, Skipped;
    if e.SharedSecret? {
      var k: nat :| k < m && SharesWith(entries[..n], k, m, e.holder);
      assert SharesWith(entries, k, m, e.holder);
    }
  }

  lemma ScopeErrors(field: string, keyId: string, lower: string -> string)
    ensures var r := ParseScopes(field, keyId, lower); r.Err? ==> r.error.NoScopes? || r.error.UnknownScopes?
  {
    hide ScopeNames;
  }

  /** Why a turn of the loop fails. */
  lemma EntryErrors(table: Table, entry: string, position: nat, host: Host)
    requires WithEntry(table, entry, position, host).Err?
    ensures !Skipped(entry)
    ensures match WithEntry(table, entry, position, host).error
            case Malformed(n) => n == position && Fields(entry).None?
            case EmptyField(n) => n == position && Fields(entry).Some? && !Fields(entry).value.Complete()
            case SharedSecret(holder, keyId) =>
              && Fields(entry).Some? && keyId == Fields(entry).value.keyId
              && host.digest(Fields(entry).value.secret) in table
              && holder == table[host.digest(Fields(entry).value.secret)].keyId
            case e =>
              && Fields(entry).Some?
              && ParseScopes(Fields(entry).value.scopeField, Fields(entry).value.keyId, host.lower) == Err(e)
  {
    hide Fields, ParseScopes, Skipped;
    if Fields(entry).Some? {
      ScopeErrors(Fields(entry).value.scopeField, Fields(entry).value.keyId, host.lower);
    }
  }

  lemma HolderFound(table: Table, entries: seq<string>, secret: string, host: Host) returns (m: nat)
    requires host.CollisionFree() && AllGrant(entries, host) && TableOf(table, entries, host)
    requires host.digest(secret) in table
    ensures m < |entries| && !Skipped(entries[m]) && Fields(entries[m]).Some?
    ensures Fields(entries[m]).value.secret == secret
    ensures Fields(entries[m]).value.keyId == table[host.digest(secret)].keyId
  {
    hide Fields, ParseScopes, Skipped;
    var other;
    m, other :| host.digest(secret) == host.digest(other) && Source(entries, m, other);
    assert Grants(entries[m], host);
  }

  lemma LastBad(entries: seq<string>, host: Host)
    requires host.CollisionFree() && entries != [] && Parsed(entries, host).Err?
    requires Parsed(entries[..|entries| - 1], host).Ok?
    ensures !Skipped(entries[|entries| - 1]) && BadEntry(Parsed(entries, host).error, entries, |entries| - 1, host)
  {
    hide Fields, ParseScopes, Skipped, WithEntry, AllGrant, TableOf;
    var n := |entries| - 1;
    var init, table := entries[..n], Parsed(entries[..n], host).value;
    EntryErrors(table, entries[n], n + 1, host);
    if Parsed(entries, host).error.SharedSecret? {
      ParsedExactly(init, host);
      var m := HolderFound(table, init, Fields(entries[n]).value.secret, host);
      assert init[m] == entries[m];
      assert SharesWith(entries, m, n, Parsed(entries, host).error.holder);
    }
  }
}
