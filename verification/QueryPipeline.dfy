/** The DNS-over-HTTPS query handler as a step over limiter and cache, under fixed feeds and zones, and
    what every run of queries keeps. */
module QueryPipeline {
  import opened Basics
  import opened DomainNames
  import opened ThreatFeeds
  import opened Zones
  import opened Tokens
  import opened Traces
  import TokenBuckets

  const NOERROR := 0
  const NXDOMAIN := 3

  /** A DNS response: its status and the data of its answers. */
  datatype Response = Response(status: int, answers: seq<string>)

  const DENIED := Response(NXDOMAIN, [])

  /** Configuration and foreign code. */
  datatype Config = Config(rate: TokenBuckets.Rate, maxKeys: nat, limiting: bool, zones: seq<Zone>, cacheTtl: real,
                           jwt: Jwt, publicKey: string, publicKeys: KeySet, isBlockedAddress: string -> bool)

  datatype Query = Query(domain: string, rtype: string, token: string, clientIp: string, now: real, link: Link,
                         cacheUp: bool, public: Response)

  datatype CacheEntry = CacheEntry(response: Response, expires: real)
  type Cache = map<string, CacheEntry>

  datatype Reply = BadRequest | TooMany(retryAfter: int) | Answered(response: Response)

  /** `dns:{domain}:{record_type}` */
  function CacheKey(domain: string, rtype: string): string {
    "dns:" + domain + ":" + rtype
  }

  // ----- the checks

  /** The claims that give a query its identity and its domain policy: verified with the single key alone. */
  function PolicyClaims(cfg: Config, token: string): Option<Claims> {
    Verify(cfg.jwt, token, cfg.publicKey, [])
  }

  /** The claims that open a zone: verified with the whole key set. */
  function ZoneClaims(cfg: Config, token: string): Option<Claims> {
    Verify(cfg.jwt, token, cfg.publicKey, cfg.publicKeys)
  }

  /** The identity that is rate limited: the token's subject, else the client's address. */
  function Identity(cfg: Config, q: Query): string {
    var claims := PolicyClaims(cfg, q.token);
    if claims.Some? && claims.value.subject != "" then claims.value.subject
    else if q.clientIp != "" then q.clientIp
    else "unknown"
  }

  function Teams(cfg: Config, q: Query): Option<seq<string>> {
    match ZoneClaims(cfg, q.token)
    case None => None
    case Some(claims) => Some(claims.teams)
  }

  predicate ZoneAllows(cfg: Config, q: Query) {
    ZoneGate(cfg.zones, q.domain, ModeOf(q.link), Teams(cfg, q))
  }

  /** The token's allowlist, if the token verifies, allows the name. */
  ghost predicate TokenAllows(cfg: Config, token: string, domain: string) {
    var claims := PolicyClaims(cfg, token);
    claims.None? || PolicyAllows(claims.value.dnsDomains, domain)
  }

  predicate AddressBlocked(cfg: Config, r: Response) {
    exists a <- r.answers :: cfg.isBlockedAddress(a)
  }

  function MatchingValues(records: seq<ZoneRecord>, domain: string, rtype: string): seq<string> {
    if records == [] then []
    else
      (if records[0].name == domain && records[0].rtype == rtype then [records[0].value] else [])
      + MatchingValues(records[1..], domain, rtype)
  }

  /** `resolve_custom_zone` */
  function FromZone(records: seq<ZoneRecord>, domain: string, rtype: string): Response {
    var values := MatchingValues(records, domain, rtype);
    if values == [] then Response(NXDOMAIN, []) else Response(NOERROR, values)
  }

  predicate Matches(r: ZoneRecord, domain: string, rtype: string) {
    r.name == domain && r.rtype == rtype
  }

  /** `at` lists, in order, exactly the records with this name and type. */
  ghost predicate Picks(at: seq<nat>, records: seq<ZoneRecord>, domain: string, rtype: string) {
    && (forall k :: 0 <= k < |at| ==> at[k] < |records| && Matches(records[at[k]], domain, rtype))
    && (forall j, k :: 0 <= j < k < |at| ==> at[j] < at[k])
    && (forall i :: 0 <= i < |records| && Matches(records[i], domain, rtype) ==> i in at)
  }

  /** The values of a zone's records with the name and type asked for, in order, with status 0; or no answer with
      status 3 when there is no such record. */
  ghost predicate AnswersFrom(records: seq<ZoneRecord>, domain: string, rtype: string, r: Response) {
    exists at: seq<nat> :: Picks(at, records, domain, rtype) && ValuesAt(at, records, r)
  }

  predicate ValuesAt(at: seq<nat>, records: seq<ZoneRecord>, r: Response) {
    && |r.answers| == |at| && r.status == (if at == [] then 3 else 0)
    && forall k :: 0 <= k < |at| ==> at[k] < |records| && r.answers[k] == records[at[k]].value
  }

  lemma {:induction false} MatchingAppend(records: seq<ZoneRecord>, r: ZoneRecord, domain: string, rtype: string)
    ensures MatchingValues(records + [r], domain, rtype)
            == MatchingValues(records, domain, rtype) + (if Matches(r, domain, rtype) then [r.value] else [])
    decreases |records|
  {
    if records == [] {
      assert records + [r] == [r] && [r][1..] == [];
    } else {
      assert (records + [r])[1..] == records[1..] + [r];
      MatchingAppend(records[1..], r, domain, rtype);
    }
  }

  lemma {:induction false} MatchingPicks(records: seq<ZoneRecord>, domain: string, rtype: string) returns (at: seq<nat>)
    ensures Picks(at, records, domain, rtype) && |MatchingValues(records, domain, rtype)| == |at|
    ensures forall k :: 0 <= k < |at| ==> MatchingValues(records, domain, rtype)[k] == records[at[k]].value
    decreases |records|
  {
    if records == [] {
      at := [];
    } else {
      var n := |records| - 1;
      var earlier := MatchingPicks(records[..n], domain, rtype);
      MatchingAppend(records[..n], records[n], domain, rtype);
      assert records == records[..n] + [records[n]];
      at := PickLast(earlier, records, domain, rtype);
    }
  }

  lemma {:induction false} PickLast(earlier: seq<nat>, records: seq<ZoneRecord>, domain: string, rtype: string) returns (at: seq<nat>)
    requires records != [] && Picks(earlier, records[..|records| - 1], domain, rtype)
    ensures at == earlier + (if Matches(records[|records| - 1], domain, rtype) then [|records| - 1] else [])
    ensures Picks(at, records, domain, rtype)
  {
    var n := |records| - 1;
    at := earlier + (if Matches(records[n], domain, rtype) then [n] else []);
    forall i | 0 <= i < |records| && Matches(records[i], domain, rtype) ensures i in at {
      if i < n {
        assert Matches(records[..n][i], domain, rtype);
      } else {
        assert at[|at| - 1] == n;
      }
    }
  }

  /** A zone answers with exactly its records of that name and type. */
  lemma {:induction false} FromZoneIs(records: seq<ZoneRecord>, domain: string, rtype: string)
    ensures AnswersFrom(records, domain, rtype, FromZone(records, domain, rtype))
  {
    var at := MatchingPicks(records, domain, rtype);
    assert ValuesAt(at, records, FromZone(records, domain, rtype));
  }

  /** A zone with records answers from them, everything else from public DNS. */
  function Resolved(router: map<string, Zone>, q: Query): Response {
    var records := RecordsFor(router, q.domain);
    if records.Some? && records.value != [] then FromZone(records.value, q.domain, q.rtype) else q.public
  }

  // ----- one query

  datatype State = State(limiter: TokenBuckets.Table, cache: Cache)

  /** What the services hold while feeds and zones stay loaded. */
  datatype Loaded = Loaded(exact: set<string>, wildcards: set<string>, router: map<string, Zone>)

  predicate Limited(cfg: Config, s: State, q: Query) {
    cfg.limiting && !TokenBuckets.Accepts(cfg.rate, s.limiter, Identity(cfg, q), q.now)
  }

  function Charged(cfg: Config, s: State, q: Query): State {
    if !cfg.limiting then s
    else s.(limiter := TokenBuckets.After(cfg.rate, cfg.maxKeys, s.limiter, Identity(cfg, q), q.now))
  }

  ghost predicate NameAllowed(cfg: Config, loaded: Loaded, q: Query) {
    && ZoneAllows(cfg, q)
    && TokenAllows(cfg, q.token, q.domain)
    && !Listed(loaded.exact, loaded.wildcards, FeedForm(q.domain))
  }

  predicate Hit(s: State, q: Query) {
    var key := CacheKey(q.domain, q.rtype);
    q.cacheUp && key in s.cache && q.now < s.cache[key].expires
  }

  /** Resolving a query that missed the cache. */
  function Fetched(cfg: Config, loaded: Loaded, q: Query): Response {
    var r := Resolved(loaded.router, q);
    if AddressBlocked(cfg, r) then DENIED else r
  }

  function Stored(cfg: Config, loaded: Loaded, s: State, q: Query): State {
    var r := Resolved(loaded.router, q);
    if q.cacheUp && r.status == NOERROR && !AddressBlocked(cfg, r)
    then s.(cache := s.cache[CacheKey(q.domain, q.rtype) := CacheEntry(r, q.now + cfg.cacheTtl)])
    else s
  }

  ghost function ReplyTo(cfg: Config, loaded: Loaded, s: State, q: Query): Reply {
    if q.domain == "" then BadRequest
    else if Limited(cfg, s, q) then
      TooMany(TokenBuckets.Emitted(TokenBuckets.RetryAfter(cfg.rate, Charged(cfg, s, q).limiter, Identity(cfg, q), q.now)))
    else if !NameAllowed(cfg, loaded, q) then Answered(DENIED)
    else if Hit(s, q) then Answered(s.cache[CacheKey(q.domain, q.rtype)].response)
    else Answered(Fetched(cfg, loaded, q))
  }

  ghost function Next(cfg: Config, loaded: Loaded, s: State, q: Query): State {
    if q.domain == "" then s
    else if Limited(cfg, s, q) || !NameAllowed(cfg, loaded, q) || Hit(s, q) then Charged(cfg, s, q)
    else Stored(cfg, loaded, Charged(cfg, s, q), q)
  }

  // ----- the handler

  class DnsServer {
    var cfg: Config
    const limiter: TokenBuckets.InMemoryBackend
    const checker: IocChecker
    const router: SelectiveRouter
    var cache: Cache

    constructor (cfg: Config, limiter: TokenBuckets.InMemoryBackend, checker: IocChecker, router: SelectiveRouter)
      ensures this.cfg == cfg && this.limiter == limiter && this.checker == checker && this.router == router && cache == map[]
    {
      this.cfg := cfg;
      this.limiter := limiter;
      this.checker := checker;
      this.router := router;
      cache := map[];
    }

    ghost predicate Valid()
      reads this, limiter, checker
    {
      && limiter.Valid() && checker.Valid()
      && limiter.rate == cfg.rate && limiter.maxKeys == cfg.maxKeys
      && TokenBuckets.Clamped(cfg.rate) && cfg.maxKeys >= 1
    }

    function Now(): State
      reads this, limiter
    {
      State(limiter.View(), cache)
    }

    function Services(): Loaded
      reads checker, router
    {
      Loaded(checker.blockedDomains, checker.wildcardDomains, router.zones)
    }

    method DnsQuery(q: Query) returns (reply: Reply)
      requires Valid()
      modifies this`cache, limiter
      ensures Valid()
      ensures reply == ReplyTo(cfg, Services(), old(Now()), q)
      ensures Now() == Next(cfg, Services(), old(Now()), q)
    {
      if q.domain == "" {
        return BadRequest;
      }
      var identity := Identity(cfg, q);
      if cfg.limiting {
        var allowed := limiter.CheckAndConsume(identity, q.now);
        if !allowed {
          var seconds := limiter.GetRetryAfter(identity, q.now);
          return TooMany(TokenBuckets.Emitted(seconds));
        }
      }
      var passes := PassesChecks(q);
      if !passes {
        return Answered(DENIED);
      }
      var result := CachedOrFetched(q);
      reply := Answered(result);
    }

    /** The answer to an allowed query. */
    method CachedOrFetched(q: Query) returns (result: Response)
      modifies this`cache
      ensures var s := State(TokenBuckets.EMPTY, old(cache));
              if Hit(s, q) then cache == old(cache) && result == cache[CacheKey(q.domain, q.rtype)].response
              else cache == Stored(cfg, Services(), s, q).cache && result == Fetched(cfg, Services(), q)
    {
      var key := CacheKey(q.domain, q.rtype);
      if q.cacheUp && key in cache && q.now < cache[key].expires {
        return cache[key].response;
      }
      result := Fetch(q);
    }

    /** One turn of `sync_task` after a configuration arrived: an empty list of zones, or of feeds, replaces the
        configuration but leaves loaded what was loaded before. */
    method Sync(zones: seq<Zone>, feeds: seq<seq<string>>)
      requires Valid()
      modifies this`cfg, checker, router
      ensures Valid()
      ensures cfg == old(cfg).(zones := zones)
      ensures router.zones == Synced(old(router.zones), zones)
      ensures LoadedFrom(router.zones, zones) <==> zones != [] || old(router.zones) == map[]
      ensures feeds == [] ==> Services().exact == old(Services().exact) && Services().wildcards == old(Services().wildcards)
      ensures feeds != [] ==>
                forall name :: Listed(checker.blockedDomains, checker.wildcardDomains, name)
                               <==> ListedByFeeds(checker.isAddress, feeds, name)
    {
      SyncAgreesIff(router.zones, zones);
      cfg := cfg.(zones := zones);
      if zones != [] {
        router.LoadZones(zones);
      }
      if feeds != [] {
        checker.LoadFeeds(feeds);
      }
    }

    /** Zone gate, domain policy, name feeds, in that order. */
    method PassesChecks(q: Query) returns (passes: bool)
      requires checker.Valid()
      ensures passes == NameAllowed(cfg, Services(), q)
    {
      var named := FindZoneName(cfg.zones, q.domain);
      if !ShouldServe(cfg.zones, named, ModeOf(q.link), Teams(cfg, q)) {
        return false;
      }
      var claims := PolicyClaims(cfg, q.token);
      if claims.Some? {
        var matches := MatchesPolicy(q.domain, claims.value.dnsDomains);
        if !matches {
          return false;
        }
      }
      var blocked := checker.IsBlocked(q.domain);
      passes := !blocked;
    }

    method AnyBlocked(r: Response) returns (blocked: bool)
      ensures blocked == AddressBlocked(cfg, r)
    {
      for i := 0 to |r.answers|
        invariant forall k :: 0 <= k < i ==> !cfg.isBlockedAddress(r.answers[k])
      {
        if cfg.isBlockedAddress(r.answers[i]) {
          return true;
        }
      }
      blocked := false;
    }

    /** Resolves, checks the answers' addresses and caches a success. */
    method Fetch(q: Query) returns (result: Response)
      modifies this`cache
      ensures result == Fetched(cfg, Services(), q)
      ensures cache == Stored(cfg, Services(), State(TokenBuckets.EMPTY, old(cache)), q).cache
    {
      var records := router.GetZoneRecords(q.domain);
      result := if records.Some? && records.value != []
                then FromZone(records.value, q.domain, q.rtype) else q.public;
      var blocked := AnyBlocked(result);
      if blocked {
        return DENIED;
      }
      if result.status == NOERROR && q.cacheUp {
        cache := cache[CacheKey(q.domain, q.rtype) := CacheEntry(result, q.now + cfg.cacheTtl)];
      }
    }
  }

  // ----- whole runs

  const START := State(TokenBuckets.EMPTY, map[])

  ghost function Run(cfg: Config, loaded: Loaded, s: State, qs: seq<Query>): State {
    if qs == [] then s else Next(cfg, loaded, Run(cfg, loaded, s, qs[..|qs| - 1]), qs[|qs| - 1])
  }

  /** `q` was allowed, has this cache key, and resolved to the entry, which lasts for the cache's lifetime from then. */
  ghost predicate ResolvedBy(cfg: Config, loaded: Loaded, q: Query, key: string, e: CacheEntry) {
    && CacheKey(q.domain, q.rtype) == key && NameAllowed(cfg, loaded, q)
    && Resolved(loaded.router, q) == e.response && e.expires == q.now + cfg.cacheTtl
  }

  /** Every cached response succeeded, names no blocked address, and is what some query with that cache key resolved to. */
  ghost predicate Clean(cfg: Config, loaded: Loaded, cache: Cache, qs: seq<Query>) {
    forall key :: key in cache ==>
      && cache[key].response.status == NOERROR
      && !AddressBlocked(cfg, cache[key].response)
      && exists q <- qs :: ResolvedBy(cfg, loaded, q, key, cache[key])
  }

  lemma {:induction false} NextClean(cfg: Config, loaded: Loaded, s: State, qs: seq<Query>, q: Query)
    requires Clean(cfg, loaded, s.cache, qs)
    ensures Clean(cfg, loaded, Next(cfg, loaded, s, q).cache, qs + [q])
  {
    var next, more := Next(cfg, loaded, s, q).cache, qs + [q];
    assert forall e <- qs :: e in more;
    assert q in more;
    if next != s.cache {
      StoredClean(cfg, loaded, s, q);
    }
  }

  /** The one entry a query may add is what that query resolved to. */
  lemma {:induction false} StoredClean(cfg: Config, loaded: Loaded, s: State, q: Query)
    requires Next(cfg, loaded, s, q).cache != s.cache
    ensures var key, r := CacheKey(q.domain, q.rtype), Resolved(loaded.router, q);
            && Next(cfg, loaded, s, q).cache == s.cache[key := CacheEntry(r, q.now + cfg.cacheTtl)]
            && r.status == NOERROR && !AddressBlocked(cfg, r)
            && ResolvedBy(cfg, loaded, q, key, CacheEntry(r, q.now + cfg.cacheTtl))
  {
    var charged := Charged(cfg, s, q);
    assert charged.cache == s.cache;
    assert NameAllowed(cfg, loaded, q);
    assert Next(cfg, loaded, s, q) == Stored(cfg, loaded, charged, q);
    StoredChanges(cfg, loaded, charged, q);
  }

  lemma {:induction false} StoredChanges(cfg: Config, loaded: Loaded, s: State, q: Query)
    requires Stored(cfg, loaded, s, q).cache != s.cache
    ensures var key, r := CacheKey(q.domain, q.rtype), Resolved(loaded.router, q);
            && Stored(cfg, loaded, s, q).cache == s.cache[key := CacheEntry(r, q.now + cfg.cacheTtl)]
            && r.status == NOERROR && !AddressBlocked(cfg, r)
  {
  }

  lemma {:induction false} RunClean(cfg: Config, loaded: Loaded, qs: seq<Query>)
    ensures Clean(cfg, loaded, Run(cfg, loaded, START, qs).cache, qs)
    decreases |qs|
  {
    if qs == [] {
    } else {
      var earlier, q := qs[..|qs| - 1], qs[|qs| - 1];
      RunClean(cfg, loaded, earlier);
      NextClean(cfg, loaded, Run(cfg, loaded, START, earlier), earlier, q);
      assert qs == earlier + [q];
    }
  }

  /** After any run, a non-empty answer is given only to a query that is within its rate and passes the zone
      gate, its token's policy and the name feeds; and no answer names a blocked address. */
  lemma {:induction false} ServedAnswersPassed(cfg: Config, loaded: Loaded, qs: seq<Query>, q: Query)
    requires var reply := ReplyTo(cfg, loaded, Run(cfg, loaded, START, qs), q);
             reply.Answered? && reply.response.answers != []
    ensures var s := Run(cfg, loaded, START, qs);
            var r := ReplyTo(cfg, loaded, s, q).response;
            && !Limited(cfg, s, q)
            && ZoneAllows(cfg, q) && TokenAllows(cfg, q.token, q.domain)
            && !Listed(loaded.exact, loaded.wildcards, FeedForm(q.domain))
            && forall a <- r.answers :: !cfg.isBlockedAddress(a)
  {
    RunClean(cfg, loaded, qs);
  }

  // ----- cache keys

  /** No other question has the cache key of this one. */
  ghost predicate KeyIsItsOwn(domain: string, rtype: string) {
    forall b, y :: CacheKey(b, y) == CacheKey(domain, rtype) ==> b == domain && y == rtype
  }

  lemma {:induction false} OnlyColon(a: string, x: string, b: string, y: string)
    requires ':' !in a && ':' !in x && b + ":" + y == a + ":" + x
    ensures a == b && x == y
  {
    var s := a + ":" + x;
    assert s[|b|] == ':';
    assert forall i :: 0 <= i < |s| && i != |a| ==> s[i] != ':';
    assert s[..|b|] == b && s[|b| + 1..] == y && s[..|a|] == a && s[|a| + 1..] == x;
  }

  /** A question shares its cache key with no other exactly when neither its name nor its type has a colon. */
  lemma {:induction false} KeyIsItsOwnIff(domain: string, rtype: string)
    ensures KeyIsItsOwn(domain, rtype) <==> ':' !in domain && ':' !in rtype
  {
    if ':' in domain {
      var i :| 0 <= i < |domain| && domain[i] == ':';
      MoveColon(domain[..i], domain[i + 1..], rtype);
      assert domain == domain[..i] + ":" + domain[i + 1..];
    } else if ':' in rtype {
      var i :| 0 <= i < |rtype| && rtype[i] == ':';
      MoveColon(domain, rtype[..i], rtype[i + 1..]);
      assert rtype == rtype[..i] + ":" + rtype[i + 1..];
    } else {
      forall b, y | CacheKey(b, y) == CacheKey(domain, rtype) ensures b == domain && y == rtype {
        KeyTail(b, y);
        KeyTail(domain, rtype);
        OnlyColon(domain, rtype, b, y);
      }
    }
  }

  lemma KeyTail(domain: string, rtype: string)
    ensures CacheKey(domain, rtype)[4..] == domain + ":" + rtype
  {
  }

  /** Either of two colons may be the one that separates. */
  lemma MoveColon(a: string, b: string, c: string)
    ensures CacheKey(a + ":" + b, c) == CacheKey(a, b + ":" + c)
    ensures a + ":" + b != a && b + ":" + c != c
  {
    assert |a + ":" + b| > |a| && |b + ":" + c| > |c|;
  }

  /** Whatever else was asked, a cached answer to a question without a colon is what an earlier allowed query with
      the same name and type resolved to, no longer ago than the cache keeps it. */
  lemma {:induction false} CacheServesSameQuestion(cfg: Config, loaded: Loaded, qs: seq<Query>, q: Query) returns (i: nat)
    requires ':' !in q.domain && ':' !in q.rtype
    requires Hit(Run(cfg, loaded, START, qs), q)
    ensures i < |qs| && qs[i].domain == q.domain && qs[i].rtype == q.rtype && NameAllowed(cfg, loaded, qs[i])
    ensures q.now < qs[i].now + cfg.cacheTtl
    ensures Run(cfg, loaded, START, qs).cache[CacheKey(q.domain, q.rtype)].response == Resolved(loaded.router, qs[i])
  {
    RunClean(cfg, loaded, qs);
    var key := CacheKey(q.domain, q.rtype);
    var cache := Run(cfg, loaded, START, qs).cache;
    i :| 0 <= i < |qs| && ResolvedBy(cfg, loaded, qs[i], key, cache[key]);
    KeyIsItsOwnIff(q.domain, q.rtype);
  }

  // ----- who gets the records of a zone

  /** The caller of `q` may use `zone`: it is public; or the server has not lost touch with its manager and the caller
      has a verified token, of one of the zone's teams if it has any; or the zone's name is empty. */
  predicate MayUse(cfg: Config, q: Query, zone: Zone) {
    || zone.name == "" || zone.visibility == "public"
    || (InTouch(q.link) && ZoneClaims(cfg, q.token).Some?
        && (|zone.allowedTeams| == 0
            || exists t <- zone.allowedTeams :: t in ZoneClaims(cfg, q.token).value.teams))
  }

  /** The manager's token is valid or could be refreshed, or the cached configuration is young enough. */
  predicate InTouch(link: Link) {
    link.tokenValid || link.refreshed || (link.cacheAge.Some? && link.cacheAge.value < link.cacheTtl)
  }

  /** With distinct zone names listed before their ancestors, the gate lets a query for a zone's name through
      exactly when its caller may use that zone. */
  lemma {:induction false} GateIff(cfg: Config, loaded: Loaded, q: Query, served: Zone)
    requires LoadedFrom(loaded.router, cfg.zones) && DistinctNames(cfg.zones) && ChildrenFirst(cfg.zones)
    requires Nearest(loaded.router, q.domain, 0) == Some(served)
    ensures ZoneAllows(cfg, q) <==> MayUse(cfg, q, served)
  {
    NearestIsLongest(loaded.router, q.domain, 0);
    ServedZoneGateIff(loaded.router, cfg.zones, q.domain, ModeOf(q.link), Teams(cfg, q), served);
    MayUseIff(cfg, q, served);
  }

  lemma {:induction false} MayUseIff(cfg: Config, q: Query, zone: Zone)
    ensures MayUse(cfg, q, zone)
            <==> zone.name == "" || zone.visibility == "public"
                 || (ModeOf(q.link) != Degraded && Permitted(zone, Teams(cfg, q)))
  {
  }

  /** In every run with such zones, an answer to a question without a colon, for a name in a zone with records,
      is that zone's own records, cached or not, and goes only to a caller who may use the zone. */
  lemma {:induction false} ZoneAnswersOnlyToPermitted(cfg: Config, loaded: Loaded, qs: seq<Query>, q: Query, served: Zone)
    requires ':' !in q.domain && ':' !in q.rtype
    requires LoadedFrom(loaded.router, cfg.zones) && DistinctNames(cfg.zones) && ChildrenFirst(cfg.zones)
    requires Nearest(loaded.router, q.domain, 0) == Some(served) && served.records != []
    requires var reply := ReplyTo(cfg, loaded, Run(cfg, loaded, START, qs), q);
             reply.Answered? && reply.response.answers != []
    ensures AnswersFrom(served.records, q.domain, q.rtype, ReplyTo(cfg, loaded, Run(cfg, loaded, START, qs), q).response)
    ensures MayUse(cfg, q, served)
  {
    var s := Run(cfg, loaded, START, qs);
    ServedAnswersPassed(cfg, loaded, qs, q);
    GateIff(cfg, loaded, q, served);
    ResolvedFromZone(loaded.router, q, served);
    FromZoneIs(served.records, q.domain, q.rtype);
    if Hit(s, q) {
      var i := CacheServesSameQuestion(cfg, loaded, qs, q);
      ResolvedFromZone(loaded.router, qs[i], served);
    }
  }

  lemma {:induction false} ResolvedFromZone(router: map<string, Zone>, q: Query, served: Zone)
    requires Nearest(router, q.domain, 0) == Some(served) && served.records != []
    ensures Resolved(router, q) == FromZone(served.records, q.domain, q.rtype)
  {
  }

  /** After a sync to no zones, the old zones are still served, to any caller. */
  lemma {:induction false} RemovedZonesStayServed(cfg: Config, loaded: Loaded, s: State, q: Query, served: Zone)
    requires cfg.zones == [] && Nearest(loaded.router, q.domain, 0) == Some(served) && served.records != []
    requires q.domain != "" && !Limited(cfg, s, q) && !Hit(s, q)
    requires TokenAllows(cfg, q.token, q.domain) && !Listed(loaded.exact, loaded.wildcards, FeedForm(q.domain))
    requires forall r <- served.records :: !cfg.isBlockedAddress(r.value)
    ensures var reply := ReplyTo(cfg, loaded, s, q);
            reply.Answered? && AnswersFrom(served.records, q.domain, q.rtype, reply.response)
  {
    ResolvedFromZone(loaded.router, q, served);
    FromZoneIs(served.records, q.domain, q.rtype);
    assert ZoneAllows(cfg, q);
    var at := MatchingPicks(served.records, q.domain, q.rtype);
  }

  // ----- what an allowed query gets

  /** A query that is within its rate, allowed and not cached gets the records of its zone, or else what public DNS
      says; unless that names a blocked address, which makes it a name that does not exist. */
  lemma {:induction false} FreshReplyIs(cfg: Config, loaded: Loaded, s: State, q: Query) returns (found: Response)
    requires q.domain != "" && !Limited(cfg, s, q) && NameAllowed(cfg, loaded, q) && !Hit(s, q)
    ensures var zone := Nearest(loaded.router, q.domain, 0);
            if zone.Some? && zone.value.records != [] then AnswersFrom(zone.value.records, q.domain, q.rtype, found)
            else found == q.public
    ensures ReplyTo(cfg, loaded, s, q)
            == Answered(if exists a <- found.answers :: cfg.isBlockedAddress(a) then Response(3, []) else found)
  {
    found := Resolved(loaded.router, q);
    var zone := Nearest(loaded.router, q.domain, 0);
    if zone.Some? {
      FromZoneIs(zone.value.records, q.domain, q.rtype);
    }
  }

  /** A refusal by the zone gate, the policy or the feeds looks like a name that does not exist. */
  lemma {:induction false} RefusedReplyIs(cfg: Config, loaded: Loaded, s: State, q: Query)
    requires q.domain != "" && !Limited(cfg, s, q) && !NameAllowed(cfg, loaded, q)
    ensures ReplyTo(cfg, loaded, s, q) == Answered(Response(3, [])) && Next(cfg, loaded, s, q).cache == s.cache
  {
  }

  /** A successful answer is given again to every allowed query of the same question while it lasts, whatever public
      DNS says by then. */
  lemma {:induction false} StoredIsServed(cfg: Config, loaded: Loaded, s: State, first: Query, q: Query)
    requires first.domain != "" && !Limited(cfg, s, first) && NameAllowed(cfg, loaded, first) && !Hit(s, first)
    requires first.cacheUp && Resolved(loaded.router, first).status == 0 && !AddressBlocked(cfg, Resolved(loaded.router, first))
    requires q.domain == first.domain && q.rtype == first.rtype && q.cacheUp && q.now < first.now + cfg.cacheTtl
    requires !Limited(cfg, Next(cfg, loaded, s, first), q) && NameAllowed(cfg, loaded, q)
    ensures ReplyTo(cfg, loaded, Next(cfg, loaded, s, first), q) == ReplyTo(cfg, loaded, s, first)
  {
  }

  // ----- rates over runs of queries

  /** The requests that the limiter sees: every query with a name. */
  function Charges(cfg: Config, qs: seq<Query>): (trace: seq<Request>) {
    if qs == [] then []
    else
      var n := |qs| - 1;
      Charges(cfg, qs[..n]) + (if qs[n].domain == "" then [] else [Request(qs[n].now, Identity(cfg, qs[n]))])
  }

  lemma {:induction false} LimiterAfter(cfg: Config, loaded: Loaded, s: State, q: Query)
    requires cfg.limiting
    ensures Next(cfg, loaded, s, q).limiter
            == if q.domain == "" then s.limiter
               else TokenBuckets.After(cfg.rate, cfg.maxKeys, s.limiter, Identity(cfg, q), q.now)
  {
  }

  lemma {:induction false} LimiterAfterRun(cfg: Config, loaded: Loaded, qs: seq<Query>)
    requires cfg.limiting
    ensures Run(cfg, loaded, START, qs).limiter
            == TokenBuckets.Run(cfg.rate, cfg.maxKeys, TokenBuckets.EMPTY, Charges(cfg, qs))
    decreases |qs|
  {
    if qs != [] {
      var n := |qs| - 1;
      LimiterAfterRun(cfg, loaded, qs[..n]);
      LimiterAfter(cfg, loaded, Run(cfg, loaded, START, qs[..n]), qs[n]);
      var charges := Charges(cfg, qs[..n]);
      if qs[n].domain == "" {
        assert charges + [] == charges;
      } else {
        TokenBuckets.RunAppend(cfg.rate, cfg.maxKeys, TokenBuckets.EMPTY, charges, Request(qs[n].now, Identity(cfg, qs[n])));
      }
    }
  }

  /** After any run the limiter is as after those requests alone, so what is proved of it holds of the handler: a
      query gets status 429 exactly when the limiter refuses its identity. */
  lemma {:induction false} TooManyIff(cfg: Config, loaded: Loaded, qs: seq<Query>, q: Query)
    requires cfg.limiting && q.domain != ""
    ensures var t := TokenBuckets.Run(cfg.rate, cfg.maxKeys, TokenBuckets.EMPTY, Charges(cfg, qs));
            ReplyTo(cfg, loaded, Run(cfg, loaded, START, qs), q).TooMany?
            <==> !TokenBuckets.Accepts(cfg.rate, t, Identity(cfg, q), q.now)
  {
    LimiterAfterRun(cfg, loaded, qs);
  }

  /** With limiting off, nothing is refused for its rate. */
  lemma {:induction false} DisabledNeverLimits(cfg: Config, loaded: Loaded, s: State, q: Query)
    requires !cfg.limiting
    ensures !ReplyTo(cfg, loaded, s, q).TooMany? && Next(cfg, loaded, s, q).limiter == s.limiter
  {
  }

  /** With the cache down, nothing is taken from it or put there. */
  lemma {:induction false} CacheDownUnused(cfg: Config, loaded: Loaded, s: State, q: Query)
    requires !q.cacheUp
    ensures Next(cfg, loaded, s, q).cache == s.cache
    ensures ReplyTo(cfg, loaded, s, q) == ReplyTo(cfg, loaded, s.(cache := map[]), q)
  {
  }

  /** A query told to wait `n` seconds is within its rate then, if its identity asks nothing meanwhile, whoever else
      does. */
  lemma {:induction false} WaitIsHonoured(cfg: Config, loaded: Loaded, s: State, q: Query, others: seq<Request>, at: real)
    requires TokenBuckets.Clamped(cfg.rate) && ReplyTo(cfg, loaded, s, q).TooMany?
    requires forall i :: 0 <= i < |others| ==> others[i].key != Identity(cfg, q)
    requires at >= q.now + ReplyTo(cfg, loaded, s, q).retryAfter as real
    ensures var t := TokenBuckets.Run(cfg.rate, cfg.maxKeys, Next(cfg, loaded, s, q).limiter, others);
            TokenBuckets.Accepts(cfg.rate, t, Identity(cfg, q), at)
  {
    LimiterAfter(cfg, loaded, s, q);
    TokenBuckets.RetryAfterIsEnough(cfg.rate, cfg.maxKeys, s.limiter, Identity(cfg, q), q.now, q.now, others, at);
  }

  /** Whom a query counts for: the subject of a token that names no key and that the single key accepts, else the
      client's address, else "unknown". */
  lemma {:induction false} IdentityIs(cfg: Config, q: Query)
    ensures var named := AcceptedBySingleKey(cfg.jwt, q.token, cfg.publicKey) && cfg.jwt.claims(q.token).subject != "";
            Identity(cfg, q) == if named then cfg.jwt.claims(q.token).subject
                                else if |q.clientIp| > 0 then q.clientIp else "unknown"
  {
    SingleKeyVerifiesIff(cfg.jwt, q.token, cfg.publicKey);
  }

  // ----- whose domain policy is enforced

  /** The list of a token that opens zones binds its queries exactly when there is no list, or the token names no
      key and is accepted with the single key: a token that names its key skips the policy. */
  lemma {:induction false} PolicyEnforcedIff(cfg: Config, token: string)
    requires ZoneClaims(cfg, token).Some?
    ensures var list := ZoneClaims(cfg, token).value.dnsDomains;
            (forall domain :: TokenAllows(cfg, token, domain) ==> PolicyAllows(list, domain))
            <==> list.None? || AcceptedBySingleKey(cfg.jwt, token, cfg.publicKey)
  {
    var list := ZoneClaims(cfg, token).value.dnsDomains;
    SingleKeyVerifiesIff(cfg.jwt, token, cfg.publicKey);
    if list.Some? && PolicyClaims(cfg, token).None? {
      var domain := SomeNameIsRefused(list.value);
      assert TokenAllows(cfg, token, domain) && !PolicyAllows(list, domain);
    }
  }
}
