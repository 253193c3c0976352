/** Whole runs of the NTS server: key establishments, datagrams, key rotations and passing time, in any
    order. The state carries a history (every cookie sealed, every rotation) that the server does not
    keep; the properties below relate what the server does to that history. */
module NtsRuns {
  import opened Basics
  import opened Bytes
  import opened Cookies
  import opened NtpHeaders
  import opened ExtensionFields
  import opened Traces
  import opened UdpRateLimit
  import opened KeyEstablishment
  import opened NtpResponder

  datatype Config = Config(siv: Siv, gate: Gate, limit: int, maxTracked: int)

  /** Why a cookie was sealed: for an admitted key-establishment request, or to refresh an earlier cookie. */
  datatype Origin = KeyExchange(request: Bytes) | Refresh(parent: nat) | Unaccounted

  datatype Issued = Issued(cookie: Cookie, keys: SessionKeys, sealedAt: real, origin: Origin)

  /** `serving` holds until a datagram raises: the receive loop is then left for good. */
  datatype World = World(start: real, now: real, serving: bool, ring: Keyring, table: Table,
                         log: seq<Issued>, rotations: seq<real>, masters: seq<Bytes>)

  datatype Step =
    | Tick(to: real)
    | Exchange(request: Bytes, c2s: Bytes, s2c: Bytes)
    | RotateKey(newKey: Bytes)
    | Datagram(source: string, data: Bytes)

  function Initial(now: real, key: Bytes): World {
    World(now, now, true, InitialRing(now, key), map[], [], [], [key])
  }

  /** The position of a cookie among those sealed. */
  function Find(log: seq<Issued>, c: Cookie): (i: Option<nat>)
    ensures i.Some? ==> i.value < |log| && log[i.value].cookie == c
    ensures i.None? ==> forall j :: 0 <= j < |log| ==> log[j].cookie != c
  {
    if log == [] then None
    else if log[|log| - 1].cookie == c then Some(|log| - 1)
    else Find(log[..|log| - 1], c)
  }

  function Limited(cfg: Config, w: World, source: string): bool {
    Refused(cfg.limit, Entry(w.table, source), w.now)
  }

  function Answer(cfg: Config, w: World, source: string, data: Bytes): Reaction {
    if !w.serving || Limited(cfg, w, source) then Silent else React(cfg.siv, w.ring, data, w.now)
  }

  function Logged(cfg: Config, w: World, keys: SessionKeys, origin: Origin): Issued
    requires CanSeal(w.ring, keys, w.now)
  {
    Issued(Seal(cfg.siv, w.ring, keys, w.now).value, keys, w.now, origin)
  }

  function Apply(cfg: Config, w: World, step: Step): World {
    match step
    case Tick(to) => w.(now := to)
    case Exchange(request, c2s, s2c) =>
      var r := Establish(cfg.siv, w.ring, cfg.gate, request, c2s, s2c, w.now);
      if r.Established? then
        w.(log := w.log + seq(COOKIES_PER_SESSION, _ => Logged(cfg, w, r.keys, KeyExchange(request))))
      else w
    case RotateKey(newKey) =>
      w.(ring := Rotated(w.ring, w.now, newKey), rotations := w.rotations + [w.now], masters := w.masters + [newKey])
    case Datagram(source, data) =>
      if !w.serving then w
      else
        var answer := Answer(cfg, w, source, data);
        w.(table := After(cfg.limit, cfg.maxTracked, w.table, source, w.now),
           serving := !answer.Failed?,
           log := if answer.Replies? then w.log + [Refreshed(cfg, w, data)] else w.log)
  }

  /** The log entry of the cookie that an answer carries. */
  function Refreshed(cfg: Config, w: World, data: Bytes): Issued
    requires React(cfg.siv, w.ring, data, w.now).Replies?
  {
    var v := Judge(cfg.siv, w.ring, data, w.now);
    var origin := Find(w.log, v.cookie);
    Logged(cfg, w, v.keys, if origin.Some? then Refresh(origin.value) else Unaccounted)
  }

  /** The ideal-AEAD hypothesis: nobody but the server makes a cookie that opens under a master key it holds. */
  ghost predicate Unforged(cfg: Config, w: World, data: Bytes) {
    forall c: Cookie :: Presents(data, c) && Opens(cfg.siv, w.ring, c) ==> Find(w.log, c).Some?
  }

  predicate Opens(siv: Siv, ring: Keyring, c: Cookie) {
    c.version < 256 && c.version in ring.keys && siv.open(ring.keys[c.version], c.sealed, [c.version]).Some?
  }

  ghost predicate Possible(cfg: Config, w: World, step: Step) {
    match step
    case Tick(to) => w.now <= to
    case Datagram(_, data) => Unforged(cfg, w, data)
    case _ => true
  }

  function Run(cfg: Config, w: World, steps: seq<Step>): World
    decreases |steps|
  {
    if steps == [] then w else Run(cfg, Apply(cfg, w, steps[0]), steps[1..])
  }

  ghost predicate PossibleRun(cfg: Config, w: World, steps: seq<Step>)
    decreases |steps|
  {
    steps == [] || (Possible(cfg, w, steps[0]) && PossibleRun(cfg, Apply(cfg, w, steps[0]), steps[1..]))
  }

  /** `w` is a state some possible run from a fresh server reaches. */
  ghost predicate Reachable(cfg: Config, w: World) {
    exists start: real, key: Bytes, steps: seq<Step> ::
      PossibleRun(cfg, Initial(start, key), steps) && Run(cfg, Initial(start, key), steps) == w
  }

  /** Entry `i` is still good: not expired, and its master key is held. */
  predicate Live(w: World, i: nat)
    requires i < |w.log|
  {
    var e := w.log[i];
    w.now <= Expiry(e.sealedAt) as real && !Retired(w.rotations, e.cookie.version)
  }

  /** `data` was authenticated by the holder of entry `i`, which is still good. */
  predicate FromLiveHolder(cfg: Config, w: World, i: nat, data: Bytes)
    requires i < |w.log|
  {
    Live(w, i) && Presents(data, w.log[i].cookie) && Authenticates(cfg.siv, w.log[i].keys, data)
  }

  /** The server can answer `source` at all: it is serving, the source is within its rate, the master-key version
      fits a byte, and a header with the given origin can be packed. */
  predicate Ready(cfg: Config, w: World, source: string, origin: nat) {
    w.serving && !Limited(cfg, w, source) && w.ring.version < 256 && Replyable(origin, w.now)
  }

  // ----- what every step keeps

  /** Entry `i` of the log is what sealing its keys at its time produced, and it descends as it says. */
  ghost predicate Sound(cfg: Config, w: World, i: nat)
    requires i < |w.log|
  {
    var e := w.log[i];
    && FullLength(e.keys)
    && e.keys.aeadId == AES_SIV_CMAC_256
    && e.cookie.version <= |w.rotations| < |w.masters|
    && e.cookie.version < 256
    && 0 <= Expiry(e.sealedAt) < Pow256(8)
    && e.cookie.sealed == cfg.siv.seal(w.masters[e.cookie.version], Plaintext(e.keys, Expiry(e.sealedAt)), [e.cookie.version])
    && e.sealedAt <= w.now
    && (e.cookie.version < |w.rotations| ==> e.sealedAt <= w.rotations[e.cookie.version])
    && match e.origin
       case KeyExchange(request) => Admitted(cfg.gate, request)
       case Refresh(p) => p < i && w.log[p].keys == e.keys
       case Unaccounted => false
  }

  ghost predicate Inv(cfg: Config, w: World) {
    && RingAfter(w.ring, w.start, w.rotations, w.masters)
    && (forall j :: 0 <= j < |w.rotations| ==> w.rotations[j] <= w.now)
    && (forall i :: 0 <= i < |w.log| ==> Sound(cfg, w, i))
  }

  /** A step that leaves the log alone leaves its entries sound. */
  lemma {:induction false} SoundKept(cfg: Config, w: World, w': World, i: nat)
    requires i < |w.log| && Sound(cfg, w, i)
    requires w.log <= w'.log && w.now <= w'.now
    requires w.masters <= w'.masters && |w'.rotations| < |w'.masters|
    requires w'.rotations == w.rotations || w'.rotations == w.rotations + [w.now]
    ensures Sound(cfg, w', i)
  {
  }

  /** A cookie sealed now is a sound log entry. */
  lemma {:induction false} SoundLogged(cfg: Config, w: World, w': World, keys: SessionKeys, origin: Origin, i: nat)
    requires RingAfter(w.ring, w.start, w.rotations, w.masters)
    requires FullLength(keys) && keys.aeadId == AES_SIV_CMAC_256 && CanSeal(w.ring, keys, w.now)
    requires i < |w'.log| && w'.log[i] == Logged(cfg, w, keys, origin)
    requires w'.now == w.now && w'.rotations == w.rotations && w'.masters == w.masters
    requires match origin
             case KeyExchange(request) => Admitted(cfg.gate, request)
             case Refresh(p) => p < i && w'.log[p].keys == keys
             case Unaccounted => false
    ensures Sound(cfg, w', i)
  {
  }

  /** The keys a datagram's cookie unseals to are those of the log entry it was sealed as. */
  lemma {:induction false} PresentedEntry(cfg: Config, w: World, data: Bytes, c: Cookie)
    requires Inv(cfg, w) && Unforged(cfg, w, data)
    requires Presents(data, c) && Unseal(cfg.siv, w.ring, c, w.now).Some?
    ensures Find(w.log, c).Some?
    ensures var e := w.log[Find(w.log, c).value];
            Unseal(cfg.siv, w.ring, c, w.now) == Some(e.keys) && w.now <= Expiry(e.sealedAt) as real
  {
    assert Opens(cfg.siv, w.ring, c);
    EntryUnseals(cfg, w, Find(w.log, c).value);
  }

  /** Every logged cookie, in every state: it unseals to its own keys exactly while it has not expired and
      its master key was not retired by a rotation that came after the grace period. */
  lemma {:induction false} EntryUnseals(cfg: Config, w: World, i: nat)
    requires Inv(cfg, w) && i < |w.log|
    ensures var e := w.log[i];
            Unseal(cfg.siv, w.ring, e.cookie, w.now)
            == if !Retired(w.rotations, e.cookie.version) && w.now <= Expiry(e.sealedAt) as real
               then Some(e.keys) else None
  {
    var e := w.log[i];
    assert Sound(cfg, w, i);
    PlaintextFields(e.keys, Expiry(e.sealedAt));
    if e.cookie.version in w.ring.keys {
      var p := Plaintext(e.keys, Expiry(e.sealedAt));
      assert cfg.siv.open(w.masters[e.cookie.version], e.cookie.sealed, [e.cookie.version]) == Some(p);
    }
  }

  /** A datagram is authentic exactly when the holder of a live log entry authenticated it. */
  lemma {:induction false} AuthenticIffHeld(cfg: Config, w: World, data: Bytes)
    requires Inv(cfg, w) && Unforged(cfg, w, data)
    ensures Judge(cfg.siv, w.ring, data, w.now).Authentic?
            <==> |data| >= HEADER_LENGTH && exists i :: 0 <= i < |w.log| && FromLiveHolder(cfg, w, i, data)
  {
    if Judge(cfg.siv, w.ring, data, w.now).Authentic? {
      var i := HolderOf(cfg, w, data);
    }
    forall i | |data| >= HEADER_LENGTH && 0 <= i < |w.log| && FromLiveHolder(cfg, w, i, data)
      ensures Judge(cfg.siv, w.ring, data, w.now).Authentic?
    {
      EntryUnseals(cfg, w, i);
      AuthenticIff(cfg.siv, w.ring, data, w.now, w.log[i].cookie, w.log[i].keys);
    }
  }

  lemma {:induction false} HolderOf(cfg: Config, w: World, data: Bytes) returns (i: nat)
    requires Inv(cfg, w) && Unforged(cfg, w, data) && Judge(cfg.siv, w.ring, data, w.now).Authentic?
    ensures |data| >= HEADER_LENGTH && i < |w.log| && FromLiveHolder(cfg, w, i, data)
    ensures var v := Judge(cfg.siv, w.ring, data, w.now);
            v.keys == w.log[i].keys && Find(w.log, v.cookie) == Some(i)
  {
    var v := Judge(cfg.siv, w.ring, data, w.now);
    AuthenticIff(cfg.siv, w.ring, data, w.now, v.cookie, v.keys);
    PresentedEntry(cfg, w, data, v.cookie);
    i := Find(w.log, v.cookie).value;
    EntryUnseals(cfg, w, i);
  }

  /** An answer goes to the holder of a live log entry and seals a refresh of that entry. */
  lemma {:induction false} AnswerRefreshes(cfg: Config, w: World, data: Bytes) returns (i: nat)
    requires Inv(cfg, w) && Unforged(cfg, w, data)
    requires React(cfg.siv, w.ring, data, w.now).Replies?
    ensures |data| >= HEADER_LENGTH && i < |w.log| && FromLiveHolder(cfg, w, i, data)
    ensures CanSeal(w.ring, w.log[i].keys, w.now)
    ensures Refreshed(cfg, w, data) == Logged(cfg, w, w.log[i].keys, Refresh(i))
  {
    i := HolderOf(cfg, w, data);
  }

  lemma {:induction false} DatagramKeepsInv(cfg: Config, w: World, source: string, data: Bytes)
    requires Inv(cfg, w) && Unforged(cfg, w, data)
    ensures Inv(cfg, Apply(cfg, w, Datagram(source, data)))
  {
    var w' := Apply(cfg, w, Datagram(source, data));
    if Answer(cfg, w, source, data).Replies? {
      var p := AnswerRefreshes(cfg, w, data);
      RefreshSound(cfg, w, w', p);
    }
    InvExtended(cfg, w, w');
  }

  lemma {:induction false} RefreshSound(cfg: Config, w: World, w': World, p: nat)
    requires Inv(cfg, w) && p < |w.log| && CanSeal(w.ring, w.log[p].keys, w.now)
    requires w'.log == w.log + [Logged(cfg, w, w.log[p].keys, Refresh(p))]
    requires w'.now == w.now && w'.rotations == w.rotations && w'.masters == w.masters
    ensures Sound(cfg, w', |w.log|)
  {
    assert Sound(cfg, w, p);
    SoundLogged(cfg, w, w', w.log[p].keys, Refresh(p), |w.log|);
  }

  /** A step that only adds sound entries to the log keeps the invariant. */
  lemma {:induction false} InvExtended(cfg: Config, w: World, w': World)
    requires Inv(cfg, w) && w.log <= w'.log && w'.now == w.now && w'.start == w.start
    requires w'.ring == w.ring && w'.rotations == w.rotations && w'.masters == w.masters
    requires forall i :: |w.log| <= i < |w'.log| ==> Sound(cfg, w', i)
    ensures Inv(cfg, w')
  {
    forall i | 0 <= i < |w.log| ensures Sound(cfg, w', i) {
      SoundKept(cfg, w, w', i);
    }
  }

  lemma {:induction false} ExchangeKeepsInv(cfg: Config, w: World, request: Bytes, c2s: Bytes, s2c: Bytes)
    requires Inv(cfg, w)
    ensures Inv(cfg, Apply(cfg, w, Exchange(request, c2s, s2c)))
  {
    var w' := Apply(cfg, w, Exchange(request, c2s, s2c));
    forall i | |w.log| <= i < |w'.log| ensures Sound(cfg, w', i) {
      var keys := SessionKeys(c2s, s2c, AES_SIV_CMAC_256);
      SoundLogged(cfg, w, w', keys, KeyExchange(request), i);
    }
    InvExtended(cfg, w, w');
  }

  lemma {:induction false} StepKeepsInv(cfg: Config, w: World, step: Step)
    requires Inv(cfg, w) && Possible(cfg, w, step)
    ensures Inv(cfg, Apply(cfg, w, step))
  {
    match step
    case Exchange(request, c2s, s2c) => ExchangeKeepsInv(cfg, w, request, c2s, s2c);
    case Datagram(source, data) => DatagramKeepsInv(cfg, w, source, data);
    case RotateKey(newKey) =>
      RotatedHistory(w.ring, w.start, w.rotations, w.masters, w.now, newKey);
      forall i | 0 <= i < |w.log| ensures Sound(cfg, Apply(cfg, w, step), i) {
        SoundKept(cfg, w, Apply(cfg, w, step), i);
      }
    case Tick(to) =>
      forall i | 0 <= i < |w.log| ensures Sound(cfg, Apply(cfg, w, step), i) {
        SoundKept(cfg, w, Apply(cfg, w, step), i);
      }
  }

  lemma {:induction false} RunKeepsInv(cfg: Config, w: World, steps: seq<Step>)
    requires Inv(cfg, w) && PossibleRun(cfg, w, steps)
    ensures Inv(cfg, Run(cfg, w, steps))
    decreases |steps|
  {
    if steps == [] {
    } else {
      StepKeepsInv(cfg, w, steps[0]);
      RunKeepsInv(cfg, Apply(cfg, w, steps[0]), steps[1..]);
    }
  }

  lemma {:induction false} ReachableInv(cfg: Config, w: World)
    requires Reachable(cfg, w)
    ensures Inv(cfg, w)
  {
    var start: real, key: Bytes, steps: seq<Step> :|
      PossibleRun(cfg, Initial(start, key), steps) && Run(cfg, Initial(start, key), steps) == w;
    InitialRingHistory(start, key);
    RunKeepsInv(cfg, Initial(start, key), steps);
  }

  // ----- who gets an answer

  /** The cookie at the start of the chain of refreshes that led to entry `i`. */
  function Root(log: seq<Issued>, i: nat): (r: nat)
    requires i < |log|
    ensures r <= i
    decreases i
  {
    match log[i].origin
    case Refresh(p) => if p < i then Root(log, p) else i
    case _ => i
  }

  lemma {:induction false} Lineage(cfg: Config, w: World, i: nat)
    requires Inv(cfg, w) && i < |w.log|
    ensures var r := Root(w.log, i);
            && w.log[r].keys == w.log[i].keys
            && w.log[r].origin.KeyExchange?
            && Admitted(cfg.gate, w.log[r].origin.request)
    decreases i
  {
    assert Sound(cfg, w, i);
    if w.log[i].origin.Refresh? {
      Lineage(cfg, w, w.log[i].origin.parent);
    }
  }

  /** Whether a datagram that reaches the handler is answered, or raises. */
  lemma {:induction false} ReactionIff(cfg: Config, w: World, data: Bytes)
    requires Inv(cfg, w)
    ensures var authentic := Judge(cfg.siv, w.ring, data, w.now).Authentic?;
            var r := React(cfg.siv, w.ring, data, w.now);
            && (authentic ==> |data| >= HEADER_LENGTH)
            && (r.Replies? <==> authentic && w.ring.version < 256 && Replyable(OriginOf(data), w.now))
            && (r.Failed? <==> EmptyCookieBody(data)
                               || (authentic && !(w.ring.version < 256 && Replyable(OriginOf(data), w.now))))
  {
    FailsIff(cfg.siv, w.ring, data, w.now);
    var v := Judge(cfg.siv, w.ring, data, w.now);
    if v.Authentic? {
      AuthenticIff(cfg.siv, w.ring, data, w.now, v.cookie, v.keys);
      assert !EmptyCookieBody(data);
    }
  }

  /** In every reachable state a datagram is answered exactly when the server is serving and within its limits, and
      the datagram was authenticated by the holder of some live cookie this server sealed. */
  lemma {:induction false} AnsweredIff(cfg: Config, w: World, source: string, data: Bytes)
    requires Reachable(cfg, w) && Unforged(cfg, w, data)
    ensures Answer(cfg, w, source, data).Replies?
            <==> (&& |data| >= HEADER_LENGTH
                  && Ready(cfg, w, source, OriginOf(data))
                  && exists i :: 0 <= i < |w.log| && FromLiveHolder(cfg, w, i, data))
  {
    ReachableInv(cfg, w);
    ReactionIff(cfg, w, data);
    AuthenticIffHeld(cfg, w, data);
  }

  /** In every run, an answered datagram was authenticated under keys that descend, through some chain of
      refreshed cookies, from one admitted key establishment; and the answer extends that chain by one. */
  lemma {:induction false} AnsweredDescendsFromExchange(cfg: Config, w: World, source: string, data: Bytes) returns (i: nat)
    requires Reachable(cfg, w) && Unforged(cfg, w, data)
    requires Answer(cfg, w, source, data).Replies?
    ensures i < |w.log| && FromLiveHolder(cfg, w, i, data)
    ensures var root := w.log[Root(w.log, i)];
            root.keys == w.log[i].keys && root.origin.KeyExchange? && Admitted(cfg.gate, root.origin.request)
    ensures var w' := Apply(cfg, w, Datagram(source, data));
            && |w'.log| == |w.log| + 1
            && w'.log[|w.log|].keys == w.log[i].keys
            && Root(w'.log, |w.log|) == Root(w.log, i)
  {
    ReachableInv(cfg, w);
    i := AnswerRefreshes(cfg, w, data);
    Lineage(cfg, w, i);
    AnswerIsLogged(cfg, w, source, data);
    RootOfRefresh(w.log, Logged(cfg, w, w.log[i].keys, Refresh(i)), i);
  }

  lemma {:induction false} AnswerIsLogged(cfg: Config, w: World, source: string, data: Bytes)
    requires Answer(cfg, w, source, data).Replies?
    ensures Apply(cfg, w, Datagram(source, data)).log == w.log + [Refreshed(cfg, w, data)]
  {
  }

  lemma {:induction false} RootOfRefresh(log: seq<Issued>, e: Issued, i: nat)
    requires i < |log| && e.origin == Refresh(i)
    ensures Root(log + [e], |log|) == Root(log, i)
  {
    RootKept(log, log + [e], i);
  }

  lemma {:induction false} RootKept(log: seq<Issued>, longer: seq<Issued>, i: nat)
    requires log <= longer && i < |log|
    ensures Root(longer, i) == Root(log, i)
    decreases i
  {
    assert longer[i] == log[i];
    if log[i].origin.Refresh? && log[i].origin.parent < i {
      RootKept(log, longer, log[i].origin.parent);
    }
  }

  // ----- rotation never kills a live cookie

  lemma {:induction false} SpacedNeverRetiresLive(cfg: Config, w: World, i: nat)
    requires Inv(cfg, w) && Spaced(w.rotations) && i < |w.log|
    ensures Retired(w.rotations, w.log[i].cookie.version) ==> w.now > Expiry(w.log[i].sealedAt) as real
  {
    var v := w.log[i].cookie.version;
    assert Sound(cfg, w, i);
    if Retired(w.rotations, v) {
      assert w.rotations[v + 1] > w.rotations[v] + COOKIE_LIFETIME;
      assert w.rotations[v + 1] <= w.now;
    }
  }

  /** In every run whose rotations are more than a cookie lifetime apart, the ring holds exactly the
      current and the previous key once it has rotated, and every cookie ever sealed unseals to its
      own keys until its expiry and never after. */
  lemma {:induction false} RotationSparesLiveCookies(cfg: Config, start: real, key: Bytes, steps: seq<Step>, i: nat)
    requires PossibleRun(cfg, Initial(start, key), steps)
    requires var w := Run(cfg, Initial(start, key), steps); Spaced(w.rotations) && i < |w.log|
    ensures var w := Run(cfg, Initial(start, key), steps);
            && (w.rotations != [] ==> w.ring.keys.Keys == {w.ring.version - 1, w.ring.version})
            && Unseal(cfg.siv, w.ring, w.log[i].cookie, w.now)
               == if w.now <= Expiry(w.log[i].sealedAt) as real then Some(w.log[i].keys) else None
  {
    var w := Run(cfg, Initial(start, key), steps);
    assert Reachable(cfg, w);
    ReachableInv(cfg, w);
    EntryUnseals(cfg, w, i);
    SpacedNeverRetiresLive(cfg, w, i);
    if w.rotations != [] {
      SpacedRingIsCurrentAndPrevious(w.ring, w.start, w.rotations, w.masters);
    }
  }

  /** Rotations exactly one lifetime apart, the first one lifetime after the start, are not enough: a cookie sealed
      at a rotation is refused at the instant of its expiry, when it has not yet expired. */
  lemma {:induction false} LifetimeGapKillsCookie(cfg: Config, keys: seq<Bytes>, request: Bytes, c2s: Bytes, s2c: Bytes)
    requires |keys| == 3 && |c2s| == SESSION_KEY_LENGTH && |s2c| == SESSION_KEY_LENGTH
    requires request != [] && Admitted(cfg.gate, request)
    ensures var w0 := Initial(0.0, keys[0]);
            var day := COOKIE_LIFETIME;
            var steps := [Tick(day), Exchange(request, c2s, s2c), RotateKey(keys[1]), Tick(day + day), RotateKey(keys[2])];
            var w := Run(cfg, w0, steps);
            && PossibleRun(cfg, w0, steps)
            && w.rotations == [day, day + day]
            && |w.log| == COOKIES_PER_SESSION
            && w.now <= Expiry(w.log[0].sealedAt) as real
            && Unseal(cfg.siv, w.ring, w.log[0].cookie, w.now) == None
  {
    var w0 := Initial(0.0, keys[0]);
    var day := COOKIE_LIFETIME;
    var steps := [Tick(day), Exchange(request, c2s, s2c), RotateKey(keys[1]), Tick(day + day), RotateKey(keys[2])];
    var w1 := Apply(cfg, w0, steps[0]);
    InitialRingHistory(0.0, keys[0]);
    StepKeepsInv(cfg, w0, steps[0]);
    GapFromFirstDay(cfg, w1, keys[1], keys[2], request, c2s, s2c);
    assert steps[1..] == [steps[1], steps[2], steps[3], steps[4]];
    FirstStep(cfg, w0, steps);
  }

  lemma {:induction false} GapFromFirstDay(cfg: Config, w: World, next: Bytes, last: Bytes, request: Bytes, c2s: Bytes, s2c: Bytes)
    requires Inv(cfg, w) && w.log == [] && w.rotations == [] && w.now == COOKIE_LIFETIME
    requires Establish(cfg.siv, w.ring, cfg.gate, request, c2s, s2c, w.now).Established?
    ensures var day := COOKIE_LIFETIME;
            var steps := [Exchange(request, c2s, s2c), RotateKey(next), Tick(day + day), RotateKey(last)];
            var w' := Run(cfg, w, steps);
            && PossibleRun(cfg, w, steps)
            && w'.rotations == [day, day + day]
            && |w'.log| == COOKIES_PER_SESSION
            && w'.now <= Expiry(w'.log[0].sealedAt) as real
            && Unseal(cfg.siv, w'.ring, w'.log[0].cookie, w'.now) == None
  {
    var day := COOKIE_LIFETIME;
    var steps := [Exchange(request, c2s, s2c), RotateKey(next), Tick(day + day), RotateKey(last)];
    FourSteps(cfg, w, steps);
    EightCookiesLogged(cfg, w, request, c2s, s2c);
    GapHistory(cfg, Apply(cfg, w, steps[0]), next, last);
    assert Run(cfg, w, steps).log[0].sealedAt == day;
    ExpiryOfFirstDay();
    RunKeepsInv(cfg, w, steps);
    EntryUnseals(cfg, Run(cfg, w, steps), 0);
  }

  lemma ExpiryOfFirstDay()
    ensures Expiry(COOKIE_LIFETIME) as real == COOKIE_LIFETIME + COOKIE_LIFETIME
  {
  }

  lemma {:induction false} GapHistory(cfg: Config, w: World, next: Bytes, last: Bytes)
    requires w.rotations == [] && w.now == COOKIE_LIFETIME
    ensures var day := COOKIE_LIFETIME;
            var w2 := Apply(cfg, Apply(cfg, w, RotateKey(next)), Tick(day + day));
            var w3 := Apply(cfg, w2, RotateKey(last));
            && w3.rotations == [day, day + day] && w3.now == day + day && w3.log == w.log
  {
  }

  lemma {:induction false} EightCookiesLogged(cfg: Config, w: World, request: Bytes, c2s: Bytes, s2c: Bytes)
    requires Establish(cfg.siv, w.ring, cfg.gate, request, c2s, s2c, w.now).Established?
    ensures var w' := Apply(cfg, w, Exchange(request, c2s, s2c));
            && |w'.log| == |w.log| + COOKIES_PER_SESSION
            && forall i :: |w.log| <= i < |w'.log| ==>
                 w'.log[i].sealedAt == w.now && w'.log[i].cookie.version == w.ring.version
  {
  }

  lemma {:induction false} FourSteps(cfg: Config, w: World, steps: seq<Step>)
    requires |steps| == 4
    ensures var w1 := Apply(cfg, w, steps[0]);
            var w2 := Apply(cfg, w1, steps[1]);
            var w3 := Apply(cfg, w2, steps[2]);
            && Run(cfg, w, steps) == Apply(cfg, w3, steps[3])
            && (PossibleRun(cfg, w, steps)
                <==> Possible(cfg, w, steps[0]) && Possible(cfg, w1, steps[1])
                     && Possible(cfg, w2, steps[2]) && Possible(cfg, w3, steps[3]))
  {
    var w1 := Apply(cfg, w, steps[0]);
    var w2 := Apply(cfg, w1, steps[1]);
    var w3 := Apply(cfg, w2, steps[2]);
    var a, b, c := steps[1..], steps[2..], steps[3..];
    assert a[1..] == b && b[1..] == c && c[1..] == [];
    FirstStep(cfg, w, steps);
    FirstStep(cfg, w1, a);
    FirstStep(cfg, w2, b);
    FirstStep(cfg, w3, c);
  }

  lemma {:induction false} FirstStep(cfg: Config, w: World, steps: seq<Step>)
    requires steps != []
    ensures var w' := Apply(cfg, w, steps[0]);
            && Run(cfg, w, steps) == Run(cfg, w', steps[1..])
            && PossibleRun(cfg, w, steps) == (Possible(cfg, w, steps[0]) && PossibleRun(cfg, w', steps[1..]))
  {
  }

  // ----- who is limited

  /** The datagrams that reached the limiter: those received while serving. */
  function Arrivals(cfg: Config, w: World, steps: seq<Step>): (trace: seq<Request>)
    decreases |steps|
  {
    if steps == [] then []
    else
      (if steps[0].Datagram? && w.serving then [Request(w.now, steps[0].source)] else [])
      + Arrivals(cfg, Apply(cfg, w, steps[0]), steps[1..])
  }

  lemma {:induction false} ArrivalsFirst(cfg: Config, w: World, steps: seq<Step>)
    requires steps != []
    ensures var w' := Apply(cfg, w, steps[0]);
            var later := Arrivals(cfg, w', steps[1..]);
            var arrived := steps[0].Datagram? && w.serving;
            && Arrivals(cfg, w, steps) == (if arrived then [Request(w.now, steps[0].source)] + later else later)
            && w'.table == (if arrived then After(cfg.limit, cfg.maxTracked, w.table, steps[0].source, w.now) else w.table)
  {
    var later := Arrivals(cfg, Apply(cfg, w, steps[0]), steps[1..]);
    assert [] + later == later;
  }

  lemma {:induction false} TableFollowsArrivals(cfg: Config, w: World, steps: seq<Step>)
    ensures Run(cfg, w, steps).table == TableAfter(cfg.limit, cfg.maxTracked, w.table, Arrivals(cfg, w, steps))
    decreases |steps|
  {
    if steps != [] {
      var w' := Apply(cfg, w, steps[0]);
      FirstStep(cfg, w, steps);
      ArrivalsFirst(cfg, w, steps);
      TableFollowsArrivals(cfg, w', steps[1..]);
      if steps[0].Datagram? && w.serving {
        TableAfterFirst(cfg.limit, cfg.maxTracked, w.table, Request(w.now, steps[0].source), Arrivals(cfg, w', steps[1..]));
      }
    }
  }

  /** The trace runs from `from` to `to`. */
  ghost predicate Between(trace: seq<Request>, from: real, to: real) {
    from <= to && Monotone(trace, from) && forall i :: 0 <= i < |trace| ==> trace[i].time <= to
  }

  lemma {:induction false} BetweenCons(a: Request, later: seq<Request>, now: real, to: real)
    requires Between(later, now, to) && a.time <= now
    ensures Between([a] + later, a.time, to) && Between(later, a.time, to)
  {
  }

  lemma {:induction false} ArrivalsBetween(cfg: Config, w: World, steps: seq<Step>)
    requires PossibleRun(cfg, w, steps)
    ensures Between(Arrivals(cfg, w, steps), w.now, Run(cfg, w, steps).now)
    decreases |steps|
  {
    if steps != [] {
      var w' := Apply(cfg, w, steps[0]);
      FirstStep(cfg, w, steps);
      ArrivalsFirst(cfg, w, steps);
      ArrivalsBetween(cfg, w', steps[1..]);
      ClockAdvances(cfg, w, steps[0]);
      var source := if steps[0].Datagram? then steps[0].source else "";
      BetweenCons(Request(w.now, source), Arrivals(cfg, w', steps[1..]), w'.now, Run(cfg, w, steps).now);
    }
  }

  lemma {:induction false} ClockAdvances(cfg: Config, w: World, step: Step)
    requires Possible(cfg, w, step)
    ensures w.now <= Apply(cfg, w, step).now
  {
  }

  /** After any run a source is limited exactly when a window it opened is still open and has already seen as many of
      its datagrams as the limit. */
  lemma {:induction false} LimitedIff(cfg: Config, start: real, key: Bytes, steps: seq<Step>, source: string)
    requires PossibleRun(cfg, Initial(start, key), steps)
    ensures var w, trace := Run(cfg, Initial(start, key), steps), Arrivals(cfg, Initial(start, key), steps);
            var o := Opener(trace, source);
            Limited(cfg, w, source)
            <==> o.Some? && w.now - trace[o.value].time < WINDOW && Requests(trace, source, o.value) >= cfg.limit
  {
    var w0 := Initial(start, key);
    var w, trace := Run(cfg, w0, steps), Arrivals(cfg, w0, steps);
    TableFollowsArrivals(cfg, w0, steps);
    ArrivalsBetween(cfg, w0, steps);
    RefusedNextIff(cfg.limit, cfg.maxTracked, trace, start, Request(w.now, source));
  }

  // ----- one datagram can end the service

  /** Step `i` of a run is a datagram that raises. */
  predicate RaisesAt(cfg: Config, w: World, steps: seq<Step>, i: nat)
    requires i < |steps|
  {
    steps[i].Datagram? && Answer(cfg, Run(cfg, w, steps[..i]), steps[i].source, steps[i].data).Failed?
  }

  lemma {:induction false} LastStep(cfg: Config, w: World, steps: seq<Step>)
    requires steps != []
    ensures Run(cfg, w, steps) == Apply(cfg, Run(cfg, w, steps[..|steps| - 1]), steps[|steps| - 1])
    decreases |steps|
  {
    if |steps| > 1 {
      LastStep(cfg, Apply(cfg, w, steps[0]), steps[1..]);
      assert steps[1..][..|steps| - 2] == steps[..|steps| - 1][1..];
    }
  }

  /** After any run the server still serves exactly when no datagram of the run raised. */
  lemma {:induction false} ServingIff(cfg: Config, w: World, steps: seq<Step>)
    ensures Run(cfg, w, steps).serving <==> w.serving && forall i :: 0 <= i < |steps| ==> !RaisesAt(cfg, w, steps, i)
    decreases |steps|
  {
    if steps != [] {
      var n := |steps| - 1;
      var earlier := steps[..n];
      ServingIff(cfg, w, earlier);
      LastStep(cfg, w, steps);
      forall i | 0 <= i < n ensures RaisesAt(cfg, w, earlier, i) == RaisesAt(cfg, w, steps, i) {
        assert earlier[..i] == steps[..i];
      }
      assert Run(cfg, w, steps).serving <==> Run(cfg, w, earlier).serving && !RaisesAt(cfg, w, steps, n);
    }
  }

  /** In a reachable state a datagram raises exactly when it reaches the handler and either its cookie has a zero
      length prefix, or a live holder sent it and no response can be packed. */
  lemma {:induction false} RaisesIff(cfg: Config, w: World, source: string, data: Bytes)
    requires Reachable(cfg, w) && Unforged(cfg, w, data)
    ensures Answer(cfg, w, source, data).Failed?
            <==> (&& w.serving && !Limited(cfg, w, source)
                  && (|| EmptyCookieBody(data)
                      || (&& |data| >= HEADER_LENGTH && !Ready(cfg, w, source, OriginOf(data))
                          && exists i :: 0 <= i < |w.log| && FromLiveHolder(cfg, w, i, data))))
  {
    ReachableInv(cfg, w);
    ReactionIff(cfg, w, data);
    AuthenticIffHeld(cfg, w, data);
  }

  /** Once stopped, no later step restarts the service. */
  lemma {:induction false} StoppedForGood(cfg: Config, w: World, steps: seq<Step>, source: string, data: Bytes)
    requires !w.serving
    ensures Answer(cfg, Run(cfg, w, steps), source, data) == Silent
  {
    ServingIff(cfg, w, steps);
  }

  /** A cookie field of four zero bytes, then an empty authenticator. */
  function EmptyCookieDatagram(header: Bytes): Bytes {
    header + Frames([Spec(NTS_COOKIE, Zeros(4)), Spec(NTS_AUTHENTICATOR, [])])
  }

  lemma {:induction false} EmptyCookieReads(header: Bytes)
    requires |header| == HEADER_LENGTH
    ensures EmptyCookieBody(EmptyCookieDatagram(header))
  {
    var cookie, tag := Spec(NTS_COOKIE, Zeros(4)), Spec(NTS_AUTHENTICATOR, []);
    var data := EmptyCookieDatagram(header);
    assert data[HEADER_LENGTH..] == Frames([cookie, tag]);
    assert [cookie, tag][1..] == [tag] && [tag][1..] == [];
    assert AllFramable([tag]);
    WalkFrames(data, HEADER_LENGTH, [cookie, tag]);
    PlacedOne(HEADER_LENGTH + 8, tag);
    var fs := Walk(data, HEADER_LENGTH);
    assert fs == [Field(HEADER_LENGTH, NTS_COOKIE, Zeros(4)), Field(HEADER_LENGTH + 8, NTS_AUTHENTICATOR, [])];
    FirstIsFound(data, HEADER_LENGTH, 1);
    PickFromTwo(fs[0], fs[1], NTS_COOKIE);
  }

  /** From any source within its rate, that one unauthenticated datagram is possible in every state, and after it
      no datagram is answered in any continuation of the run. */
  lemma {:induction false} OneDatagramEndsService(cfg: Config, w: World, source: string, header: Bytes, steps: seq<Step>,
                                                  other: string, data: Bytes)
    requires w.serving && !Limited(cfg, w, source) && |header| == HEADER_LENGTH
    ensures var d := Datagram(source, EmptyCookieDatagram(header));
            && Possible(cfg, w, d)
            && Apply(cfg, w, d).log == w.log
            && Answer(cfg, Run(cfg, Apply(cfg, w, d), steps), other, data) == Silent
  {
    var d := Datagram(source, EmptyCookieDatagram(header));
    EmptyCookieReads(header);
    FailsIff(cfg.siv, w.ring, d.data, w.now);
    StoppedForGood(cfg, Apply(cfg, w, d), steps, other, data);
  }

  // ----- a client's round trip

  /** The request the holder of `e` builds, when its cookie fits a field. */
  function ClientRequest(siv: Siv, e: Issued, header: Bytes, uid: Bytes): Bytes {
    if Encodable(e.cookie) && Fits(uid, WireEncode(e.cookie))
    then ProtectedPacket(siv, header, uid, WireEncode(e.cookie), e.keys.c2s)
    else []
  }

  lemma {:induction false} ClientRequestReads(cfg: Config, w: World, i: nat, header: Bytes, uid: Bytes)
    requires Inv(cfg, w) && i < |w.log| && Live(w, i)
    requires |header| == HEADER_LENGTH && |Padded(uid)| + 4 < 0x10000
    ensures var e := w.log[i];
            Judge(cfg.siv, w.ring, ClientRequest(cfg.siv, e, header, uid), w.now)
            == Authentic(e.keys, Padded(uid), e.cookie)
  {
    var e := w.log[i];
    EntryFits(cfg, w, i, uid);
    var request := ProtectedPacket(cfg.siv, header, uid, WireEncode(e.cookie), e.keys.c2s);
    RequestPresents(cfg.siv, e, header, uid);
    PaddedOnce(uid);
    EntryUnseals(cfg, w, i);
    AuthenticWith(cfg.siv, w.ring, request, w.now, e.cookie, e.keys, Padded(uid));
  }

  lemma {:induction false} EntryFits(cfg: Config, w: World, i: nat, uid: Bytes)
    requires Inv(cfg, w) && i < |w.log| && |Padded(uid)| + 4 < 0x10000
    ensures var e := w.log[i];
            && FullLength(e.keys) && e.keys.aeadId == AES_SIV_CMAC_256
            && Encodable(e.cookie) && Fits(uid, WireEncode(e.cookie))
  {
    assert Sound(cfg, w, i);
    assert |w.log[i].cookie.sealed| == 90;
  }

  lemma {:induction false} AuthenticWith(siv: Siv, ring: Keyring, data: Bytes, now: real, c: Cookie, keys: SessionKeys,
                                         uid: Bytes)
    requires |data| >= HEADER_LENGTH && Presents(data, c) && Authenticates(siv, keys, data)
    requires Unseal(siv, ring, c, now) == Some(keys)
    requires Lookup(data, UNIQUE_IDENTIFIER) == if uid == [] then None else Some(uid)
    ensures Judge(siv, ring, data, now) == Authentic(keys, uid, c)
  {
  }

  /** A client's request shows its cookie and identifier to both readers and is authenticated under its key. */
  lemma {:induction false} RequestPresents(siv: Siv, e: Issued, header: Bytes, uid: Bytes)
    requires Encodable(e.cookie) && e.keys.aeadId == AES_SIV_CMAC_256
    requires |header| == HEADER_LENGTH && Fits(uid, WireEncode(e.cookie))
    ensures var request := ProtectedPacket(siv, header, uid, WireEncode(e.cookie), e.keys.c2s);
            && |request| >= HEADER_LENGTH
            && Presents(request, e.cookie) && Authenticates(siv, e.keys, request)
            && Lookup(request, UNIQUE_IDENTIFIER) == (if uid == [] then None else Some(Padded(uid)))
  {
    var wire := WireEncode(e.cookie);
    PacketReadsBack(siv, header, uid, wire, e.keys.c2s);
    WireRoundTrip(e.cookie, Zeros(PadLength(|wire|)));
  }

  /** What the holder of `keys` finds in a response it can use. */
  ghost predicate Usable(cfg: Config, w: World, response: Bytes, keys: SessionKeys, uid: Bytes) {
    && Lookup(response, UNIQUE_IDENTIFIER) == (if uid == [] then None else Some(Padded(uid)))
    && |response| >= 20
    && Extracted(response) == Some(Authenticator(response[..|response| - 20], Mac(cfg.siv, keys.s2c, response[..|response| - 20])))
    && exists c :: Presents(response, c) && Unseal(cfg.siv, w.ring, c, w.now) == Some(keys)
  }

  /** The request the holder of a live cookie builds is no forgery, and is answered exactly when the server is
      ready; the answer carries its identifier, a fresh cookie for the same keys and a tag it can verify. */
  lemma {:induction false} LiveCookieIsServed(cfg: Config, w: World, i: nat, source: string, uid: Bytes, header: Bytes)
    requires Reachable(cfg, w) && i < |w.log| && Live(w, i)
    requires |header| == HEADER_LENGTH && |Padded(uid)| + 4 < 0x10000
    ensures var request := ClientRequest(cfg.siv, w.log[i], header, uid);
            var answer := Answer(cfg, w, source, request);
            && Unforged(cfg, w, request)
            && (answer.Replies? <==> Ready(cfg, w, source, OriginOf(header)))
            && (answer.Replies? ==> Usable(cfg, w, answer.response, w.log[i].keys, uid))
  {
    var e := w.log[i];
    var request := ClientRequest(cfg.siv, e, header, uid);
    ReachableInv(cfg, w);
    OwnRequestIsUnforged(cfg, w, i, uid, header);
    ClientRequestReads(cfg, w, i, header, uid);
    ReactionIff(cfg, w, request);
    RequestOrigin(cfg, w, i, uid, header);
    if Answer(cfg, w, source, request).Replies? {
      UsableResponse(cfg, w, OriginOf(header), e.keys, uid);
    }
  }

  lemma {:induction false} UsableResponse(cfg: Config, w: World, origin: nat, keys: SessionKeys, uid: Bytes)
    requires FullLength(keys) && BuildResponse(cfg.siv, w.ring, origin, keys, Padded(uid), w.now).Returned?
    ensures Usable(cfg, w, BuildResponse(cfg.siv, w.ring, origin, keys, Padded(uid), w.now).value, keys, uid)
  {
    PaddedOnce(uid);
    ResponseReadsBack(cfg.siv, w.ring, origin, keys, Padded(uid), w.now);
    var response := BuildResponse(cfg.siv, w.ring, origin, keys, Padded(uid), w.now).value;
    assert Presents(response, Seal(cfg.siv, w.ring, keys, w.now).value);
  }

  lemma {:induction false} RequestOrigin(cfg: Config, w: World, i: nat, uid: Bytes, header: Bytes)
    requires Inv(cfg, w) && i < |w.log| && |header| == HEADER_LENGTH && |Padded(uid)| + 4 < 0x10000
    ensures FullLength(w.log[i].keys)
    ensures var request := ClientRequest(cfg.siv, w.log[i], header, uid);
            |request| >= HEADER_LENGTH && OriginOf(request) == OriginOf(header)
  {
    EntryFits(cfg, w, i, uid);
    var request := ClientRequest(cfg.siv, w.log[i], header, uid);
    assert request[24..32] == header[24..32];
  }

  lemma {:induction false} OwnRequestIsUnforged(cfg: Config, w: World, i: nat, uid: Bytes, header: Bytes)
    requires Reachable(cfg, w) && i < |w.log| && |header| == HEADER_LENGTH && |Padded(uid)| + 4 < 0x10000
    ensures Unforged(cfg, w, ClientRequest(cfg.siv, w.log[i], header, uid))
  {
    ReachableInv(cfg, w);
    EntryFits(cfg, w, i, uid);
    RequestPresents(cfg.siv, w.log[i], header, uid);
  }

  lemma PaddedOnce(b: Bytes)
    ensures Padded(Padded(b)) == Padded(b) && (Padded(b) == [] <==> b == [])
  {
  }
}
