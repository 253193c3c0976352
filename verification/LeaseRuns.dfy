/** Whole runs of the DHCP server over its lease table. */
module LeaseRuns {
  import opened Basics
  import opened LeaseTable

  datatype State = State(rows: Rows, now: real)

  datatype Step =
    | Request(pool: int, mac: string, ip: Option<int>)
    | SweptRequest(pool: int, mac: string, ip: Option<int>)   // the sweep, then a Request at the same instant
    | Release(pool: int, mac: string)
    | Query(pool: int, mac: string)
    | Sweep(pool: int)
    | Wait(to: real)

  /** Address range and lease duration. */
  datatype Config = Config(range: Range, leaseTime: real)

  function Apply(cfg: Config, s: State, step: Step): State {
    match step
    case Request(pool, mac, ip) =>
      s.(rows := Requested(s.rows, cfg.range, cfg.leaseTime, pool, mac, ip, s.now))
    case SweptRequest(pool, mac, ip) =>
      s.(rows := Requested(Swept(s.rows, pool, s.now), cfg.range, cfg.leaseTime, pool, mac, ip, s.now))
    case Release(pool, mac) => s.(rows := WithStatus(s.rows, pool, mac, Released))
    case Query(pool, mac) => s.(rows := LookedUp(s.rows, pool, mac, s.now))
    case Sweep(pool) => s.(rows := Swept(s.rows, pool, s.now))
    case Wait(to) => s.(now := to)
  }

  function Run(cfg: Config, s: State, steps: seq<Step>): State
    decreases |steps|
  {
    if steps == [] then s else Run(cfg, Apply(cfg, s, steps[0]), steps[1..])
  }

  // ----- one row per client, all in range: every run

  ghost predicate Tidy(cfg: Config, s: State) {
    OneRowPerClient(s.rows) && AllInRange(s.rows, cfg.range)
  }

  lemma {:induction false} LeasedTidy(cfg: Config, rows: Rows, pool: int, mac: string, ip: int, end: real)
    requires OneRowPerClient(rows) && AllInRange(rows, cfg.range) && InRange(cfg.range, ip)
    ensures OneRowPerClient(Leased(rows, pool, mac, ip, end)) && AllInRange(Leased(rows, pool, mac, ip, end), cfg.range)
  {
    var r := Leased(rows, pool, mac, ip, end);
    forall i | 0 <= i < |r| ensures InRange(cfg.range, r[i].ip) {
      if i < |rows| {
        assert rows[i] in rows;
      }
    }
    if FirstOwned(rows, pool, mac).None? {
      forall i | 0 <= i < |rows| ensures !Owns(rows[i], pool, mac) {
        assert rows[i] in rows;
      }
    }
  }

  lemma {:induction false} RequestTidy(cfg: Config, rows: Rows, pool: int, mac: string, ip: Option<int>, now: real)
    requires OneRowPerClient(rows) && AllInRange(rows, cfg.range)
    ensures var r := Requested(rows, cfg.range, cfg.leaseTime, pool, mac, ip, now);
            OneRowPerClient(r) && AllInRange(r, cfg.range)
  {
    if Validate(rows, cfg.range, pool, mac, ip, now).None? {
      LeasedTidy(cfg, rows, pool, mac, ip.value, now + cfg.leaseTime);
    }
  }

  lemma {:induction false} StepTidy(cfg: Config, s: State, step: Step)
    requires Tidy(cfg, s)
    ensures Tidy(cfg, Apply(cfg, s, step))
  {
    var s' := Apply(cfg, s, step);
    match step
    case Request(pool, mac, ip) => RequestTidy(cfg, s.rows, pool, mac, ip, s.now);
    case SweptRequest(pool, mac, ip) =>
      SameAddresses(cfg, s.rows, Swept(s.rows, pool, s.now));
      RequestTidy(cfg, Swept(s.rows, pool, s.now), pool, mac, ip, s.now);
    case Release(_, _) => SameAddresses(cfg, s.rows, s'.rows);
    case Query(_, _) => SameAddresses(cfg, s.rows, s'.rows);
    case Sweep(_) => SameAddresses(cfg, s.rows, s'.rows);
    case Wait(_) =>
  }

  lemma {:induction false} SameAddresses(cfg: Config, rows: Rows, r: Rows)
    requires OneRowPerClient(rows) && AllInRange(rows, cfg.range) && |r| == |rows|
    requires forall i :: 0 <= i < |rows| ==> r[i].pool == rows[i].pool && r[i].mac == rows[i].mac && r[i].ip == rows[i].ip
    ensures OneRowPerClient(r) && AllInRange(r, cfg.range)
  {
  }

  // ----- with a sweep before each Request, one active lease per address

  /** Statuses only move away from active, at unchanged addresses. */
  lemma {:induction false} FewerActive(rows: Rows, r: Rows)
    requires ActiveUnique(rows) && |r| == |rows|
    requires forall i :: 0 <= i < |rows| ==> r[i].pool == rows[i].pool && r[i].ip == rows[i].ip
    requires forall i :: 0 <= i < |rows| && r[i].status == Active ==> rows[i].status == Active
    ensures ActiveUnique(r)
  {
  }

  /** No active row of the pool has run out: what a sweep leaves. */
  predicate NothingExpired(rows: Rows, pool: int, now: real) {
    forall i :: 0 <= i < |rows| && rows[i].pool == pool && rows[i].status == Active ==> !IsExpired(rows[i], now)
  }

  lemma SweptNothingExpired(rows: Rows, pool: int, now: real)
    ensures NothingExpired(Swept(rows, pool, now), pool, now)
  {
  }

  /** On swept rows a validated address has no active row of another client. */
  lemma {:induction false} ValidatedIsFree(rows: Rows, range: Range, pool: int, mac: string, ip: Option<int>, now: real)
    requires NothingExpired(rows, pool, now) && Validate(rows, range, pool, mac, ip, now).None?
    ensures forall i :: 0 <= i < |rows| && ActiveAt(rows[i], pool, ip.value) ==> rows[i].mac == mac
  {
    forall i | 0 <= i < |rows| && ActiveAt(rows[i], pool, ip.value) ensures rows[i].mac == mac {
      assert rows[i] in rows;
    }
  }

  /** Leasing an address that only the client's own row may hold keeps addresses unique. */
  lemma {:induction false} LeasedUnique(rows: Rows, pool: int, mac: string, ip: int, end: real)
    requires OneRowPerClient(rows) && ActiveUnique(rows)
    requires forall i :: 0 <= i < |rows| && ActiveAt(rows[i], pool, ip) ==> rows[i].mac == mac
    ensures ActiveUnique(Leased(rows, pool, mac, ip, end))
  {
    var r := Leased(rows, pool, mac, ip, end);
    forall i, j | 0 <= i < j < |r| && r[i].status == Active && r[j].status == Active
      ensures !(r[i].pool == r[j].pool && r[i].ip == r[j].ip)
    {
      if j < |rows| {
        assert !(Owns(rows[i], pool, mac) && Owns(rows[j], pool, mac));
      } else {
        assert rows[i] in rows;
        assert !Owns(rows[i], pool, mac);
      }
    }
  }

  lemma {:induction false} RequestUnique(cfg: Config, rows: Rows, pool: int, mac: string, ip: Option<int>, now: real)
    requires OneRowPerClient(rows) && ActiveUnique(rows) && NothingExpired(rows, pool, now)
    ensures ActiveUnique(Requested(rows, cfg.range, cfg.leaseTime, pool, mac, ip, now))
  {
    if Validate(rows, cfg.range, pool, mac, ip, now).None? {
      ValidatedIsFree(rows, cfg.range, pool, mac, ip, now);
      LeasedUnique(rows, pool, mac, ip.value, now + cfg.leaseTime);
    }
  }

  lemma {:induction false} StepKeepsInv(cfg: Config, s: State, step: Step)
    requires Inv(s.rows, cfg.range) && !step.Request?
    ensures Inv(Apply(cfg, s, step).rows, cfg.range)
  {
    StepTidy(cfg, s, step);
    match step
    case SweptRequest(pool, mac, ip) =>
      var swept := Swept(s.rows, pool, s.now);
      SameAddresses(cfg, s.rows, swept);
      FewerActive(s.rows, swept);
      SweptNothingExpired(s.rows, pool, s.now);
      RequestUnique(cfg, swept, pool, mac, ip, s.now);
    case Release(pool, mac) => FewerActive(s.rows, WithStatus(s.rows, pool, mac, Released));
    case Query(pool, mac) => FewerActive(s.rows, LookedUp(s.rows, pool, mac, s.now));
    case Sweep(pool) => FewerActive(s.rows, Swept(s.rows, pool, s.now));
    case Wait(_) =>
  }

  lemma {:induction false} RunKeepsInv(cfg: Config, s: State, steps: seq<Step>)
    requires Inv(s.rows, cfg.range) && forall step <- steps :: !step.Request?
    ensures Inv(Run(cfg, s, steps).rows, cfg.range)
    decreases |steps|
  {
    if steps == [] {
    } else {
      StepKeepsInv(cfg, s, steps[0]);
      RunKeepsInv(cfg, Apply(cfg, s, steps[0]), steps[1..]);
    }
  }

  lemma {:induction false} RunTidy(cfg: Config, s: State, steps: seq<Step>)
    requires Tidy(cfg, s)
    ensures Tidy(cfg, Run(cfg, s, steps))
    decreases |steps|
  {
    if steps == [] {
    } else {
      StepTidy(cfg, s, steps[0]);
      RunTidy(cfg, Apply(cfg, s, steps[0]), steps[1..]);
    }
  }

  /** From an empty table, in every run that sweeps before each Request: one row per client, every address
      in range, no address leased to two clients, and the pool statistics never go negative. */
  lemma {:induction false} SweptRunsAreSafe(cfg: Config, start: real, steps: seq<Step>, pool: int)
    requires forall step <- steps :: !step.Request?
    requires Total(cfg.range) >= 0
    ensures var s := Run(cfg, State([], start), steps);
            && OneRowPerClient(s.rows) && AllInRange(s.rows, cfg.range)
            && ActiveUnique(s.rows) && LiveUnique(s.rows, s.now)
            && CountActive(s.rows, pool, s.now) <= Total(cfg.range)
  {
    RunKeepsInv(cfg, State([], start), steps);
    var s := Run(cfg, State([], start), steps);
    StatsCountAddresses(s.rows, cfg.range, pool, s.now);
  }

  // ----- an unswept Request

  /** Another client holds a live lease on `ip`, but the first conflicting row the validation looks at has expired. */
  predicate Hidden(rows: Rows, pool: int, mac: string, ip: int, now: real) {
    var first := FirstConflict(rows, pool, mac, ip);
    first.Some? && IsExpired(first.value, now) && LiveElsewhere(rows, pool, mac, ip, now)
  }

  predicate LiveElsewhere(rows: Rows, pool: int, mac: string, ip: int, now: real) {
    exists row <- rows :: ActiveAt(row, pool, ip) && row.mac != mac && !IsExpired(row, now)
  }

  /** Without a sweep, an accepted Request keeps addresses uniquely leased exactly when no live lease is
      hidden behind an expired one. */
  lemma {:induction false} RequestKeepsUniqueIff(cfg: Config, rows: Rows, pool: int, mac: string, ip: int, now: real)
    requires OneRowPerClient(rows) && LiveUnique(rows, now) && cfg.leaseTime >= 0.0
    requires Validate(rows, cfg.range, pool, mac, Some(ip), now).None?
    ensures LiveUnique(Leased(rows, pool, mac, ip, now + cfg.leaseTime), now) == !Hidden(rows, pool, mac, ip, now)
  {
    if Hidden(rows, pool, mac, ip, now) {
      HiddenBreaks(rows, pool, mac, ip, now + cfg.leaseTime, now);
    } else {
      NotHiddenKeeps(cfg, rows, pool, mac, ip, now);
    }
  }

  lemma {:induction false} NotHiddenKeeps(cfg: Config, rows: Rows, pool: int, mac: string, ip: int, now: real)
    requires OneRowPerClient(rows) && LiveUnique(rows, now)
    requires Validate(rows, cfg.range, pool, mac, Some(ip), now).None? && !Hidden(rows, pool, mac, ip, now)
    ensures LiveUnique(Leased(rows, pool, mac, ip, now + cfg.leaseTime), now)
  {
    ConflictsExpired(rows, cfg.range, pool, mac, ip, now);
    NoConflictKeeps(rows, pool, mac, ip, now + cfg.leaseTime, now);
  }

  lemma {:induction false} ConflictsExpired(rows: Rows, range: Range, pool: int, mac: string, ip: int, now: real)
    requires Validate(rows, range, pool, mac, Some(ip), now).None? && !Hidden(rows, pool, mac, ip, now)
    ensures forall i :: 0 <= i < |rows| && ActiveAt(rows[i], pool, ip) && rows[i].mac != mac ==> IsExpired(rows[i], now)
  {
  }

  lemma {:induction false} NoConflictKeeps(rows: Rows, pool: int, mac: string, ip: int, end: real, now: real)
    requires OneRowPerClient(rows) && LiveUnique(rows, now)
    requires forall i :: 0 <= i < |rows| && ActiveAt(rows[i], pool, ip) && rows[i].mac != mac ==> IsExpired(rows[i], now)
    ensures LiveUnique(Leased(rows, pool, mac, ip, end), now)
  {
    var r := Leased(rows, pool, mac, ip, end);
    forall i, j | 0 <= i < j < |r| && Live(r[i], now) && Live(r[j], now)
      ensures !(r[i].pool == r[j].pool && r[i].ip == r[j].ip)
    {
      if j < |rows| {
        assert !(Owns(rows[i], pool, mac) && Owns(rows[j], pool, mac));
      } else {
        assert rows[i] in rows;
        assert !Owns(rows[i], pool, mac);
      }
    }
  }

  lemma {:induction false} HiddenBreaks(rows: Rows, pool: int, mac: string, ip: int, end: real, now: real)
    requires Hidden(rows, pool, mac, ip, now) && end >= now
    ensures !LiveUnique(Leased(rows, pool, mac, ip, end), now)
  {
    var r := Leased(rows, pool, mac, ip, end);
    var i :| 0 <= i < |rows| && ActiveAt(rows[i], pool, ip) && rows[i].mac != mac && !IsExpired(rows[i], now);
    assert Live(r[i], now);
    var mine := FirstOwned(rows, pool, mac);
    var j := if mine.Some? then mine.value else |rows|;
    assert Live(r[j], now) && r[j].ip == ip && r[j].pool == pool && i != j;
    assert r[i].ip == ip && r[i].pool == pool;
    if i < j {
      assert !(Live(r[i], now) && Live(r[j], now) ==> !(r[i].pool == r[j].pool && r[i].ip == r[j].ip));
    } else {
      assert !(Live(r[j], now) && Live(r[i], now) ==> !(r[j].pool == r[i].pool && r[j].ip == r[i].ip));
    }
  }

  /** A run without sweeps in which two clients end up with live leases on one address. */
  lemma {:induction false} UnsweptRunSharesAddress(cfg: Config, ip: int)
    requires InRange(cfg.range, ip) && cfg.leaseTime > 0.0
    ensures var steps := [Request(1, "a", Some(ip)), Wait(cfg.leaseTime + 1.0),
                          Request(1, "b", Some(ip)), Request(1, "c", Some(ip))];
            var s := Run(cfg, State([], 0.0), steps);
            !LiveUnique(s.rows, s.now)
  {
    var late := cfg.leaseTime + 1.0;
    var a := Row(1, "a", ip, cfg.leaseTime, Active);
    var b := Row(1, "b", ip, late + cfg.leaseTime, Active);
    var c := Row(1, "c", ip, late + cfg.leaseTime, Active);
    var s0 := State([], 0.0);
    var s1 := Apply(cfg, s0, Request(1, "a", Some(ip)));
    assert 0.0 + cfg.leaseTime == cfg.leaseTime;
    assert s1 == State([a], 0.0);
    var s2 := Apply(cfg, s1, Wait(late));
    var s3 := Apply(cfg, s2, Request(1, "b", Some(ip)));
    assert s3 == State([a, b], late) by {
      assert FirstConflict([a], 1, "b", ip) == Some(a);
    }
    var s4 := Apply(cfg, s3, Request(1, "c", Some(ip)));
    assert s4 == State([a, b, c], late) by {
      assert FirstConflict([a, b], 1, "c", ip) == Some(a);
      assert [a, b][1..] == [b];
    }
    FourSteps(cfg, s0, Request(1, "a", Some(ip)), Wait(late), Request(1, "b", Some(ip)), Request(1, "c", Some(ip)));
    assert Live(s4.rows[1], late) && Live(s4.rows[2], late);
  }

  lemma FourSteps(cfg: Config, s: State, a: Step, b: Step, c: Step, d: Step)
    ensures Run(cfg, s, [a, b, c, d]) == Apply(cfg, Apply(cfg, Apply(cfg, Apply(cfg, s, a), b), c), d)
  {
    assert [a, b, c, d][1..] == [b, c, d] && [b, c, d][1..] == [c, d] && [c, d][1..] == [d] && [d][1..] == [];
    var s1 := Apply(cfg, s, a);
    var s2 := Apply(cfg, s1, b);
    var s3 := Apply(cfg, s2, c);
    assert Run(cfg, s3, [d]) == Apply(cfg, s3, d);
    assert Run(cfg, s2, [c, d]) == Run(cfg, s3, [d]);
    assert Run(cfg, s1, [b, c, d]) == Run(cfg, s2, [c, d]);
  }
}
