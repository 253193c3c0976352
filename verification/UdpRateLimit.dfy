/** The UDP responder's per-source fixed-window rate limit, whose table is pruned of stale sources. */
module UdpRateLimit {
  import opened Basics
  import opened Traces

  const WINDOW := 1.0
  const MAX_TRACKED := 50_000

  datatype Window = Window(start: real, count: int)
  type Table = map<string, Window>

  function Entry(table: Table, ip: string): Option<Window> {
    if ip in table then Some(table[ip]) else None
  }

  predicate Current(entry: Option<Window>, now: real) {
    entry.Some? && now - entry.value.start < WINDOW
  }

  predicate Refused(limit: int, entry: Option<Window>, now: real) {
    Current(entry, now) && entry.value.count >= limit
  }

  function Advanced(limit: int, entry: Option<Window>, now: real): Window {
    if !Current(entry, now) then Window(now, 1)
    else if entry.value.count >= limit then entry.value
    else Window(entry.value.start, entry.value.count + 1)
  }

  function Pruned(table: Table, now: real): Table {
    map ip | ip in table && !(table[ip].start < now - WINDOW * 10.0) :: table[ip]
  }

  /** The table after a request from `ip`: pruning happens only when a new window overfills it. */
  function After(limit: int, maxTracked: int, table: Table, ip: string, now: real): Table {
    var next := table[ip := Advanced(limit, Entry(table, ip), now)];
    if !Current(Entry(table, ip), now) && |next| > maxTracked then Pruned(next, now) else next
  }

  class Limiter {
    const limit: int
    const maxTracked: int
    var state: Table

    constructor (limit: int, maxTracked: int := MAX_TRACKED)
      ensures this.limit == limit && this.maxTracked == maxTracked && state == map[]
    {
      this.limit := limit;
      this.maxTracked := maxTracked;
      state := map[];
    }

    method RateLimited(ip: string, now: real) returns (limited: bool)
      modifies this
      ensures limited == Refused(limit, Entry(old(state), ip), now)
      ensures state == After(limit, maxTracked, old(state), ip, now)
    {
      if ip !in state || now - state[ip].start >= WINDOW {
        state := state[ip := Window(now, 1)];
        if |state| > maxTracked {
          Prune(now);
        }
        return false;
      }
      var entry := state[ip];
      if entry.count >= limit {
        return true;
      }
      state := state[ip := Window(entry.start, entry.count + 1)];
      limited := false;
    }

    method Prune(now: real)
      modifies this
      ensures state == Pruned(old(state), now)
      ensures forall ip :: ip in state <==> ip in old(state) && old(state)[ip].start >= now - 10.0 * WINDOW
      ensures forall ip :: ip in state ==> state[ip] == old(state)[ip]
    {
      var staleBefore := now - WINDOW * 10.0;
      var stale := set ip | ip in state && state[ip].start < staleBefore;
      state := state - stale;
    }
  }

  // ----- whole traces

  /** For each arrival, whether the limiter answers it. */
  function Decisions(limit: int, maxTracked: int, table: Table, trace: seq<Request>): (ds: seq<bool>)
    ensures |ds| == |trace|
    decreases |trace|
  {
    if trace == [] then []
    else
      var a := trace[0];
      [!Refused(limit, Entry(table, a.key), a.time)]
      + Decisions(limit, maxTracked, After(limit, maxTracked, table, a.key, a.time), trace[1..])
  }

  /** The same limiter with an unbounded table that is never pruned. */
  function UnprunedDecisions(limit: int, table: Table, trace: seq<Request>): (ds: seq<bool>)
    ensures |ds| == |trace|
    decreases |trace|
  {
    if trace == [] then []
    else
      var a := trace[0];
      var entry := Entry(table, a.key);
      [!Refused(limit, entry, a.time)]
      + UnprunedDecisions(limit, table[a.key := Advanced(limit, entry, a.time)], trace[1..])
  }

  /** What pruning has forgotten is too old to matter at `now` or later. */
  ghost predicate Forgets(pruned: Table, full: Table, now: real) {
    && (forall ip :: ip in pruned ==> ip in full && pruned[ip] == full[ip])
    && (forall ip :: ip in full && ip !in pruned ==> full[ip].start < now - WINDOW)
  }

  lemma ForgetsStep(limit: int, maxTracked: int, pruned: Table, full: Table, a: Request)
    requires Forgets(pruned, full, a.time)
    ensures Refused(limit, Entry(pruned, a.key), a.time) == Refused(limit, Entry(full, a.key), a.time)
    ensures Forgets(After(limit, maxTracked, pruned, a.key, a.time),
                    full[a.key := Advanced(limit, Entry(full, a.key), a.time)], a.time)
  {
    assert Current(Entry(pruned, a.key), a.time) == Current(Entry(full, a.key), a.time);
  }

  lemma {:induction false} PruningUnobservableFrom(limit: int, maxTracked: int, pruned: Table, full: Table,
                                                   trace: seq<Request>, now: real)
    requires Forgets(pruned, full, now) && Monotone(trace, now)
    ensures Decisions(limit, maxTracked, pruned, trace) == UnprunedDecisions(limit, full, trace)
    decreases |trace|
  {
    if trace == [] {
    } else {
      var a := trace[0];
      ForgetsStep(limit, maxTracked, pruned, full, a);
      PruningUnobservableFrom(limit, maxTracked, After(limit, maxTracked, pruned, a.key, a.time),
                              full[a.key := Advanced(limit, Entry(full, a.key), a.time)], trace[1..], a.time);
    }
  }

  /** Pruning is unobservable: on every trace the limiter decides as the one that is never pruned. */
  lemma PruningUnobservable(limit: int, maxTracked: int, trace: seq<Request>, start: real)
    requires Monotone(trace, start)
    ensures Decisions(limit, maxTracked, map[], trace) == UnprunedDecisions(limit, map[], trace)
  {
    PruningUnobservableFrom(limit, maxTracked, map[], map[], trace, start);
  }

  // ----- which requests are refused

  /** The request of `key` that opened its latest window: the first, or one a window length after the last opener. */
  function Opener(trace: seq<Request>, key: string): (o: Option<nat>)
    ensures o.Some? ==> o.value < |trace| && trace[o.value].key == key
  {
    if trace == [] then None
    else
      var n := |trace| - 1;
      var earlier := Opener(trace[..n], key);
      if trace[n].key == key && (earlier.None? || trace[n].time - trace[earlier.value].time >= WINDOW) then Some(n)
      else earlier
  }

  /** Requests of `key` from index `from` on. */
  function Requests(trace: seq<Request>, key: string, from: nat): nat {
    if |trace| <= from then 0
    else
      var n := |trace| - 1;
      Requests(trace[..n], key, from) + (if trace[n].key == key then 1 else 0)
  }

  /** Requests of `key` later than `after`. */
  function Recent(trace: seq<Request>, key: string, after: real): nat {
    if trace == [] then 0
    else
      var n := |trace| - 1;
      Recent(trace[..n], key, after) + (if trace[n].key == key && trace[n].time > after then 1 else 0)
  }

  /** The table that a trace leaves when nothing is pruned. */
  function FullTable(limit: int, trace: seq<Request>): Table {
    if trace == [] then map[]
    else
      var a := trace[|trace| - 1];
      var table := FullTable(limit, trace[..|trace| - 1]);
      table[a.key := Advanced(limit, Entry(table, a.key), a.time)]
  }

  lemma {:induction false} DecidedFrom(limit: int, before: seq<Request>, trace: seq<Request>, i: nat)
    requires i < |trace|
    ensures UnprunedDecisions(limit, FullTable(limit, before), trace)[i]
            == !Refused(limit, Entry(FullTable(limit, before + trace[..i]), trace[i].key), trace[i].time)
    decreases i
  {
    if i == 0 {
      assert before + trace[..0] == before;
    } else {
      var more := before + [trace[0]];
      assert more[..|before|] == before;
      DecidedFrom(limit, more, trace[1..], i - 1);
      assert more + trace[1..][..i - 1] == before + trace[..i];
    }
  }

  function Min(a: int, b: int): int { if a <= b then a else b }

  /** The window of `key` starts with its opener and has counted the requests since, up to what it may give. */
  lemma {:induction false} WindowOf(limit: int, trace: seq<Request>, key: string)
    ensures var entry, o := Entry(FullTable(limit, trace), key), Opener(trace, key);
            && (entry.None? <==> o.None?)
            && (o.Some? ==> Requests(trace, key, o.value) >= 1
                            && entry.value == Window(trace[o.value].time, Min(Requests(trace, key, o.value), PerWindow(limit))))
    decreases |trace|
  {
    if trace != [] {
      var n := |trace| - 1;
      WindowOf(limit, trace[..n], key);
      assert Requests(trace[..n], key, n) == 0;
    }
  }

  /** On every trace a request is refused exactly when it falls into its source's open window and that window has
      already had `limit` requests. */
  lemma {:induction false} RefusedIff(limit: int, maxTracked: int, trace: seq<Request>, start: real, i: nat)
    requires Monotone(trace, start) && i < |trace|
    ensures var before, key, o := trace[..i], trace[i].key, Opener(trace[..i], trace[i].key);
            !Decisions(limit, maxTracked, map[], trace)[i]
            <==> o.Some? && trace[i].time - trace[o.value].time < WINDOW && Requests(before, key, o.value) >= limit
  {
    PruningUnobservable(limit, maxTracked, trace, start);
    DecidedFrom(limit, [], trace, i);
    assert [] + trace[..i] == trace[..i];
    WindowOf(limit, trace[..i], trace[i].key);
  }

  /** The table that a trace leaves. */
  function TableAfter(limit: int, maxTracked: int, table: Table, trace: seq<Request>): Table
    decreases |trace|
  {
    if trace == [] then table
    else TableAfter(limit, maxTracked, After(limit, maxTracked, table, trace[0].key, trace[0].time), trace[1..])
  }

  lemma {:induction false} TableAfterFirst(limit: int, maxTracked: int, table: Table, a: Request, rest: seq<Request>)
    ensures TableAfter(limit, maxTracked, table, [a] + rest)
            == TableAfter(limit, maxTracked, After(limit, maxTracked, table, a.key, a.time), rest)
  {
    assert ([a] + rest)[1..] == rest;
  }

  lemma {:induction false} DecidedNext(limit: int, maxTracked: int, table: Table, trace: seq<Request>, a: Request)
    ensures Decisions(limit, maxTracked, table, trace + [a])[|trace|]
            == !Refused(limit, Entry(TableAfter(limit, maxTracked, table, trace), a.key), a.time)
    decreases |trace|
  {
    if trace != [] {
      assert (trace + [a])[1..] == trace[1..] + [a];
      DecidedNext(limit, maxTracked, After(limit, maxTracked, table, trace[0].key, trace[0].time), trace[1..], a);
    }
  }

  /** The same of the request that comes next. */
  lemma {:induction false} RefusedNextIff(limit: int, maxTracked: int, trace: seq<Request>, start: real, a: Request)
    requires Monotone(trace, start) && start <= a.time && forall i :: 0 <= i < |trace| ==> trace[i].time <= a.time
    ensures var o := Opener(trace, a.key);
            Refused(limit, Entry(TableAfter(limit, maxTracked, map[], trace), a.key), a.time)
            <==> o.Some? && a.time - trace[o.value].time < WINDOW && Requests(trace, a.key, o.value) >= limit
  {
    DecidedNext(limit, maxTracked, map[], trace, a);
    RefusedIff(limit, maxTracked, trace + [a], start, |trace|);
    assert (trace + [a])[..|trace|] == trace;
  }

  lemma {:induction false} RequestsAreRecent(trace: seq<Request>, key: string, from: nat, after: real)
    requires forall j :: from <= j < |trace| ==> trace[j].time > after
    ensures Requests(trace, key, from) <= Recent(trace, key, after)
    decreases |trace|
  {
    if |trace| > from {
      RequestsAreRecent(trace[..|trace| - 1], key, from, after);
    }
  }

  /** A source with fewer than `limit` requests in the last window length is answered. */
  lemma {:induction false} WithinLimitIsAnswered(limit: int, maxTracked: int, trace: seq<Request>, start: real, i: nat)
    requires Monotone(trace, start) && i < |trace|
    requires Recent(trace[..i], trace[i].key, trace[i].time - WINDOW) < limit
    ensures Decisions(limit, maxTracked, map[], trace)[i]
  {
    RefusedIff(limit, maxTracked, trace, start, i);
    var before, o := trace[..i], Opener(trace[..i], trace[i].key);
    if o.Some? && trace[i].time - trace[o.value].time < WINDOW {
      RequestsAreRecent(before, trace[i].key, o.value, trace[i].time - WINDOW);
    }
  }

  /** A request that opens a window leaves a table that is small enough, or holds only sources seen within ten
      window lengths. */
  lemma {:induction false} TableStaysSmall(limit: int, maxTracked: int, table: Table, ip: string, now: real)
    requires ip in table ==> now - table[ip].start >= WINDOW
    ensures var next := After(limit, maxTracked, table, ip, now);
            |next| <= maxTracked || forall other :: other in next ==> next[other].start >= now - 10.0 * WINDOW
  {
  }

  /** A table that is small enough forgets nobody. */
  lemma {:induction false} SmallTableKeepsAll(limit: int, maxTracked: int, table: Table, ip: string, now: real, other: string)
    requires |table.Keys + {ip}| <= maxTracked && other in table && other != ip
    ensures var next := After(limit, maxTracked, table, ip, now);
            other in next && next[other] == table[other]
  {
    var next := table[ip := Advanced(limit, Entry(table, ip), now)];
    assert next.Keys == table.Keys + {ip};
  }

  // ----- how many answers a source can get

  /** Answers given to `ip` at times in `[from, to]`. */
  function Answers(trace: seq<Request>, ds: seq<bool>, ip: string, from: real, to: real): nat
    requires |ds| == |trace|
  {
    if trace == [] then 0
    else
      (if trace[0].key == ip && ds[0] && from <= trace[0].time <= to then 1 else 0)
      + Answers(trace[1..], ds[1..], ip, from, to)
  }

  function Max(a: int, b: int): int { if a >= b then a else b }

  /** Answers one window can give: its first request is always answered. */
  function PerWindow(limit: int): int { Max(1, limit) }

  /** Whole windows in an interval of the given length. */
  function Windows(length: real): int { (length / WINDOW).Floor }

  /** Answers still to come up to `to` once a window has opened. */
  function Remaining(limit: int, w: Window, to: real): int {
    if to < w.start then 0
    else Max(0, PerWindow(limit) - w.count) + PerWindow(limit) * Windows(to - w.start)
  }

  lemma NewWindowFits(limit: int, w: Window, t: real, to: real)
    requires t - w.start >= WINDOW && t <= to
    ensures 1 + Remaining(limit, Window(t, 1), to) <= Remaining(limit, w, to)
  {
    var m, x, y := PerWindow(limit), Windows(to - t), Windows(to - w.start);
    assert x + 1 <= y;
    assert m * (x + 1) <= m * y;
  }

  lemma {:induction false} RemainingBounds(limit: int, table: Table, trace: seq<Request>, ip: string, from: real, to: real)
    requires ip in table && Monotone(trace, table[ip].start)
    ensures Answers(trace, UnprunedDecisions(limit, table, trace), ip, from, to) <= Remaining(limit, table[ip], to)
    decreases |trace|
  {
    if trace == [] {
      if to >= table[ip].start {
        assert PerWindow(limit) * Windows(to - table[ip].start) >= 0;
      }
    } else {
      var a := trace[0];
      var next := table[a.key := Advanced(limit, Entry(table, a.key), a.time)];
      RemainingBounds(limit, next, trace[1..], ip, from, to);
      var ds := UnprunedDecisions(limit, table, trace);
      assert ds[1..] == UnprunedDecisions(limit, next, trace[1..]);
      if a.key == ip && !Current(Entry(table, ip), a.time) {
        if a.time <= to {
          NewWindowFits(limit, table[ip], a.time, to);
        } else if to >= table[ip].start {
          assert PerWindow(limit) * Windows(to - table[ip].start) >= 0;
        }
      }
    }
  }

  /** A window open at `from` can add one window's answers to those of the windows that start later. */
  lemma OpenWindowFits(limit: int, w: Window, from: real, to: real)
    requires from - WINDOW < w.start <= from <= to && w.count >= 0
    ensures Remaining(limit, w, to) <= PerWindow(limit) * (Windows(to - from) + 2)
  {
    var m, x, y := PerWindow(limit), Windows(to - w.start), Windows(to - from);
    assert x <= y + 1;
    assert m * x <= m * (y + 1);
    assert m * (y + 2) == m * (y + 1) + m;
  }

  lemma FirstWindowFits(limit: int, t: real, from: real, to: real)
    requires from <= t && from <= to
    ensures Remaining(limit, Window(t, 1), to) + (if t <= to then 1 else 0) <= PerWindow(limit) * (Windows(to - from) + 2)
  {
    var m, y := PerWindow(limit), Windows(to - from);
    assert 0 <= m * y;
    if t <= to {
      var x := Windows(to - t);
      assert m * x <= m * y;
    }
  }

  predicate StartedBy(table: Table, ip: string, from: real) {
    ip in table ==> table[ip].start <= from && table[ip].count >= 0
  }

  lemma {:induction false} IntervalBound(limit: int, table: Table, trace: seq<Request>, ip: string, from: real, to: real)
    requires from <= to && Monotone(trace, from) && StartedBy(table, ip, from)
    ensures Answers(trace, UnprunedDecisions(limit, table, trace), ip, from, to)
            <= PerWindow(limit) * (Windows(to - from) + 2)
    decreases |trace|
  {
    if trace == [] {
      assert 0 <= PerWindow(limit) * (Windows(to - from) + 2);
    } else if ip in table && Current(Some(table[ip]), from) {
      RemainingBounds(limit, table, trace, ip, from, to);
      OpenWindowFits(limit, table[ip], from, to);
    } else {
      var a := trace[0];
      var next := table[a.key := Advanced(limit, Entry(table, a.key), a.time)];
      assert UnprunedDecisions(limit, table, trace)[1..] == UnprunedDecisions(limit, next, trace[1..]);
      if a.key == ip {
        assert next[ip] == Window(a.time, 1);
        RemainingBounds(limit, next, trace[1..], ip, from, to);
        FirstWindowFits(limit, a.time, from, to);
      } else {
        IntervalBound(limit, next, trace[1..], ip, from, to);
      }
    }
  }

  lemma {:induction false} BoundFrom(limit: int, table: Table, trace: seq<Request>, ip: string, from: real, to: real, now: real)
    requires from <= to && Monotone(trace, now) && StartedBy(table, ip, from)
    ensures Answers(trace, UnprunedDecisions(limit, table, trace), ip, from, to)
            <= PerWindow(limit) * (Windows(to - from) + 2)
    decreases |trace|
  {
    if trace == [] || trace[0].time >= from {
      IntervalBound(limit, table, trace, ip, from, to);
    } else {
      var a := trace[0];
      var next := table[a.key := Advanced(limit, Entry(table, a.key), a.time)];
      assert UnprunedDecisions(limit, table, trace)[1..] == UnprunedDecisions(limit, next, trace[1..]);
      BoundFrom(limit, next, trace[1..], ip, from, to, a.time);
    }
  }

  /** In every trace the pruned limiter gives a source at most `max(1, limit)` answers per window, for
      the whole windows in the interval and two more. */
  lemma AnswersBounded(limit: int, maxTracked: int, trace: seq<Request>, start: real, ip: string, from: real, to: real)
    requires Monotone(trace, start) && from <= to
    ensures Answers(trace, Decisions(limit, maxTracked, map[], trace), ip, from, to)
            <= PerWindow(limit) * (Windows(to - from) + 2)
  {
    PruningUnobservable(limit, maxTracked, trace, start);
    BoundFrom(limit, map[], trace, ip, from, to, start);
  }
}
