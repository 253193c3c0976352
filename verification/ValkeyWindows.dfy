/** The DoH rate limiter's shared backend: fixed-window counters in a Valkey store whose keys expire,
    incremented by any number of clients on one store clock. */
module ValkeyWindows {
  import opened Basics

  /** `window` seconds per window and `maxRequests` accepted in each. */
  datatype Limit = Limit(window: nat, maxRequests: nat)

  predicate Sensible(l: Limit) {
    l.window >= 1 && l.maxRequests >= 1
  }

  /** Index of the window that time `t` falls in. */
  function Index(l: Limit, t: real): int
    requires l.window >= 1
  {
    (t / l.window as real).Floor
  }

  /** A stored counter and the time its key disappears, if it was given one. */
  datatype Counter = Counter(count: nat, expires: Option<real>)
  type Store = map<(string, int), Counter>

  /** What the store does for one request: both commands succeed, INCR fails, or EXPIRE fails after INCR. */
  datatype Fate = Works | IncrFails | ExpireFails

  datatype Call = Call(time: real, key: string, fate: Fate)

  function Slot(l: Limit, c: Call): (string, int)
    requires l.window >= 1
  {
    (c.key, Index(l, c.time))
  }

  predicate Alive(s: Store, slot: (string, int), now: real) {
    slot in s && (s[slot].expires.Some? ==> now < s[slot].expires.value)
  }

  /** The value INCR returns. */
  function Incremented(l: Limit, s: Store, c: Call): nat
    requires l.window >= 1
  {
    if Alive(s, Slot(l, c), c.time) then s[Slot(l, c)].count + 1 else 1
  }

  function Stored(l: Limit, s: Store, c: Call): Counter
    requires l.window >= 1
  {
    var count := Incremented(l, s, c);
    if count > 1 && Slot(l, c) in s then Counter(count, s[Slot(l, c)].expires)
    else Counter(count, if c.fate == Works then Some(c.time + l.window as real + 1.0) else None)
  }

  function After(l: Limit, s: Store, c: Call): Store
    requires l.window >= 1
  {
    if c.fate == IncrFails then s else s[Slot(l, c) := Stored(l, s, c)]
  }

  /** `check_and_consume`: any store error denies the request. */
  predicate Accepts(l: Limit, s: Store, c: Call)
    requires l.window >= 1
  {
    && c.fate != IncrFails
    && !(c.fate == ExpireFails && Incremented(l, s, c) == 1)
    && Incremented(l, s, c) <= l.maxRequests
  }

  class ValkeyBackend {
    const limit: Limit
    var store: Store

    constructor (rps: real, window: nat)
      ensures limit.window == window && store == map[]
      ensures limit.maxRequests >= 1 && (rps * window as real >= 1.0 ==>
                limit.maxRequests as real <= rps * window as real < (limit.maxRequests + 1) as real)
    {
      var requests := (rps * window as real).Floor;
      limit := Limit(window, if requests >= 1 then requests else 1);
      store := map[];
    }

    method CheckAndConsume(c: Call) returns (allowed: bool)
      requires Sensible(limit)
      modifies this
      ensures allowed == Accepts(limit, old(store), c)
      ensures store == After(limit, old(store), c)
    {
      var slot := (c.key, Index(limit, c.time));
      if c.fate == IncrFails {
        return false;
      }
      if slot in store && store[slot].expires.Some? && store[slot].expires.value <= c.time {
        store := store - {slot};
      }
      var count := if slot in store then store[slot].count + 1 else 1;
      var expires := if slot in store then store[slot].expires else None;
      store := store[slot := Counter(count, expires)];
      if count == 1 {
        if c.fate == ExpireFails {
          store := store[slot := Counter(count, None)];
          assert store == After(limit, old(store), c);
          return false;
        }
        store := store[slot := Counter(count, Some(c.time + limit.window as real + 1.0))];
      }
      assert store == After(limit, old(store), c);
      allowed := count <= limit.maxRequests;
    }

    /** Read at `now`; waiting is needed exactly when a working store shows the current window exhausted. */
    method GetRetryAfter(key: string, now: real, storeUp: bool) returns (seconds: real)
      requires Sensible(limit)
      ensures seconds == RetryAfter(limit, store, key, now, storeUp)
      ensures seconds > 0.0 <==> storeUp && !Accepts(limit, store, Call(now, key, Works))
    {
      IndexBounds(limit, now);
      var slot := (key, Index(limit, now));
      if !storeUp || !Alive(store, slot, now) || store[slot].count < limit.maxRequests {
        return 0.0;
      }
      seconds := (slot.1 + 1) as real * limit.window as real - now + 0.1;
    }
  }

  // ----- whole traces

  function Run(l: Limit, trace: seq<Call>): Store
    requires l.window >= 1
  {
    if trace == [] then map[] else After(l, Run(l, trace[..|trace| - 1]), trace[|trace| - 1])
  }

  /** Requests that reached the counter of `slot`. */
  function Counted(l: Limit, trace: seq<Call>, slot: (string, int)): nat
    requires l.window >= 1
  {
    if trace == [] then 0
    else
      var c := trace[|trace| - 1];
      Counted(l, trace[..|trace| - 1], slot) + (if Slot(l, c) == slot && c.fate != IncrFails then 1 else 0)
  }

  /** The store holds the true count of every slot, under a key that outlives the slot's window. */
  ghost predicate CountsTruly(l: Limit, s: Store, trace: seq<Call>)
    requires l.window >= 1
  {
    forall slot: (string, int) :: CountsSlot(l, s, trace, slot)
  }

  predicate CountsSlot(l: Limit, s: Store, trace: seq<Call>, slot: (string, int))
    requires l.window >= 1
  {
    && (slot in s <==> Counted(l, trace, slot) > 0)
    && (slot in s ==> s[slot].count == Counted(l, trace, slot))
    && (slot in s && s[slot].expires.Some? ==> ExpiresInTime(l, slot, s[slot].expires.value))
    && (slot in s && s[slot].expires.None? ==> EverFailed(trace))
  }

  /** After the window, but within a window and a second of its end. */
  predicate ExpiresInTime(l: Limit, slot: (string, int), at: real) {
    var end := (slot.1 + 1) as real * l.window as real;
    end < at <= end + l.window as real + 1.0
  }

  predicate EverFailed(trace: seq<Call>) {
    exists i :: 0 <= i < |trace| && trace[i].fate == ExpireFails
  }

  lemma IndexBounds(l: Limit, t: real)
    requires l.window >= 1
    ensures Index(l, t) as real * l.window as real <= t < (Index(l, t) + 1) as real * l.window as real
  {
    var w := l.window as real;
    var q, i := t / w, Index(l, t) as real;
    assert q * w == t;
    var next := (Index(l, t) + 1) as real;
    assert i <= q < next;
    Scaled(i, q, w);
    Scaled(q, next, w);
    assert t < next * w;
  }

  lemma Scaled(a: real, b: real, w: real)
    requires w > 0.0 && a <= b
    ensures a * w <= b * w && (a < b ==> a * w < b * w)
  {
  }

  /** A time at or past the end of a window has a greater index. */
  lemma LaterIndex(l: Limit, index: int, t: real)
    requires l.window >= 1 && t >= (index + 1) as real * l.window as real
    ensures Index(l, t) > index
  {
    var w, next := l.window as real, (index + 1) as real;
    assert next * w / w == next by { Quotient(next, w, next * w); }
    assert t / w >= next * w / w;
  }

  lemma Quotient(q: real, w: real, t: real)
    requires w > 0.0 && q * w == t
    ensures t / w == q
  {
  }

  lemma {:induction false} StoreCounts(l: Limit, trace: seq<Call>)
    requires l.window >= 1
    ensures CountsTruly(l, Run(l, trace), trace)
    decreases |trace|
  {
    if trace == [] {
    } else {
      var earlier, c := trace[..|trace| - 1], trace[|trace| - 1];
      StoreCounts(l, earlier);
      CountsKept(l, Run(l, earlier), trace);
    }
  }

  /** A counter has not expired when its window's requests come. */
  lemma {:induction false} AliveIffStored(l: Limit, s: Store, trace: seq<Call>, c: Call)
    requires l.window >= 1 && CountsTruly(l, s, trace)
    ensures Alive(s, Slot(l, c), c.time) <==> Slot(l, c) in s
  {
    IndexBounds(l, c.time);
    var slot := Slot(l, c);
    assert CountsSlot(l, s, trace, slot);
    if slot in s && s[slot].expires.Some? {
      var end := (slot.1 + 1) as real * l.window as real;
      assert c.time < end;
      assert end < s[slot].expires.value;
    }
  }

  /** The expiry set by a window's first request is past the window. */
  lemma {:induction false} ExpiresLate(l: Limit, t: real)
    requires l.window >= 1
    ensures var end := (Index(l, t) + 1) as real * l.window as real;
            end < t + l.window as real + 1.0 <= end + l.window as real + 1.0
  {
    IndexBounds(l, t);
    var i, w := Index(l, t) as real, l.window as real;
    assert (Index(l, t) + 1) as real == i + 1.0;
    assert (i + 1.0) * w == i * w + w;
  }

  lemma {:induction false} CountsKept(l: Limit, s: Store, trace: seq<Call>)
    requires l.window >= 1 && trace != [] && CountsTruly(l, s, trace[..|trace| - 1])
    ensures CountsTruly(l, After(l, s, trace[|trace| - 1]), trace)
  {
    var earlier, c := trace[..|trace| - 1], trace[|trace| - 1];
    AliveIffStored(l, s, earlier, c);
    ExpiresLate(l, c.time);
    FailureRemembered(trace);
    forall slot: (string, int) ensures CountsSlot(l, After(l, s, c), trace, slot) {
      assert CountsSlot(l, s, earlier, slot);
    }
  }

  lemma {:induction false} FailureRemembered(trace: seq<Call>)
    requires trace != []
    ensures trace[|trace| - 1].fate == ExpireFails || EverFailed(trace[..|trace| - 1]) ==> EverFailed(trace)
  {
    var earlier := trace[..|trace| - 1];
    if EverFailed(earlier) {
      var i :| 0 <= i < |earlier| && earlier[i].fate == ExpireFails;
      assert trace[i].fate == ExpireFails;
    }
  }

  /** The counter a request meets is the number of requests its identity has made in that window. */
  lemma {:induction false} CounterIsTrueCount(l: Limit, trace: seq<Call>, c: Call)
    requires l.window >= 1
    ensures Incremented(l, Run(l, trace), c) == Counted(l, trace, Slot(l, c)) + 1
  {
    StoreCounts(l, trace);
    AliveIffStored(l, Run(l, trace), trace, c);
    assert CountsSlot(l, Run(l, trace), trace, Slot(l, c));
  }

  /** A request is accepted exactly when the store answers it and its identity has made fewer than `maxRequests` in
      that window. */
  lemma {:induction false} AcceptedIff(l: Limit, trace: seq<Call>, c: Call)
    requires l.window >= 1
    ensures var earlier := Counted(l, trace, (c.key, Index(l, c.time)));
            Accepts(l, Run(l, trace), c)
            <==> earlier < l.maxRequests && (c.fate == Works || (c.fate == ExpireFails && earlier > 0))
  {
    CounterIsTrueCount(l, trace, c);
  }

  /** Accepted requests of an identity in one window. */
  function AcceptedIn(l: Limit, trace: seq<Call>, slot: (string, int)): nat
    requires l.window >= 1
  {
    if trace == [] then 0
    else
      var earlier, c := trace[..|trace| - 1], trace[|trace| - 1];
      AcceptedIn(l, earlier, slot) + (if Slot(l, c) == slot && Accepts(l, Run(l, earlier), c) then 1 else 0)
  }

  /** No window accepts more than `maxRequests` of an identity's requests. */
  lemma {:induction false} WindowBound(l: Limit, trace: seq<Call>, slot: (string, int))
    requires l.window >= 1
    ensures AcceptedIn(l, trace, slot) <= Counted(l, trace, slot) && AcceptedIn(l, trace, slot) <= l.maxRequests
    decreases |trace|
  {
    if trace == [] {
    } else {
      var earlier, c := trace[..|trace| - 1], trace[|trace| - 1];
      WindowBound(l, earlier, slot);
      CounterIsTrueCount(l, earlier, c);
    }
  }

  /** Accepted requests of `key` at times in `[from, to]`. */
  function AcceptedBetween(l: Limit, trace: seq<Call>, key: string, from: real, to: real): nat
    requires l.window >= 1
  {
    if trace == [] then 0
    else
      var earlier, c := trace[..|trace| - 1], trace[|trace| - 1];
      AcceptedBetween(l, earlier, key, from, to)
      + (if c.key == key && from <= c.time <= to && Accepts(l, Run(l, earlier), c) then 1 else 0)
  }

  lemma NearbyIndex(l: Limit, from: real, t: real)
    requires l.window >= 1 && from <= t <= from + l.window as real
    ensures Index(l, t) == Index(l, from) || Index(l, t) == Index(l, from) + 1
  {
    var w := l.window as real;
    var q := from / w;
    assert (q + 1.0) * w == from + w;
    Quotient(q + 1.0, w, from + w);
    assert q <= t / w <= (from + w) / w;
  }

  /** No interval as short as a window sees more than twice `maxRequests` accepted. */
  lemma {:induction false} ShortIntervalBound(l: Limit, trace: seq<Call>, key: string, from: real, to: real)
    requires l.window >= 1 && to <= from + l.window as real
    ensures AcceptedBetween(l, trace, key, from, to) <= 2 * l.maxRequests
  {
    TwoWindowsCover(l, trace, key, from, to);
    WindowBound(l, trace, (key, Index(l, from)));
    WindowBound(l, trace, (key, Index(l, from) + 1));
  }

  lemma {:induction false} TwoWindowsCover(l: Limit, trace: seq<Call>, key: string, from: real, to: real)
    requires l.window >= 1 && to <= from + l.window as real
    ensures AcceptedBetween(l, trace, key, from, to)
            <= AcceptedIn(l, trace, (key, Index(l, from))) + AcceptedIn(l, trace, (key, Index(l, from) + 1))
    decreases |trace|
  {
    if trace == [] {
    } else {
      var c := trace[|trace| - 1];
      TwoWindowsCover(l, trace[..|trace| - 1], key, from, to);
      if from <= c.time <= to {
        NearbyIndex(l, from, c.time);
      }
    }
  }

  // ----- the Retry-After header

  /** `get_retry_after`: zero when the store fails or the current window has room, else the rest of the window and a
      tenth of a second. */
  function RetryAfter(l: Limit, s: Store, key: string, now: real, storeUp: bool): real
    requires l.window >= 1
  {
    var slot := (key, Index(l, now));
    if !storeUp || !Alive(s, slot, now) || s[slot].count < l.maxRequests then 0.0
    else (Index(l, now) + 1) as real * l.window as real - now + 0.1
  }

  /** An identity that waits as long as a working store says, sending nothing meanwhile, is accepted if the store
      works then too. */
  lemma {:induction false} RetryAfterIsEnough(l: Limit, trace: seq<Call>, key: string, readAt: real, retryAt: real)
    requires Sensible(l) && retryAt >= readAt + RetryAfter(l, Run(l, trace), key, readAt, true)
    requires forall i :: 0 <= i < |trace| && trace[i].key == key ==> trace[i].time <= readAt
    ensures Accepts(l, Run(l, trace), Call(retryAt, key, Works))
  {
    var c, s := Call(retryAt, key, Works), Run(l, trace);
    CounterIsTrueCount(l, trace, c);
    IndexBounds(l, readAt);
    IndexGrows(l, readAt, retryAt);
    if Index(l, retryAt) > Index(l, readAt) {
      NothingCounted(l, trace, key, readAt, Index(l, retryAt));
    } else {
      StoreCounts(l, trace);
      AliveIffStored(l, s, trace, Call(readAt, key, Works));
      assert CountsSlot(l, s, trace, (key, Index(l, readAt)));
      WindowNotOver(l, readAt, retryAt);
    }
  }

  lemma IndexGrows(l: Limit, a: real, b: real)
    requires l.window >= 1 && a <= b
    ensures Index(l, a) <= Index(l, b)
  {
    assert a / l.window as real <= b / l.window as real;
  }

  lemma WindowNotOver(l: Limit, a: real, b: real)
    requires l.window >= 1 && Index(l, b) <= Index(l, a)
    ensures b < (Index(l, a) + 1) as real * l.window as real
  {
    if b >= (Index(l, a) + 1) as real * l.window as real {
      LaterIndex(l, Index(l, a), b);
    }
  }

  lemma {:induction false} NothingCounted(l: Limit, trace: seq<Call>, key: string, readAt: real, index: int)
    requires l.window >= 1 && index > Index(l, readAt)
    requires forall i :: 0 <= i < |trace| && trace[i].key == key ==> trace[i].time <= readAt
    ensures Counted(l, trace, (key, index)) == 0
    decreases |trace|
  {
    if trace == [] {
    } else {
      var c := trace[|trace| - 1];
      NothingCounted(l, trace[..|trace| - 1], key, readAt, index);
      if c.key == key {
        assert c.time / l.window as real <= readAt / l.window as real;
      }
    }
  }
}
