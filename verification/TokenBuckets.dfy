/** The DoH rate limiter's in-memory backend: a token bucket per identity, held in a table of bounded
    size that forgets the least recently used identity. Time and tokens are real numbers. */
module TokenBuckets {
  import opened Basics
  import opened Traces

  // ----- one bucket

  /** Refill rate and capacity; the limiter clamps both to at least one. */
  datatype Rate = Rate(rps: real, burst: real)

  predicate Clamped(r: Rate) {
    r.rps >= 1.0 && r.burst >= 1.0
  }

  datatype Bucket = Bucket(tokens: real, lastRefill: real)

  function Min(a: real, b: real): real { if a <= b then a else b }

  function Full(r: Rate, now: real): Bucket { Bucket(r.burst, now) }

  /** Tokens available at `now`. */
  function Available(r: Rate, b: Bucket, now: real): real {
    Min(r.burst, b.tokens + Gained(r, now - b.lastRefill))
  }

  function Gained(r: Rate, elapsed: real): real { elapsed * r.rps }

  predicate Allows(r: Rate, b: Bucket, now: real) {
    Available(r, b, now) >= 1.0
  }

  function Spent(r: Rate, b: Bucket, now: real): Bucket {
    Bucket(Available(r, b, now) - (if Allows(r, b, now) then 1.0 else 0.0), now)
  }

  /** `TokenBucket.allow`; a bucket is held by value, and the caller stores the new one. */
  method Allow(r: Rate, b: Bucket, now: real) returns (allowed: bool, b': Bucket)
    ensures allowed == Allows(r, b, now) && b' == Spent(r, b, now)
    ensures r.burst >= 1.0 ==> (allowed <==> b.tokens + (now - b.lastRefill) * r.rps >= 1.0)
    ensures 0.0 <= b.tokens <= r.burst && b.lastRefill <= now && r.rps >= 0.0 ==> 0.0 <= b'.tokens <= r.burst
    ensures var held := b'.tokens + (if allowed then 1.0 else 0.0);
            held == b.tokens + (now - b.lastRefill) * r.rps || held == r.burst < b.tokens + (now - b.lastRefill) * r.rps
  {
    SpendingIs(r, b, now);
    var timePassed := now - b.lastRefill;
    var tokens := Min(r.burst, b.tokens + Gained(r, timePassed));
    if tokens >= 1.0 {
      return true, Bucket(tokens - 1.0, now);
    }
    return false, Bucket(tokens, now);
  }

  /** What is granted, what is left, and that nothing is made or lost but by the cap. */
  lemma {:induction false} SpendingIs(r: Rate, b: Bucket, now: real)
    ensures r.burst >= 1.0 ==> (Allows(r, b, now) <==> b.tokens + (now - b.lastRefill) * r.rps >= 1.0)
    ensures 0.0 <= b.tokens <= r.burst && b.lastRefill <= now && r.rps >= 0.0 ==> 0.0 <= Spent(r, b, now).tokens <= r.burst
    ensures var held := Spent(r, b, now).tokens + (if Allows(r, b, now) then 1.0 else 0.0);
            held == b.tokens + (now - b.lastRefill) * r.rps || held == r.burst < b.tokens + (now - b.lastRefill) * r.rps
  {
    var gained := Gained(r, now - b.lastRefill);
    GainedIs(r, now - b.lastRefill);
    if b.lastRefill <= now && r.rps >= 0.0 {
      GainedNonNegative(r, now - b.lastRefill);
    }
    assert Available(r, b, now) == Min(r.burst, b.tokens + gained);
  }

  // ----- the bounded table

  /** An ordered dictionary: `order` lists the keys of `buckets`, least recently used first. */
  datatype Table = Table(order: seq<string>, buckets: map<string, Bucket>)

  const EMPTY := Table([], map[])

  function Without(order: seq<string>, key: string): (r: seq<string>)
    ensures forall k :: k in r <==> k in order && k != key
  {
    if order == [] then []
    else if order[0] == key then Without(order[1..], key)
    else [order[0]] + Without(order[1..], key)
  }

  /** Make room for `key`: the oldest entry goes when a new key meets a full table. */
  function Evicted(maxKeys: nat, t: Table, key: string): Table {
    if key !in t.buckets && |t.order| >= maxKeys && t.order != []
    then Table(t.order[1..], t.buckets - {t.order[0]})
    else t
  }

  /** The bucket a request of `key` meets. */
  function Met(r: Rate, t: Table, key: string, now: real): Bucket {
    if key in t.buckets then t.buckets[key] else Full(r, now)
  }

  predicate Accepts(r: Rate, t: Table, key: string, now: real) {
    Allows(r, Met(r, t, key, now), now)
  }

  function After(r: Rate, maxKeys: nat, t: Table, key: string, now: real): Table {
    var e := Evicted(maxKeys, t, key);
    Table(Without(e.order, key) + [key], e.buckets[key := Spent(r, Met(r, t, key, now), now)])
  }

  class InMemoryBackend {
    const rate: Rate
    const maxKeys: nat
    var order: seq<string>
    var buckets: map<string, Bucket>

    function View(): Table
      reads this
    {
      Table(order, buckets)
    }

    /** Every key is listed exactly once. */
    ghost predicate Valid()
      reads this
    {
      WellKept(View())
    }

    constructor (rate: Rate, maxKeys: nat)
      ensures Valid() && this.rate == rate && this.maxKeys == maxKeys && View() == EMPTY
    {
      this.rate := rate;
      this.maxKeys := maxKeys;
      order := [];
      buckets := map[];
    }

    method CheckAndConsume(key: string, now: real) returns (allowed: bool)
      requires Valid() && maxKeys >= 1
      modifies this
      ensures Valid()
      ensures allowed == Accepts(rate, old(View()), key, now)
      ensures View() == After(rate, maxKeys, old(View()), key, now)
    {
      ghost var t := View();
      AfterWellKept(rate, maxKeys, t, key, now);
      if key !in buckets && |order| >= maxKeys {
        buckets := buckets - {order[0]};
        order := order[1..];
      }
      ghost var e := Evicted(maxKeys, t, key);
      assert View() == e;
      if key !in buckets {
        buckets := buckets[key := Full(rate, now)];
        WithoutAbsent(order, key);
        order := order + [key];
      } else {
        order := Without(order, key) + [key];
      }
      assert order == Without(e.order, key) + [key];
      var b;
      allowed, b := Allow(rate, buckets[key], now);
      buckets := buckets[key := b];
      UpdateTwice(e.buckets, key, Full(rate, now), b);
    }

    /** `get_retry_after`, read at time `now`. */
    method GetRetryAfter(key: string, now: real) returns (seconds: real)
      ensures seconds == RetryAfter(rate, View(), key, now)
      ensures Clamped(rate) ==> forall t :: t >= now ==> (Accepts(rate, View(), key, t) <==> t >= now + seconds)
    {
      if Clamped(rate) {
        forall t | t >= now ensures Accepts(rate, View(), key, t) <==> t >= now + RetryAfter(rate, View(), key, now) {
          RetryAfterIsExact(rate, View(), key, now, t);
        }
      }
      if key !in buckets {
        return 0.0;
      }
      var available := Available(rate, buckets[key], now);
      if available >= 1.0 {
        return 0.0;
      }
      seconds := if rate.rps > 0.0 then (1.0 - available) / rate.rps else 60.0;
    }
  }

  function RetryAfter(r: Rate, t: Table, key: string, now: real): real {
    if key !in t.buckets || Available(r, t.buckets[key], now) >= 1.0 then 0.0
    else if r.rps > 0.0 then (1.0 - Available(r, t.buckets[key], now)) / r.rps
    else 60.0
  }

  /** The least wait: left alone, an identity is accepted from then on and not before. */
  lemma {:induction false} RetryAfterIsExact(r: Rate, t: Table, key: string, now: real, at: real)
    requires Clamped(r) && at >= now
    ensures Accepts(r, t, key, at) <==> at >= now + RetryAfter(r, t, key, now)
  {
    if key !in t.buckets {
      assert Gained(r, at - at) == 0.0;
    } else {
      var b := t.buckets[key];
      GainedAdds(r, now - b.lastRefill, at - now);
      GainedNonNegative(r, at - now);
      if Available(r, b, now) < 1.0 {
        EnoughIff(r, 1.0 - Available(r, b, now), at - now);
      }
    }
  }

  lemma EnoughIff(r: Rate, tokens: real, elapsed: real)
    requires r.rps > 0.0
    ensures Gained(r, elapsed) >= tokens <==> elapsed >= tokens / r.rps
  {
    var wait := tokens / r.rps;
    assert wait * r.rps == tokens && Gained(r, elapsed) == elapsed * r.rps;
    if elapsed >= wait {
      Scaled(wait, elapsed, r.rps);
      assert Gained(r, elapsed) >= tokens;
    } else {
      Scaled(elapsed, wait, r.rps);
      assert Gained(r, elapsed) < tokens;
    }
  }

  lemma Scaled(a: real, b: real, k: real)
    requires k > 0.0 && a <= b
    ensures a * k <= b * k && (a < b ==> a * k < b * k)
  {
  }

  lemma UpdateTwice(m: map<string, Bucket>, k: string, a: Bucket, b: Bucket)
    ensures m[k := a][k := b] == m[k := b]
  {
  }

  ghost predicate WellKept(t: Table) {
    (forall k :: k in t.order <==> k in t.buckets) && Distinct(t.order)
  }

  lemma {:induction false} AfterWellKept(r: Rate, maxKeys: nat, t: Table, key: string, now: real)
    requires WellKept(t)
    ensures WellKept(Evicted(maxKeys, t, key)) && WellKept(After(r, maxKeys, t, key, now))
  {
    var e := Evicted(maxKeys, t, key);
    if e != t {
      OldestLeaves(t);
    }
    WithoutDistinct(e.order, key);
    SnocDistinct(Without(e.order, key), key);
  }

  lemma {:induction false} OldestLeaves(t: Table)
    requires WellKept(t) && t.order != []
    ensures WellKept(Table(t.order[1..], t.buckets - {t.order[0]}))
  {
  }

  lemma {:induction false} SnocDistinct(order: seq<string>, key: string)
    requires Distinct(order) && key !in order
    ensures Distinct(order + [key])
  {
  }

  lemma {:induction false} WithoutAbsent(order: seq<string>, key: string)
    requires key !in order
    ensures Without(order, key) == order
    decreases |order|
  {
    if order != [] {
      WithoutAbsent(order[1..], key);
    }
  }

  predicate Distinct(order: seq<string>) {
    forall i, j :: 0 <= i < j < |order| ==> order[i] != order[j]
  }

  lemma {:induction false} WithoutDistinct(order: seq<string>, key: string)
    requires Distinct(order)
    ensures Distinct(Without(order, key))
    decreases |order|
  {
    if order != [] {
      WithoutDistinct(order[1..], key);
      var rest := Without(order[1..], key);
      forall j | 0 <= j < |rest| ensures rest[j] != order[0] {
        assert rest[j] in order[1..];
      }
    }
  }

  // ----- whole traces

  function Run(r: Rate, maxKeys: nat, t: Table, trace: seq<Request>): Table
    decreases |trace|
  {
    if trace == [] then t else Run(r, maxKeys, After(r, maxKeys, t, trace[0].key, trace[0].time), trace[1..])
  }

  function Decisions(r: Rate, maxKeys: nat, t: Table, trace: seq<Request>): (ds: seq<bool>)
    ensures |ds| == |trace|
    decreases |trace|
  {
    if trace == [] then []
    else
      var q := trace[0];
      [Accepts(r, t, q.key, q.time)] + Decisions(r, maxKeys, After(r, maxKeys, t, q.key, q.time), trace[1..])
  }

  lemma {:induction false} RunAppend(r: Rate, maxKeys: nat, t: Table, trace: seq<Request>, q: Request)
    ensures Run(r, maxKeys, t, trace + [q]) == After(r, maxKeys, Run(r, maxKeys, t, trace), q.key, q.time)
    decreases |trace|
  {
    if trace == [] {
      assert (trace + [q])[1..] == [];
    } else {
      assert (trace + [q])[1..] == trace[1..] + [q];
      RunAppend(r, maxKeys, After(r, maxKeys, t, trace[0].key, trace[0].time), trace[1..], q);
    }
  }

  // ----- the order is recency

  /** Position of the last request of `key`, or -1. */
  function LastUse(trace: seq<Request>, key: string): (i: int)
    ensures -1 <= i < |trace|
    ensures i >= 0 ==> trace[i].key == key
    ensures forall j :: i < j < |trace| ==> trace[j].key != key
  {
    if trace == [] then -1
    else if trace[|trace| - 1].key == key then |trace| - 1
    else LastUse(trace[..|trace| - 1], key)
  }

  /** `order` lists exactly the keys of the trace, by last use. */
  ghost predicate ByLastUse(order: seq<string>, trace: seq<Request>) {
    && (forall k :: k in order <==> LastUse(trace, k) >= 0)
    && (forall i, j :: 0 <= i < j < |order| ==> LastUse(trace, order[i]) < LastUse(trace, order[j]))
  }

  /** The last `n` elements, or all of them. */
  function Newest(order: seq<string>, n: nat): seq<string> {
    if |order| <= n then order else order[|order| - n..]
  }

  lemma {:induction false} WithoutSplits(before: seq<string>, key: string, after: seq<string>)
    requires key !in before && key !in after
    ensures Without(before + [key] + after, key) == before + after
    decreases |before|
  {
    var all := before + [key] + after;
    if before == [] {
      assert all[1..] == after;
      WithoutAbsent(after, key);
    } else {
      assert all[1..] == before[1..] + [key] + after;
      WithoutSplits(before[1..], key, after);
      assert before[1..] + after == (before + after)[1..];
    }
  }

  lemma {:induction false} SplitAt(order: seq<string>, i: nat)
    requires i < |order| && Distinct(order)
    ensures order == order[..i] + [order[i]] + order[i + 1..]
    ensures order[i] !in order[..i] && order[i] !in order[i + 1..]
    ensures Without(order, order[i]) == order[..i] + order[i + 1..]
  {
    WithoutSplits(order[..i], order[i], order[i + 1..]);
    assert order == order[..i] + [order[i]] + order[i + 1..];
  }

  lemma NewestIsSuffix(order: seq<string>, suffix: seq<string>, n: nat)
    requires |suffix| == n <= |order| && order[|order| - n..] == suffix
    ensures Newest(order, n) == suffix
  {
  }

  lemma {:induction false} TouchKept(order: seq<string>, cut: nat, i: nat)
    requires Distinct(order) && cut <= i < |order|
    ensures |Without(order, order[i])| == |order| - 1
    ensures Without(order[cut..], order[i]) + [order[i]] == (Without(order, order[i]) + [order[i]])[cut..]
  {
    WithoutInSuffix(order, cut, i);
    SplitAt(order, i);
    CutBefore(order[..i], order[i + 1..], order[i], cut);
  }

  lemma {:induction false} WithoutInSuffix(order: seq<string>, cut: nat, i: nat)
    requires Distinct(order) && cut <= i < |order|
    ensures Without(order[cut..], order[i]) == order[cut..i] + order[i + 1..]
  {
    var kept := order[cut..];
    assert kept[i - cut] == order[i];
    SplitAt(kept, i - cut);
    assert kept[i - cut + 1..] == order[i + 1..];
  }

  lemma CutBefore(a: seq<string>, b: seq<string>, k: string, cut: nat)
    requires cut <= |a|
    ensures (a + b + [k])[cut..] == a[cut..] + b + [k]
  {
  }

  lemma {:induction false} TouchDropped(order: seq<string>, cut: nat, i: nat)
    requires Distinct(order) && i < cut < |order|
    ensures order[i] !in order[cut..]
    ensures |Without(order, order[i])| == |order| - 1
    ensures Without(order[cut + 1..], order[i]) + [order[i]] == (Without(order, order[i]) + [order[i]])[cut..]
  {
    SplitAt(order, i);
    WithoutAbsent(order[cut + 1..], order[i]);
    CutAfter(order, order[i], cut, i);
  }

  lemma CutAfter(order: seq<string>, k: string, cut: nat, i: nat)
    requires i < cut < |order|
    ensures (order[..i] + order[i + 1..] + [k])[cut..] == order[cut + 1..] + [k]
  {
  }

  /** Removing a key and putting it last commutes with keeping the newest entries, as eviction does it. */
  lemma {:induction false} TouchNewest(order: seq<string>, maxKeys: nat, key: string)
    requires Distinct(order) && maxKeys >= 1
    ensures var kept := Newest(order, maxKeys);
            var room := if key !in kept && |kept| >= maxKeys then kept[1..] else kept;
            Without(room, key) + [key] == Newest(Without(order, key) + [key], maxKeys)
  {
    if key in order {
      var i :| 0 <= i < |order| && order[i] == key;
      TouchListed(order, maxKeys, i);
    } else {
      TouchUnlisted(order, maxKeys, key);
    }
  }

  lemma {:induction false} TouchUnlisted(order: seq<string>, maxKeys: nat, key: string)
    requires maxKeys >= 1 && key !in order
    ensures var kept := Newest(order, maxKeys);
            var room := if key !in kept && |kept| >= maxKeys then kept[1..] else kept;
            Without(room, key) + [key] == Newest(Without(order, key) + [key], maxKeys)
  {
    var kept := Newest(order, maxKeys);
    WithoutAbsent(order, key);
    if |order| >= maxKeys {
      WithoutAbsent(kept[1..], key);
      NewestIsSuffix(order + [key], kept[1..] + [key], maxKeys);
    } else {
      WithoutAbsent(kept, key);
    }
  }

  lemma {:induction false} TouchListed(order: seq<string>, maxKeys: nat, i: nat)
    requires Distinct(order) && maxKeys >= 1 && i < |order|
    ensures var key, kept := order[i], Newest(order, maxKeys);
            var room := if key !in kept && |kept| >= maxKeys then kept[1..] else kept;
            Without(room, key) + [key] == Newest(Without(order, key) + [key], maxKeys)
  {
    var kept := Newest(order, maxKeys);
    var cut := |order| - |kept|;
    if i >= cut {
      assert kept[i - cut] == order[i];
      TouchKept(order, cut, i);
    } else {
      TouchDropped(order, cut, i);
      assert kept[1..] == order[cut + 1..];
    }
    var touched := Without(order, order[i]) + [order[i]];
    assert Newest(touched, maxKeys) == touched[cut..];
  }

  lemma LastUseAppend(trace: seq<Request>, q: Request, k: string)
    ensures LastUse(trace + [q], k) == if k == q.key then |trace| else LastUse(trace, k)
  {
  }

  lemma {:induction false} TouchByLastUse(order: seq<string>, trace: seq<Request>, q: Request)
    requires ByLastUse(order, trace)
    ensures ByLastUse(Without(order, q.key) + [q.key], trace + [q])
  {
    ByLastUseDistinct(order, trace);
    var touched := Without(order, q.key) + [q.key];
    forall k ensures LastUse(trace + [q], k) == if k == q.key then |trace| else LastUse(trace, k) {
      LastUseAppend(trace, q, k);
    }
    forall a, b | 0 <= a < b < |touched|
      ensures LastUse(trace + [q], touched[a]) < LastUse(trace + [q], touched[b])
    {
      if b < |touched| - 1 {
        WithoutKeepsOrder(order, q.key, a, b);
      } else {
        assert touched[a] in Without(order, q.key);
      }
    }
  }

  /** Two entries that stay come from the same two, in the same order. */
  lemma {:induction false} WithoutKeepsOrder(order: seq<string>, key: string, a: nat, b: nat)
    requires a < b < |Without(order, key)|
    ensures exists i, j :: 0 <= i < j < |order| && order[i] == Without(order, key)[a] && order[j] == Without(order, key)[b]
    decreases |order|
  {
    var rest := order[1..];
    if order[0] == key {
      WithoutKeepsOrder(rest, key, a, b);
      var i, j :| 0 <= i < j < |rest| && rest[i] == Without(rest, key)[a] && rest[j] == Without(rest, key)[b];
      assert order[i + 1] == rest[i] && order[j + 1] == rest[j];
    } else if a > 0 {
      WithoutKeepsOrder(rest, key, a - 1, b - 1);
      var i, j :| 0 <= i < j < |rest| && rest[i] == Without(rest, key)[a - 1] && rest[j] == Without(rest, key)[b - 1];
      assert order[i + 1] == rest[i] && order[j + 1] == rest[j];
    } else {
      assert Without(rest, key)[b - 1] in rest;
      var j :| 0 <= j < |rest| && rest[j] == Without(rest, key)[b - 1];
      assert order[0] == Without(order, key)[0] && order[j + 1] == rest[j];
    }
  }

  /** After any requests the table's order is the identities by most recent use, cut to the newest `maxKeys`. */
  lemma {:induction false} OrderIsRecency(r: Rate, maxKeys: nat, trace: seq<Request>) returns (recency: seq<string>)
    requires maxKeys >= 1
    ensures ByLastUse(recency, trace) && Distinct(recency)
    ensures var t := Run(r, maxKeys, EMPTY, trace);
            WellKept(t) && t.order == Newest(recency, maxKeys)
    decreases |trace|
  {
    if trace == [] {
      recency := [];
    } else {
      var earlier, q := trace[..|trace| - 1], trace[|trace| - 1];
      assert trace == earlier + [q];
      var before := OrderIsRecency(r, maxKeys, earlier);
      RunAppend(r, maxKeys, EMPTY, earlier, q);
      var t := Run(r, maxKeys, EMPTY, earlier);
      AfterWellKept(r, maxKeys, t, q.key, q.time);
      TouchByLastUse(before, earlier, q);
      TouchNewest(before, maxKeys, q.key);
      recency := Without(before, q.key) + [q.key];
      ByLastUseDistinct(recency, trace);
    }
  }

  lemma {:induction false} ByLastUseDistinct(order: seq<string>, trace: seq<Request>)
    requires ByLastUse(order, trace)
    ensures Distinct(order)
  {
  }

  // ----- bounded and unbounded tables decide alike for identities used often enough

  /** Identities seen since the last request of `key`. */
  function KeysSince(trace: seq<Request>, key: string): set<string> {
    set i | LastUse(trace, key) < i < |trace| :: trace[i].key
  }

  lemma {:induction false} DistinctCount(s: seq<string>)
    requires Distinct(s)
    ensures |set k | k in s| == |s|
    decreases |s|
  {
    if s != [] {
      DistinctCount(s[1..]);
      assert (set k | k in s) == {s[0]} + set k | k in s[1..];
    }
  }

  lemma {:induction false} LaterInRecency(recency: seq<string>, trace: seq<Request>, i: nat)
    requires ByLastUse(recency, trace) && i < |recency|
    ensures |KeysSince(trace, recency[i])| == |recency| - 1 - i
  {
    var key, later := recency[i], recency[i + 1..];
    ByLastUseDistinct(recency, trace);
    forall k | k in later ensures k in KeysSince(trace, key) {
      var j :| 0 <= j < |later| && later[j] == k;
      assert recency[i + 1 + j] == k && k in recency;
      assert trace[LastUse(trace, k)].key == k;
    }
    forall k | k in KeysSince(trace, key) ensures k in later {
      var m :| LastUse(trace, key) < m < |trace| && trace[m].key == k;
      assert LastUse(trace, k) >= m;
      var j :| 0 <= j < |recency| && recency[j] == k;
      assert j != i && !(j < i);
      assert later[j - i - 1] == k;
    }
    DistinctCount(later);
    assert KeysSince(trace, key) == set k | k in later;
  }

  lemma InNewest(order: seq<string>, n: nat, i: nat)
    requires i < |order| && Distinct(order)
    ensures order[i] in Newest(order, n) <==> |order| - 1 - i < n
  {
  }

  /** An identity is still in the table exactly when fewer than `maxKeys` others came since its last request. */
  lemma {:induction false} KeptIffRecent(r: Rate, maxKeys: nat, trace: seq<Request>, key: string)
    requires maxKeys >= 1 && LastUse(trace, key) >= 0
    ensures key in Run(r, maxKeys, EMPTY, trace).buckets <==> |KeysSince(trace, key)| < maxKeys
  {
    var recency := OrderIsRecency(r, maxKeys, trace);
    assert key in recency;
    var i :| 0 <= i < |recency| && recency[i] == key;
    LaterInRecency(recency, trace, i);
    InNewest(recency, maxKeys, i);
  }

  /** A table of unlimited size: every identity keeps its own bucket for ever. */
  function Unbounded(r: Rate, trace: seq<Request>): map<string, Bucket>
    decreases |trace|
  {
    if trace == [] then map[]
    else
      var q := trace[|trace| - 1];
      var m := Unbounded(r, trace[..|trace| - 1]);
      m[q.key := Spent(r, if q.key in m then m[q.key] else Full(r, q.time), q.time)]
  }

  predicate UnboundedAccepts(r: Rate, trace: seq<Request>, q: Request) {
    var m := Unbounded(r, trace);
    Allows(r, if q.key in m then m[q.key] else Full(r, q.time), q.time)
  }

  /** Between two requests of `key` there are always fewer than `maxKeys` other identities. */
  ghost predicate OftenEnough(trace: seq<Request>, key: string, maxKeys: nat) {
    forall i :: 0 <= i < |trace| && trace[i].key == key && LastUse(trace[..i], key) >= 0 ==>
      |KeysSince(trace[..i], key)| < maxKeys
  }

  lemma {:induction false} OftenEnoughPrefix(trace: seq<Request>, key: string, maxKeys: nat, n: nat)
    requires OftenEnough(trace, key, maxKeys) && n <= |trace|
    ensures OftenEnough(trace[..n], key, maxKeys)
  {
    forall i | 0 <= i < n && trace[..n][i].key == key && LastUse(trace[..n][..i], key) >= 0
      ensures |KeysSince(trace[..n][..i], key)| < maxKeys
    {
      assert trace[..n][..i] == trace[..i];
    }
  }

  lemma {:induction false} BucketsAgree(r: Rate, maxKeys: nat, trace: seq<Request>, key: string)
    requires maxKeys >= 1 && OftenEnough(trace, key, maxKeys)
    ensures var t, m := Run(r, maxKeys, EMPTY, trace), Unbounded(r, trace);
            && (key in m <==> LastUse(trace, key) >= 0)
            && (key in t.buckets ==> key in m && t.buckets[key] == m[key])
    decreases |trace|
  {
    if trace != [] {
      var n := |trace| - 1;
      var earlier, q := trace[..n], trace[n];
      assert trace == earlier + [q];
      OftenEnoughPrefix(trace, key, maxKeys, n);
      BucketsAgree(r, maxKeys, earlier, key);
      RunAppend(r, maxKeys, EMPTY, earlier, q);
      LastUseAppend(earlier, q, key);
      if q.key == key && LastUse(earlier, key) >= 0 {
        KeptIffRecent(r, maxKeys, earlier, key);
      }
    }
  }

  lemma {:induction false} DecisionAt(r: Rate, maxKeys: nat, t: Table, trace: seq<Request>, i: nat)
    requires i < |trace|
    ensures Decisions(r, maxKeys, t, trace)[i]
            == Accepts(r, Run(r, maxKeys, t, trace[..i]), trace[i].key, trace[i].time)
    decreases i
  {
    if i > 0 {
      DecisionAt(r, maxKeys, After(r, maxKeys, t, trace[0].key, trace[0].time), trace[1..], i - 1);
      assert trace[..i][1..] == trace[1..][..i - 1];
    }
  }

  /** An identity with fewer than `maxKeys` others between its requests is decided as with unlimited memory. */
  lemma {:induction false} DecidedAsUnbounded(r: Rate, maxKeys: nat, trace: seq<Request>, key: string, i: nat)
    requires maxKeys >= 1 && OftenEnough(trace, key, maxKeys)
    requires i < |trace| && trace[i].key == key
    ensures Decisions(r, maxKeys, EMPTY, trace)[i] == UnboundedAccepts(r, trace[..i], trace[i])
  {
    DecisionAt(r, maxKeys, EMPTY, trace, i);
    OftenEnoughPrefix(trace, key, maxKeys, i);
    BucketsAgree(r, maxKeys, trace[..i], key);
    if LastUse(trace[..i], key) >= 0 {
      KeptIffRecent(r, maxKeys, trace[..i], key);
    }
  }

  // ----- how much a bucket lets through

  /** Requests of `key` that were accepted. */
  function Accepted(trace: seq<Request>, ds: seq<bool>, key: string): nat
    requires |ds| == |trace|
  {
    if trace == [] then 0
    else (if trace[0].key == key && ds[0] then 1 else 0) + Accepted(trace[1..], ds[1..], key)
  }

  /** `key`, once in the table, is not evicted during the trace. */
  ghost predicate NeverEvicted(r: Rate, maxKeys: nat, t: Table, trace: seq<Request>, key: string)
    decreases |trace|
  {
    trace == [] ||
    var next := After(r, maxKeys, t, trace[0].key, trace[0].time);
    (key in t.buckets ==> key in next.buckets) && NeverEvicted(r, maxKeys, next, trace[1..], key)
  }

  /** Tokens `key` can draw on at `now`: a forgotten identity has a full bucket. */
  function Credit(r: Rate, t: Table, key: string, now: real): real {
    if key in t.buckets then Available(r, t.buckets[key], now) else r.burst
  }

  /** The bucket of `key` is not overdrawn and not from the future. */
  predicate Sound(t: Table, key: string, now: real) {
    key in t.buckets ==> t.buckets[key].tokens >= 0.0 && t.buckets[key].lastRefill <= now
  }

  lemma GainedAdds(r: Rate, a: real, b: real)
    ensures Gained(r, a + b) == Gained(r, a) + Gained(r, b)
  {
  }

  lemma GainedNonNegative(r: Rate, a: real)
    requires r.rps >= 0.0 && a >= 0.0
    ensures Gained(r, a) >= 0.0
  {
  }

  lemma CreditGrows(r: Rate, t: Table, key: string, from: real, to: real)
    requires Clamped(r) && Sound(t, key, from) && from <= to
    ensures 0.0 <= Credit(r, t, key, from) <= r.burst
    ensures Credit(r, t, key, to) <= Credit(r, t, key, from) + Gained(r, to - from)
  {
    GainedNonNegative(r, to - from);
    if key in t.buckets {
      var b := t.buckets[key];
      GainedAdds(r, from - b.lastRefill, to - from);
      GainedNonNegative(r, from - b.lastRefill);
    }
  }

  /** One request: what it takes from `key`'s credit is exactly what it was given. */
  lemma {:induction false} CreditAfter(r: Rate, maxKeys: nat, t: Table, q: Request, key: string)
    requires Clamped(r) && Sound(t, key, q.time)
    requires key in t.buckets ==> key in After(r, maxKeys, t, q.key, q.time).buckets
    ensures var next := After(r, maxKeys, t, q.key, q.time);
            && Sound(next, key, q.time)
            && Credit(r, next, key, q.time)
               == Credit(r, t, key, q.time) - (if q.key == key && Accepts(r, t, key, q.time) then 1.0 else 0.0)
  {
    var b := Met(r, t, q.key, q.time);
    assert Gained(r, q.time - q.time) == 0.0;
    if q.key == key {
      CreditGrows(r, t, key, q.time, q.time);
      if key !in t.buckets {
        assert Available(r, b, q.time) == r.burst;
      }
    }
  }

  lemma {:induction false} AcceptedWithinCredit(r: Rate, maxKeys: nat, t: Table, trace: seq<Request>, key: string,
                                                from: real, to: real)
    requires Clamped(r) && Sound(t, key, from) && Monotone(trace, from) && from <= to
    requires forall i :: 0 <= i < |trace| ==> trace[i].time <= to
    requires NeverEvicted(r, maxKeys, t, trace, key)
    ensures Accepted(trace, Decisions(r, maxKeys, t, trace), key) as real <= Credit(r, t, key, from) + Gained(r, to - from)
    decreases |trace|
  {
    CreditGrows(r, t, key, from, from);
    GainedNonNegative(r, to - from);
    if trace != [] {
      var q := trace[0];
      var next := After(r, maxKeys, t, q.key, q.time);
      CreditGrows(r, t, key, from, q.time);
      CreditAfter(r, maxKeys, t, q, key);
      AcceptedWithinCredit(r, maxKeys, next, trace[1..], key, q.time, to);
      GainedAdds(r, q.time - from, to - q.time);
      assert Decisions(r, maxKeys, t, trace)[1..] == Decisions(r, maxKeys, next, trace[1..]);
    }
  }

  /** Over any stretch of a run in which an identity is not evicted, it gets at most
      `burst + rps * length` requests through. */
  lemma {:induction false} AcceptedBounded(r: Rate, maxKeys: nat, before: seq<Request>, stretch: seq<Request>,
                                           key: string, from: real, to: real)
    requires Clamped(r) && from <= to
    requires before != [] ==> Monotone(before, before[0].time)
    requires forall i :: 0 <= i < |before| ==> before[i].time <= from
    requires Monotone(stretch, from) && forall i :: 0 <= i < |stretch| ==> stretch[i].time <= to
    requires NeverEvicted(r, maxKeys, Run(r, maxKeys, EMPTY, before), stretch, key)
    ensures Accepted(stretch, Decisions(r, maxKeys, Run(r, maxKeys, EMPTY, before), stretch), key) as real
            <= r.burst + (to - from) * r.rps
  {
    AcceptedAfter(r, maxKeys, before, stretch, key, from, to);
    InPlainTerms(Accepted(stretch, Decisions(r, maxKeys, Run(r, maxKeys, EMPTY, before), stretch), key), r, from, to);
  }

  lemma InPlainTerms(n: nat, r: Rate, from: real, to: real)
    requires n as real <= r.burst + Gained(r, to - from)
    ensures n as real <= r.burst + (to - from) * r.rps
  {
  }

  lemma {:induction false} AcceptedAfter(r: Rate, maxKeys: nat, before: seq<Request>, stretch: seq<Request>,
                                         key: string, from: real, to: real)
    requires Clamped(r) && from <= to
    requires before != [] ==> Monotone(before, before[0].time)
    requires forall i :: 0 <= i < |before| ==> before[i].time <= from
    requires Monotone(stretch, from) && forall i :: 0 <= i < |stretch| ==> stretch[i].time <= to
    requires NeverEvicted(r, maxKeys, Run(r, maxKeys, EMPTY, before), stretch, key)
    ensures Accepted(stretch, Decisions(r, maxKeys, Run(r, maxKeys, EMPTY, before), stretch), key) as real
            <= r.burst + Gained(r, to - from)
  {
    SoundHistory(r, maxKeys, before, key, from);
    AcceptedWithinBurst(r, maxKeys, Run(r, maxKeys, EMPTY, before), stretch, key, from, to);
  }

  lemma GainedIs(r: Rate, elapsed: real)
    ensures Gained(r, elapsed) == elapsed * r.rps
  {
  }

  lemma {:induction false} AcceptedWithinBurst(r: Rate, maxKeys: nat, t: Table, stretch: seq<Request>, key: string,
                                               from: real, to: real)
    requires Clamped(r) && Sound(t, key, from) && Monotone(stretch, from) && from <= to
    requires forall i :: 0 <= i < |stretch| ==> stretch[i].time <= to
    requires NeverEvicted(r, maxKeys, t, stretch, key)
    ensures Accepted(stretch, Decisions(r, maxKeys, t, stretch), key) as real <= r.burst + Gained(r, to - from)
  {
    AcceptedWithinCredit(r, maxKeys, t, stretch, key, from, to);
    CreditGrows(r, t, key, from, from);
  }

  lemma {:induction false} SoundHistory(r: Rate, maxKeys: nat, before: seq<Request>, key: string, now: real)
    requires Clamped(r)
    requires before != [] ==> Monotone(before, before[0].time)
    requires forall i :: 0 <= i < |before| ==> before[i].time <= now
    ensures Sound(Run(r, maxKeys, EMPTY, before), key, now)
  {
    if before != [] {
      SoundRun(r, maxKeys, EMPTY, before, key, before[0].time, now);
    }
  }

  lemma {:induction false} SoundRun(r: Rate, maxKeys: nat, t: Table, trace: seq<Request>, key: string, now: real, end: real)
    requires Clamped(r) && Sound(t, key, now) && Monotone(trace, now) && now <= end
    requires forall i :: 0 <= i < |trace| ==> trace[i].time <= end
    ensures Sound(Run(r, maxKeys, t, trace), key, end)
    decreases |trace|
  {
    if trace != [] {
      var q := trace[0];
      SoundAfter(r, maxKeys, t, q, key);
      SoundRun(r, maxKeys, After(r, maxKeys, t, q.key, q.time), trace[1..], key, q.time, end);
    }
  }

  // ----- how many identities the bound survives

  predicate Among(trace: seq<Request>, keys: set<string>) {
    forall i :: 0 <= i < |trace| ==> trace[i].key in keys
  }

  /** A table too roomy to evict any of `keys`. */
  ghost predicate Roomy(maxKeys: nat, t: Table, keys: set<string>) {
    WellKept(t) && (forall k <- t.order :: k in keys) && |keys| <= maxKeys
  }

  lemma {:induction false} RoomyNeverEvicts(r: Rate, maxKeys: nat, t: Table, keys: set<string>, key: string, now: real)
    requires Roomy(maxKeys, t, keys) && key in keys
    ensures Evicted(maxKeys, t, key) == t
    ensures Roomy(maxKeys, After(r, maxKeys, t, key, now), keys)
  {
    AfterWellKept(r, maxKeys, t, key, now);
    if key !in t.buckets {
      var held := set k | k in t.order;
      DistinctCount(t.order);
      assert held <= keys - {key};
      SubsetCount(held, keys - {key});
    }
  }

  lemma {:induction false} SubsetCount(a: set<string>, b: set<string>)
    requires a <= b
    ensures |a| <= |b|
  {
    assert b == a + (b - a);
  }

  lemma {:induction false} RoomyRun(r: Rate, maxKeys: nat, t: Table, keys: set<string>, trace: seq<Request>, key: string)
    requires Roomy(maxKeys, t, keys) && Among(trace, keys)
    ensures Roomy(maxKeys, Run(r, maxKeys, t, trace), keys) && NeverEvicted(r, maxKeys, t, trace, key)
    decreases |trace|
  {
    if trace != [] {
      RoomyNeverEvicts(r, maxKeys, t, keys, trace[0].key, trace[0].time);
      RoomyRun(r, maxKeys, After(r, maxKeys, t, trace[0].key, trace[0].time), keys, trace[1..], key);
    }
  }

  function Rotated(ring: seq<string>): (r: seq<string>)
    ensures |r| == |ring|
  {
    if ring == [] then [] else ring[1..] + [ring[0]]
  }

  /** `m` requests at one instant, the identities of `ring` taking turns. */
  function Turns(ring: seq<string>, now: real, m: nat): (trace: seq<Request>)
    requires ring != []
    ensures |trace| == m && forall i :: 0 <= i < m ==> trace[i].time == now && trace[i].key in ring
    decreases m
  {
    if m == 0 then [] else [Request(now, ring[0])] + Turns(Rotated(ring), now, m - 1)
  }

  /** The table holds the last identities of the ring, and not the one whose turn it is. */
  ghost predicate HoldsLast(t: Table, ring: seq<string>) {
    WellKept(t) && |t.order| < |ring| && t.order == ring[|ring| - |t.order|..]
  }

  lemma {:induction false} RotatedDistinct(ring: seq<string>)
    requires Distinct(ring)
    ensures Distinct(Rotated(ring))
  {
  }

  lemma {:induction false} NotAmongLast(ring: seq<string>, order: seq<string>)
    requires Distinct(ring) && |order| < |ring| && order == ring[|ring| - |order|..]
    ensures ring[0] !in order
  {
  }

  lemma SuffixMoves(ring: seq<string>, kept: seq<string>)
    requires |kept| + 1 < |ring| && kept == ring[|ring| - |kept|..]
    ensures kept + [ring[0]] == Rotated(ring)[|ring| - |kept| - 1..]
  {
  }

  lemma SuffixOfSuffix(ring: seq<string>, order: seq<string>)
    requires 0 < |order| <= |ring| && order == ring[|ring| - |order|..]
    ensures order[1..] == ring[|ring| - |order| + 1..]
  {
  }

  /** In a table one entry too small, whoever's turn it is has just been forgotten. */
  lemma {:induction false} NextIsForgotten(r: Rate, t: Table, ring: seq<string>, now: real)
    requires Clamped(r) && Distinct(ring) && |ring| >= 2 && HoldsLast(t, ring)
    ensures Accepts(r, t, ring[0], now)
    ensures HoldsLast(After(r, |ring| - 1, t, ring[0], now), Rotated(ring))
  {
    NotAmongLast(ring, t.order);
    assert Gained(r, now - now) == 0.0;
    NewcomerJoins(r, t, ring, now);
  }

  lemma {:induction false} KeptIsSuffix(t: Table, ring: seq<string>)
    requires |ring| >= 2 && HoldsLast(t, ring) && ring[0] !in t.order
    ensures var kept := Evicted(|ring| - 1, t, ring[0]).order;
            |kept| + 1 < |ring| && kept == ring[|ring| - |kept|..] && ring[0] !in kept
  {
    if |t.order| == |ring| - 1 {
      SuffixOfSuffix(ring, t.order);
    }
  }

  lemma {:induction false} NewcomerJoins(r: Rate, t: Table, ring: seq<string>, now: real)
    requires |ring| >= 2 && HoldsLast(t, ring) && ring[0] !in t.order
    ensures HoldsLast(After(r, |ring| - 1, t, ring[0], now), Rotated(ring))
  {
    AfterWellKept(r, |ring| - 1, t, ring[0], now);
    var kept := Evicted(|ring| - 1, t, ring[0]).order;
    KeptIsSuffix(t, ring);
    WithoutAbsent(kept, ring[0]);
    SuffixMoves(ring, kept);
    assert After(r, |ring| - 1, t, ring[0], now).order == kept + [ring[0]];
  }

  /** Turns that come to the `i`th of `n` identities among the first `m`. */
  function TurnsOf(n: nat, m: nat, i: nat): nat
    requires i < n
    decreases m
  {
    if m == 0 then 0 else if i == 0 then 1 + TurnsOf(n, m - 1, n - 1) else TurnsOf(n, m - 1, i - 1)
  }

  lemma {:induction false} TurnsOfCount(n: nat, m: nat, i: nat)
    requires i < n
    ensures TurnsOf(n, m, i) == (m + n - 1 - i) / n
    decreases m
  {
    if m == 0 {
      DivideExactly(n - 1 - i, n, 0, n - 1 - i);
    } else if i == 0 {
      TurnsOfCount(n, m - 1, n - 1);
      AddDivisor(m - 1, n);
    } else {
      TurnsOfCount(n, m - 1, i - 1);
    }
  }

  lemma AddDivisor(x: nat, n: nat)
    requires n > 0
    ensures (x + n) / n == x / n + 1
  {
    var q, rest := x / n, x % n;
    assert x + n == (q + 1) * n + rest;
    DivideExactly(x + n, n, q + 1, rest);
  }

  /** Requests of `key` that a trace from `t` gets through. */
  function Got(r: Rate, maxKeys: nat, t: Table, trace: seq<Request>, key: string): nat {
    Accepted(trace, Decisions(r, maxKeys, t, trace), key)
  }

  lemma {:induction false} GotOne(r: Rate, maxKeys: nat, t: Table, q: Request, rest: seq<Request>, key: string)
    requires Accepts(r, t, q.key, q.time)
    ensures Got(r, maxKeys, t, [q] + rest, key)
            == (if q.key == key then 1 else 0) + Got(r, maxKeys, After(r, maxKeys, t, q.key, q.time), rest, key)
  {
    var trace, next := [q] + rest, After(r, maxKeys, t, q.key, q.time);
    assert trace[1..] == rest;
    assert Decisions(r, maxKeys, t, trace)[1..] == Decisions(r, maxKeys, next, rest);
  }

  /** One identity more than the table holds, taking turns at a single instant: no request is ever refused. */
  lemma {:induction false} TurnsAllAccepted(r: Rate, t: Table, ring: seq<string>, now: real, m: nat, i: nat)
    requires Clamped(r) && Distinct(ring) && |ring| >= 2 && HoldsLast(t, ring) && i < |ring|
    ensures Got(r, |ring| - 1, t, Turns(ring, now, m), ring[i]) == TurnsOf(|ring|, m, i)
    decreases m
  {
    if m > 0 {
      NextIsForgotten(r, t, ring, now);
      RotatedDistinct(ring);
      RotatedAt(ring, i);
      var next := After(r, |ring| - 1, t, ring[0], now);
      TurnsAllAccepted(r, next, Rotated(ring), now, m - 1, if i == 0 then |ring| - 1 else i - 1);
      GotTurn(r, t, ring, now, m, ring[i]);
    }
  }

  lemma {:induction false} GotTurn(r: Rate, t: Table, ring: seq<string>, now: real, m: nat, key: string)
    requires ring != [] && m > 0 && Accepts(r, t, ring[0], now)
    ensures Got(r, |ring| - 1, t, Turns(ring, now, m), key)
            == (if ring[0] == key then 1 else 0)
               + Got(r, |ring| - 1, After(r, |ring| - 1, t, ring[0], now), Turns(Rotated(ring), now, m - 1), key)
  {
    GotOne(r, |ring| - 1, t, Request(now, ring[0]), Turns(Rotated(ring), now, m - 1), key);
    assert Turns(ring, now, m) == [Request(now, ring[0])] + Turns(Rotated(ring), now, m - 1);
  }

  lemma RotatedAt(ring: seq<string>, i: nat)
    requires i < |ring|
    ensures Rotated(ring)[if i == 0 then |ring| - 1 else i - 1] == ring[i]
    ensures Distinct(ring) ==> (ring[0] == ring[i] <==> i == 0)
  {
  }

  /** A stretch of a run from `from` to `to`, after the requests `before`. */
  ghost predicate Stretch(before: seq<Request>, stretch: seq<Request>, from: real, to: real) {
    && from <= to
    && (before != [] ==> Monotone(before, before[0].time))
    && (forall i :: 0 <= i < |before| ==> before[i].time <= from)
    && Monotone(stretch, from) && (forall i :: 0 <= i < |stretch| ==> stretch[i].time <= to)
  }

  /** `key` gets no more than `burst + rps * length` requests of the stretch through. */
  predicate WithinBound(r: Rate, maxKeys: nat, before: seq<Request>, stretch: seq<Request>, key: string,
                        from: real, to: real)
  {
    Got(r, maxKeys, Run(r, maxKeys, EMPTY, before), stretch, key) as real <= r.burst + (to - from) * r.rps
  }

  ghost predicate BoundHolds(r: Rate, maxKeys: nat, keys: set<string>) {
    forall before: seq<Request>, stretch: seq<Request>, key: string, from: real, to: real ::
      Among(before, keys) && Among(stretch, keys) && Stretch(before, stretch, from, to) ==>
        WithinBound(r, maxKeys, before, stretch, key, from, to)
  }

  /** The bound holds for every run over a set of identities exactly when the table has room for all of them. */
  lemma {:induction false} BoundHoldsIff(r: Rate, maxKeys: nat, keys: set<string>)
    requires Clamped(r) && maxKeys >= 1
    ensures BoundHolds(r, maxKeys, keys) <==> |keys| <= maxKeys
  {
    if |keys| <= maxKeys {
      forall before: seq<Request>, stretch: seq<Request>, key: string, from: real, to: real |
        Among(before, keys) && Among(stretch, keys) && Stretch(before, stretch, from, to)
        ensures WithinBound(r, maxKeys, before, stretch, key, from, to)
      {
        RoomyRun(r, maxKeys, EMPTY, keys, before, key);
        RoomyRun(r, maxKeys, Run(r, maxKeys, EMPTY, before), keys, stretch, key);
        AcceptedBounded(r, maxKeys, before, stretch, key, from, to);
      }
    } else {
      CrowdBreaksBound(r, maxKeys, keys);
    }
  }

  lemma {:induction false} CrowdBreaksBound(r: Rate, maxKeys: nat, keys: set<string>)
    requires Clamped(r) && 1 <= maxKeys < |keys|
    ensures !BoundHolds(r, maxKeys, keys)
  {
    var ring := Several(keys, maxKeys + 1);
    var m := (maxKeys + 1) * (r.burst.Floor + 1);
    var trace := Turns(ring, 0.0, m);
    TurnsExceedBurst(r, ring);
    assert Among([], keys) && Among(trace, keys) && Stretch([], trace, 0.0, 0.0);
  }

  /** Enough turns at one instant exceed any burst. */
  lemma {:induction false} TurnsExceedBurst(r: Rate, ring: seq<string>)
    requires Clamped(r) && Distinct(ring) && |ring| >= 2
    ensures var m := |ring| * (r.burst.Floor + 1);
            !WithinBound(r, |ring| - 1, [], Turns(ring, 0.0, m), ring[0], 0.0, 0.0)
  {
    var n := r.burst.Floor + 1;
    var m := |ring| * n;
    assert HoldsLast(EMPTY, ring);
    TurnsAllAccepted(r, EMPTY, ring, 0.0, m, 0);
    TurnsOfCount(|ring|, m, 0);
    DivideExactly(m + |ring| - 1, |ring|, n, |ring| - 1);
    assert (0.0 - 0.0) * r.rps == 0.0;
  }

  /** `n` different identities of a set. */
  lemma {:induction false} Several(keys: set<string>, n: nat) returns (ring: seq<string>)
    requires n <= |keys|
    ensures |ring| == n && Distinct(ring) && forall k <- ring :: k in keys
    decreases n
  {
    if n == 0 {
      ring := [];
    } else {
      var k :| k in keys;
      var rest := Several(keys - {k}, n - 1);
      ring := [k] + rest;
    }
  }

  // ----- who is never refused

  /** Requests of `key` are at least `1 / rps` apart, and as far from its last refill in `t`. */
  ghost predicate Paced(r: Rate, t: Table, trace: seq<Request>, key: string) {
    && (forall i, j :: 0 <= i < j < |trace| && trace[i].key == key && trace[j].key == key ==>
          Gained(r, trace[j].time - trace[i].time) >= 1.0)
    && (key in t.buckets ==> forall i :: 0 <= i < |trace| && trace[i].key == key ==>
          Gained(r, trace[i].time - t.buckets[key].lastRefill) >= 1.0)
  }

  lemma {:induction false} PacedIsAccepted(r: Rate, maxKeys: nat, t: Table, trace: seq<Request>, key: string, now: real, i: nat)
    requires Clamped(r) && Sound(t, key, now) && Monotone(trace, now) && Paced(r, t, trace, key)
    requires i < |trace| && trace[i].key == key
    ensures Decisions(r, maxKeys, t, trace)[i]
    decreases |trace|
  {
    var q := trace[0];
    if i == 0 {
      if key !in t.buckets {
        assert Gained(r, q.time - q.time) == 0.0;
      }
    } else {
      PacedTail(r, maxKeys, t, trace, key, now);
      PacedIsAccepted(r, maxKeys, After(r, maxKeys, t, q.key, q.time), trace[1..], key, q.time, i - 1);
    }
  }

  lemma {:induction false} SoundAfter(r: Rate, maxKeys: nat, t: Table, q: Request, key: string)
    requires Clamped(r) && Sound(t, key, q.time)
    ensures Sound(After(r, maxKeys, t, q.key, q.time), key, q.time)
  {
    if key in t.buckets ==> key in After(r, maxKeys, t, q.key, q.time).buckets {
      CreditAfter(r, maxKeys, t, q, key);
    }
  }

  lemma {:induction false} PacedTail(r: Rate, maxKeys: nat, t: Table, trace: seq<Request>, key: string, now: real)
    requires trace != [] && Clamped(r) && Sound(t, key, now) && Monotone(trace, now) && Paced(r, t, trace, key)
    ensures var next := After(r, maxKeys, t, trace[0].key, trace[0].time);
            && Sound(next, key, trace[0].time) && Monotone(trace[1..], trace[0].time)
            && Paced(r, next, trace[1..], key)
  {
    SoundAfter(r, maxKeys, t, trace[0], key);
    assert forall j :: 0 <= j < |trace[1..]| ==> trace[1..][j] == trace[j + 1];
  }

  /** In every run, whatever other identities do, one that spaces its requests by at least `1 / rps` is never refused. */
  lemma {:induction false} PacedNeverRefused(r: Rate, maxKeys: nat, trace: seq<Request>, key: string, start: real, i: nat)
    requires Clamped(r) && Monotone(trace, start)
    requires forall i, j :: 0 <= i < j < |trace| && trace[i].key == key && trace[j].key == key ==>
               trace[j].time - trace[i].time >= 1.0 / r.rps
    requires i < |trace| && trace[i].key == key
    ensures Decisions(r, maxKeys, EMPTY, trace)[i]
  {
    forall i, j | 0 <= i < j < |trace| && trace[i].key == key && trace[j].key == key
      ensures Gained(r, trace[j].time - trace[i].time) >= 1.0
    {
      EnoughTime(r, 1.0, trace[j].time - trace[i].time);
    }
    PacedIsAccepted(r, maxKeys, EMPTY, trace, key, start, i);
  }

  lemma EnoughTime(r: Rate, tokens: real, elapsed: real)
    requires r.rps > 0.0 && elapsed >= tokens / r.rps
    ensures Gained(r, elapsed) >= tokens
  {
    assert elapsed * r.rps >= tokens / r.rps * r.rps;
  }

  // ----- the Retry-After header

  /** The header's value: whole seconds, rounded up to the next one. */
  function Emitted(retryAfter: real): (seconds: int)
    ensures (seconds - 1) as real <= retryAfter < seconds as real
  {
    retryAfter.Floor + 1
  }

  lemma {:induction false} OthersLeaveBucket(r: Rate, maxKeys: nat, t: Table, trace: seq<Request>, key: string)
    requires forall i :: 0 <= i < |trace| ==> trace[i].key != key
    ensures var t' := Run(r, maxKeys, t, trace);
            key in t'.buckets ==> key in t.buckets && t'.buckets[key] == t.buckets[key]
    decreases |trace|
  {
    if trace != [] {
      OthersLeaveBucket(r, maxKeys, After(r, maxKeys, t, trace[0].key, trace[0].time), trace[1..], key);
    }
  }

  /** A refused identity that waits the emitted seconds, sending nothing meanwhile, is accepted, whether or
      not other identities pushed its bucket out of the table. */
  lemma {:induction false} RetryAfterIsEnough(r: Rate, maxKeys: nat, t: Table, key: string, refusedAt: real, readAt: real,
                                              others: seq<Request>, retryAt: real)
    requires Clamped(r) && !Accepts(r, t, key, refusedAt) && refusedAt <= readAt
    requires forall i :: 0 <= i < |others| ==> others[i].key != key
    requires var refused := After(r, maxKeys, t, key, refusedAt);
             retryAt >= readAt + Emitted(RetryAfter(r, refused, key, readAt)) as real
    ensures var refused := After(r, maxKeys, t, key, refusedAt);
            Accepts(r, Run(r, maxKeys, refused, others), key, retryAt)
  {
    var refused := After(r, maxKeys, t, key, refusedAt);
    var later := Run(r, maxKeys, refused, others);
    OthersLeaveBucket(r, maxKeys, refused, others, key);
    if key !in later.buckets {
      assert Gained(r, retryAt - retryAt) == 0.0;
    } else {
      var b := refused.buckets[key];
      var wait := RetryAfter(r, refused, key, readAt);
      GainedAdds(r, readAt - b.lastRefill, retryAt - readAt);
      if Available(r, b, readAt) >= 1.0 {
        GainedNonNegative(r, retryAt - readAt);
      } else {
        EnoughTime(r, 1.0 - Available(r, b, readAt), retryAt - readAt);
      }
    }
  }
}
