/** The DHCP server's lease table: offers, validation, upserts, releases, lookups and the expiry sweep.
    Addresses are integers; queries see rows in insertion order. */
module LeaseTable {
  import opened Basics

  datatype Status = Active | Released | Expired

  datatype Row = Row(pool: int, mac: string, ip: int, end: real, status: Status)
  type Rows = seq<Row>

  /** The address range of the pool, both ends included. */
  datatype Range = Range(first: int, last: int)

  predicate InRange(r: Range, ip: int) {
    r.first <= ip <= r.last
  }

  predicate IsExpired(row: Row, now: real) {
    now > row.end
  }

  predicate ActiveAt(row: Row, pool: int, ip: int) {
    row.pool == pool && row.ip == ip && row.status == Active
  }

  predicate Owns(row: Row, pool: int, mac: string) {
    row.pool == pool && row.mac == mac
  }

  /** An active lease that has not run out. */
  predicate Live(row: Row, now: real) {
    row.status == Active && !IsExpired(row, now)
  }

  // ----- queries

  /** `select().first()` of the active rows at `ip` that belong to another client. */
  function FirstConflict(rows: Rows, pool: int, mac: string, ip: int): (r: Option<Row>)
    ensures r.Some? ==> r.value in rows && ActiveAt(r.value, pool, ip) && r.value.mac != mac
    ensures r.None? <==> forall row <- rows :: ActiveAt(row, pool, ip) ==> row.mac == mac
  {
    if rows == [] then None
    else if ActiveAt(rows[0], pool, ip) && rows[0].mac != mac then Some(rows[0])
    else FirstConflict(rows[1..], pool, mac, ip)
  }

  /** Row `i` is the first active one at `ip` that belongs to another client. */
  predicate IsFirstConflict(rows: Rows, pool: int, mac: string, ip: int, i: nat)
    requires i < |rows|
  {
    && ActiveAt(rows[i], pool, ip) && rows[i].mac != mac
    && forall j :: 0 <= j < i ==> !(ActiveAt(rows[j], pool, ip) && rows[j].mac != mac)
  }

  lemma {:induction false} FirstConflictAt(rows: Rows, pool: int, mac: string, ip: int, i: nat)
    requires i < |rows| && IsFirstConflict(rows, pool, mac, ip, i)
    ensures FirstConflict(rows, pool, mac, ip) == Some(rows[i])
    decreases |rows|
  {
    if i > 0 {
      assert forall j :: 0 <= j < i - 1 ==> rows[1..][j] == rows[j + 1];
      FirstConflictAt(rows[1..], pool, mac, ip, i - 1);
    }
  }

  predicate Taken(rows: Rows, pool: int, ip: int) {
    exists row <- rows :: ActiveAt(row, pool, ip)
  }

  /** Position of the client's first row. */
  function FirstOwned(rows: Rows, pool: int, mac: string): (i: Option<nat>)
    ensures i.Some? ==> i.value < |rows| && Owns(rows[i.value], pool, mac)
    ensures i.Some? ==> forall j :: 0 <= j < i.value ==> !Owns(rows[j], pool, mac)
    ensures i.None? <==> forall row <- rows :: !Owns(row, pool, mac)
  {
    if rows == [] then None
    else if Owns(rows[0], pool, mac) then Some(0)
    else
      var rest := FirstOwned(rows[1..], pool, mac);
      if rest.None? then None else Some(rest.value + 1)
  }

  /** The client's first active row. */
  function FirstActive(rows: Rows, pool: int, mac: string): (r: Option<Row>)
    ensures r.Some? ==> r.value in rows && Owns(r.value, pool, mac) && r.value.status == Active
    ensures r.None? <==> forall row <- rows :: Owns(row, pool, mac) ==> row.status != Active
  {
    if rows == [] then None
    else if Owns(rows[0], pool, mac) && rows[0].status == Active then Some(rows[0])
    else FirstActive(rows[1..], pool, mac)
  }

  /** `_find_free_ip`: the least address of the range with no active row. */
  method FindFreeIp(rows: Rows, range: Range, pool: int) returns (r: Option<int>)
    ensures r.None? <==> forall ip :: InRange(range, ip) ==> Taken(rows, pool, ip)
    ensures r.Some? ==> InRange(range, r.value) && !Taken(rows, pool, r.value)
    ensures r.Some? ==> forall ip :: range.first <= ip < r.value ==> Taken(rows, pool, ip)
  {
    var ip := range.first;
    while ip <= range.last
      invariant forall a :: range.first <= a < ip ==> Taken(rows, pool, a)
      decreases range.last - ip
    {
      if !Taken(rows, pool, ip) {
        return Some(ip);
      }
      ip := ip + 1;
    }
    r := None;
  }

  datatype Rejection = InvalidAddress | OutsideRange | LeasedToOther

  /** `validate_requested_ip`; `ip` is `None` when the text is no IPv4 address. */
  function Validate(rows: Rows, range: Range, pool: int, mac: string, ip: Option<int>, now: real): Option<Rejection> {
    if ip.None? then Some(InvalidAddress)
    else if !InRange(range, ip.value) then Some(OutsideRange)
    else
      var conflict := FirstConflict(rows, pool, mac, ip.value);
      if conflict.Some? && !IsExpired(conflict.value, now) then Some(LeasedToOther) else None
  }

  /** Why a request is turned down, if it is. */
  lemma {:induction false} ValidateIs(rows: Rows, range: Range, pool: int, mac: string, ip: Option<int>, now: real)
    ensures var r := Validate(rows, range, pool, mac, ip, now);
            && (r == Some(InvalidAddress) <==> ip.None?)
            && (r == Some(OutsideRange) <==> ip.Some? && !(range.first <= ip.value <= range.last))
            && (r == Some(LeasedToOther)
                <==> ip.Some? && range.first <= ip.value <= range.last
                     && exists i :: 0 <= i < |rows| && IsFirstConflict(rows, pool, mac, ip.value, i) && now <= rows[i].end)
  {
    if ip.Some? && FirstConflict(rows, pool, mac, ip.value).Some? {
      var i := FirstConflictIndex(rows, pool, mac, ip.value);
      forall k | 0 <= k < |rows| && IsFirstConflict(rows, pool, mac, ip.value, k) ensures k == i {
      }
    }
  }

  lemma {:induction false} FirstConflictIndex(rows: Rows, pool: int, mac: string, ip: int) returns (i: nat)
    requires FirstConflict(rows, pool, mac, ip).Some?
    ensures i < |rows| && IsFirstConflict(rows, pool, mac, ip, i) && FirstConflict(rows, pool, mac, ip) == Some(rows[i])
    decreases |rows|
  {
    if ActiveAt(rows[0], pool, ip) && rows[0].mac != mac {
      i := 0;
    } else {
      var k := FirstConflictIndex(rows[1..], pool, mac, ip);
      i := k + 1;
      assert forall j :: 0 < j < i ==> rows[j] == rows[1..][j - 1];
    }
  }

  /** Where an offered address came from. */
  datatype Offer = Current(ip: int) | Reserved(ip: int) | Wished(ip: int) | Free(ip: int) | NoAddress

  type Reservations = map<(int, string), int>

  method GetOffer(rows: Rows, reservations: Reservations, range: Range, pool: int, mac: string, wished: Option<int>, now: real)
      returns (offer: Offer)
    ensures var mine := FirstActive(rows, pool, mac);
            && (offer.Current? <==> mine.Some? && Live(mine.value, now))
            && (offer.Current? ==> offer.ip == mine.value.ip)
    ensures offer.Reserved? <==> !offer.Current? && (pool, mac) in reservations
    ensures offer.Reserved? ==> offer.ip == reservations[(pool, mac)]
    ensures offer.Wished? <==> !offer.Current? && !offer.Reserved? && wished.Some?
                               && InRange(range, wished.value) && !Taken(rows, pool, wished.value)
    ensures offer.Wished? || offer.Free? ==> InRange(range, offer.ip) && !Taken(rows, pool, offer.ip)
    ensures offer.Wished? ==> wished == Some(offer.ip)
    ensures offer.Free? ==> forall ip :: range.first <= ip < offer.ip ==> Taken(rows, pool, ip)
    ensures offer.NoAddress? ==> forall ip :: InRange(range, ip) ==> Taken(rows, pool, ip)
    ensures (offer.Current? || offer.Wished? || offer.Free?) && LiveUnique(rows, now) && AllInRange(rows, range) ==>
              Validate(rows, range, pool, mac, Some(offer.ip), now).None?
  {
    var existing := FirstActive(rows, pool, mac);
    if existing.Some? && !IsExpired(existing.value, now) {
      CurrentIsAccepted(rows, range, pool, mac, existing.value.ip, now);
      return Current(existing.value.ip);
    }
    if (pool, mac) in reservations {
      return Reserved(reservations[(pool, mac)]);
    }
    if wished.Some? && InRange(range, wished.value) && !Taken(rows, pool, wished.value) {
      return Wished(wished.value);
    }
    var free := FindFreeIp(rows, range, pool);
    offer := if free.Some? then Free(free.value) else NoAddress;
  }

  /** A client's own live address is accepted from it: its live row is the only one at that address. */
  lemma {:induction false} CurrentIsAccepted(rows: Rows, range: Range, pool: int, mac: string, ip: int, now: real)
    requires exists row <- rows :: Owns(row, pool, mac) && Live(row, now) && row.ip == ip
    ensures LiveUnique(rows, now) && AllInRange(rows, range) ==> Validate(rows, range, pool, mac, Some(ip), now).None?
  {
    if LiveUnique(rows, now) && AllInRange(rows, range) {
      var i :| 0 <= i < |rows| && Owns(rows[i], pool, mac) && Live(rows[i], now) && rows[i].ip == ip;
      var conflict := FirstConflict(rows, pool, mac, ip);
      if conflict.Some? {
        var j :| 0 <= j < |rows| && rows[j] == conflict.value;
        if !IsExpired(rows[j], now) {
          assert Live(rows[j], now) && i != j;
        }
      }
    }
  }

  // ----- updates

  function Marked(rows: Rows, pool: int, mac: string, ip: int, end: real): (r: Rows)
    ensures |r| == |rows|
    ensures forall i :: 0 <= i < |rows| ==>
              r[i] == if Owns(rows[i], pool, mac) then Row(pool, mac, ip, end, Active) else rows[i]
  {
    seq(|rows|, i requires 0 <= i < |rows| => if Owns(rows[i], pool, mac) then Row(pool, mac, ip, end, Active) else rows[i])
  }

  /** The upsert of `create_lease`. */
  function Leased(rows: Rows, pool: int, mac: string, ip: int, end: real): Rows {
    if FirstOwned(rows, pool, mac).Some? then Marked(rows, pool, mac, ip, end)
    else rows + [Row(pool, mac, ip, end, Active)]
  }

  function WithStatus(rows: Rows, pool: int, mac: string, status: Status): (r: Rows)
    ensures |r| == |rows|
    ensures forall i :: 0 <= i < |rows| ==>
              r[i] == if Owns(rows[i], pool, mac) then rows[i].(status := status) else rows[i]
  {
    seq(|rows|, i requires 0 <= i < |rows| => if Owns(rows[i], pool, mac) then rows[i].(status := status) else rows[i])
  }

  predicate Stale(row: Row, pool: int, now: real) {
    row.pool == pool && row.status == Active && row.end < now
  }

  function Swept(rows: Rows, pool: int, now: real): (r: Rows)
    ensures |r| == |rows|
    ensures forall i :: 0 <= i < |rows| ==>
              r[i] == if Stale(rows[i], pool, now)
                      then rows[i].(status := Expired) else rows[i]
  {
    seq(|rows|, i requires 0 <= i < |rows| =>
          if Stale(rows[i], pool, now)
          then rows[i].(status := Expired) else rows[i])
  }

  /** Active rows of the pool whose lease has run out. */
  function CountStale(rows: Rows, pool: int, now: real): nat {
    if rows == [] then 0
    else (if Stale(rows[0], pool, now) then 1 else 0) + CountStale(rows[1..], pool, now)
  }

  function ActiveRows(rows: Rows, pool: int): nat {
    if rows == [] then 0
    else (if rows[0].pool == pool && rows[0].status == Active then 1 else 0) + ActiveRows(rows[1..], pool)
  }

  lemma {:induction false} SweepConserves(rows: Rows, pool: int, now: real)
    ensures ActiveRows(rows, pool) == ActiveRows(Swept(rows, pool, now), pool) + CountStale(rows, pool, now)
    decreases |rows|
  {
    if rows != [] {
      assert Swept(rows, pool, now)[1..] == Swept(rows[1..], pool, now);
      SweepConserves(rows[1..], pool, now);
    }
  }

  lemma {:induction false} NothingStale(rows: Rows, pool: int, now: real)
    requires CountStale(rows, pool, now) == 0
    ensures Swept(rows, pool, now) == rows
    decreases |rows|
  {
    if rows != [] {
      NothingStale(rows[1..], pool, now);
      assert Swept(rows, pool, now)[1..] == Swept(rows[1..], pool, now);
      assert rows == [rows[0]] + rows[1..];
    }
  }

  /** The effect of `get_lease`: an expired first row is marked so. */
  function LookedUp(rows: Rows, pool: int, mac: string, now: real): Rows {
    var i := FirstOwned(rows, pool, mac);
    if i.Some? && IsExpired(rows[i.value], now) then rows[i.value := rows[i.value].(status := Expired)] else rows
  }

  /** Active leases of the pool that have not run out, as `get_pool_stats` counts them. */
  function CountActive(rows: Rows, pool: int, now: real): nat {
    if rows == [] then 0
    else
      (if rows[0].pool == pool && rows[0].status == Active && rows[0].end > now then 1 else 0)
      + CountActive(rows[1..], pool, now)
  }

  function Total(range: Range): int { range.last - range.first + 1 }

  class DhcpDatabase {
    const range: Range
    const leaseTime: real
    const pools: set<int>
    var rows: Rows

    constructor (range: Range, leaseTime: real, pools: set<int>)
      ensures this.range == range && this.leaseTime == leaseTime && this.pools == pools && rows == []
    {
      this.range := range;
      this.leaseTime := leaseTime;
      this.pools := pools;
      rows := [];
    }

    /** The Request handler: validate, then create. `None` is an acknowledged lease. */
    method Request(pool: int, mac: string, ip: Option<int>, now: real) returns (rejection: Option<Rejection>, raised: bool)
      modifies this
      ensures rejection == Validate(old(rows), range, pool, mac, ip, now)
      ensures rows == Requested(old(rows), range, leaseTime, pool, mac, ip, now)
      ensures raised <==> rejection.None? && pool !in pools
    {
      rejection := Validate(rows, range, pool, mac, ip, now);
      raised := false;
      if rejection.None? {
        raised := CreateLease(pool, mac, ip.value, now);
      }
    }

    /** `create_lease`; it raises for an unknown pool, but only after the row was written. */
    method CreateLease(pool: int, mac: string, ip: int, now: real) returns (raised: bool)
      modifies this
      ensures rows == Leased(old(rows), pool, mac, ip, now + leaseTime)
      ensures raised <==> pool !in pools
    {
      var end := now + leaseTime;
      var existing := FirstOwned(rows, pool, mac);
      if existing.Some? {
        rows := Marked(rows, pool, mac, ip, end);
      } else {
        rows := rows + [Row(pool, mac, ip, end, Active)];
      }
      raised := pool !in pools;
    }

    method ReleaseLease(pool: int, mac: string) returns (found: bool)
      modifies this
      ensures found <==> exists row <- old(rows) :: Owns(row, pool, mac)
      ensures rows == WithStatus(old(rows), pool, mac, Released)
    {
      if FirstOwned(rows, pool, mac).None? {
        assert WithStatus(rows, pool, mac, Released) == rows;
        return false;
      }
      rows := WithStatus(rows, pool, mac, Released);
      found := true;
    }

    method GetLease(pool: int, mac: string, now: real) returns (lease: Option<Row>)
      modifies this
      ensures rows == LookedUp(old(rows), pool, mac, now)
      ensures var i := FirstOwned(old(rows), pool, mac);
              && (lease.Some? <==> i.Some? && !IsExpired(old(rows)[i.value], now) && pool in pools)
              && (lease.Some? ==> lease.value == old(rows)[i.value] && lease.value in rows)
      ensures |rows| == |old(rows)|
      ensures forall k :: 0 <= k < |rows| ==>
                rows[k] == if FirstOwned(old(rows), pool, mac) == Some(k) && now > old(rows)[k].end
                           then old(rows)[k].(status := Expired) else old(rows)[k]
    {
      var i := FirstOwned(rows, pool, mac);
      if i.None? {
        return None;
      }
      if IsExpired(rows[i.value], now) {
        rows := rows[i.value := rows[i.value].(status := Expired)];
        return None;
      }
      lease := if pool in pools then Some(rows[i.value]) else None;
    }

    method ExpireOldLeases(pool: int, now: real) returns (count: nat)
      modifies this
      ensures rows == Swept(old(rows), pool, now) && |rows| == |old(rows)|
      ensures forall k :: 0 <= k < |rows| ==>
                var row := old(rows)[k];
                rows[k] == if row.pool == pool && row.status == Active && row.end < now then row.(status := Expired) else row
      ensures ActiveRows(old(rows), pool) == ActiveRows(rows, pool) + count
    {
      count := CountStale(rows, pool, now);
      SweepConserves(rows, pool, now);
      if count > 0 {
        rows := Swept(rows, pool, now);
      } else {
        NothingStale(rows, pool, now);
      }
    }

    method GetPoolStats(pool: int, now: real) returns (active: int, available: int, total: int)
      ensures active == CountActive(rows, pool, now) && total == Total(range) && available == total - active
      ensures Inv(rows, range) && total >= 0 ==>
                && active == |Held(rows, pool, now)| && total == |Addresses(range)|
                && available == |Addresses(range) - Held(rows, pool, now)|
    {
      if Inv(rows, range) && Total(range) >= 0 {
        StatsCountAddresses(rows, range, pool, now);
      }
      active := CountActive(rows, pool, now);
      total := range.last - range.first + 1;
      available := total - active;
    }
  }

  function Requested(rows: Rows, range: Range, leaseTime: real, pool: int, mac: string, ip: Option<int>, now: real): Rows {
    if Validate(rows, range, pool, mac, ip, now).Some? then rows
    else Leased(rows, pool, mac, ip.value, now + leaseTime)
  }

  // ----- what the table keeps

  ghost predicate OneRowPerClient(rows: Rows) {
    forall i, j :: 0 <= i < j < |rows| ==> !(rows[i].pool == rows[j].pool && rows[i].mac == rows[j].mac)
  }

  ghost predicate AllInRange(rows: Rows, range: Range) {
    forall row <- rows :: InRange(range, row.ip)
  }

  /** No address is held by two active rows of a pool. */
  ghost predicate ActiveUnique(rows: Rows) {
    forall i, j :: 0 <= i < j < |rows| && rows[i].status == Active && rows[j].status == Active ==>
      !(rows[i].pool == rows[j].pool && rows[i].ip == rows[j].ip)
  }

  /** No address is leased to two clients at once. */
  ghost predicate LiveUnique(rows: Rows, now: real) {
    forall i, j :: 0 <= i < j < |rows| && Live(rows[i], now) && Live(rows[j], now) ==>
      !(rows[i].pool == rows[j].pool && rows[i].ip == rows[j].ip)
  }

  ghost predicate Inv(rows: Rows, range: Range) {
    OneRowPerClient(rows) && AllInRange(rows, range) && ActiveUnique(rows)
  }

  // ----- counting

  function Addresses(range: Range): set<int> {
    set ip | range.first <= ip <= range.last && InRange(range, ip)
  }

  lemma {:induction false} AddressCount(range: Range)
    requires Total(range) >= 0
    ensures |Addresses(range)| == Total(range)
    decreases Total(range)
  {
    if Total(range) == 0 {
      assert Addresses(range) == {};
    } else {
      var shorter := Range(range.first, range.last - 1);
      AddressCount(shorter);
      assert Addresses(range) == Addresses(shorter) + {range.last};
    }
  }

  /** Addresses of the rows that `CountActive` counts. */
  function Held(rows: Rows, pool: int, now: real): (h: set<int>)
    ensures forall ip <- h :: exists i :: 0 <= i < |rows| && ActiveAt(rows[i], pool, ip)
  {
    if rows == [] then {}
    else
      var rest := Held(rows[1..], pool, now);
      assert forall i :: 0 <= i < |rows[1..]| ==> rows[1..][i] == rows[i + 1];
      if rows[0].pool == pool && rows[0].status == Active && rows[0].end > now then {rows[0].ip} + rest else rest
  }

  /** The addresses held are those of the pool's active leases that have time left. */
  lemma {:induction false} HeldIff(rows: Rows, pool: int, now: real, ip: int)
    ensures ip in Held(rows, pool, now) <==> exists i :: 0 <= i < |rows| && Holds(rows[i], pool, now, ip)
    decreases |rows|
  {
    if rows != [] {
      var rest := rows[1..];
      HeldIff(rest, pool, now, ip);
      if exists i :: 0 <= i < |rest| && Holds(rest[i], pool, now, ip) {
        var i :| 0 <= i < |rest| && Holds(rest[i], pool, now, ip);
        assert Holds(rows[i + 1], pool, now, ip);
      }
      if exists i :: 0 <= i < |rows| && Holds(rows[i], pool, now, ip) {
        var i :| 0 <= i < |rows| && Holds(rows[i], pool, now, ip);
        assert i > 0 ==> Holds(rest[i - 1], pool, now, ip);
      }
    }
  }

  predicate Holds(row: Row, pool: int, now: real, ip: int) {
    row.pool == pool && row.ip == ip && row.status == Active && row.end > now
  }

  lemma {:induction false} CountIsHeld(rows: Rows, pool: int, now: real)
    requires ActiveUnique(rows)
    ensures CountActive(rows, pool, now) == |Held(rows, pool, now)|
    decreases |rows|
  {
    if rows == [] {
    } else {
      CountIsHeld(rows[1..], pool, now);
      forall j | 0 <= j < |rows[1..]| && ActiveAt(rows[1..][j], pool, rows[0].ip) ensures !ActiveAt(rows[0], pool, rows[0].ip) {
        assert rows[j + 1] == rows[1..][j];
      }
    }
  }

  /** When addresses are unique, the statistics count addresses: those held, all, and those free. */
  lemma {:induction false} StatsCountAddresses(rows: Rows, range: Range, pool: int, now: real)
    requires Inv(rows, range) && Total(range) >= 0
    ensures CountActive(rows, pool, now) == |Held(rows, pool, now)| && Total(range) == |Addresses(range)|
    ensures Total(range) - CountActive(rows, pool, now) == |Addresses(range) - Held(rows, pool, now)|
  {
    CountIsHeld(rows, pool, now);
    AddressCount(range);
    var held, all := Held(rows, pool, now), Addresses(range);
    forall ip | ip in held ensures ip in all {
      var i :| 0 <= i < |rows| && ActiveAt(rows[i], pool, ip);
      assert rows[i] in rows;
    }
    assert all == held + (all - held);
  }
}
