/** Custom DNS zones: the router's longest-match lookup, the pipeline's first-match lookup, and the
    permission check with its operational modes. */
module Zones {
  import opened Basics
  import opened DomainNames

  datatype ZoneRecord = ZoneRecord(name: string, rtype: string, value: string)

  datatype Zone = Zone(name: string, visibility: string, allowedTeams: seq<string>, records: seq<ZoneRecord>)

  /** The dictionary `load_zones` leaves: of zones that share a name, the last. */
  ghost predicate LoadedFrom(zones: map<string, Zone>, list: seq<Zone>) {
    && (forall name :: name in zones <==> exists z <- list :: z.name == name)
    && (forall name :: name in zones ==> zones[name] in list && zones[name].name == name)
    && (forall i :: 0 <= i < |list| && (forall j :: i < j < |list| ==> list[j].name != list[i].name) ==>
          list[i].name in zones && zones[list[i].name] == list[i])
  }

  /** `z` is the zone with the longest name that `domain` is or lies under. */
  ghost predicate Longest(zones: map<string, Zone>, domain: string, z: Option<Zone>) {
    match z
    case None => forall name :: name in zones ==> !Under(domain, name)
    case Some(zone) =>
      && (exists name :: name in zones && zones[name] == zone && Under(domain, name)
           && forall other :: other in zones && Under(domain, other) ==> |other| <= |name|)
  }

  /** The zone of the nearest ancestor from the `i`th on that has one. */
  function Nearest(zones: map<string, Zone>, domain: string, i: nat): Option<Zone>
    requires i <= |Split(domain)|
    decreases |Split(domain)| - i
  {
    if i == |Split(domain)| then None
    else if Ancestor(domain, i) in zones then Some(zones[Ancestor(domain, i)])
    else Nearest(zones, domain, i + 1)
  }

  lemma {:induction false} NearestIsLongest(zones: map<string, Zone>, domain: string, i: nat)
    requires i <= |Split(domain)|
    requires forall k :: 0 <= k < i ==> Ancestor(domain, k) !in zones
    ensures Longest(zones, domain, Nearest(zones, domain, i))
    decreases |Split(domain)| - i
  {
    if i == |Split(domain)| {
      forall name | name in zones ensures !Under(domain, name) {
        AncestorsAreDomains(domain, name);
      }
    } else if Ancestor(domain, i) in zones {
      AncestorIsLongest(zones, domain, i);
    } else {
      NearestIsLongest(zones, domain, i + 1);
    }
  }

  class SelectiveRouter {
    var zones: map<string, Zone>

    constructor ()
      ensures zones == map[]
    {
      zones := map[];
    }

    method LoadZones(list: seq<Zone>)
      modifies this
      ensures LoadedFrom(zones, list) && zones == LoadAll(list)
    {
      zones := map[];
      for i := 0 to |list|
        invariant zones == LoadAll(list[..i])
      {
        assert list[..i + 1][..i] == list[..i];
        zones := zones[list[i].name := list[i]];
      }
      assert list[..|list|] == list;
      LoadAllLoads(list);
    }

    method FindZoneForDomain(domain: string) returns (z: Option<Zone>)
      ensures z == Nearest(zones, domain, 0) && Longest(zones, domain, z)
    {
      NearestIsLongest(zones, domain, 0);
      var parts := Split(domain);
      JoinSplit(domain);
      assert parts[0..] == parts;
      if domain in zones {
        return Some(zones[domain]);
      }
      for i := 0 to |parts|
        invariant Nearest(zones, domain, i) == Nearest(zones, domain, 0)
      {
        var parent := Join(parts[i..]);
        if parent in zones {
          return Some(zones[parent]);
        }
      }
      z := None;
    }

    method GetZoneRecords(domain: string) returns (records: Option<seq<ZoneRecord>>)
      ensures records == RecordsFor(zones, domain)
    {
      var z := FindZoneForDomain(domain);
      records := if z.Some? then Some(z.value.records) else None;
    }
  }

  function RecordsFor(zones: map<string, Zone>, domain: string): Option<seq<ZoneRecord>> {
    var z := Nearest(zones, domain, 0);
    if z.Some? then Some(z.value.records) else None
  }

  lemma LoadOneMore(zones: map<string, Zone>, list: seq<Zone>, z: Zone)
    requires LoadedFrom(zones, list)
    ensures LoadedFrom(zones[z.name := z], list + [z])
  {
    var next, more := zones[z.name := z], list + [z];
    forall name ensures name in next <==> exists q <- more :: q.name == name {
      if name == z.name {
        assert more[|list|].name == name;
      } else if name in zones {
        var i :| 0 <= i < |list| && list[i].name == name;
        assert more[i].name == name;
      }
    }
    forall i | 0 <= i < |more| && (forall j :: i < j < |more| ==> more[j].name != more[i].name)
      ensures more[i].name in next && next[more[i].name] == more[i]
    {
      if i < |list| {
        assert more[|list|].name != more[i].name;
        assert forall j :: i < j < |list| ==> list[j] == more[j];
      }
    }
  }

  lemma {:induction false} AncestorIsLongest(zones: map<string, Zone>, domain: string, i: nat)
    requires i < |Split(domain)| && Ancestor(domain, i) in zones
    requires forall k :: 0 <= k < i ==> Ancestor(domain, k) !in zones
    ensures Longest(zones, domain, Some(zones[Ancestor(domain, i)]))
  {
    var name := Ancestor(domain, i);
    AncestorsAreDomains(domain, name);
    forall other | other in zones && Under(domain, other) ensures |other| <= |name| {
      AncestorsAreDomains(domain, other);
      var k :| 0 <= k < |Split(domain)| && Ancestor(domain, k) == other;
      if i < k {
        AncestorsShrink(domain, i, k);
      }
    }
  }

  // ----- first match

  /** `_find_zone_name`, as the zone whose name it returns. */
  function FirstMatch(list: seq<Zone>, domain: string): (z: Option<Zone>)
    ensures z.None? ==> forall q <- list :: !Under(domain, q.name)
    ensures z.Some? ==> z.value in list && Under(domain, z.value.name)
  {
    if list == [] then None
    else if Under(domain, list[0].name) then Some(list[0])
    else FirstMatch(list[1..], domain)
  }

  method FindZoneName(list: seq<Zone>, domain: string) returns (name: Option<string>)
    ensures name == match FirstMatch(list, domain) case None => None case Some(z) => Some(z.name)
  {
    for i := 0 to |list|
      invariant FirstMatch(list[i..], domain) == FirstMatch(list, domain)
    {
      var zoneName := list[i].name;
      if domain == zoneName || EndsWith(domain, "." + zoneName) {
        return Some(zoneName);
      }
      assert list[i..][1..] == list[i + 1..];
    }
    name := None;
  }

  ghost predicate DistinctNames(list: seq<Zone>) {
    forall i, j :: 0 <= i < j < |list| ==> list[i].name != list[j].name
  }

  /** No zone comes after one it lies under. */
  ghost predicate ChildrenFirst(list: seq<Zone>) {
    forall i, j :: 0 <= i < j < |list| ==> !Under(list[j].name, list[i].name)
  }

  lemma {:induction false} FirstMatchIndex(list: seq<Zone>, domain: string) returns (i: nat)
    requires FirstMatch(list, domain).Some?
    ensures i < |list| && FirstMatch(list, domain) == Some(list[i]) && Under(domain, list[i].name)
    ensures forall j :: 0 <= j < i ==> !Under(domain, list[j].name)
    decreases |list|
  {
    if Under(domain, list[0].name) {
      i := 0;
    } else {
      var k := FirstMatchIndex(list[1..], domain);
      i := k + 1;
    }
  }

  lemma {:induction false} FirstIsLongest(zones: map<string, Zone>, list: seq<Zone>, domain: string)
    requires LoadedFrom(zones, list) && DistinctNames(list) && ChildrenFirst(list)
    ensures Longest(zones, domain, FirstMatch(list, domain))
  {
    var first := FirstMatch(list, domain);
    if first.Some? {
      var i := FirstMatchIndex(list, domain);
      assert zones[list[i].name] == list[i];
      forall other | other in zones && Under(domain, other) ensures |other| <= |list[i].name| {
        var j :| 0 <= j < |list| && list[j].name == other;
        LaterIsShorter(list, domain, i, j);
      }
    }
  }

  /** Among a domain's zones, the first listed is the longest. */
  lemma {:induction false} LaterIsShorter(list: seq<Zone>, domain: string, i: nat, j: nat)
    requires ChildrenFirst(list) && i < |list| && j < |list|
    requires Under(domain, list[i].name) && Under(domain, list[j].name)
    requires forall k :: 0 <= k < i ==> !Under(domain, list[k].name)
    ensures |list[j].name| <= |list[i].name|
  {
  }

  lemma {:induction false} LongestIsUnique(zones: map<string, Zone>, domain: string, a: Option<Zone>, b: Option<Zone>)
    requires Longest(zones, domain, a) && Longest(zones, domain, b)
    ensures a == b
  {
    if a.Some? && b.Some? {
      var m :| m in zones && zones[m] == a.value && Under(domain, m)
               && forall other :: other in zones && Under(domain, other) ==> |other| <= |m|;
      var n :| n in zones && zones[n] == b.value && Under(domain, n)
               && forall other :: other in zones && Under(domain, other) ==> |other| <= |n|;
      StrictlyUnderAt(domain, m);
      StrictlyUnderAt(domain, n);
    }
  }

  /** With distinct names, the zone checked (first match) is the zone served (longest match) for every
      domain exactly when the list puts children before their ancestors. */
  lemma {:induction false} CheckedIsServedIff(zones: map<string, Zone>, list: seq<Zone>)
    requires LoadedFrom(zones, list) && DistinctNames(list)
    ensures (forall domain :: Longest(zones, domain, FirstMatch(list, domain))) <==> ChildrenFirst(list)
  {
    if ChildrenFirst(list) {
      forall domain ensures Longest(zones, domain, FirstMatch(list, domain)) {
        FirstIsLongest(zones, list, domain);
      }
    } else {
      var i, j :| 0 <= i < j < |list| && Under(list[j].name, list[i].name);
      ParentShadowsChild(zones, list, i, j);
    }
  }

  /** A zone listed after one above it is served for its own name but never checked for it. */
  lemma {:induction false} ParentShadowsChild(zones: map<string, Zone>, list: seq<Zone>, i: nat, j: nat)
    requires LoadedFrom(zones, list) && DistinctNames(list)
    requires i < j < |list| && Under(list[j].name, list[i].name)
    ensures Longest(zones, list[j].name, Some(list[j]))
    ensures !Longest(zones, list[j].name, FirstMatch(list, list[j].name))
  {
    var domain := list[j].name;
    assert zones[domain] == list[j];
    forall other | other in zones && Under(domain, other) ensures |other| <= |domain| {
      StrictlyUnderAt(domain, other);
    }
    assert Longest(zones, domain, Some(list[j]));
    var k := FirstMatchIndex(list, domain);
    assert k <= i;
    if Longest(zones, domain, FirstMatch(list, domain)) {
      LongestIsUnique(zones, domain, FirstMatch(list, domain), Some(list[j]));
    }
  }

  // ----- permission

  datatype Mode = Normal | Cached | Degraded

  /** What `check_mode` reads: the manager token, the outcome of refreshing it, the age of the cached configuration. */
  datatype Link = Link(tokenValid: bool, refreshed: bool, cacheAge: Option<real>, cacheTtl: real)

  function ModeOf(link: Link): Mode {
    if link.tokenValid || link.refreshed then Normal
    else if link.cacheAge.Some? && link.cacheAge.value < link.cacheTtl then Cached
    else Degraded
  }

  /** `_check_zone_permission`; `teams` are those of a verified token, `None` when there is none. */
  predicate Permitted(zone: Zone, teams: Option<seq<string>>) {
    || zone.visibility == "public"
    || (teams.Some? && (zone.allowedTeams == [] || exists t <- teams.value :: t in zone.allowedTeams))
  }

  function Named(list: seq<Zone>, name: string): (z: Option<Zone>)
    ensures z.Some? ==> z.value in list && z.value.name == name
    ensures z.None? ==> forall q <- list :: q.name != name
  {
    if list == [] then None else if list[0].name == name then Some(list[0]) else Named(list[1..], name)
  }

  /** `should_serve_zone`, given the name `_find_zone_name` returned. */
  predicate ShouldServe(list: seq<Zone>, zoneName: Option<string>, mode: Mode, teams: Option<seq<string>>) {
    if zoneName.None? || zoneName.value == "" then true
    else
      match Named(list, zoneName.value)
      case None => true
      case Some(zone) => if mode == Degraded then zone.visibility == "public" else Permitted(zone, teams)
  }

  /** The gate of the query pipeline. */
  predicate ZoneGate(list: seq<Zone>, domain: string, mode: Mode, teams: Option<seq<string>>) {
    var z := FirstMatch(list, domain);
    ShouldServe(list, if z.Some? then Some(z.value.name) else None, mode, teams)
  }

  lemma {:induction false} NamedIsThatZone(list: seq<Zone>, i: nat)
    requires DistinctNames(list) && i < |list|
    ensures Named(list, list[i].name) == Some(list[i])
    decreases |list|
  {
    if i > 0 {
      assert list[0].name != list[i].name;
      NamedIsThatZone(list[1..], i - 1);
    }
  }

  /** With distinct names and children first, the gate opens exactly for a zone the caller may use: one that is
      public, or that the mode and the caller's teams permit, or whose name is empty, which is never asked about. */
  lemma {:induction false} ServedZoneGateIff(zones: map<string, Zone>, list: seq<Zone>, domain: string, mode: Mode,
                                             teams: Option<seq<string>>, served: Zone)
    requires LoadedFrom(zones, list) && DistinctNames(list) && ChildrenFirst(list)
    requires Longest(zones, domain, Some(served))
    ensures ZoneGate(list, domain, mode, teams)
            <==> served.name == "" || served.visibility == "public" || (mode != Degraded && Permitted(served, teams))
  {
    FirstIsLongest(zones, list, domain);
    LongestIsUnique(zones, domain, FirstMatch(list, domain), Some(served));
    var i := FirstMatchIndex(list, domain);
    NamedIsThatZone(list, i);
  }

  // ----- reloading

  /** The table that loading leaves. */
  function LoadAll(list: seq<Zone>): map<string, Zone> {
    if list == [] then map[]
    else
      var z := list[|list| - 1];
      LoadAll(list[..|list| - 1])[z.name := z]
  }

  lemma {:induction false} LoadAllLoads(list: seq<Zone>)
    ensures LoadedFrom(LoadAll(list), list)
    decreases |list|
  {
    if list != [] {
      var earlier, z := list[..|list| - 1], list[|list| - 1];
      LoadAllLoads(earlier);
      LoadOneMore(LoadAll(earlier), earlier, z);
      assert list == earlier + [z];
    }
  }

  /** What a sync makes of the table: an empty list of zones is not loaded. */
  function Synced(zones: map<string, Zone>, list: seq<Zone>): map<string, Zone> {
    if list == [] then zones else LoadAll(list)
  }

  /** After a sync, table and configuration agree exactly when zones were sent or none were ever loaded. */
  lemma {:induction false} SyncAgreesIff(zones: map<string, Zone>, list: seq<Zone>)
    ensures LoadedFrom(Synced(zones, list), list) <==> list != [] || zones == map[]
  {
    LoadAllLoads(list);
    if list == [] && zones != map[] {
      var name :| name in zones;
      assert !exists z <- list :: z.name == name;
    }
  }

  function SyncedAll(zones: map<string, Zone>, lists: seq<seq<Zone>>): map<string, Zone> {
    if lists == [] then zones else Synced(SyncedAll(zones, lists[..|lists| - 1]), lists[|lists| - 1])
  }

  predicate AllEmpty(lists: seq<seq<Zone>>) {
    forall i :: 0 <= i < |lists| ==> lists[i] == []
  }

  lemma {:induction false} NothingLoadedIff(lists: seq<seq<Zone>>)
    ensures SyncedAll(map[], lists) == map[] <==> AllEmpty(lists)
    decreases |lists|
  {
    if lists != [] {
      var earlier, last := lists[..|lists| - 1], lists[|lists| - 1];
      NothingLoadedIff(earlier);
      assert AllEmpty(lists) <==> AllEmpty(earlier) && last == [];
      if last != [] {
        assert last[|last| - 1].name in LoadAll(last);
      }
    }
  }

  /** Over any sequence of syncs from an empty router, table and configuration agree at the end exactly when the
      last list has zones or none ever had. */
  lemma {:induction false} SyncsAgreeIff(lists: seq<seq<Zone>>)
    requires lists != []
    ensures var last := lists[|lists| - 1];
            LoadedFrom(SyncedAll(map[], lists), last) <==> last != [] || AllEmpty(lists)
  {
    var earlier, last := lists[..|lists| - 1], lists[|lists| - 1];
    SyncAgreesIff(SyncedAll(map[], earlier), last);
    NothingLoadedIff(earlier);
    assert AllEmpty(lists) <==> AllEmpty(earlier) && last == [];
  }
}
