/** The threat-feed checker's domain side, and the per-identity domain policy it contrasts with. */
module ThreatFeeds {
  import opened Basics
  import opened DomainNames

  const WILDCARD := "*."

  /** The domain an entry is about: a wildcard stands for what follows its prefix. */
  function Base(entry: string): string {
    if StartsWith(entry, WILDCARD) then entry[2..] else entry
  }

  /** Some loaded entry is about `name` or a domain above it. */
  ghost predicate Listed(exact: set<string>, wildcards: set<string>, name: string) {
    || (exists d <- exact :: Under(name, d))
    || (exists w <- wildcards :: |w| >= 2 && Under(name, w[2..]))
  }

  /** Some feed entry that is neither empty nor an address is about `name` or a domain above it. */
  ghost predicate ListedByFeeds(isAddress: string -> bool, feeds: seq<seq<string>>, name: string) {
    exists i, j :: 0 <= i < |feeds| && 0 <= j < |feeds[i]| && Blocks(isAddress, feeds[i][j], name)
  }

  predicate Blocks(isAddress: string -> bool, entry: string, name: string) {
    entry != "" && !isAddress(FeedForm(entry)) && Under(name, Base(FeedForm(entry)))
  }

  class IocChecker {
    const isAddress: string -> bool
    var blockedDomains: set<string>
    var wildcardDomains: set<string>

    /** Every loaded wildcard starts with its prefix. */
    predicate Valid()
      reads this
    {
      forall w <- wildcardDomains :: StartsWith(w, WILDCARD)
    }

    constructor (isAddress: string -> bool)
      ensures Valid() && this.isAddress == isAddress && blockedDomains == {} && wildcardDomains == {}
    {
      this.isAddress := isAddress;
      blockedDomains := {};
      wildcardDomains := {};
    }

    /** After loading, a name is listed exactly when some entry of the feeds blocks it. */
    method LoadFeeds(feeds: seq<seq<string>>)
      modifies this
      ensures Valid()
      ensures forall name :: Listed(blockedDomains, wildcardDomains, name) <==> ListedByFeeds(isAddress, feeds, name)
    {
      blockedDomains, wildcardDomains := {}, {};
      for i := 0 to |feeds|
        invariant Valid()
        invariant forall name :: Listed(blockedDomains, wildcardDomains, name) <==> ListedByFeeds(isAddress, feeds[..i], name)
      {
        LoadEntries(feeds[i], feeds[..i]);
        assert feeds[..i + 1] == feeds[..i] + [feeds[i]];
      }
      assert feeds[..|feeds|] == feeds;
    }

    method LoadEntries(entries: seq<string>, ghost earlier: seq<seq<string>>)
      requires Valid()
      requires forall name :: Listed(blockedDomains, wildcardDomains, name) <==> ListedByFeeds(isAddress, earlier, name)
      modifies this
      ensures Valid()
      ensures forall name :: Listed(blockedDomains, wildcardDomains, name) <==> ListedByFeeds(isAddress, earlier + [entries], name)
    {
      NoEntriesYet(isAddress, earlier);
      for j := 0 to |entries|
        invariant Valid()
        invariant forall name :: Listed(blockedDomains, wildcardDomains, name)
                                 <==> ListedByFeeds(isAddress, earlier + [entries[..j]], name)
      {
        LoadEntry(entries[j]);
        OneMoreEntry(isAddress, earlier, entries, j);
      }
      assert entries[..|entries|] == entries;
    }

    method LoadEntry(entry: string)
      requires Valid()
      modifies this
      ensures Valid()
      ensures forall name :: Listed(blockedDomains, wildcardDomains, name)
                             <==> old(Listed(blockedDomains, wildcardDomains, name)) || Blocks(isAddress, entry, name)
    {
      if entry == "" {
        return;
      }
      var normalized := FeedForm(entry);
      if isAddress(normalized) {
        return;
      }
      if StartsWith(normalized, WILDCARD) {
        ListedMoreWildcards(blockedDomains, wildcardDomains, normalized);
        wildcardDomains := wildcardDomains + {normalized};
      } else {
        ListedMoreExact(blockedDomains, wildcardDomains, normalized);
        blockedDomains := blockedDomains + {normalized};
      }
    }

    /** A name is blocked exactly when it, in its feed form, is or lies under a listed domain. */
    method IsBlocked(domain: string) returns (blocked: bool)
      requires Valid()
      ensures blocked <==> Listed(blockedDomains, wildcardDomains, FeedForm(domain))
    {
      var normalized := FeedForm(domain);
      if normalized in blockedDomains {
        return true;
      }
      var matched := CheckWildcard(normalized);
      if matched {
        return true;
      }
      var parts := Split(normalized);
      for i := 1 to |parts|
        invariant forall k :: 1 <= k < i ==> Ancestor(normalized, k) !in blockedDomains
      {
        if Join(parts[i..]) in blockedDomains {
          assert Ancestor(normalized, i) in blockedDomains;
          AncestorsAreDomains(normalized, Ancestor(normalized, i));
          return true;
        }
      }
      forall d | d in blockedDomains ensures !Under(normalized, d) {
        AncestorsAreDomains(normalized, d);
        JoinSplit(normalized);
        assert parts[0..] == parts;
      }
      blocked := false;
    }

    method CheckWildcard(domain: string) returns (matched: bool)
      requires Valid()
      ensures matched <==> exists w <- wildcardDomains :: |w| >= 2 && Under(domain, w[2..])
    {
      var left := wildcardDomains;
      while left != {}
        invariant left <= wildcardDomains
        invariant forall w <- wildcardDomains - left :: !Under(domain, w[2..])
        decreases left
      {
        var wildcard :| wildcard in left;
        var pattern := wildcard[2..];
        if EndsWith(domain, "." + pattern) || domain == pattern {
          return true;
        }
        left := left - {wildcard};
      }
      matched := false;
    }
  }

  lemma ListedMoreExact(exact: set<string>, wildcards: set<string>, d: string)
    ensures forall name :: Listed(exact + {d}, wildcards, name) <==> Listed(exact, wildcards, name) || Under(name, d)
  {
  }

  lemma ListedMoreWildcards(exact: set<string>, wildcards: set<string>, w: string)
    requires |w| >= 2
    ensures forall name :: Listed(exact, wildcards + {w}, name) <==> Listed(exact, wildcards, name) || Under(name, w[2..])
  {
  }

  lemma NoEntriesYet(isAddress: string -> bool, earlier: seq<seq<string>>)
    ensures forall name :: ListedByFeeds(isAddress, earlier + [[]], name) <==> ListedByFeeds(isAddress, earlier, name)
  {
    forall name ensures ListedByFeeds(isAddress, earlier + [[]], name) <==> ListedByFeeds(isAddress, earlier, name) {
      var more := earlier + [[]];
      if ListedByFeeds(isAddress, earlier, name) {
        var i, j :| 0 <= i < |earlier| && 0 <= j < |earlier[i]| && Blocks(isAddress, earlier[i][j], name);
        assert Blocks(isAddress, more[i][j], name);
      }
    }
  }

  lemma OneMoreEntry(isAddress: string -> bool, earlier: seq<seq<string>>, entries: seq<string>, j: nat)
    requires j < |entries|
    ensures forall name :: ListedByFeeds(isAddress, earlier + [entries[..j + 1]], name)
                           <==> ListedByFeeds(isAddress, earlier + [entries[..j]], name) || Blocks(isAddress, entries[j], name)
  {
    var n := |earlier|;
    var some, more := earlier + [entries[..j]], earlier + [entries[..j + 1]];
    forall name ensures ListedByFeeds(isAddress, more, name)
                        <==> ListedByFeeds(isAddress, some, name) || Blocks(isAddress, entries[j], name)
    {
      if ListedByFeeds(isAddress, some, name) {
        var a, b :| 0 <= a < |some| && 0 <= b < |some[a]| && Blocks(isAddress, some[a][b], name);
        assert more[a][b] == some[a][b];
      }
      if Blocks(isAddress, entries[j], name) {
        assert Blocks(isAddress, more[n][j], name);
      }
      if ListedByFeeds(isAddress, more, name) {
        var a, b :| 0 <= a < |more| && 0 <= b < |more[a]| && Blocks(isAddress, more[a][b], name);
        if !(a == n && b == j) {
          assert some[a][b] == more[a][b];
        }
      }
    }
  }

  /** Blocking is closed under subdomains. */
  lemma SubdomainsAreListed(exact: set<string>, wildcards: set<string>, name: string, sub: string)
    requires Listed(exact, wildcards, name) && Under(sub, name)
    ensures Listed(exact, wildcards, sub)
  {
    if exists d <- exact :: Under(name, d) {
      var d :| d in exact && Under(name, d);
      UnderTransitive(sub, name, d);
    } else {
      var w :| w in wildcards && |w| >= 2 && Under(name, w[2..]);
      UnderTransitive(sub, name, w[2..]);
    }
  }

  /** `wildcard` is `plain` with the wildcard prefix, once both are normalised; neither is an address. */
  predicate WildcardOf(isAddress: string -> bool, wildcard: string, plain: string) {
    && plain != "" && FeedForm(wildcard) == WILDCARD + FeedForm(plain)
    && !isAddress(FeedForm(plain)) && !isAddress(FeedForm(wildcard)) && !StartsWith(FeedForm(plain), WILDCARD)
  }

  lemma {:induction false} EntriesAlike(isAddress: string -> bool, wildcard: string, plain: string, name: string)
    requires WildcardOf(isAddress, wildcard, plain)
    ensures Blocks(isAddress, wildcard, name) == Blocks(isAddress, plain, name)
  {
  }

  lemma {:induction false} ReplacedEntry(isAddress: string -> bool, feeds: seq<seq<string>>, i: nat, j: nat,
                                         other: string, name: string)
    requires i < |feeds| && j < |feeds[i]|
    requires Blocks(isAddress, feeds[i][j], name) ==> Blocks(isAddress, other, name)
    ensures ListedByFeeds(isAddress, feeds, name) ==> ListedByFeeds(isAddress, feeds[i := feeds[i][j := other]], name)
  {
    var changed := feeds[i := feeds[i][j := other]];
    if ListedByFeeds(isAddress, feeds, name) {
      var a, b :| 0 <= a < |feeds| && 0 <= b < |feeds[a]| && Blocks(isAddress, feeds[a][b], name);
      assert Blocks(isAddress, changed[a][b], name);
    }
  }

  /** Wherever a feed lists a domain plainly it may list it as a wildcard: the same names are blocked. */
  lemma {:induction false} PlainAndWildcardAlike(isAddress: string -> bool, feeds: seq<seq<string>>, i: nat, j: nat,
                                                 wildcard: string, name: string)
    requires i < |feeds| && j < |feeds[i]| && WildcardOf(isAddress, wildcard, feeds[i][j])
    ensures ListedByFeeds(isAddress, feeds[i := feeds[i][j := wildcard]], name) <==> ListedByFeeds(isAddress, feeds, name)
  {
    var plain, changed := feeds[i][j], feeds[i := feeds[i][j := wildcard]];
    EntriesAlike(isAddress, wildcard, plain, name);
    ReplacedEntry(isAddress, feeds, i, j, wildcard, name);
    ReplacedEntry(isAddress, changed, i, j, plain, name);
    assert changed[i][j := plain] == feeds[i];
    assert changed[i := feeds[i]] == feeds;
  }

  // ----- the allowlist of an identity

  /** An entry allows itself, and as a wildcard everything strictly under its base. */
  predicate Permits(entry: string, name: string) {
    name == entry || (StartsWith(entry, WILDCARD) && StrictlyUnder(name, entry[2..]))
  }

  /** `None` allows every name. */
  ghost predicate PolicyAllows(allowed: Option<seq<string>>, queried: string) {
    allowed.None? || exists entry <- allowed.value :: Permits(PolicyForm(entry), PolicyForm(queried))
  }

  method MatchesPolicy(queried: string, allowed: Option<seq<string>>) returns (r: bool)
    ensures r <==> PolicyAllows(allowed, queried)
  {
    if allowed.None? {
      return true;
    }
    if allowed.value == [] {
      return false;
    }
    var query := PolicyForm(queried);
    for i := 0 to |allowed.value|
      invariant forall k :: 0 <= k < i ==> !Permits(PolicyForm(allowed.value[k]), query)
    {
      var entry := PolicyForm(allowed.value[i]);
      if query == entry {
        return true;
      }
      if StartsWith(entry, WILDCARD) {
        var suffix := entry[2..];
        if EndsWith(query, "." + suffix) || query == suffix {
          if query == suffix {
            StrictlyUnderAt(query, suffix);
            continue;
          }
          return true;
        }
      }
    }
    r := false;
  }

  /** Every list leaves some name out. */
  lemma {:induction false} SomeNameIsRefused(list: seq<string>) returns (name: string)
    ensures !PolicyAllows(Some(list), name)
  {
    var n := LongestEntry(list) + 1;
    name := Letters(n);
    NormalForms(name);
    forall entry | entry in list ensures !Permits(PolicyForm(entry), PolicyForm(name)) {
      EntryNotLonger(list, entry);
      if StartsWith(PolicyForm(entry), WILDCARD) {
        StrictlyUnderAt(name, PolicyForm(entry)[2..]);
      }
    }
  }

  function LongestEntry(list: seq<string>): nat {
    if list == [] then 0
    else
      var n := LongestEntry(list[1..]);
      if |list[0]| > n then |list[0]| else n
  }

  lemma {:induction false} EntryNotLonger(list: seq<string>, entry: string)
    requires entry in list
    ensures |PolicyForm(entry)| <= LongestEntry(list)
    decreases |list|
  {
    if entry != list[0] {
      EntryNotLonger(list[1..], entry);
    }
  }

  /** A label of `n` letters. */
  function Letters(n: nat): (s: string)
    ensures |s| == n && forall i :: 0 <= i < n ==> s[i] == 'a'
  {
    seq(n, _ => 'a')
  }

  /** The same wildcard, in a feed and in an allowlist, covers the same normalised names but for its own apex, which
      only the feed covers. */
  lemma {:induction false} WildcardsDifferAtApex(isAddress: string -> bool, base: string, name: string)
    requires Normal(base) && Normal(name) && !isAddress(WILDCARD + base)
    ensures ListedByFeeds(isAddress, [[WILDCARD + base]], FeedForm(name))
            <==> PolicyAllows(Some([WILDCARD + base]), name) || name == base
    ensures !PolicyAllows(Some([WILDCARD + base]), base)
  {
    var wildcard := WILDCARD + base;
    NormalForms(base);
    NormalForms(name);
    WildcardIsNormal(base);
    NormalForms(wildcard);
    OneEntry(isAddress, wildcard, name);
    OneAllowed(wildcard, name);
    OneAllowed(wildcard, base);
    WildcardRules(base, name);
  }

  lemma {:induction false} WildcardRules(base: string, name: string)
    ensures var wildcard := WILDCARD + base;
            && Base(wildcard) == base && !Permits(wildcard, base)
            && (Under(name, base) <==> Permits(wildcard, name) || name == base)
  {
    var wildcard := WILDCARD + base;
    assert wildcard[2..] == base;
    StrictlyUnderAt(base, base);
    StrictlyUnderAt(wildcard, base);
    assert wildcard[|wildcard| - |base|..] == base;
  }

  lemma {:induction false} OneAllowed(entry: string, name: string)
    ensures PolicyAllows(Some([entry]), name) <==> Permits(PolicyForm(entry), PolicyForm(name))
  {
  }

  lemma {:induction false} OneEntry(isAddress: string -> bool, entry: string, name: string)
    ensures ListedByFeeds(isAddress, [[entry]], name) <==> Blocks(isAddress, entry, name)
  {
    if Blocks(isAddress, entry, name) {
      assert Blocks(isAddress, [[entry]][0][0], name);
    }
  }

  lemma {:induction false} WildcardIsNormal(base: string)
    requires Normal(base)
    ensures Normal(WILDCARD + base)
  {
  }

  // ----- spelling

  /** `name` is `domain`, or ends in a dot and `domain`, up to case. */
  predicate UnderUpToCase(name: string, domain: string) {
    SameUpToCase(name, domain) || StrictlyUnderUpToCase(name, domain)
  }

  predicate StrictlyUnderUpToCase(name: string, domain: string) {
    var n := |name| - |domain|;
    n > 0 && name[n - 1] == '.' && SameUpToCase(name[n..], domain)
  }

  lemma {:induction false} StrictlyUnderFolds(n: string, d: string, g: string, f: string)
    requires SameUpToCase(n, g) && SameUpToCase(d, f) && NoCapitals(g) && NoCapitals(f)
    ensures StrictlyUnder(g, f) <==> StrictlyUnderUpToCase(n, d)
  {
    StrictlyUnderAt(g, f);
    var k := |n| - |d|;
    if k > 0 {
      assert SameLetter(n[k - 1], g[k - 1]);
      SuffixFolds(n, g, k);
      FoldsIff(n[k..], d, g[k..], f);
    }
  }

  lemma {:induction false} SuffixFolds(n: string, g: string, k: nat)
    requires SameUpToCase(n, g) && NoCapitals(g) && k <= |n|
    ensures SameUpToCase(n[k..], g[k..]) && NoCapitals(g[k..])
  {
  }

  lemma {:induction false} FoldsIff(n: string, d: string, g: string, f: string)
    requires SameUpToCase(n, g) && SameUpToCase(d, f) && NoCapitals(g) && NoCapitals(f)
    ensures g == f <==> SameUpToCase(n, d)
  {
    if SameUpToCase(n, d) {
      FoldedIsUnique(n, d, g, f);
    } else if g == f {
      forall i | 0 <= i < |n| ensures SameLetter(n[i], d[i]) {
        assert SameLetter(n[i], g[i]) && SameLetter(d[i], f[i]);
      }
    }
  }

  lemma {:induction false} WildcardFolds(e: string, f: string)
    requires SameUpToCase(e, f)
    ensures StartsWith(f, WILDCARD) <==> StartsWith(e, WILDCARD)
  {
    if |e| >= 2 {
      assert SameLetter(e[0], f[0]) && SameLetter(e[1], f[1]);
      assert e[..2] == [e[0], e[1]] && f[..2] == [f[0], f[1]];
    }
  }

  /** A single feed entry blocks exactly the names at or under it, whatever the case, blanks and dots of either. */
  lemma {:induction false} EntryBlocksIff(isAddress: string -> bool, entry: string, i: nat, j: nat, k: nat,
                                          name: string, i': nat, j': nat, k': nat)
    requires FeedAt(entry, i, j, k) && FeedAt(name, i', j', k') && entry != "" && !isAddress(FeedForm(entry))
    ensures var e := entry[i..j];
            ListedByFeeds(isAddress, [[entry]], FeedForm(name))
            <==> UnderUpToCase(name[i'..j'], if StartsWith(e, WILDCARD) then e[2..] else e)
  {
    var e, n, f, g := entry[i..j], name[i'..j'], FeedForm(entry), FeedForm(name);
    FeedFormAt(entry, i, j, k);
    FeedFormAt(name, i', j', k');
    WildcardFolds(e, f);
    OneEntry(isAddress, entry, g);
    if StartsWith(e, WILDCARD) {
      SuffixFolds(e, f, 2);
      StrictlyUnderFolds(n, e[2..], g, f[2..]);
      FoldsIff(n, e[2..], g, f[2..]);
    } else {
      StrictlyUnderFolds(n, e, g, f);
      FoldsIff(n, e, g, f);
    }
  }

  /** A single allowlist entry allows exactly itself and, as a wildcard, what lies strictly under it, whatever the
      case and trailing dots of either. */
  lemma {:induction false} EntryAllowsIff(entry: string, j: nat, name: string, j': nat)
    requires PolicyAt(entry, j) && PolicyAt(name, j')
    ensures var e, n := entry[..j], name[..j'];
            PolicyAllows(Some([entry]), name)
            <==> SameUpToCase(n, e) || (StartsWith(e, WILDCARD) && StrictlyUnderUpToCase(n, e[2..]))
  {
    var e, n, f, g := entry[..j], name[..j'], PolicyForm(entry), PolicyForm(name);
    PolicyFormAt(entry, j);
    PolicyFormAt(name, j');
    WildcardFolds(e, f);
    FoldsIff(n, e, g, f);
    if StartsWith(e, WILDCARD) {
      SuffixFolds(e, f, 2);
      StrictlyUnderFolds(n, e[2..], g, f[2..]);
    }
    OneAllowed(entry, name);
  }

  /** A list allows what one of its entries allows. */
  lemma {:induction false} ListAllowsIff(list: seq<string>, name: string)
    ensures PolicyAllows(Some(list), name) <==> exists entry <- list :: PolicyAllows(Some([entry]), name)
  {
    forall entry ensures PolicyAllows(Some([entry]), name) <==> Permits(PolicyForm(entry), PolicyForm(name)) {
      OneAllowed(entry, name);
    }
  }

  /** Names spelled alike are blocked alike and allowed alike. */
  lemma {:induction false} SpellingsAlike(exact: set<string>, wildcards: set<string>, allowed: Option<seq<string>>, s: string, t: string)
    requires SameUpToCase(s, t)
    ensures Listed(exact, wildcards, FeedForm(s)) == Listed(exact, wildcards, FeedForm(t))
    ensures PolicyAllows(allowed, s) == PolicyAllows(allowed, t)
  {
    CaseIsIgnored(s, t);
  }
}
