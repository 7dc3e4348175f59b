// The IP history of one client: each scan of the access log merges what it saw into the
// stored list, lets stale addresses go, and bans the oldest of those seen too many.

module IpHistory {

  import opened Sets

  datatype Seen = Seen(ip: string, at: int)

  const STALE_AFTER: int := 1800

  // ------------------------------------------------------------------
  // Merging
  // ------------------------------------------------------------------

  // The stored list overwrites, the scan's list only raises.
  function MergeOld(stored: seq<Seen>, cutoff: int): map<string, int>
    decreases |stored|
  {
    if stored == [] then map[]
    else
      var m, s := MergeOld(stored[..|stored| - 1], cutoff), stored[|stored| - 1];
      if s.at < cutoff then m else m[s.ip := s.at]
  }

  function Raise(m: map<string, int>, s: Seen): map<string, int> {
    if s.ip !in m || s.at > m[s.ip] then m[s.ip := s.at] else m
  }

  function Merge(stored: seq<Seen>, scanned: seq<Seen>, cutoff: int): map<string, int>
    decreases |scanned|
  {
    if scanned == [] then MergeOld(stored, cutoff)
    else
      var m, s := Merge(stored, scanned[..|scanned| - 1], cutoff), scanned[|scanned| - 1];
      if s.at < cutoff then m else Raise(m, s)
  }

  method MergeClientIps(stored: seq<Seen>, scanned: seq<Seen>, staleCutoff: int) returns (ipMap: map<string, int>)
    ensures ipMap == Merge(stored, scanned, staleCutoff)
  {
    ipMap := map[];
    for i := 0 to |stored|
      invariant ipMap == MergeOld(stored[..i], staleCutoff)
    {
      assert stored[..i + 1][..i] == stored[..i];
      if stored[i].at < staleCutoff {
        continue;
      }
      ipMap := ipMap[stored[i].ip := stored[i].at];
    }
    assert stored[..|stored|] == stored;
    for i := 0 to |scanned|
      invariant ipMap == Merge(stored, scanned[..i], staleCutoff)
    {
      assert scanned[..i + 1][..i] == scanned[..i];
      if scanned[i].at < staleCutoff {
        continue;
      }
      if scanned[i].ip !in ipMap || scanned[i].at > ipMap[scanned[i].ip] {
        ipMap := ipMap[scanned[i].ip := scanned[i].at];
      }
    }
    assert scanned[..|scanned|] == scanned;
  }

  predicate DistinctIps(s: seq<Seen>) {
    forall i, j | 0 <= i < j < |s| :: s[i].ip != s[j].ip
  }

  // An address seen in either list, not before the cutoff.
  predicate Fresh(stored: seq<Seen>, scanned: seq<Seen>, cutoff: int, s: Seen) {
    (s in stored || s in scanned) && s.at >= cutoff
  }

  lemma {:induction false} MergeOldExact(stored: seq<Seen>, cutoff: int, ip: string)
    requires DistinctIps(stored)
    ensures var m := MergeOld(stored, cutoff);
            (ip in m ==> Seen(ip, m[ip]) in stored && m[ip] >= cutoff) &&
            (forall s | s in stored && s.ip == ip && s.at >= cutoff :: ip in m && m[ip] == s.at)
    decreases |stored|
  {
    if stored != [] {
      var front, last := stored[..|stored| - 1], stored[|stored| - 1];
      MergeOldExact(front, cutoff, ip);
      assert stored == front + [last];
      assert forall i | 0 <= i < |front| :: front[i] == stored[i];
    }
  }

  // The merged time of an address is the latest one not before the cutoff, and an address
  // without one is not there.
  lemma {:induction false} MergeIsLatest(stored: seq<Seen>, scanned: seq<Seen>, cutoff: int, ip: string)
    requires DistinctIps(stored)
    ensures var m := Merge(stored, scanned, cutoff);
            (ip in m ==> Fresh(stored, scanned, cutoff, Seen(ip, m[ip]))) &&
            (forall s | Fresh(stored, scanned, cutoff, s) && s.ip == ip :: ip in m && s.at <= m[ip])
    decreases |scanned|
  {
    if scanned == [] {
      MergeOldExact(stored, cutoff, ip);
    } else {
      var front, last := scanned[..|scanned| - 1], scanned[|scanned| - 1];
      MergeIsLatest(stored, front, cutoff, ip);
      assert scanned == front + [last];
      var m0, m := Merge(stored, front, cutoff), Merge(stored, scanned, cutoff);
      forall s | Fresh(stored, scanned, cutoff, s) && s.ip == ip ensures ip in m && s.at <= m[ip] {
        assert Fresh(stored, front, cutoff, s) || s == last;
      }
    }
  }

  // With an address stored twice the later entry wins even when it is older.
  lemma RepeatedEntryLosesTime()
    ensures Merge([Seen("a", 20), Seen("a", 10)], [], 0) == map["a" := 10]
  {
    assert [Seen("a", 20), Seen("a", 10)][..1] == [Seen("a", 20)];
    assert [Seen("a", 20)][..0] == [];
    assert MergeOld([Seen("a", 20)], 0) == map["a" := 20];
  }

  // ------------------------------------------------------------------
  // Live and historical addresses
  // ------------------------------------------------------------------

  predicate Sorted(s: seq<Seen>) {
    forall i, j | 0 <= i < j < |s| :: s[i].at <= s[j].at
  }

  // s lists the addresses of m that are observed (or, for live false, that are not), by
  // ascending time. Addresses with equal times may come in any order.
  ghost predicate Lists(s: seq<Seen>, m: map<string, int>, observed: set<string>, live: bool) {
    && Sorted(s) && DistinctIps(s)
    && (forall i | 0 <= i < |s| :: s[i].ip in m && m[s[i].ip] == s[i].at && (s[i].ip in observed) == live)
    && (forall ip | ip in m && (ip in observed) == live :: Seen(ip, m[ip]) in s)
  }

  predicate InsertedAt(s: seq<Seen>, r: seq<Seen>, at: nat, e: Seen) {
    at <= |s| && |r| == |s| + 1 && r[at] == e &&
    (forall i | 0 <= i < at :: r[i] == s[i]) && (forall i | at < i < |r| :: r[i] == s[i - 1])
  }

  lemma InsertSorted(s: seq<Seen>, r: seq<Seen>, at: nat, e: Seen)
    requires Sorted(s) && InsertedAt(s, r, at, e)
    requires (at > 0 ==> s[at - 1].at <= e.at) && forall j | at <= j < |s| :: e.at <= s[j].at
    ensures Sorted(r)
  {
    forall i, j | 0 <= i < j < |r| ensures r[i].at <= r[j].at {
      if i != at && j != at {
        assert s[if i < at then i else i - 1].at <= s[if j < at then j else j - 1].at;
      } else if j == at {
        assert s[i].at <= s[at - 1].at;
      }
    }
  }

  method Insert(s: seq<Seen>, e: Seen) returns (r: seq<Seen>, ghost at: nat)
    requires Sorted(s)
    ensures Sorted(r) && InsertedAt(s, r, at, e)
  {
    var i := |s|;
    while i > 0 && s[i - 1].at > e.at
      invariant 0 <= i <= |s|
      invariant forall j | i <= j < |s| :: e.at < s[j].at
    {
      i := i - 1;
    }
    r := s[..i] + [e] + s[i..];
    at := i;
    InsertSorted(s, r, at, e);
  }

  // What insertion keeps of a listing, with rest the addresses not yet placed.
  ghost predicate Partial(s: seq<Seen>, m: map<string, int>, rest: set<string>, observed: set<string>, live: bool) {
    && Sorted(s) && DistinctIps(s)
    && (forall i | 0 <= i < |s| ::
          s[i].ip in m && s[i].ip !in rest && m[s[i].ip] == s[i].at && (s[i].ip in observed) == live)
    && (forall ip | ip in m && ip !in rest && (ip in observed) == live :: Seen(ip, m[ip]) in s)
  }

  lemma InsertDistinct(s: seq<Seen>, r: seq<Seen>, at: nat, e: Seen)
    requires InsertedAt(s, r, at, e) && DistinctIps(s) && forall i | 0 <= i < |s| :: s[i].ip != e.ip
    ensures DistinctIps(r)
  {
    forall i, j | 0 <= i < j < |r| ensures r[i].ip != r[j].ip {
      if i != at && j != at {
        assert s[if i < at then i else i - 1].ip != s[if j < at then j else j - 1].ip;
      }
    }
  }

  lemma InsertHolds(s: seq<Seen>, r: seq<Seen>, at: nat, e: Seen)
    requires InsertedAt(s, r, at, e)
    ensures e in r && forall x | x in s :: x in r
  {
    forall x | x in s ensures x in r {
      var k :| 0 <= k < |s| && s[k] == x;
      assert r[if k < at then k else k + 1] == x;
    }
  }

  lemma InsertKeeps(s: seq<Seen>, r: seq<Seen>, at: nat, m: map<string, int>, rest: set<string>, ip: string,
                    observed: set<string>)
    requires ip in m && ip in rest && Partial(s, m, rest, observed, ip in observed)
    requires Sorted(r) && InsertedAt(s, r, at, Seen(ip, m[ip]))
    ensures Partial(r, m, rest - {ip}, observed, ip in observed)
  {
    InsertDistinct(s, r, at, Seen(ip, m[ip]));
    InsertHolds(s, r, at, Seen(ip, m[ip]));
    forall i | 0 <= i < |r|
      ensures r[i].ip in m && r[i].ip !in rest - {ip} && m[r[i].ip] == r[i].at &&
        (r[i].ip in observed) == (ip in observed)
    {
      if i != at {
        assert r[i] == s[if i < at then i else i - 1];
      }
    }
  }

  method PartitionLiveIps(ipMap: map<string, int>, observed: set<string>) returns (live: seq<Seen>,
                          historical: seq<Seen>)
    ensures Lists(live, ipMap, observed, true)
    ensures Lists(historical, ipMap, observed, false)
  {
    live, historical := [], [];
    var rest := ipMap.Keys;
    while rest != {}
      invariant rest <= ipMap.Keys
      invariant Partial(live, ipMap, rest, observed, true)
      invariant Partial(historical, ipMap, rest, observed, false)
      decreases |rest|
    {
      HasElement(rest);
      var ip :| ip in rest;
      ghost var at;
      if ip in observed {
        ghost var s := live;
        live, at := Insert(live, Seen(ip, ipMap[ip]));
        InsertKeeps(s, live, at, ipMap, rest, ip, observed);
      } else {
        ghost var s := historical;
        historical, at := Insert(historical, Seen(ip, ipMap[ip]));
        InsertKeeps(s, historical, at, ipMap, rest, ip, observed);
      }
      rest := rest - {ip};
    }
  }

  // ------------------------------------------------------------------
  // One scan of a limited client
  // ------------------------------------------------------------------

  function Ips(s: seq<Seen>): (r: seq<string>)
    ensures |r| == |s| && forall i | 0 <= i < |r| :: r[i] == s[i].ip
  {
    seq(|s|, i requires 0 <= i < |s| => s[i].ip)
  }

  function Observed(scanned: seq<Seen>): set<string> {
    set s | s in scanned :: s.ip
  }

  // What a scan at time now decides: the oldest live addresses beyond the limit are
  // banned, the others kept.
  ghost predicate Decides(stored: seq<Seen>, scanned: seq<Seen>, limit: int, now: int,
                          kept: seq<Seen>, banned: seq<Seen>, historical: seq<Seen>) {
    var m := Merge(stored, scanned, now - STALE_AFTER);
    && Lists(banned + kept, m, Observed(scanned), true)
    && Lists(historical, m, Observed(scanned), false)
    && |banned| == (if |banned + kept| > limit then |banned + kept| - limit else 0)
  }

  function Excess(live: seq<Seen>, limit: int): (r: nat)
    requires limit > 0
    ensures r <= |live|
  {
    if |live| > limit then |live| - limit else 0
  }

  lemma SplitDecides(stored: seq<Seen>, scanned: seq<Seen>, limit: int, now: int, live: seq<Seen>,
                     historical: seq<Seen>)
    requires limit > 0
    requires Lists(live, Merge(stored, scanned, now - STALE_AFTER), Observed(scanned), true)
    requires Lists(historical, Merge(stored, scanned, now - STALE_AFTER), Observed(scanned), false)
    ensures var cut := Excess(live, limit);
            Decides(stored, scanned, limit, now, live[cut..], live[..cut], historical)
  {
    var cut := Excess(live, limit);
    assert live[..cut] + live[cut..] == live;
  }

  class ScanJob {
    var stored: seq<Seen>
    var disallowed: seq<string>

    method Ban(bannedLive: seq<Seen>)
      requires disallowed == []
      modifies this`disallowed
      ensures disallowed == Ips(bannedLive)
    {
      for i := 0 to |bannedLive|
        invariant disallowed == Ips(bannedLive[..i])
      {
        disallowed := disallowed + [bannedLive[i].ip];
        assert disallowed == Ips(bannedLive[..i + 1]);
      }
      assert bannedLive[..|bannedLive|] == bannedLive;
    }

    // Bans the oldest live addresses beyond the limit and stores the others.
    method Enforce(limit: int, live: seq<Seen>, past: seq<Seen>, logOpens: bool, saves: bool) returns (clean: bool)
      requires limit > 0
      modifies this
      ensures var cut := Excess(live, limit);
              if cut > 0 && !logOpens then stored == old(stored) && disallowed == [] && !clean
              else stored == (if saves then live[cut..] + past else old(stored)) &&
                   disallowed == Ips(live[..cut]) && clean == (cut > 0 && saves)
    {
      clean := false;
      disallowed := [];
      var keptLive := live;
      if |live| > limit {
        var cutoff := |live| - limit;
        keptLive := live[cutoff..];
        if !logOpens {
          return false;
        }
        clean := true;
        Ban(live[..cutoff]);
      }
      if !saves {
        return false;
      }
      stored := keptLive + past;
    }

    // Returns whether the access log should be cleaned. A client that is not found, has no
    // limit or whose inbound is off only gets its list replaced; when the ban log cannot be
    // opened nothing is stored; when the save fails the list stays.
    method UpdateInboundClientIps(found: bool, limit: int, enabled: bool, now: int, scanned: seq<Seen>,
                                  logOpens: bool, saves: bool)
      returns (clean: bool, ghost kept: seq<Seen>, ghost banned: seq<Seen>, ghost historical: seq<Seen>)
      modifies this
      ensures !found || limit <= 0 || !enabled ==>
                stored == (if saves then scanned else old(stored)) && disallowed == old(disallowed) && !clean
      ensures found && limit > 0 && enabled ==>
                && Decides(old(stored), scanned, limit, now, kept, banned, historical)
                && (banned != [] && !logOpens ==> stored == old(stored) && disallowed == [] && !clean)
                && (banned == [] || logOpens ==>
                      stored == (if saves then kept + historical else old(stored)) && disallowed == Ips(banned) &&
                      clean == (banned != [] && saves))
    {
      kept, banned, historical := [], [], [];
      if !found || limit <= 0 || !enabled {
        if saves {
          stored := scanned;
        }
        return false, kept, banned, historical;
      }
      var ipMap := MergeClientIps(stored, scanned, now - STALE_AFTER);
      var live, past := PartitionLiveIps(ipMap, Observed(scanned));
      SplitDecides(stored, scanned, limit, now, live, past);
      ghost var cut := Excess(live, limit);
      kept, banned, historical := live[cut..], live[..cut], past;
      clean := Enforce(limit, live, past, logOpens, saves);
    }
  }

  // ------------------------------------------------------------------
  // What one scan guarantees
  // ------------------------------------------------------------------

  predicate Holds(s: seq<Seen>, ip: string) {
    exists i | 0 <= i < |s| :: s[i].ip == ip
  }

  lemma ListsHolds(s: seq<Seen>, m: map<string, int>, observed: set<string>, live: bool, ip: string)
    requires Lists(s, m, observed, live)
    ensures Holds(s, ip) <==> ip in m && (ip in observed) == live
  {
    if ip in m && (ip in observed) == live {
      assert Seen(ip, m[ip]) in s;
      var i :| 0 <= i < |s| && s[i] == Seen(ip, m[ip]);
      assert s[i].ip == ip;
    }
  }

  lemma HoldsConcat(a: seq<Seen>, b: seq<Seen>, ip: string)
    ensures Holds(a + b, ip) <==> Holds(a, ip) || Holds(b, ip)
  {
    if Holds(a, ip) {
      var i :| 0 <= i < |a| && a[i].ip == ip;
      assert (a + b)[i] == a[i];
    }
    if Holds(b, ip) {
      var i :| 0 <= i < |b| && b[i].ip == ip;
      assert (a + b)[|a| + i] == b[i];
    }
  }

  // Kept and banned split the live addresses, at most limit are kept, no banned one is
  // newer than a kept one, and only observed addresses are banned.
  lemma ScanSplitsLive(stored: seq<Seen>, scanned: seq<Seen>, limit: int, now: int,
                       kept: seq<Seen>, banned: seq<Seen>, historical: seq<Seen>)
    requires limit > 0 && Decides(stored, scanned, limit, now, kept, banned, historical)
    ensures |kept| <= limit && (banned != [] ==> |kept| == limit)
    ensures forall i, j | 0 <= i < |banned| && 0 <= j < |kept| ::
      banned[i].at <= kept[j].at && banned[i].ip != kept[j].ip
    ensures forall i | 0 <= i < |banned| :: banned[i].ip in Observed(scanned) && !Holds(historical, banned[i].ip)
    ensures forall ip :: ip in Merge(stored, scanned, now - STALE_AFTER) <==>
      Holds(kept, ip) || Holds(banned, ip) || Holds(historical, ip)
  {
    var m := Merge(stored, scanned, now - STALE_AFTER);
    var live := banned + kept;
    forall i, j | 0 <= i < |banned| && 0 <= j < |kept|
      ensures banned[i].at <= kept[j].at && banned[i].ip != kept[j].ip
    {
      assert live[i] == banned[i] && live[|banned| + j] == kept[j];
    }
    forall i | 0 <= i < |banned| ensures banned[i].ip in Observed(scanned) && !Holds(historical, banned[i].ip) {
      assert live[i] == banned[i];
      ListsHolds(historical, m, Observed(scanned), false, banned[i].ip);
    }
    forall ip ensures ip in m <==> Holds(kept, ip) || Holds(banned, ip) || Holds(historical, ip) {
      ListsHolds(live, m, Observed(scanned), true, ip);
      ListsHolds(historical, m, Observed(scanned), false, ip);
      HoldsConcat(banned, kept, ip);
    }
  }

  lemma StoredIff(stored: seq<Seen>, scanned: seq<Seen>, limit: int, now: int,
                  kept: seq<Seen>, banned: seq<Seen>, historical: seq<Seen>, s: Seen)
    requires Decides(stored, scanned, limit, now, kept, banned, historical)
    ensures var m := Merge(stored, scanned, now - STALE_AFTER);
            s in kept + historical <==> s.ip in m && m[s.ip] == s.at && !Holds(banned, s.ip)
  {
    var m, live := Merge(stored, scanned, now - STALE_AFTER), banned + kept;
    if s in kept {
      var j :| 0 <= j < |kept| && kept[j] == s;
      assert live[|banned| + j] == s;
      forall i | 0 <= i < |banned| ensures banned[i].ip != s.ip {
        assert live[i] == banned[i];
      }
    } else if s in historical {
      var j :| 0 <= j < |historical| && historical[j] == s;
      forall i | 0 <= i < |banned| ensures banned[i].ip != s.ip {
        assert live[i] == banned[i];
        assert live[i].ip in Observed(scanned);
      }
    }
    if s.ip in m && m[s.ip] == s.at && !Holds(banned, s.ip) {
      if s.ip in Observed(scanned) {
        assert s in live;
        assert s in banned ==> Holds(banned, s.ip);
        assert s in kept;
      } else {
        assert s in historical;
      }
    }
  }

  lemma StoresDistinct(stored: seq<Seen>, scanned: seq<Seen>, limit: int, now: int,
                       kept: seq<Seen>, banned: seq<Seen>, historical: seq<Seen>)
    requires Decides(stored, scanned, limit, now, kept, banned, historical)
    ensures DistinctIps(kept + historical)
  {
    var live, blob := banned + kept, kept + historical;
    assert forall j | 0 <= j < |kept| :: live[|banned| + j] == kept[j];
    forall i, j | 0 <= i < j < |blob| ensures blob[i].ip != blob[j].ip {
      if i < |kept| && j >= |kept| {
        assert live[|banned| + i].ip in Observed(scanned) && historical[j - |kept|].ip !in Observed(scanned);
      } else if j < |kept| {
        assert live[|banned| + i].ip != live[|banned| + j].ip;
      }
    }
  }

  // What is stored after a scan: distinct addresses, each with its merged time, none
  // before the staleness cutoff, and all merged addresses but the banned ones.
  lemma ScanStores(stored: seq<Seen>, scanned: seq<Seen>, limit: int, now: int,
                   kept: seq<Seen>, banned: seq<Seen>, historical: seq<Seen>)
    requires Decides(stored, scanned, limit, now, kept, banned, historical) && DistinctIps(stored)
    ensures DistinctIps(kept + historical)
    ensures var m := Merge(stored, scanned, now - STALE_AFTER);
            forall s: Seen :: s in kept + historical <==> s.ip in m && m[s.ip] == s.at && !Holds(banned, s.ip)
    ensures forall s | s in kept + historical :: s.at >= now - STALE_AFTER
  {
    var m, blob := Merge(stored, scanned, now - STALE_AFTER), kept + historical;
    StoresDistinct(stored, scanned, limit, now, kept, banned, historical);
    forall s: Seen ensures s in blob <==> s.ip in m && m[s.ip] == s.at && !Holds(banned, s.ip) {
      StoredIff(stored, scanned, limit, now, kept, banned, historical, s);
    }
    forall s | s in blob ensures s.at >= now - STALE_AFTER {
      MergeIsLatest(stored, scanned, now - STALE_AFTER, s.ip);
    }
  }

  // ------------------------------------------------------------------
  // Runs of scans
  // ------------------------------------------------------------------

  // saved: the ban log, if needed, could be opened and the list was stored.
  datatype Scan = Scan(now: int, scanned: seq<Seen>, kept: seq<Seen>, banned: seq<Seen>, historical: seq<Seen>,
    saved: bool)

  // What is stored after scans that were all saved.
  function Blob(start: seq<Seen>, scans: seq<Scan>): seq<Seen> {
    if scans == [] then start else scans[|scans| - 1].kept + scans[|scans| - 1].historical
  }

  // The clock never goes back, and each scan decides on what the one before stored.
  ghost predicate Follows(start: seq<Seen>, limit: int, scans: seq<Scan>)
    decreases |scans|
  {
    scans != [] ==>
      var front, s := scans[..|scans| - 1], scans[|scans| - 1];
      Follows(start, limit, front) && (front != [] ==> front[|front| - 1].now <= s.now) &&
      Decides(Blob(start, front), s.scanned, limit, s.now, s.kept, s.banned, s.historical)
  }

  // Stored at the start or seen by scan k, and not banned by any scan since.
  predicate Recalled(start: seq<Seen>, scans: seq<Scan>, s: Seen, k: int) {
    && -1 <= k < |scans|
    && (if k == -1 then s in start else s in scans[k].scanned)
    && (forall j | 0 <= j < |scans| && j >= k :: !Holds(scans[j].banned, s.ip))
  }

  // Some sighting of the address counts, namely s.
  ghost predicate Counts(start: seq<Seen>, scans: seq<Scan>, s: Seen) {
    exists k :: Recalled(start, scans, s, k)
  }

  lemma CountsExtends(start: seq<Seen>, front: seq<Scan>, scan: Scan, s: Seen)
    ensures Counts(start, front + [scan], s) <==>
            !Holds(scan.banned, s.ip) && (Counts(start, front, s) || s in scan.scanned)
  {
    var scans := front + [scan];
    assert scans[|front|] == scan;
    assert forall j | 0 <= j < |front| :: scans[j] == front[j];
    if Counts(start, scans, s) {
      var k :| Recalled(start, scans, s, k);
      assert !Holds(scans[|front|].banned, s.ip);
      if k < |front| {
        assert Recalled(start, front, s, k);
      }
    }
    if !Holds(scan.banned, s.ip) {
      if s in scan.scanned {
        assert Recalled(start, scans, s, |front|);
      } else if Counts(start, front, s) {
        var k :| Recalled(start, front, s, k);
        assert Recalled(start, scans, s, k);
      }
    }
  }

  // s is the latest counting sighting of its address.
  ghost predicate LatestCounting(start: seq<Seen>, scans: seq<Scan>, s: Seen) {
    Counts(start, scans, s) && forall t: Seen | Counts(start, scans, t) && t.ip == s.ip :: t.at <= s.at
  }

  lemma {:induction false} MaxIn(seen: seq<Seen>, t: Seen) returns (s: Seen)
    requires t in seen
    ensures s in seen && s.ip == t.ip && t.at <= s.at
    ensures forall u | u in seen && u.ip == t.ip :: u.at <= s.at
    decreases |seen|
  {
    var front, last := seen[..|seen| - 1], seen[|seen| - 1];
    assert seen == front + [last];
    if u :| u in front && u.ip == t.ip {
      s := MaxIn(front, u);
      if last.ip == t.ip && last.at > s.at {
        s := last;
      }
    } else {
      s := last;
    }
  }

  lemma {:induction false} LatestExists(start: seq<Seen>, scans: seq<Scan>, t: Seen) returns (s: Seen)
    requires Counts(start, scans, t)
    ensures LatestCounting(start, scans, s) && s.ip == t.ip && t.at <= s.at
    decreases |scans|
  {
    if scans == [] {
      assert forall u: Seen :: u in start ==> Recalled(start, [], u, -1);
      s := MaxIn(start, t);
    } else {
      var front, scan := scans[..|scans| - 1], scans[|scans| - 1];
      assert scans == front + [scan];
      forall u: Seen ensures Counts(start, scans, u) <==>
        !Holds(scan.banned, u.ip) && (Counts(start, front, u) || u in scan.scanned) {
        CountsExtends(start, front, scan, u);
      }
      if u :| Counts(start, front, u) && u.ip == t.ip {
        s := LatestExists(start, front, u);
        if v :| v in scan.scanned && v.ip == t.ip {
          var b := MaxIn(scan.scanned, v);
          if b.at > s.at {
            s := b;
          }
        }
      } else {
        s := MaxIn(scan.scanned, t);
      }
    }
  }

  // What is stored is right up to the cutoff: latest sightings only, and none missing that
  // are not before the cutoff.
  ghost predicate RightUpTo(stored: seq<Seen>, start: seq<Seen>, scans: seq<Scan>, cutoff: int) {
    && (forall t | t in stored :: LatestCounting(start, scans, t))
    && (forall t: Seen | LatestCounting(start, scans, t) && t.at >= cutoff :: t in stored)
  }

  lemma StartIsRight(start: seq<Seen>, cutoff: int)
    requires DistinctIps(start)
    ensures RightUpTo(start, start, [], cutoff)
  {
    forall t: Seen ensures Counts(start, [], t) <==> t in start {
      if t in start {
        assert Recalled(start, [], t, -1);
      }
    }
  }

  lemma BlobStep(before: seq<Seen>, start: seq<Seen>, limit: int, front: seq<Scan>, scan: Scan, s: Seen)
    requires DistinctIps(before) && RightUpTo(before, start, front, scan.now - STALE_AFTER)
    requires Decides(before, scan.scanned, limit, scan.now, scan.kept, scan.banned, scan.historical)
    ensures s in scan.kept + scan.historical <==>
            LatestCounting(start, front + [scan], s) && s.at >= scan.now - STALE_AFTER
  {
    var cutoff := scan.now - STALE_AFTER;
    var m := Merge(before, scan.scanned, cutoff);
    StoredIff(before, scan.scanned, limit, scan.now, scan.kept, scan.banned, scan.historical, s);
    MergeIsLatest(before, scan.scanned, cutoff, s.ip);
    forall u: Seen
      ensures Counts(start, front + [scan], u) <==>
        !Holds(scan.banned, u.ip) && (Counts(start, front, u) || u in scan.scanned)
    {
      CountsExtends(start, front, scan, u);
    }
    if s in scan.kept + scan.historical {
      forall t: Seen | Counts(start, front + [scan], t) && t.ip == s.ip && t.at >= cutoff ensures t.at <= s.at {
        if Counts(start, front, t) {
          var l := LatestExists(start, front, t);
          assert Fresh(before, scan.scanned, cutoff, l);
        } else {
          assert Fresh(before, scan.scanned, cutoff, t);
        }
      }
    }
    if LatestCounting(start, front + [scan], s) && s.at >= cutoff {
      assert Fresh(before, scan.scanned, cutoff, s);
      assert Counts(start, front + [scan], Seen(s.ip, m[s.ip]));
    }
  }

  ghost predicate LatestInWindow(blob: seq<Seen>, start: seq<Seen>, scans: seq<Scan>, cutoff: int) {
    forall s: Seen :: s in blob <==> LatestCounting(start, scans, s) && s.at >= cutoff
  }

  lemma LaterCutoff(blob: seq<Seen>, start: seq<Seen>, scans: seq<Scan>, cutoff: int, later: int)
    requires LatestInWindow(blob, start, scans, cutoff) && cutoff <= later
    ensures RightUpTo(blob, start, scans, later)
  {
  }

  lemma ScanKeepsWindow(before: seq<Seen>, start: seq<Seen>, limit: int, front: seq<Scan>, scan: Scan)
    requires DistinctIps(before) && RightUpTo(before, start, front, scan.now - STALE_AFTER)
    requires Decides(before, scan.scanned, limit, scan.now, scan.kept, scan.banned, scan.historical)
    ensures DistinctIps(scan.kept + scan.historical)
    ensures LatestInWindow(scan.kept + scan.historical, start, front + [scan], scan.now - STALE_AFTER)
  {
    ScanStores(before, scan.scanned, limit, scan.now, scan.kept, scan.banned, scan.historical);
    forall s: Seen
      ensures s in scan.kept + scan.historical <==>
        LatestCounting(start, front + [scan], s) && s.at >= scan.now - STALE_AFTER
    {
      BlobStep(before, start, limit, front, scan, s);
    }
  }

  ghost predicate StoresLatest(start: seq<Seen>, scans: seq<Scan>)
    requires scans != []
  {
    DistinctIps(Blob(start, scans)) &&
    LatestInWindow(Blob(start, scans), start, scans, scans[|scans| - 1].now - STALE_AFTER)
  }

  lemma StoresLatestStep(start: seq<Seen>, limit: int, front: seq<Scan>, scan: Scan)
    requires front != [] && StoresLatest(start, front) && front[|front| - 1].now <= scan.now
    requires Decides(Blob(start, front), scan.scanned, limit, scan.now, scan.kept, scan.banned, scan.historical)
    ensures StoresLatest(start, front + [scan])
  {
    LaterCutoff(Blob(start, front), start, front, front[|front| - 1].now - STALE_AFTER, scan.now - STALE_AFTER);
    ScanKeepsWindow(Blob(start, front), start, limit, front, scan);
  }

  lemma StoresLatestFirst(start: seq<Seen>, limit: int, scan: Scan)
    requires DistinctIps(start)
    requires Decides(start, scan.scanned, limit, scan.now, scan.kept, scan.banned, scan.historical)
    ensures StoresLatest(start, [scan])
  {
    StartIsRight(start, scan.now - STALE_AFTER);
    ScanKeepsWindow(start, start, limit, [], scan);
    assert [] + [scan] == [scan];
  }

  lemma FollowsLast(start: seq<Seen>, limit: int, scans: seq<Scan>)
    requires scans != [] && Follows(start, limit, scans)
    ensures var front, s := scans[..|scans| - 1], scans[|scans| - 1];
            scans == front + [s] && Follows(start, limit, front) && (front != [] ==> front[|front| - 1].now <= s.now) &&
            Decides(Blob(start, front), s.scanned, limit, s.now, s.kept, s.banned, s.historical)
  {
  }

  lemma StoresLatestNext(start: seq<Seen>, limit: int, front: seq<Scan>, scan: Scan)
    requires DistinctIps(start)
    requires front != [] ==> StoresLatest(start, front) && front[|front| - 1].now <= scan.now
    requires Decides(Blob(start, front), scan.scanned, limit, scan.now, scan.kept, scan.banned, scan.historical)
    ensures StoresLatest(start, front + [scan])
  {
    if front == [] {
      StoresLatestFirst(start, limit, scan);
      assert front + [scan] == [scan];
    } else {
      StoresLatestStep(start, limit, front, scan);
    }
  }

  lemma {:induction false} SavedScansStoreLatest(start: seq<Seen>, limit: int, scans: seq<Scan>)
    requires DistinctIps(start) && scans != [] && Follows(start, limit, scans)
    ensures StoresLatest(start, scans)
    decreases |scans|
  {
    FollowsLast(start, limit, scans);
    if |scans| > 1 {
      SavedScansStoreLatest(start, limit, scans[..|scans| - 1]);
    }
    StoresLatestNext(start, limit, scans[..|scans| - 1], scans[|scans| - 1]);
  }

  // ------------------------------------------------------------------
  // Runs with scans that are not saved
  // ------------------------------------------------------------------

  function Stored(start: seq<Seen>, scans: seq<Scan>): seq<Seen>
    decreases |scans|
  {
    if scans == [] then start
    else
      var last := scans[|scans| - 1];
      if last.saved then last.kept + last.historical else Stored(start, scans[..|scans| - 1])
  }

  function Saved(scans: seq<Scan>): seq<Scan>
    decreases |scans|
  {
    if scans == [] then []
    else
      var front, last := scans[..|scans| - 1], scans[|scans| - 1];
      if last.saved then Saved(front) + [last] else Saved(front)
  }

  // The clock never goes back, and each scan decides on what is stored when it runs.
  ghost predicate RunOf(start: seq<Seen>, limit: int, scans: seq<Scan>)
    decreases |scans|
  {
    scans != [] ==>
      var front, s := scans[..|scans| - 1], scans[|scans| - 1];
      RunOf(start, limit, front) && (front != [] ==> front[|front| - 1].now <= s.now) &&
      Decides(Stored(start, front), s.scanned, limit, s.now, s.kept, s.banned, s.historical)
  }

  lemma FollowsMore(start: seq<Seen>, limit: int, front: seq<Scan>, s: Scan)
    requires Follows(start, limit, front) && (front != [] ==> front[|front| - 1].now <= s.now)
    requires Decides(Blob(start, front), s.scanned, limit, s.now, s.kept, s.banned, s.historical)
    ensures Follows(start, limit, front + [s])
  {
    assert (front + [s])[..|front|] == front;
  }

  lemma SavedMore(start: seq<Seen>, front: seq<Scan>, s: Scan)
    ensures Saved(front + [s]) == if s.saved then Saved(front) + [s] else Saved(front)
    ensures Stored(start, front + [s]) == if s.saved then s.kept + s.historical else Stored(start, front)
  {
    assert (front + [s])[..|front|] == front;
  }

  // The saved scans are a run of their own that leaves the same list.
  ghost predicate SavedAreRun(start: seq<Seen>, limit: int, scans: seq<Scan>) {
    && Follows(start, limit, Saved(scans)) && Stored(start, scans) == Blob(start, Saved(scans))
    && (Saved(scans) != [] ==> scans != [] && Saved(scans)[|Saved(scans)| - 1].now <= scans[|scans| - 1].now)
  }

  lemma SavedAreRunMore(start: seq<Seen>, limit: int, front: seq<Scan>, s: Scan)
    requires SavedAreRun(start, limit, front) && (front != [] ==> front[|front| - 1].now <= s.now)
    requires Decides(Stored(start, front), s.scanned, limit, s.now, s.kept, s.banned, s.historical)
    ensures SavedAreRun(start, limit, front + [s])
  {
    SavedMore(start, front, s);
    if s.saved {
      FollowsMore(start, limit, Saved(front), s);
    }
  }

  lemma {:induction false} SavedFollow(start: seq<Seen>, limit: int, scans: seq<Scan>)
    requires RunOf(start, limit, scans)
    ensures SavedAreRun(start, limit, scans)
    decreases |scans|
  {
    if scans != [] {
      var front, s := scans[..|scans| - 1], scans[|scans| - 1];
      assert scans == front + [s];
      SavedFollow(start, limit, front);
      SavedAreRunMore(start, limit, front, s);
    }
  }

  // Dropping stale addresses at every scan loses nothing. A scan that is not saved leaves
  // the list, its sightings and its bans out of account; over the saved ones, what is
  // stored is, for each address, its latest sighting since its last ban, if that lies in
  // the window of the last of them.
  lemma BlobIsLatestSinceBan(start: seq<Seen>, limit: int, scans: seq<Scan>)
    requires DistinctIps(start) && RunOf(start, limit, scans)
    ensures Stored(start, scans) == Blob(start, Saved(scans))
    ensures if Saved(scans) == [] then Stored(start, scans) == start else StoresLatest(start, Saved(scans))
  {
    SavedFollow(start, limit, scans);
    if Saved(scans) != [] {
      SavedScansStoreLatest(start, limit, Saved(scans));
    }
  }
}
