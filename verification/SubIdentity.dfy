// One e-mail, one subscription: every entry of an e-mail, in whatever inbound and whatever
// letter case, is meant to carry the same subId.

module SubIdentity {

  import opened Settings
  import opened Text

  // ------------------------------------------------------------------
  // The lock map
  // ------------------------------------------------------------------

  function LockStep(m: map<string, string>, c: Client): map<string, string> {
    var e := Lower(c.email);
    if e == "" then m
    else if e !in m then m[e := c.subId]
    else if m[e] != c.subId then m[e := ""]
    else m
  }

  function LockMap(rows: seq<Client>): map<string, string>
    decreases |rows|
  {
    if rows == [] then map[] else LockStep(LockMap(rows[..|rows| - 1]), rows[|rows| - 1])
  }

  method GetAllEmailSubIDs(rows: seq<Client>) returns (result: map<string, string>)
    ensures result == LockMap(rows)
  {
    result := map[];
    for i := 0 to |rows|
      invariant result == LockMap(rows[..i])
    {
      assert rows[..i + 1][..i] == rows[..i];
      var email := Lower(rows[i].email);
      if email == "" {
        continue;
      }
      if email in result {
        if result[email] != rows[i].subId {
          result := result[email := ""];
        }
        continue;
      }
      result := result[email := rows[i].subId];
    }
    assert rows[..|rows|] == rows;
  }

  predicate Named(rows: seq<Client>, e: string) {
    exists i | 0 <= i < |rows| :: Lower(rows[i].email) == e
  }

  // Every row of the e-mail carries this subId.
  predicate Agree(rows: seq<Client>, e: string, sub: string) {
    forall i | 0 <= i < |rows| && Lower(rows[i].email) == e :: rows[i].subId == sub
  }

  // The map knows exactly the named e-mails; each is mapped to the subId all its rows agree
  // on, and to "" when they do not agree.
  lemma {:induction false} LockMapExact(rows: seq<Client>, e: string)
    ensures e in LockMap(rows) <==> e != "" && Named(rows, e)
    ensures e in LockMap(rows) && LockMap(rows)[e] != "" ==> Agree(rows, e, LockMap(rows)[e])
    ensures forall sub: string | e in LockMap(rows) && Agree(rows, e, sub) :: LockMap(rows)[e] == sub
    decreases |rows|
  {
    if rows != [] {
      var front, last := rows[..|rows| - 1], rows[|rows| - 1];
      LockMapExact(front, e);
      assert forall i | 0 <= i < |front| :: rows[i] == front[i];
      if Named(front, e) {
        var k :| 0 <= k < |front| && Lower(front[k].email) == e;
        assert Lower(rows[k].email) == e;
      }
      assert Lower(rows[|rows| - 1].email) == e ==> Named(rows, e);
      forall sub: string | Agree(rows, e, sub) ensures Agree(front, e, sub) {
      }
    }
  }

  lemma SameNames(a: seq<Client>, b: seq<Client>, e: string)
    requires multiset(a) == multiset(b)
    ensures Named(a, e) ==> Named(b, e)
    ensures forall sub: string :: Agree(b, e, sub) ==> Agree(a, e, sub)
  {
    forall i | 0 <= i < |a| ensures exists j | 0 <= j < |b| :: b[j] == a[i] {
      assert a[i] in multiset(b);
    }
    if Named(a, e) {
      var i :| 0 <= i < |a| && Lower(a[i].email) == e;
      var j :| 0 <= j < |b| && b[j] == a[i];
      assert Lower(b[j].email) == e;
    }
  }

  // The order in which the rows are read does not show.
  lemma LockMapIgnoresOrder(a: seq<Client>, b: seq<Client>)
    requires multiset(a) == multiset(b)
    ensures LockMap(a) == LockMap(b)
  {
    forall e: string
      ensures e in LockMap(a) <==> e in LockMap(b)
      ensures e in LockMap(a) ==> LockMap(a)[e] == LockMap(b)[e]
    {
      LockMapExact(a, e);
      LockMapExact(b, e);
      SameNames(a, b, e);
      SameNames(b, a, e);
    }
  }

  // ------------------------------------------------------------------
  // The check of a payload against the map
  // ------------------------------------------------------------------

  // What must hold of every client of an accepted payload.
  predicate MayClaim(m: map<string, string>, c: Client) {
    Lower(c.email) in m ==> c.subId != "" && m[Lower(c.email)] == c.subId
  }

  predicate SameIdentity(a: Client, b: Client) {
    Lower(a.email) == Lower(b.email) && a.email != "" ==> a.subId == b.subId != ""
  }

  predicate Acceptable(m: map<string, string>, clients: seq<Client>) {
    && (forall i | 0 <= i < |clients| && clients[i].email != "" :: MayClaim(m, clients[i]))
    && (forall i, j | 0 <= i < j < |clients| :: SameIdentity(clients[i], clients[j]))
  }

  // What the loop remembers of the clients before k: the subId of each e-mail.
  predicate Remembers(seen: map<string, string>, clients: seq<Client>, k: nat)
    requires k <= |clients|
  {
    && (forall e: string | e in seen :: e != "" && Named(clients[..k], e))
    && (forall i | 0 <= i < k && clients[i].email != "" ::
          Lower(clients[i].email) in seen && seen[Lower(clients[i].email)] == clients[i].subId)
  }

  predicate Passes(seen: map<string, string>, m: map<string, string>, c: Client) {
    c.email == "" ||
    (if Lower(c.email) in seen then seen[Lower(c.email)] == c.subId != "" else MayClaim(m, c))
  }

  lemma PassesExtends(m: map<string, string>, seen: map<string, string>, clients: seq<Client>, k: nat)
    requires k < |clients| && Remembers(seen, clients, k) && Acceptable(m, clients[..k])
    ensures Passes(seen, m, clients[k]) ==> Acceptable(m, clients[..k + 1])
    ensures !Passes(seen, m, clients[k]) ==> !Acceptable(m, clients)
  {
    var c := clients[k];
    if c.email != "" && Lower(c.email) in seen {
      var i :| 0 <= i < k && Lower(clients[..k][i].email) == Lower(c.email);
      assert clients[i] == clients[..k][i];
      assert MayClaim(m, clients[..k][i]);
      assert SameIdentity(clients[i], clients[k]) ==> seen[Lower(c.email)] == c.subId != "";
    }
    if Passes(seen, m, c) {
      var longer := clients[..k + 1];
      assert forall i | 0 <= i < k :: longer[i] == clients[..k][i];
      forall i | 0 <= i < k ensures SameIdentity(longer[i], longer[k]) {
      }
    }
  }

  lemma RememberExtends(seen: map<string, string>, clients: seq<Client>, k: nat)
    requires k < |clients| && Remembers(seen, clients, k)
    requires clients[k].email == "" ||
      (Lower(clients[k].email) in seen ==> seen[Lower(clients[k].email)] == clients[k].subId)
    ensures var seen' := if clients[k].email == "" then seen else seen[Lower(clients[k].email) := clients[k].subId];
            Remembers(seen', clients, k + 1)
  {
    var longer := clients[..k + 1];
    forall e: string | e in seen ensures Named(longer, e) {
      var i :| 0 <= i < k && Lower(clients[..k][i].email) == e;
      assert Lower(longer[i].email) == e;
    }
    assert Lower(longer[k].email) == Lower(clients[k].email);
  }

  // Every stored row of the client's e-mail carries the client's own subId, which is not
  // empty; so an e-mail without rows is free.
  predicate OwnsRows(rows: seq<Client>, c: Client) {
    forall k | 0 <= k < |rows| && Lower(rows[k].email) == Lower(c.email) :: rows[k].subId == c.subId && c.subId != ""
  }

  lemma MayClaimIff(rows: seq<Client>, c: Client)
    requires c.email != ""
    ensures MayClaim(LockMap(rows), c) <==> OwnsRows(rows, c)
  {
    var e := Lower(c.email);
    LockMapExact(rows, e);
    if OwnsRows(rows, c) && Named(rows, e) {
      assert Agree(rows, e, c.subId);
      var k :| 0 <= k < |rows| && Lower(rows[k].email) == e;
      assert c.subId != "";
    }
  }

  // Each e-mail of the payload is free or the client's own, and repeated e-mails repeat one
  // non-empty subId.
  predicate MayBeStored(rows: seq<Client>, clients: seq<Client>) {
    && (forall i | 0 <= i < |clients| && clients[i].email != "" :: OwnsRows(rows, clients[i]))
    && (forall i, j | 0 <= i < j < |clients| &&
                      clients[i].email != "" && Lower(clients[i].email) == Lower(clients[j].email) ::
          clients[i].subId == clients[j].subId && clients[i].subId != "")
  }

  // Checking against the map built from the rows is checking against the rows themselves.
  lemma AcceptableIff(rows: seq<Client>, clients: seq<Client>)
    ensures Acceptable(LockMap(rows), clients) <==> MayBeStored(rows, clients)
  {
    forall i | 0 <= i < |clients| && clients[i].email != ""
      ensures MayClaim(LockMap(rows), clients[i]) <==> OwnsRows(rows, clients[i])
    {
      MayClaimIff(rows, clients[i]);
    }
    assert forall i, j | 0 <= i < j < |clients| ::
      SameIdentity(clients[i], clients[j]) <==>
        (clients[i].email != "" && Lower(clients[i].email) == Lower(clients[j].email) ==>
           clients[i].subId == clients[j].subId && clients[i].subId != "");
  }

  // Returns the first offending e-mail, or "" when the payload is accepted: exactly when
  // every client may claim its e-mail and repeated e-mails repeat a non-empty subId. For
  // the map of the stored rows that is a fact about those rows.
  method CheckEmailsExist(clients: seq<Client>, emailSubIDs: map<string, string>) returns (duplicate: string)
    ensures duplicate == "" <==> Acceptable(emailSubIDs, clients)
    ensures forall rows | emailSubIDs == LockMap(rows) :: duplicate == "" <==> MayBeStored(rows, clients)
  {
    forall rows | emailSubIDs == LockMap(rows)
      ensures Acceptable(emailSubIDs, clients) <==> MayBeStored(rows, clients)
    {
      AcceptableIff(rows, clients);
    }
    var seen: map<string, string> := map[];
    for k := 0 to |clients|
      invariant Acceptable(emailSubIDs, clients[..k])
      invariant Remembers(seen, clients, k)
    {
      PassesExtends(emailSubIDs, seen, clients, k);
      var client := clients[k];
      if client.email == "" {
        RememberExtends(seen, clients, k);
        continue;
      }
      var key := Lower(client.email);
      if key in seen {
        if seen[key] != client.subId || client.subId == "" {
          return client.email;
        }
        RememberExtends(seen, clients, k);
        assert seen[key := client.subId] == seen;
        continue;
      }
      RememberExtends(seen, clients, k);
      if key in emailSubIDs {
        if client.subId == "" || emailSubIDs[key] == "" || emailSubIDs[key] != client.subId {
          return client.email;
        }
      }
      seen := seen[key := client.subId];
    }
    assert clients[..|clients|] == clients;
    return "";
  }

  // ------------------------------------------------------------------
  // An accepted add keeps one identity per e-mail
  // ------------------------------------------------------------------

  type Store = map<int, seq<Client>>

  predicate Holds(store: Store, c: Client) {
    exists ib, i | ib in store && 0 <= i < |store[ib]| :: store[ib][i] == c
  }

  // The rows the map is built from: the entries of every inbound, in any order.
  ghost predicate AreRows(store: Store, rows: seq<Client>) {
    forall c: Client :: Holds(store, c) <==> c in rows
  }

  predicate SameSub(a: Client, b: Client) {
    Lower(a.email) == Lower(b.email) && a.email != "" ==> a.subId == b.subId
  }

  ghost predicate OneIdentity(store: Store) {
    forall a: Client, b: Client | Holds(store, a) && Holds(store, b) :: SameSub(a, b)
  }

  predicate Blank(s: string) {
    Trim(s) == ""
  }

  // A blank subId is replaced by a random one before the entry is stored, after the check
  // has looked at the blank one.
  function Fill(c: Client, random: string): Client {
    if Blank(c.subId) then c.(subId := random) else c
  }

  // Read off the characters: white space and nothing else is replaced.
  lemma FilledIffAllSpace(c: Client, random: string)
    requires random != c.subId
    ensures Fill(c, random) != c <==> AllSpace(c.subId)
    ensures Fill(c, random) == c.(subId := Fill(c, random).subId)
    ensures AllSpace(c.subId) ==> Fill(c, random).subId == random
  {
    TrimEmptyIff(c.subId);
  }

  function FillAll(clients: seq<Client>, random: seq<string>): (r: seq<Client>)
    requires |random| == |clients|
    ensures |r| == |clients|
    ensures forall i | 0 <= i < |r| :: r[i] == Fill(clients[i], random[i])
  {
    seq(|clients|, i requires 0 <= i < |clients| => Fill(clients[i], random[i]))
  }

  // kept is what orphan compaction leaves of the inbound's old entries.
  function After(store: Store, ib: int, kept: seq<Client>, clients: seq<Client>, random: seq<string>): Store
    requires |random| == |clients|
  {
    store[ib := kept + FillAll(clients, random)]
  }

  ghost predicate Within(store: Store, kept: seq<Client>) {
    forall i | 0 <= i < |kept| :: Holds(store, kept[i])
  }

  // A blank subId on an e-mail that another entry has as well.
  ghost predicate SharesBlank(base: Store, clients: seq<Client>, i: nat)
    requires i < |clients|
  {
    && Blank(clients[i].subId) && clients[i].email != ""
    && ((exists a: Client :: Holds(base, a) && Lower(a.email) == Lower(clients[i].email))
        || (exists j | 0 <= j < |clients| && j != i :: Lower(clients[j].email) == Lower(clients[i].email)))
  }

  ghost predicate SharesAnyBlank(base: Store, clients: seq<Client>) {
    exists i: nat | i < |clients| :: SharesBlank(base, clients, i)
  }

  lemma HoldsAfter(store: Store, ib: int, kept: seq<Client>, clients: seq<Client>, random: seq<string>, a: Client)
    requires |random| == |clients|
    requires Holds(After(store, ib, kept, clients, random), a)
    ensures Holds(store[ib := kept], a) || exists i | 0 <= i < |clients| :: a == Fill(clients[i], random[i])
  {
    var after := After(store, ib, kept, clients, random);
    var jb, j :| jb in after && 0 <= j < |after[jb]| && after[jb][j] == a;
    if jb == ib && j >= |kept| {
      assert a == Fill(clients[j - |kept|], random[j - |kept|]);
    } else {
      assert store[ib := kept][jb][j] == a;
    }
  }

  lemma AfterHolds(store: Store, ib: int, kept: seq<Client>, clients: seq<Client>, random: seq<string>)
    requires |random| == |clients|
    ensures var after := After(store, ib, kept, clients, random);
            (forall a: Client | Holds(store[ib := kept], a) :: Holds(after, a)) &&
            (forall i | 0 <= i < |clients| :: Holds(after, Fill(clients[i], random[i])))
  {
    var after := After(store, ib, kept, clients, random);
    forall a: Client | Holds(store[ib := kept], a) ensures Holds(after, a) {
      var jb, j :| jb in store[ib := kept] && 0 <= j < |store[ib := kept][jb]| && store[ib := kept][jb][j] == a;
      assert after[jb][j] == a;
    }
    forall i | 0 <= i < |clients| ensures Holds(after, Fill(clients[i], random[i])) {
      assert after[ib][|kept| + i] == Fill(clients[i], random[i]);
    }
  }

  lemma BaseWithin(store: Store, ib: int, kept: seq<Client>, a: Client)
    requires Within(store, kept) && Holds(store[ib := kept], a)
    ensures Holds(store, a)
  {
    var base := store[ib := kept];
    var jb, j :| jb in base && 0 <= j < |base[jb]| && base[jb][j] == a;
    if jb != ib {
      assert store[jb][j] == a;
    }
  }

  // An accepted client agrees with every stored entry of its e-mail.
  lemma AcceptedAgrees(store: Store, rows: seq<Client>, a: Client, c: Client)
    requires AreRows(store, rows) && Holds(store, a)
    requires c.email != "" && MayClaim(LockMap(rows), c)
    ensures SameSub(a, c)
  {
    if Lower(a.email) == Lower(c.email) {
      assert a in rows;
      var i :| 0 <= i < |rows| && rows[i] == a;
      assert Lower(rows[i].email) == Lower(c.email);
      LockMapExact(rows, Lower(c.email));
      assert Agree(rows, Lower(c.email), c.subId);
    }
  }

  lemma OldAndNew(store: Store, rows: seq<Client>, ib: int, kept: seq<Client>, clients: seq<Client>, i: nat, a: Client)
    requires i < |clients| && AreRows(store, rows) && Within(store, kept) && Acceptable(LockMap(rows), clients)
    requires clients[i].email != "" && !SharesBlank(store[ib := kept], clients, i)
    requires Holds(store[ib := kept], a) && Lower(a.email) == Lower(clients[i].email)
    ensures !Blank(clients[i].subId) && a.subId == clients[i].subId
  {
    BaseWithin(store, ib, kept, a);
    assert MayClaim(LockMap(rows), clients[i]);
    AcceptedAgrees(store, rows, a, clients[i]);
  }

  lemma PairAfter(store: Store, rows: seq<Client>, ib: int, kept: seq<Client>, clients: seq<Client>,
                  random: seq<string>,
                  a: Client, b: Client)
    requires |random| == |clients| && AreRows(store, rows) && Within(store, kept) && OneIdentity(store)
    requires Acceptable(LockMap(rows), clients)
    requires !SharesAnyBlank(store[ib := kept], clients)
    requires forall i | 0 <= i < |clients| :: clients[i].email != ""
    requires Holds(After(store, ib, kept, clients, random), a) && Holds(After(store, ib, kept, clients, random), b)
    ensures SameSub(a, b)
  {
    if Lower(a.email) == Lower(b.email) && a.email != "" {
      HoldsAfter(store, ib, kept, clients, random, a);
      HoldsAfter(store, ib, kept, clients, random, b);
      var base := store[ib := kept];
      if Holds(base, a) && Holds(base, b) {
        BaseWithin(store, ib, kept, a);
        BaseWithin(store, ib, kept, b);
        assert SameSub(a, b);
      } else if Holds(base, a) {
        var i :| 0 <= i < |clients| && b == Fill(clients[i], random[i]);
        OldAndNew(store, rows, ib, kept, clients, i, a);
      } else if Holds(base, b) {
        var i :| 0 <= i < |clients| && a == Fill(clients[i], random[i]);
        OldAndNew(store, rows, ib, kept, clients, i, b);
      } else {
        var i :| 0 <= i < |clients| && a == Fill(clients[i], random[i]);
        var j :| 0 <= j < |clients| && b == Fill(clients[j], random[j]);
        if i != j {
          assert SameIdentity(clients[if i < j then i else j], clients[if i < j then j else i]);
          assert Lower(clients[j].email) == Lower(clients[i].email);
          assert !SharesBlank(base, clients, i) && !SharesBlank(base, clients, j);
        }
      }
    }
  }

  lemma AcceptedAddKeepsIdentity(store: Store, rows: seq<Client>, ib: int, kept: seq<Client>, clients: seq<Client>,
                                 random: seq<string>)
    requires |random| == |clients| && AreRows(store, rows) && Within(store, kept) && OneIdentity(store)
    requires Acceptable(LockMap(rows), clients)
    requires !SharesAnyBlank(store[ib := kept], clients)
    requires forall i | 0 <= i < |clients| :: clients[i].email != ""
    ensures OneIdentity(After(store, ib, kept, clients, random))
  {
    var after := After(store, ib, kept, clients, random);
    forall a: Client, b: Client | Holds(after, a) && Holds(after, b) ensures SameSub(a, b) {
      PairAfter(store, rows, ib, kept, clients, random, a, b);
    }
  }

  // The random subId of position i set apart from another string.
  lemma SharedBlankSplits(base: Store, store: Store, ib: int, kept: seq<Client>, clients: seq<Client>, i: nat)
    returns (random: seq<string>)
    requires base == store[ib := kept] && i < |clients| && SharesBlank(base, clients, i)
    ensures |random| == |clients| && !OneIdentity(After(store, ib, kept, clients, random))
  {
    var c := clients[i];
    if a: Client :| Holds(base, a) && Lower(a.email) == Lower(c.email) {
      random := seq(|clients|, k => a.subId + "x");
      AfterHolds(store, ib, kept, clients, random);
      var b := Fill(c, random[i]);
      assert |b.subId| == |a.subId| + 1;
      assert !SameSub(a, b);
    } else {
      var j :| 0 <= j < |clients| && j != i && Lower(clients[j].email) == Lower(c.email);
      random := seq(|clients|, k => if k == i then clients[j].subId + "x" else "");
      AfterHolds(store, ib, kept, clients, random);
      var a, b := Fill(clients[j], random[j]), Fill(c, random[i]);
      assert |b.subId| == |clients[j].subId| + 1;
      assert !SameSub(a, b);
    }
  }

  // An accepted add keeps every e-mail at one subId, whatever random subIds it draws,
  // exactly when it does not store a blank subId for an e-mail that has another entry.
  lemma AddKeepsIdentityIff(store: Store, rows: seq<Client>, ib: int, kept: seq<Client>, clients: seq<Client>)
    requires AreRows(store, rows) && Within(store, kept) && OneIdentity(store)
    requires Acceptable(LockMap(rows), clients)
    requires forall i | 0 <= i < |clients| :: clients[i].email != ""
    ensures (forall random: seq<string> | |random| == |clients| :: OneIdentity(After(store, ib, kept, clients, random)))
            <==> !SharesAnyBlank(store[ib := kept], clients)
  {
    if !SharesAnyBlank(store[ib := kept], clients) {
      forall random: seq<string> | |random| == |clients|
        ensures OneIdentity(After(store, ib, kept, clients, random))
      {
        AcceptedAddKeepsIdentity(store, rows, ib, kept, clients, random);
      }
    } else {
      var i :| 0 <= i < |clients| && SharesBlank(store[ib := kept], clients, i);
      var random := SharedBlankSplits(store[ib := kept], store, ib, kept, clients, i);
    }
  }

  // ------------------------------------------------------------------
  // Bulk attach: one map, read once, for all targets
  // ------------------------------------------------------------------

  // One target: the entries kept there, the clients to add and the random subIds drawn.
  datatype Target = Target(ib: int, kept: seq<Client>, clients: seq<Client>, random: seq<string>)

  // A payload that the map does not accept leaves the target as it was.
  ghost function Attach(store: Store, m: map<string, string>, t: Target): Store
    requires |t.random| == |t.clients|
  {
    if Acceptable(m, t.clients) then After(store, t.ib, t.kept, t.clients, t.random) else store
  }

  ghost predicate WellFormed(targets: seq<Target>) {
    forall k | 0 <= k < |targets| :: |targets[k].random| == |targets[k].clients|
  }

  ghost function AttachAll(store: Store, m: map<string, string>, targets: seq<Target>): Store
    requires WellFormed(targets)
    decreases |targets|
  {
    if targets == [] then store
    else Attach(AttachAll(store, m, targets[..|targets| - 1]), m, targets[|targets| - 1])
  }

  ghost predicate From(clients: seq<Client>, chosen: seq<Client>) {
    forall i | 0 <= i < |clients| :: clients[i] in chosen
  }

  // Each target adds some of the chosen clients to entries it already has.
  ghost predicate Draws(store: Store, m: map<string, string>, targets: seq<Target>, chosen: seq<Client>)
    requires WellFormed(targets)
  {
    forall k | 0 <= k < |targets| ::
      Within(AttachAll(store, m, targets[..k]), targets[k].kept) && From(targets[k].clients, chosen)
  }

  // The chosen clients: none without an e-mail, no blank subId. A record is built anew for
  // every target, with that inbound's flow and credentials, so an e-mail may occur in many
  // forms; they all carry the record's subId.
  ghost predicate OneSubEach(chosen: seq<Client>) {
    && (forall c | c in chosen :: c.email != "" && !Blank(c.subId))
    && (forall c, d | c in chosen && d in chosen && Lower(c.email) == Lower(d.email) :: c.subId == d.subId)
  }

  // What bulk attach keeps: one identity, which a claimable record shares.
  ghost predicate Steady(store: Store, m: map<string, string>, chosen: seq<Client>) {
    && OneIdentity(store)
    && (forall a: Client, c: Client | Holds(store, a) && c in chosen && MayClaim(m, c) :: SameSub(a, c))
  }

  lemma AttachSteady(store: Store, m: map<string, string>, t: Target, chosen: seq<Client>)
    requires |t.random| == |t.clients| && OneSubEach(chosen) && Steady(store, m, chosen)
    requires Within(store, t.kept) && From(t.clients, chosen)
    ensures Steady(Attach(store, m, t), m, chosen)
  {
    if Acceptable(m, t.clients) {
      var after := After(store, t.ib, t.kept, t.clients, t.random);
      forall a: Client | Holds(after, a) ensures Holds(store, a) || (a in chosen && MayClaim(m, a)) {
        HoldsAfter(store, t.ib, t.kept, t.clients, t.random, a);
        if Holds(store[t.ib := t.kept], a) {
          BaseWithin(store, t.ib, t.kept, a);
        }
      }
    }
  }

  lemma DrawsPrefix(store: Store, m: map<string, string>, targets: seq<Target>, chosen: seq<Client>)
    requires targets != [] && WellFormed(targets) && Draws(store, m, targets, chosen)
    ensures var front, last := targets[..|targets| - 1], targets[|targets| - 1];
            WellFormed(front) && Draws(store, m, front, chosen) &&
            Within(AttachAll(store, m, front), last.kept) && From(last.clients, chosen)
  {
    var front := targets[..|targets| - 1];
    assert forall k | 0 <= k < |front| :: front[k] == targets[k];
    forall k | 0 <= k < |front|
      ensures Within(AttachAll(store, m, front[..k]), front[k].kept) && From(front[k].clients, chosen)
    {
      assert front[..k] == targets[..k];
    }
  }

  // For records with a subId that is not blank, the map read before the first target is as
  // good as a fresh one: every e-mail keeps one subId whatever the targets and the order.
  lemma {:induction false} StaleMapIsSafe(store: Store, rows: seq<Client>, targets: seq<Target>, chosen: seq<Client>)
    requires AreRows(store, rows) && OneIdentity(store) && OneSubEach(chosen)
    requires WellFormed(targets) && Draws(store, LockMap(rows), targets, chosen)
    ensures Steady(AttachAll(store, LockMap(rows), targets), LockMap(rows), chosen)
    decreases |targets|
  {
    var m := LockMap(rows);
    if targets == [] {
      forall a: Client, c: Client | Holds(store, a) && c in chosen && MayClaim(m, c) ensures SameSub(a, c) {
        AcceptedAgrees(store, rows, a, c);
      }
    } else {
      var front, last := targets[..|targets| - 1], targets[|targets| - 1];
      DrawsPrefix(store, m, targets, chosen);
      StaleMapIsSafe(store, rows, front, chosen);
      AttachSteady(AttachAll(store, m, front), m, last, chosen);
    }
  }

  lemma AddedIsHeld(store: Store, ib: int, kept: seq<Client>, c: Client, r: string)
    ensures var after := After(store, ib, kept, [c], [r]);
            ib in after && |after[ib]| == |kept| + 1 && after[ib][|kept|] == Fill(c, r)
  {
  }

  // A blank subId is not safe: an e-mail with no entries yet, attached to two inbounds,
  // ends with two subIds whenever the two random ones differ.
  lemma StaleMapSplitsBlank(store: Store, rows: seq<Client>, c: Client, ib: int, jb: int, r1: string, r2: string)
    requires AreRows(store, rows) && !Named(rows, Lower(c.email)) && c.email != "" && Blank(c.subId)
    requires ib in store && jb in store && ib != jb && r1 != r2
    ensures var m := LockMap(rows);
            var attached := Attach(Attach(store, m, Target(ib, store[ib], [c], [r1])), m,
              Target(jb, store[jb], [c], [r2]));
            Holds(attached, c.(subId := r1)) && Holds(attached, c.(subId := r2)) && !OneIdentity(attached)
  {
    LockMapExact(rows, Lower(c.email));
    var m := LockMap(rows);
    assert Acceptable(m, [c]);
    var s1 := After(store, ib, store[ib], [c], [r1]);
    AddedIsHeld(store, ib, store[ib], c, r1);
    var s2 := After(s1, jb, store[jb], [c], [r2]);
    AddedIsHeld(s1, jb, store[jb], c, r2);
    assert s2[ib] == s1[ib];
    assert Holds(s2, c.(subId := r1)) && Holds(s2, c.(subId := r2));
    assert !SameSub(c.(subId := r1), c.(subId := r2));
  }
}
