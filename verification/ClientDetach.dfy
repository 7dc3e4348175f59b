// Removing clients from one inbound's settings: one at a time or in a single pass, with
// entries whose client row is gone dropped on the way.

module ClientDetach {

  import opened Sets
  import opened Settings

  // An entry without an e-mail, or one whose client row exists.
  predicate Live(emails: set<string>, c: Client) {
    c.email == "" || c.email in emails
  }

  function Compact(emails: set<string>, cs: seq<Client>): seq<Client> {
    if cs == [] then []
    else Compact(emails, cs[..|cs| - 1]) + (if Live(emails, cs[|cs| - 1]) then [cs[|cs| - 1]] else [])
  }

  lemma {:induction false} AllLiveStays(emails: set<string>, cs: seq<Client>)
    requires forall i | 0 <= i < |cs| :: Live(emails, cs[i])
    ensures Compact(emails, cs) == cs
  {
    if cs != [] {
      AllLiveStays(emails, cs[..|cs| - 1]);
      assert cs == cs[..|cs| - 1] + [cs[|cs| - 1]];
    }
  }

  // ------------------------------------------------------------------
  // The shortcut: as many rows found as e-mails asked for
  // ------------------------------------------------------------------

  // Rows have distinct e-mails, so finding one per e-mail asked for means that every
  // e-mail was found.
  lemma AllFound(found: set<string>, asked: seq<string>)
    requires forall e | e in found :: e in asked
    requires |found| == |asked|
    ensures forall e | e in asked :: e in found
  {
    var names := set e | e in asked;
    assert found <= names;
    FewerDistinct(asked);
    SubsetSize(found, names);
  }

  method CompactOrphans(rows: set<string>, clients: seq<Client>) returns (out: seq<Client>)
    ensures out == Compact(rows, clients)
  {
    var emails: seq<string> := [];
    for i := 0 to |clients|
      invariant forall k | 0 <= k < i && clients[k].email != "" :: clients[k].email in emails
    {
      if clients[i].email != "" {
        emails := emails + [clients[i].email];
      }
    }
    if emails == [] {
      AllLiveStays(rows, clients);
      return clients;
    }
    var existing := set e | e in rows && e in emails;
    if |existing| == |emails| {
      AllFound(existing, emails);
      AllLiveStays(rows, clients);
      return clients;
    }
    out := [];
    for i := 0 to |clients|
      invariant out == Compact(rows, clients[..i])
    {
      assert clients[..i + 1][..i] == clients[..i];
      var e := clients[i].email;
      if e == "" || e in existing {
        assert Live(rows, clients[i]);
        out := out + [clients[i]];
      } else {
        assert !Live(rows, clients[i]);
      }
    }
    assert clients[..|clients|] == clients;
  }

  // ------------------------------------------------------------------
  // Removing one key and removing many
  // ------------------------------------------------------------------

  function Without(p: Protocol, gone: set<string>, cs: seq<Client>): seq<Client> {
    if cs == [] then []
    else Without(p, gone, cs[..|cs| - 1]) + (if Key(p, cs[|cs| - 1]) in gone then [] else [cs[|cs| - 1]])
  }

  predicate Hit(p: Protocol, gone: set<string>, cs: seq<Client>) {
    exists i | 0 <= i < |cs| :: Key(p, cs[i]) in gone
  }

  function Pruned(p: Protocol, rows: set<string>, gone: set<string>, cs: seq<Client>): seq<Client> {
    if Hit(p, gone, cs) then Compact(rows, Without(p, gone, cs)) else cs
  }

  lemma HitExtends(p: Protocol, gone: set<string>, cs: seq<Client>, c: Client)
    ensures Hit(p, gone, cs + [c]) <==> Hit(p, gone, cs) || Key(p, c) in gone
  {
    var longer := cs + [c];
    if Hit(p, gone, cs) {
      var i :| 0 <= i < |cs| && Key(p, cs[i]) in gone;
      assert Key(p, longer[i]) in gone;
    }
    assert longer[|cs|] == c;
  }

  lemma Extends(p: Protocol, gone: set<string>, cs: seq<Client>, i: nat)
    requires i < |cs|
    ensures Hit(p, gone, cs[..i + 1]) <==> Hit(p, gone, cs[..i]) || Key(p, cs[i]) in gone
    ensures Without(p, gone, cs[..i + 1]) == Without(p, gone, cs[..i]) + (if Key(p, cs[i]) in gone then [] else [cs[i]])
  {
    assert cs[..i + 1][..i] == cs[..i];
    HitExtends(p, gone, cs[..i], cs[i]);
    assert cs[..i] + [cs[i]] == cs[..i + 1];
  }

  // Removes the entries with the key; an absent key is an error that changes nothing.
  method DelInboundClient(p: Protocol, rows: set<string>, clients: seq<Client>, clientId: string)
    returns (found: bool, out: seq<Client>)
    ensures found == Hit(p, {clientId}, clients)
    ensures out == Pruned(p, rows, {clientId}, clients)
  {
    var kept: seq<Client> := [];
    found := false;
    for i := 0 to |clients|
      invariant found == Hit(p, {clientId}, clients[..i])
      invariant kept == Without(p, {clientId}, clients[..i])
    {
      Extends(p, {clientId}, clients, i);
      if Key(p, clients[i]) == clientId {
        found := true;
      } else {
        kept := kept + [clients[i]];
      }
    }
    assert clients[..|clients|] == clients;
    if !found {
      return false, clients;
    }
    out := CompactOrphans(rows, kept);
  }

  function NonEmpty(keys: seq<string>): set<string> {
    set k | k in keys && k != ""
  }

  // Removes the entries with any of the keys in one pass; empty keys are ignored.
  method DelInboundClients(p: Protocol, rows: set<string>, clients: seq<Client>, keys: seq<string>)
    returns (found: bool, out: seq<Client>)
    ensures found == Hit(p, NonEmpty(keys), clients)
    ensures out == Pruned(p, rows, NonEmpty(keys), clients)
  {
    var wanted: set<string> := {};
    for j := 0 to |keys|
      invariant wanted == NonEmpty(keys[..j])
    {
      if keys[j] != "" {
        wanted := wanted + {keys[j]};
      }
    }
    assert keys[..|keys|] == keys;
    var kept: seq<Client> := [];
    found := false;
    for i := 0 to |clients|
      invariant found == Hit(p, wanted, clients[..i])
      invariant kept == Without(p, wanted, clients[..i])
    {
      Extends(p, wanted, clients, i);
      if Key(p, clients[i]) in wanted && Key(p, clients[i]) != "" {
        found := true;
        continue;
      }
      kept := kept + [clients[i]];
    }
    assert clients[..|clients|] == clients;
    if !found {
      return false, clients;
    }
    out := CompactOrphans(rows, kept);
  }

  // One single delete per key, in the given order.
  function DelEach(p: Protocol, rows: set<string>, cs: seq<Client>, keys: seq<string>): seq<Client>
    decreases |keys|
  {
    if keys == [] then cs
    else Pruned(p, rows, {keys[|keys| - 1]}, DelEach(p, rows, cs, keys[..|keys| - 1]))
  }

  function Set(keys: seq<string>): set<string> {
    set k | k in keys
  }

  lemma WithoutAdds(p: Protocol, gone: set<string>, cs: seq<Client>, c: Client)
    ensures Without(p, gone, cs + [c]) == Without(p, gone, cs) + (if Key(p, c) in gone then [] else [c])
  {
    assert (cs + [c])[..|cs|] == cs;
  }

  lemma CompactAdds(rows: set<string>, cs: seq<Client>, c: Client)
    ensures Compact(rows, cs + [c]) == Compact(rows, cs) + (if Live(rows, c) then [c] else [])
  {
    assert (cs + [c])[..|cs|] == cs;
  }

  function Rest(p: Protocol, rows: set<string>, gone: set<string>, cs: seq<Client>): seq<Client> {
    Compact(rows, Without(p, gone, cs))
  }

  lemma RestAdds(p: Protocol, rows: set<string>, gone: set<string>, cs: seq<Client>, c: Client)
    ensures Rest(p, rows, gone, cs + [c]) == Rest(p, rows, gone, cs) +
      (if Key(p, c) !in gone && Live(rows, c) then [c] else [])
  {
    WithoutAdds(p, gone, cs, c);
    if Key(p, c) !in gone {
      CompactAdds(rows, Without(p, gone, cs), c);
    } else {
      assert Without(p, gone, cs) + [] == Without(p, gone, cs);
    }
  }

  // Filtering and compacting commute: what is left after two rounds.
  lemma {:induction false} TwoRounds(p: Protocol, rows: set<string>, a: set<string>, b: set<string>, cs: seq<Client>)
    ensures Rest(p, rows, b, Rest(p, rows, a, cs)) == Rest(p, rows, a + b, cs)
    decreases |cs|
  {
    if cs != [] {
      var front, c := cs[..|cs| - 1], cs[|cs| - 1];
      assert cs == front + [c];
      TwoRounds(p, rows, a, b, front);
      RestAdds(p, rows, a, front, c);
      RestAdds(p, rows, b, Rest(p, rows, a, front), c);
      RestAdds(p, rows, a + b, front, c);
      if Key(p, c) in a || !Live(rows, c) {
        assert Rest(p, rows, a, cs) == Rest(p, rows, a, front);
        assert Rest(p, rows, a + b, cs) == Rest(p, rows, a + b, front);
      }
    }
  }

  lemma {:induction false} NoHitKeepsAll(p: Protocol, gone: set<string>, cs: seq<Client>)
    requires !Hit(p, gone, cs)
    ensures Without(p, gone, cs) == cs
    decreases |cs|
  {
    if cs != [] {
      var front, c := cs[..|cs| - 1], cs[|cs| - 1];
      HitExtends(p, gone, front, c);
      assert cs == front + [c];
      NoHitKeepsAll(p, gone, front);
    }
  }

  lemma {:induction false} RestIsLive(p: Protocol, rows: set<string>, gone: set<string>, cs: seq<Client>)
    ensures forall i | 0 <= i < |Rest(p, rows, gone, cs)| ::
              Live(rows, Rest(p, rows, gone, cs)[i]) && Rest(p, rows, gone, cs)[i] in cs &&
                Key(p, Rest(p, rows, gone, cs)[i]) !in gone
    ensures forall c | c in cs && Live(rows, c) && Key(p, c) !in gone :: c in Rest(p, rows, gone, cs)
    decreases |cs|
  {
    if cs != [] {
      var front, c := cs[..|cs| - 1], cs[|cs| - 1];
      assert cs == front + [c];
      RestIsLive(p, rows, gone, front);
      RestAdds(p, rows, gone, front, c);
    }
  }

  lemma HitUnion(p: Protocol, a: set<string>, b: set<string>, cs: seq<Client>)
    ensures Hit(p, a + b, cs) <==> Hit(p, a, cs) || Hit(p, b, cs)
  {
  }

  lemma {:induction false} NoHitUnion(p: Protocol, rows: set<string>, a: set<string>, b: set<string>, cs: seq<Client>)
    requires !Hit(p, a, cs)
    ensures Without(p, a + b, cs) == Without(p, b, cs)
    decreases |cs|
  {
    if cs != [] {
      var front, c := cs[..|cs| - 1], cs[|cs| - 1];
      HitExtends(p, a, front, c);
      assert cs == front + [c];
      NoHitUnion(p, rows, a, b, front);
    }
  }

  // Single deletes in any order come to one filter over all the keys.
  lemma {:induction false} EachIsPruned(p: Protocol, rows: set<string>, cs: seq<Client>, keys: seq<string>)
    ensures DelEach(p, rows, cs, keys) == Pruned(p, rows, Set(keys), cs)
    decreases |keys|
  {
    if keys != [] {
      var front, k := keys[..|keys| - 1], keys[|keys| - 1];
      EachIsPruned(p, rows, cs, front);
      assert Set(keys) == Set(front) + {k};
      HitUnion(p, Set(front), {k}, cs);
      if Hit(p, Set(front), cs) {
        var left := Rest(p, rows, Set(front), cs);
        TwoRounds(p, rows, Set(front), {k}, cs);
        if !Hit(p, {k}, left) {
          NoHitKeepsAll(p, {k}, left);
          RestIsLive(p, rows, Set(front), cs);
          AllLiveStays(rows, left);
        }
      } else {
        NoHitUnion(p, rows, Set(front), {k}, cs);
      }
    }
  }

  // The keys a caller passes on: detaching and deleting skip clients without one.
  function Given(keys: seq<string>): seq<string>
    decreases |keys|
  {
    if keys == [] then []
    else Given(keys[..|keys| - 1]) + (if keys[|keys| - 1] == "" then [] else [keys[|keys| - 1]])
  }

  lemma {:induction false} GivenExact(keys: seq<string>)
    ensures Set(Given(keys)) == NonEmpty(keys)
    decreases |keys|
  {
    if keys != [] {
      var front, k := keys[..|keys| - 1], keys[|keys| - 1];
      GivenExact(front);
      assert keys == front + [k];
      assert NonEmpty(keys) == NonEmpty(front) + NonEmpty([k]);
      assert Set(Given(front) + [k]) == Set(Given(front)) + {k};
    }
  }

  // The single pass leaves what single deletes of the same clients leave, in any order and
  // also when some of them have no key for this protocol.
  lemma BatchEqualsSingles(p: Protocol, rows: set<string>, cs: seq<Client>, keys: seq<string>)
    ensures Pruned(p, rows, NonEmpty(keys), cs) == DelEach(p, rows, cs, Given(keys))
  {
    GivenExact(keys);
    EachIsPruned(p, rows, cs, Given(keys));
  }

  // The single delete itself has no such guard: called with an empty key it would remove
  // every entry without a key, and so change the list exactly when there is one.
  lemma EmptyKeyDeletesIff(p: Protocol, rows: set<string>, cs: seq<Client>)
    ensures Pruned(p, rows, {""}, cs) != cs <==> Hit(p, {""}, cs)
    ensures !Hit(p, {""}, Pruned(p, rows, {""}, cs))
  {
    RestIsLive(p, rows, {""}, cs);
    if Hit(p, {""}, cs) {
      var i :| 0 <= i < |cs| && Key(p, cs[i]) in {""};
      assert cs[i] in cs && cs[i] !in Rest(p, rows, {""}, cs);
    }
  }

  // The field each protocol finds a client by.
  predicate HasKey(p: Protocol, c: Client, key: string) {
    || (p == Trojan && c.password == key)
    || (p == Shadowsocks && c.email == key)
    || (p == Hysteria && c.auth == key)
    || (p == Other && c.id == key)
  }

  // Deleting one client takes out the entries that have the key in the protocol's own field
  // and, if there is one, the entries whose e-mail no longer has a client row; all others
  // stay. Without such an entry nothing changes.
  lemma DeletedExactly(p: Protocol, rows: set<string>, cs: seq<Client>, key: string, c: Client)
    ensures var out := Pruned(p, rows, {key}, cs);
            if exists i | 0 <= i < |cs| :: HasKey(p, cs[i], key)
            then c in out <==> c in cs && !HasKey(p, c, key) && (c.email == "" || c.email in rows)
            else out == cs
  {
    if i :| 0 <= i < |cs| && HasKey(p, cs[i], key) {
      assert Key(p, cs[i]) in {key};
      RestIsLive(p, rows, {key}, cs);
      if c in Rest(p, rows, {key}, cs) {
        var k :| 0 <= k < |Rest(p, rows, {key}, cs)| && Rest(p, rows, {key}, cs)[k] == c;
      }
    } else {
      assert forall i | 0 <= i < |cs| :: Key(p, cs[i]) == key ==> HasKey(p, cs[i], key);
    }
  }
}
