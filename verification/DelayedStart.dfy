// Clients whose time starts with their first traffic: a negative expiry is a duration,
// turned into a date when the first bytes arrive.

module DelayedStart {

  import opened Settings

  datatype Pass = Pass(rows: map<string, int>, entries: seq<Client>)

  // rows has the expiry of each usage row in this batch. An entry whose row has not
  // started yet is started from the entry's own duration, and so is the row.
  predicate Starts(rows: map<string, int>, c: Client) {
    c.email in rows && rows[c.email] < 0
  }

  function Step(p: Pass, now: int, c: Client): Pass {
    if Starts(p.rows, c)
    then Pass(p.rows[c.email := now - c.expiryTime], p.entries + [c.(expiryTime := now - c.expiryTime)])
    else Pass(p.rows, p.entries + [c])
  }

  // The entries of the fetched inbounds, one inbound after the other.
  function Adjusted(rows: map<string, int>, now: int, entries: seq<Client>): (p: Pass)
    ensures p.rows.Keys == rows.Keys && |p.entries| == |entries|
    ensures forall i | 0 <= i < |entries| :: p.entries[i].email == entries[i].email
    decreases |entries|
  {
    if entries == [] then Pass(rows, [])
    else
      var front := Adjusted(rows, now, entries[..|entries| - 1]);
      Step(front, now, entries[|entries| - 1])
  }

  lemma AdjustedMore(rows: map<string, int>, now: int, entries: seq<Client>, i: nat)
    requires i < |entries|
    ensures Adjusted(rows, now, entries[..i + 1]) == Step(Adjusted(rows, now, entries[..i]), now, entries[i])
  {
    assert entries[..i + 1][..i] == entries[..i];
  }

  lemma SetNext(done: seq<Client>, rest: seq<Client>, c: Client)
    requires rest != []
    ensures (done + rest)[|done|] == rest[0]
    ensures (done + rest)[|done| := c] == (done + [c]) + rest[1..]
  {
  }

  method AdjustTraffics(rows: map<string, int>, now: int, entries: seq<Client>)
    returns (newRows: map<string, int>, newEntries: seq<Client>)
    ensures Pass(newRows, newEntries) == Adjusted(rows, now, entries)
  {
    newRows, newEntries := rows, entries;
    for i := 0 to |entries|
      invariant newRows == Adjusted(rows, now, entries[..i]).rows
      invariant newEntries == Adjusted(rows, now, entries[..i]).entries + entries[i..]
    {
      AdjustedMore(rows, now, entries, i);
      ghost var done, rest := Adjusted(rows, now, entries[..i]).entries, entries[i..];
      SetNext(done, rest, rest[0]);
      assert rest[1..] == entries[i + 1..];
      if newEntries[i].email in newRows && newRows[newEntries[i].email] < 0 {
        var next := now - newEntries[i].expiryTime;
        SetNext(done, rest, entries[i].(expiryTime := next));
        newRows := newRows[newEntries[i].email := next];
        newEntries := newEntries[i := newEntries[i].(expiryTime := next)];
      }
    }
    assert entries[..|entries|] == entries;
  }

  // ------------------------------------------------------------------
  // What a pass does to one e-mail
  // ------------------------------------------------------------------

  // Entry i can start its client: its duration or date does not lie after now.
  predicate CanStart(entries: seq<Client>, now: int, e: string, i: nat)
    requires i < |entries|
  {
    entries[i].email == e && entries[i].expiryTime <= now
  }

  predicate Startable(entries: seq<Client>, now: int, e: string) {
    exists i: nat | i < |entries| :: CanStart(entries, now, e, i)
  }

  predicate FirstToStart(entries: seq<Client>, now: int, e: string, i: nat)
    requires i < |entries|
  {
    CanStart(entries, now, e, i) && forall j: nat | j < i :: !CanStart(entries, now, e, j)
  }

  // A row that has started, or is not in the batch, is left alone with all its entries.
  lemma {:induction false} StartedStays(rows: map<string, int>, now: int, entries: seq<Client>, e: string)
    requires e in rows ==> rows[e] >= 0
    ensures e in rows ==> Adjusted(rows, now, entries).rows[e] == rows[e]
    ensures forall i | 0 <= i < |entries| && entries[i].email == e ::
      Adjusted(rows, now, entries).entries[i] == entries[i]
    decreases |entries|
  {
    if entries != [] {
      StartedStays(rows, now, entries[..|entries| - 1], e);
    }
  }

  lemma SameFirst(front: seq<Client>, c: Client, now: int, e: string)
    ensures forall i: nat | i < |front| :: CanStart(front, now, e, i) <==> CanStart(front + [c], now, e, i)
    ensures forall i: nat | i < |front| :: FirstToStart(front, now, e, i) <==> FirstToStart(front + [c], now, e, i)
    ensures FirstToStart(front + [c], now, e, |front|) ==> !Startable(front, now, e)
  {
    var entries := front + [c];
    assert forall i: nat | i < |front| :: CanStart(front, now, e, i) <==> CanStart(entries, now, e, i);
  }

  lemma LastStart(front: seq<Client>, c: Client, now: int, e: string)
    ensures Startable(front + [c], now, e) <==> Startable(front, now, e) || (c.email == e && c.expiryTime <= now)
  {
    var entries := front + [c];
    assert forall i: nat | i < |front| :: CanStart(front, now, e, i) <==> CanStart(entries, now, e, i);
    assert CanStart(entries, now, e, |front|) <==> c.email == e && c.expiryTime <= now;
  }

  // A waiting row has started after the pass exactly when one of its entries can start it;
  // it then has the date of the first such entry.
  lemma {:induction false} RowStartsIff(rows: map<string, int>, now: int, entries: seq<Client>, e: string)
    requires e in rows && rows[e] < 0
    ensures Adjusted(rows, now, entries).rows[e] >= 0 <==> Startable(entries, now, e)
    ensures forall i: nat | i < |entries| && FirstToStart(entries, now, e, i) ::
              Adjusted(rows, now, entries).rows[e] == now - entries[i].expiryTime &&
              Adjusted(rows, now, entries).entries[i].expiryTime == now - entries[i].expiryTime
    decreases |entries|
  {
    if entries != [] {
      var front, c := entries[..|entries| - 1], entries[|entries| - 1];
      RowStartsIff(rows, now, front, e);
      assert entries == front + [c];
      LastStart(front, c, now, e);
      SameFirst(front, c, now, e);
      var before, after := Adjusted(rows, now, front), Adjusted(rows, now, entries);
      assert after == Step(before, now, c);
      assert forall i | 0 <= i < |front| :: after.entries[i] == before.entries[i];
    }
  }

  // Entries behind one that can start the row are left alone.
  lemma {:induction false} LaterEntryStays(rows: map<string, int>, now: int, entries: seq<Client>, e: string,
                                           i: nat, j: nat)
    requires e in rows && rows[e] < 0
    requires i < j < |entries| && CanStart(entries, now, e, i) && entries[j].email == e
    ensures Adjusted(rows, now, entries).entries[j] == entries[j]
    decreases |entries|
  {
    var front, c := entries[..|entries| - 1], entries[|entries| - 1];
    assert entries == front + [c] && CanStart(front, now, e, i);
    if j < |front| {
      LaterEntryStays(rows, now, front, e, i, j);
    } else {
      RowStartsIff(rows, now, front, e);
    }
  }

  predicate AllHave(entries: seq<Client>, e: string, expiry: int) {
    forall i | 0 <= i < |entries| && entries[i].email == e :: entries[i].expiryTime == expiry
  }

  predicate Single(entries: seq<Client>, e: string) {
    forall i, j | 0 <= i < j < |entries| :: !(entries[i].email == e && entries[j].email == e)
  }

  lemma {:induction false} FirstOf(entries: seq<Client>, now: int, e: string) returns (k: nat)
    requires exists i | 0 <= i < |entries| :: entries[i].email == e
    requires forall i | 0 <= i < |entries| && entries[i].email == e :: entries[i].expiryTime <= now
    ensures k < |entries| && FirstToStart(entries, now, e, k)
    decreases |entries|
  {
    k := 0;
    while entries[k].email != e
      invariant k < |entries| && forall j: nat | j < k :: entries[j].email != e
      decreases |entries| - k
    {
      k := k + 1;
    }
  }

  // A client waiting with one duration in all its inbounds starts in its row and in the
  // first of its entries only: the copies agree afterwards exactly when there is no other.
  lemma CopiesStartTogetherIff(rows: map<string, int>, now: int, entries: seq<Client>, e: string, duration: int)
    requires now > 0 && duration > 0 && e in rows && rows[e] == -duration && AllHave(entries, e, -duration)
    requires exists i | 0 <= i < |entries| :: entries[i].email == e
    ensures Adjusted(rows, now, entries).rows[e] == now + duration
    ensures AllHave(Adjusted(rows, now, entries).entries, e, now + duration) <==> Single(entries, e)
  {
    var k := FirstOf(entries, now, e);
    RowStartsIff(rows, now, entries, e);
    var after := Adjusted(rows, now, entries).entries;
    if !Single(entries, e) {
      var i, j :| 0 <= i < j < |entries| && entries[i].email == e && entries[j].email == e;
      LaterEntryStays(rows, now, entries, e, i, j);
    } else {
      forall i | 0 <= i < |after| && after[i].email == e ensures after[i].expiryTime == now + duration {
        assert entries[i].email == e && entries[k].email == e;
        assert i == k;
      }
    }
  }
}
