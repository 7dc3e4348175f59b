// The client index over runs of operations on inbounds, which all end in a
// synchronization, and what an e-mail with white space at an end does to it.

module ClientRuns {

  import opened ClientDetach
  import opened ClientIndex
  import opened Settings
  import opened Text

  datatype Inbound = Inbound(protocol: Protocol, clients: seq<Client>)

  datatype Panel = Panel(index: Index, inbounds: map<int, Inbound>)

  datatype Event =
    | Add(ib: int, clients: seq<Client>)             // clients created, or attached from their rows
    | Edit(ib: int, position: nat, client: Client)   // one entry replaced
    | Save(ib: int, inbound: Inbound)                // an inbound added, or updated with its whole list
    | Detach(ib: int, keys: seq<string>)

  // ------------------------------------------------------------------
  // The guards on e-mails
  // ------------------------------------------------------------------

  predicate Forbidden(c: char) {
    c == '/' || c == '\\' || c == ' ' || c < ' ' || c == '\U{7F}'
  }

  // What creating and updating a client ask of its e-mail.
  predicate Accepted(email: string) {
    Trim(email) != "" && forall i | 0 <= i < |email| :: !Forbidden(email[i])
  }

  // A created client has an accepted e-mail; an attached one is read from its row. Either
  // needs the key of the inbound's protocol.
  predicate MayAdd(pr: Protocol, x: Index, c: Client) {
    Trim(c.email) != "" && Key(pr, c) != "" && (Accepted(c.email) || c.email in x.records)
  }

  // An edit keeps the e-mail of the entry or brings an accepted one.
  predicate MayReplace(pr: Protocol, was: Client, c: Client) {
    Trim(c.email) != "" && Key(pr, c) != "" && (c.email == was.email || Accepted(c.email))
  }

  // The no-break space is white space for the trimming and no forbidden character, so the
  // guards let through e-mails that the trimming changes.
  lemma UntidyEmailIsAccepted()
    ensures Accepted("a\U{A0}") && Trim("a\U{A0}") == "a"
  {
    var s: string := "a\U{A0}";
    assert TrimLeft(s) == s;
    assert s[..1] == "a";
    assert TrimRight("a") == "a";
  }

  // ------------------------------------------------------------------
  // The events
  // ------------------------------------------------------------------

  // Settings and tables in one transaction: a refused synchronization undoes both.
  function Commit(p: Panel, ib: int, inb: Inbound): Panel {
    var o := SyncAll(p.index, ib, inb.clients);
    if o.Done? then Panel(o.index, p.inbounds[ib := inb]) else p
  }

  // Detaching writes settings and tables one after the other, without a transaction.
  function Write(p: Panel, ib: int, inb: Inbound): Panel {
    Panel(SyncAll(p.index, ib, inb.clients).index, p.inbounds[ib := inb])
  }

  // What the event asks to be stored, if its guards let it through.
  predicate Passes(p: Panel, ev: Event) {
    match ev
    case Add(ib, clients) =>
      ib in p.inbounds && forall i | 0 <= i < |clients| :: MayAdd(p.inbounds[ib].protocol, p.index, clients[i])
    case Edit(ib, i, c) =>
      ib in p.inbounds && i < |p.inbounds[ib].clients| &&
      MayReplace(p.inbounds[ib].protocol, p.inbounds[ib].clients[i], c)
    case Save(_, _) => true
    case Detach(ib, keys) =>
      ib in p.inbounds && Hit(p.inbounds[ib].protocol, NonEmpty(keys), p.inbounds[ib].clients)
  }

  function Wanted(p: Panel, ev: Event): Inbound
    requires Passes(p, ev)
  {
    var rows := p.index.records.Keys;
    match ev
    case Add(ib, clients) => p.inbounds[ib].(clients := Compact(rows, p.inbounds[ib].clients) + clients)
    case Edit(ib, i, c) => p.inbounds[ib].(clients := p.inbounds[ib].clients[i := c])
    case Save(_, inb) => inb
    case Detach(ib, keys) =>
      p.inbounds[ib].(clients := Rest(p.inbounds[ib].protocol, rows, NonEmpty(keys), p.inbounds[ib].clients))
  }

  function Next(p: Panel, ev: Event): Panel {
    if !Passes(p, ev) then p
    else if ev.Detach? then Write(p, ev.ib, Wanted(p, ev))
    else Commit(p, ev.ib, Wanted(p, ev))
  }

  function Run(p: Panel, evs: seq<Event>): Panel
    decreases |evs|
  {
    if evs == [] then p else Next(Run(p, evs[..|evs| - 1]), evs[|evs| - 1])
  }

  // ------------------------------------------------------------------
  // Settings, client rows and links agree
  // ------------------------------------------------------------------

  // The row of the entry's trimmed e-mail is linked with the entry's flow.
  predicate Linked(x: Index, ib: int, c: Client) {
    var e := Trim(c.email);
    e != "" ==> e in x.records && Link(x.records[e].id, ib) in x.links && x.links[Link(x.records[e].id, ib)] == c.flow
  }

  predicate AllLinked(x: Index, ib: int, cs: seq<Client>) {
    forall i | 0 <= i < |cs| :: Linked(x, ib, cs[i])
  }

  predicate OwnsLink(x: Index, cs: seq<Client>, id: nat) {
    exists i | 0 <= i < |cs| ::
      Trim(cs[i].email) != "" && Trim(cs[i].email) in x.records && x.records[Trim(cs[i].email)].id == id
  }

  ghost predicate NoOtherLinks(x: Index, ib: int, cs: seq<Client>) {
    forall id: nat | Link(id, ib) in x.links :: OwnsLink(x, cs, id)
  }

  // The inbound's links are exactly the rows of its entries with an e-mail, with their flows.
  ghost predicate Agrees(x: Index, ib: int, cs: seq<Client>) {
    DistinctEmails(cs) && AllLinked(x, ib, cs) && NoOtherLinks(x, ib, cs)
  }

  ghost predicate Consistent(p: Panel) {
    Valid(p.index) && forall ib | ib in p.inbounds :: Agrees(p.index, ib, p.inbounds[ib].clients)
  }

  lemma SettledAgrees(x: Index, ib: int, cs: seq<Client>)
    requires Valid(x) && AllSettled(x, cs) && SyncAll(x, ib, cs).Done?
    ensures Agrees(SyncAll(x, ib, cs).index, ib, cs)
  {
    var y := SyncAll(x, ib, cs).index;
    SyncSucceedsIff(x, ib, cs);
    forall i | 0 <= i < |cs| ensures Linked(y, ib, cs[i]) {
      if Trim(cs[i].email) != "" {
        RepeatedIsTaken(x, ib, cs, i);
      }
    }
    forall id: nat | Link(id, ib) in y.links ensures OwnsLink(y, cs, id) {
      LinksExact(x, ib, cs, id);
      assert SomeLinked(x, ib, cs, id);
      var i: nat :| i < |cs| && LinkedAs(x, ib, cs, i, id);
      EntriesHaveRows(x, ib, cs, i);
    }
  }

  // A row a synchronization creates has the e-mail of one of the entries, as written.
  lemma {:induction false} NewRowsAreWritten(x: Index, ib: int, cs: seq<Client>, e: string)
    requires e in SyncAll(x, ib, cs).index.records && e !in x.records
    ensures exists j | 0 <= j < |cs| :: cs[j].email == e
    decreases |cs|
  {
    var front := cs[..|cs| - 1];
    if e in SyncAll(x, ib, front).index.records {
      NewRowsAreWritten(x, ib, front, e);
      var j :| 0 <= j < |front| && front[j].email == e;
      assert cs[j].email == e;
    } else {
      assert cs[|cs| - 1].email == e;
    }
  }

  lemma TrimTwice(s: string)
    ensures Trim(Trim(s)) == Trim(s)
  {
    TrimIsTidy(s);
    TrimIsTidy(Trim(s));
  }

  // After a successful synchronization links and settings agree exactly when each e-mail
  // was found, or created, under its trimmed form.
  lemma SyncAgreesIff(x: Index, ib: int, cs: seq<Client>)
    requires Valid(x) && SyncAll(x, ib, cs).Done?
    ensures Agrees(SyncAll(x, ib, cs).index, ib, cs) <==> AllSettled(x, cs)
  {
    var y := SyncAll(x, ib, cs).index;
    if AllSettled(x, cs) {
      SettledAgrees(x, ib, cs);
    } else {
      var i :| 0 <= i < |cs| && !Settled(x, cs[i]);
      var e := Trim(cs[i].email);
      TrimTwice(cs[i].email);
      if e in y.records {
        NewRowsAreWritten(x, ib, cs, e);
        var j :| 0 <= j < |cs| && cs[j].email == e;
        assert i != j && Trim(cs[j].email) == Trim(cs[i].email);
        assert !DistinctEmails(cs);
      } else {
        assert !Linked(y, ib, cs[i]);
      }
    }
  }

  lemma SiblingAgrees(x: Index, y: Index, ib: int, jb: int, cs: seq<Client>)
    requires Agrees(x, jb, cs) && RowsStay(x, y) && OthersStay(x, y, ib) && jb != ib
    ensures Agrees(y, jb, cs)
  {
    forall i | 0 <= i < |cs| ensures Linked(y, jb, cs[i]) {
      assert Linked(x, jb, cs[i]);
    }
    forall id: nat | Link(id, jb) in y.links ensures OwnsLink(y, cs, id) {
      assert Link(id, jb) in x.links && OwnsLink(x, cs, id);
    }
  }

  lemma LinkedIsSettled(x: Index, ib: int, cs: seq<Client>)
    requires AllLinked(x, ib, cs)
    ensures AllSettled(x, cs)
  {
    forall i | 0 <= i < |cs| ensures Settled(x, cs[i]) {
      assert Linked(x, ib, cs[i]);
    }
  }

  // Storing a list with a successful synchronization leaves everything in agreement exactly
  // when the e-mails of the list are settled.
  lemma CommitConsistentIff(p: Panel, ib: int, inb: Inbound)
    requires Consistent(p) && SyncAll(p.index, ib, inb.clients).Done?
    ensures Commit(p, ib, inb) == Write(p, ib, inb)
    ensures Consistent(Write(p, ib, inb)) <==> AllSettled(p.index, inb.clients)
  {
    var q := Write(p, ib, inb);
    SyncKeeps(p.index, ib, inb.clients);
    SyncAgreesIff(p.index, ib, inb.clients);
    assert q.inbounds[ib] == inb;
    forall jb | jb in q.inbounds && jb != ib ensures Agrees(q.index, jb, q.inbounds[jb].clients) {
      SiblingAgrees(p.index, q.index, ib, jb, p.inbounds[jb].clients);
    }
  }

  // ------------------------------------------------------------------
  // What filtering and compacting leave
  // ------------------------------------------------------------------

  lemma {:induction false} RestStaysDistinct(pr: Protocol, rows: set<string>, gone: set<string>, cs: seq<Client>)
    requires DistinctEmails(cs)
    ensures DistinctEmails(Rest(pr, rows, gone, cs))
    decreases |cs|
  {
    if cs != [] {
      var front, c := cs[..|cs| - 1], cs[|cs| - 1];
      assert cs == front + [c];
      assert forall i | 0 <= i < |front| :: cs[i] == front[i];
      RestStaysDistinct(pr, rows, gone, front);
      RestAdds(pr, rows, gone, front, c);
      RestIsLive(pr, rows, gone, front);
      var left := Rest(pr, rows, gone, front);
      forall i | 0 <= i < |left| ensures Trim(left[i].email) == "" || Trim(left[i].email) != Trim(c.email) {
        var k :| 0 <= k < |front| && front[k] == left[i];
        assert cs[k] == front[k] && cs[|cs| - 1] == c;
      }
    }
  }

  // What is left of agreeing settings is settled, live and has distinct e-mails, so it
  // synchronizes.
  lemma RestSucceeds(x: Index, ib: int, pr: Protocol, gone: set<string>, cs: seq<Client>)
    requires Valid(x) && Agrees(x, ib, cs)
    ensures var left := Rest(pr, x.records.Keys, gone, cs);
            AllSettled(x, left) && AllHaveRows(x, left) && DistinctEmails(left) && SyncAll(x, ib, left).Done? &&
            Compact(x.records.Keys, left) == left
  {
    var rows := x.records.Keys;
    var left := Rest(pr, rows, gone, cs);
    RestIsLive(pr, rows, gone, cs);
    RestStaysDistinct(pr, rows, gone, cs);
    LinkedIsSettled(x, ib, cs);
    forall i | 0 <= i < |left| ensures Settled(x, left[i]) && HasRow(x, left[i]) {
      var k :| 0 <= k < |cs| && cs[k] == left[i];
      assert Linked(x, ib, cs[k]);
    }
    SyncSucceedsIff(x, ib, left);
    AllLiveStays(rows, left);
  }

  lemma CompactSucceeds(x: Index, ib: int, cs: seq<Client>)
    requires Valid(x) && Agrees(x, ib, cs)
    ensures var left := Compact(x.records.Keys, cs);
            AllSettled(x, left) && AllHaveRows(x, left) && DistinctEmails(left) && SyncAll(x, ib, left).Done? &&
            Compact(x.records.Keys, left) == left
  {
    NoHitKeepsAll(Other, {}, cs);
    RestSucceeds(x, ib, Other, {}, cs);
  }

  // ------------------------------------------------------------------
  // Runs
  // ------------------------------------------------------------------

  // The entries an event brings.
  function Payload(ev: Event): seq<Client> {
    match ev
    case Add(_, clients) => clients
    case Edit(_, _, c) => [c]
    case Save(_, inb) => inb.clients
    case Detach(_, _) => []
  }

  // The event passes its guards and the tables take its list.
  predicate Takes(p: Panel, ev: Event) {
    Passes(p, ev) && SyncAll(p.index, ev.ib, Wanted(p, ev).clients).Done?
  }

  lemma SettledSplits(x: Index, a: seq<Client>, b: seq<Client>)
    requires AllSettled(x, a)
    ensures AllSettled(x, a + b) <==> AllSettled(x, b)
  {
    assert forall i | 0 <= i < |b| :: (a + b)[|a| + i] == b[i];
  }

  // With settled entries before, the wanted list is settled when the payload is.
  lemma WantedSettledIff(p: Panel, ev: Event)
    requires Consistent(p) && Passes(p, ev)
    ensures AllSettled(p.index, Wanted(p, ev).clients) <==> AllSettled(p.index, Payload(ev))
  {
    var x := p.index;
    match ev
    case Add(ib, clients) =>
      CompactSucceeds(x, ib, p.inbounds[ib].clients);
      SettledSplits(x, Compact(x.records.Keys, p.inbounds[ib].clients), clients);
    case Edit(ib, i, c) =>
      var cs := p.inbounds[ib].clients;
      LinkedIsSettled(x, ib, cs);
      assert cs[i := c][i] == [c][0];
    case Save(_, _) =>
    case Detach(ib, keys) =>
      RestSucceeds(x, ib, p.inbounds[ib].protocol, NonEmpty(keys), p.inbounds[ib].clients);
  }

  lemma DetachTakes(p: Panel, ib: int, keys: seq<string>)
    requires Consistent(p) && Passes(p, Detach(ib, keys))
    ensures Takes(p, Detach(ib, keys))
  {
    RestSucceeds(p.index, ib, p.inbounds[ib].protocol, NonEmpty(keys), p.inbounds[ib].clients);
  }

  // One event keeps settings, rows and links in agreement exactly when it is refused or
  // each of its e-mails is found, or created, under its trimmed form.
  lemma NextConsistentIff(p: Panel, ev: Event)
    requires Consistent(p)
    ensures Consistent(Next(p, ev)) <==> (Takes(p, ev) ==> AllSettled(p.index, Payload(ev)))
  {
    if Passes(p, ev) {
      if ev.Detach? {
        DetachTakes(p, ev.ib, ev.keys);
      }
      WantedSettledIff(p, ev);
      if Takes(p, ev) {
        CommitConsistentIff(p, ev.ib, Wanted(p, ev));
      }
    }
  }

  // The condition of every event at the state it meets.
  predicate SoundRun(p: Panel, evs: seq<Event>)
    decreases |evs|
  {
    evs != [] ==>
      var front, ev := evs[..|evs| - 1], evs[|evs| - 1];
      SoundRun(p, front) && (Takes(Run(p, front), ev) ==> AllSettled(Run(p, front).index, Payload(ev)))
  }

  ghost predicate AlwaysConsistent(p: Panel, evs: seq<Event>)
    decreases |evs|
  {
    Consistent(Run(p, evs)) && (evs != [] ==> AlwaysConsistent(p, evs[..|evs| - 1]))
  }

  // Each inbound's links are exactly the rows of its entries with an e-mail in every state
  // of a run, exactly when no event of the run stores an e-mail that is neither found nor
  // created under its trimmed form.
  lemma {:induction false} RunIsConsistentIff(p: Panel, evs: seq<Event>)
    requires Consistent(p)
    ensures AlwaysConsistent(p, evs) <==> SoundRun(p, evs)
    decreases |evs|
  {
    if evs != [] {
      var front := evs[..|evs| - 1];
      RunIsConsistentIff(p, front);
      if AlwaysConsistent(p, front) {
        NextConsistentIff(Run(p, front), evs[|evs| - 1]);
      }
    }
  }

  predicate AllTidy(cs: seq<Client>) {
    forall i | 0 <= i < |cs| :: Tidy(cs[i].email)
  }

  predicate TidyRun(evs: seq<Event>) {
    forall k | 0 <= k < |evs| :: AllTidy(Payload(evs[k]))
  }

  // E-mails without white space at either end are always sound.
  lemma {:induction false} TidyRunIsSound(p: Panel, evs: seq<Event>)
    requires TidyRun(evs)
    ensures SoundRun(p, evs)
    decreases |evs|
  {
    if evs != [] {
      var front, ev := evs[..|evs| - 1], evs[|evs| - 1];
      TidyRunIsSound(p, front);
      assert AllTidy(Payload(ev));
      forall i | 0 <= i < |Payload(ev)| ensures Settled(Run(p, front).index, Payload(ev)[i]) {
        TrimIsTidy(Payload(ev)[i].email);
      }
    }
  }

  // ------------------------------------------------------------------
  // What the guards keep out
  // ------------------------------------------------------------------

  // More than white space, without slashes, blanks and control characters.
  predicate IsClean(email: string) {
    && (forall i | 0 <= i < |email| :: email[i] > ' ' && email[i] !in {'/', '\\', '\U{7F}'})
    && exists i :: 0 <= i < |email| && !IsSpace(email[i])
  }

  lemma AcceptedIsClean(email: string)
    ensures Accepted(email) <==> IsClean(email)
  {
    TrimEmptyIff(email);
  }

  predicate AllClean(cs: seq<Client>) {
    forall i | 0 <= i < |cs| :: IsClean(cs[i].email)
  }

  ghost predicate CleanPanel(p: Panel) {
    && (forall e | e in p.index.records :: IsClean(e))
    && (forall ib | ib in p.inbounds :: AllClean(p.inbounds[ib].clients))
  }

  lemma {:induction false} NewRowsAreClean(x: Index, ib: int, cs: seq<Client>)
    requires (forall e | e in x.records :: IsClean(e)) && AllClean(cs)
    ensures forall e | e in SyncAll(x, ib, cs).index.records :: IsClean(e)
    decreases |cs|
  {
    if cs != [] {
      NewRowsAreClean(x, ib, cs[..|cs| - 1]);
    }
  }

  lemma RestIsClean(pr: Protocol, rows: set<string>, gone: set<string>, cs: seq<Client>)
    requires AllClean(cs)
    ensures AllClean(Rest(pr, rows, gone, cs))
  {
    RestIsLive(pr, rows, gone, cs);
    var left := Rest(pr, rows, gone, cs);
    forall i | 0 <= i < |left| ensures IsClean(left[i].email) {
      assert left[i] in cs;
    }
  }

  lemma WantedIsClean(p: Panel, ev: Event)
    requires CleanPanel(p) && Passes(p, ev) && !ev.Save?
    ensures AllClean(Wanted(p, ev).clients)
  {
    var cs, rows := p.inbounds[ev.ib].clients, p.index.records.Keys;
    match ev
    case Add(ib, clients) =>
      NoHitKeepsAll(Other, {}, cs);
      RestIsClean(Other, rows, {}, cs);
      forall i | 0 <= i < |clients| ensures IsClean(clients[i].email) {
        assert MayAdd(p.inbounds[ib].protocol, p.index, clients[i]);
        AcceptedIsClean(clients[i].email);
      }
    case Edit(ib, i, c) =>
      AcceptedIsClean(c.email);
    case Detach(ib, keys) =>
      RestIsClean(p.inbounds[ib].protocol, rows, NonEmpty(keys), cs);
  }

  // Blanks, slashes and control characters come in with a whole inbound only: clients that
  // are created, attached, edited and detached never bring one into the settings or the rows.
  lemma {:induction false} CleanRun(p: Panel, evs: seq<Event>)
    requires CleanPanel(p) && forall k | 0 <= k < |evs| :: !evs[k].Save?
    ensures CleanPanel(Run(p, evs))
    decreases |evs|
  {
    if evs != [] {
      var front, ev := evs[..|evs| - 1], evs[|evs| - 1];
      CleanRun(p, front);
      var q := Run(p, front);
      if Passes(q, ev) {
        WantedIsClean(q, ev);
        NewRowsAreClean(q.index, ev.ib, Wanted(q, ev).clients);
      }
    }
  }

  // ------------------------------------------------------------------
  // An accepted e-mail that is not sound
  // ------------------------------------------------------------------

  // Looked up under one e-mail, and to be stored under another that is new as well.
  predicate NewUntidy(pr: Protocol, x: Index, c: Client) {
    MayAdd(pr, x, c) && Trim(c.email) != c.email && Trim(c.email) !in x.records && c.email !in x.records
  }

  // The list of the inbound once the client has been added.
  function Grown(p: Panel, ib: int, c: Client): seq<Client>
    requires ib in p.inbounds
  {
    Compact(p.index.records.Keys, p.inbounds[ib].clients) + [c]
  }

  lemma NewcomerSucceeds(x: Index, ib: int, kept: seq<Client>, pr: Protocol, c: Client)
    requires Valid(x) && AllHaveRows(x, kept) && SyncAll(x, ib, kept).Done? && NewUntidy(pr, x, c)
    ensures var o := SyncAll(x, ib, kept + [c]);
            o.Done? && Valid(o.index) && RowsStay(x, o.index) && o.index.records.Keys == x.records.Keys + {c.email}
  {
    SyncKeeps(x, ib, kept);
    NoNewRows(x, ib, kept);
    FreshIdUnlinked(SyncAll(x, ib, kept).index, ib);
    assert (kept + [c])[..|kept|] == kept;
    SyncKeeps(x, ib, kept + [c]);
  }

  // Such a client is added; afterwards it has a row under its e-mail as written, and none
  // under the trimmed one.
  lemma UntidyIsAdded(p: Panel, ib: int, c: Client)
    requires Consistent(p) && ib in p.inbounds && NewUntidy(p.inbounds[ib].protocol, p.index, c)
    ensures var q, x := Next(p, Add(ib, [c])), p.index;
            && q == Panel(SyncAll(x, ib, Grown(p, ib, c)).index,
               p.inbounds[ib := p.inbounds[ib].(clients := Grown(p, ib, c))])
            && Valid(q.index) && RowsStay(x, q.index)
            && q.index.records.Keys == x.records.Keys + {c.email} && !Settled(q.index, c)
  {
    var x, kept := p.index, Compact(p.index.records.Keys, p.inbounds[ib].clients);
    CompactSucceeds(x, ib, p.inbounds[ib].clients);
    NewcomerSucceeds(x, ib, kept, p.inbounds[ib].protocol, c);
    assert MayAdd(p.inbounds[ib].protocol, x, [c][0]);
    assert !Settled(SyncAll(x, ib, kept + [c]).index, c);
  }

  // An entry that is looked up under one e-mail and stored under another stops the
  // synchronization of every list it stands in, with the entries before it done.
  lemma UnsettledStops(y: Index, ib: int, front: seq<Client>, c: Client, rest: seq<Client>)
    requires AllHaveRows(y, front) && !Settled(y, c) && c.email in y.records
    ensures SyncAll(y, ib, front + [c] + rest).Failed?
    ensures SyncAll(y, ib, front + [c]).index == SyncAll(y, ib, front).index
  {
    var list := front + [c] + rest;
    NoNewRows(y, ib, front);
    assert list[..|front| + 1] == front + [c] && (front + [c])[..|front|] == front;
    StopsAtFailure(y, ib, list, |front| + 1);
  }

  lemma RowsStillThere(x: Index, y: Index, cs: seq<Client>)
    requires AllHaveRows(x, cs) && RowsStay(x, y)
    ensures AllHaveRows(y, cs)
  {
    forall i | 0 <= i < |cs| ensures HasRow(y, cs[i]) {
      assert HasRow(x, cs[i]);
    }
  }

  lemma LiveGrows(rows: set<string>, more: set<string>, cs: seq<Client>)
    requires Compact(rows, cs) == cs && rows <= more
    ensures Compact(more, cs) == cs
  {
    NoHitKeepsAll(Other, {}, cs);
    RestIsLive(Other, rows, {}, cs);
    assert Rest(Other, rows, {}, cs) == cs;
    assert forall i | 0 <= i < |cs| :: Live(rows, cs[i]);
    AllLiveStays(more, cs);
  }

  // From then on no client can be added to that inbound.
  lemma UntidyEmailBlocksInbound(p: Panel, ib: int, c: Client, more: seq<Client>)
    requires Consistent(p) && ib in p.inbounds && NewUntidy(p.inbounds[ib].protocol, p.index, c)
    ensures var q := Next(p, Add(ib, [c]));
            Next(q, Add(ib, more)) == q
  {
    var x, kept := p.index, Compact(p.index.records.Keys, p.inbounds[ib].clients);
    UntidyIsAdded(p, ib, c);
    CompactSucceeds(x, ib, p.inbounds[ib].clients);
    var y := Next(p, Add(ib, [c])).index;
    RowsStillThere(x, y, kept);
    UnsettledStops(y, ib, kept, c, more);
    LiveGrows(x.records.Keys, y.records.Keys, kept);
    CompactAdds(y.records.Keys, kept, c);
  }

  // The row of an e-mail that no entry names is not linked.
  lemma UnnamedIsUnlinked(y: Index, ib: int, cs: seq<Client>, e: string)
    requires Valid(y) && AllSettled(y, cs) && SyncAll(y, ib, cs).Done? && e in y.records
    requires forall i | 0 <= i < |cs| :: Trim(cs[i].email) != e
    ensures var z := SyncAll(y, ib, cs).index;
            e in z.records && Link(z.records[e].id, ib) !in z.links
  {
    SyncKeeps(y, ib, cs);
    var z := SyncAll(y, ib, cs).index;
    if Link(z.records[e].id, ib) in z.links {
      var i := TakenIsRepeated(y, ib, cs, e);
    }
  }

  lemma LeftSucceeds(x: Index, y: Index, ib: int, pr: Protocol, gone: set<string>, kept: seq<Client>)
    requires Valid(y) && RowsStay(x, y) && AllSettled(x, kept) && AllHaveRows(x, kept) && DistinctEmails(kept)
    ensures var left := Rest(pr, y.records.Keys, gone, kept);
            AllSettled(y, left) && AllHaveRows(y, left) && SyncAll(y, ib, left).Done?
  {
    var left := Rest(pr, y.records.Keys, gone, kept);
    RestIsLive(pr, y.records.Keys, gone, kept);
    RestStaysDistinct(pr, y.records.Keys, gone, kept);
    forall i | 0 <= i < |left| ensures Settled(y, left[i]) && HasRow(y, left[i]) {
      var k :| 0 <= k < |kept| && kept[k] == left[i];
      assert Settled(x, kept[k]) && HasRow(x, kept[k]);
    }
    SyncSucceedsIff(y, ib, left);
  }

  // Such a state does not agree: the trimmed e-mail of the entry has no row.
  lemma NotLinkedAnywhere(r: Panel, ib: int, c: Client, y: Index, left: seq<Client>)
    requires ib in r.inbounds && c in r.inbounds[ib].clients && !Settled(y, c) && AllHaveRows(y, left)
    requires r.index == SyncAll(y, ib, left).index
    ensures !Consistent(r)
  {
    NoNewRows(y, ib, left);
    var i :| 0 <= i < |r.inbounds[ib].clients| && r.inbounds[ib].clients[i] == c;
    assert !Linked(r.index, ib, r.inbounds[ib].clients[i]);
  }

  // What a detach makes of a list that ends in such an entry.
  lemma DetachFails(x: Index, q: Panel, ib: int, c: Client, key: string, kept: seq<Client>)
    requires ib in q.inbounds && q.inbounds[ib].clients == kept + [c] && Valid(q.index) && RowsStay(x, q.index)
    requires AllSettled(x, kept) && AllHaveRows(x, kept) && DistinctEmails(kept)
    requires !Settled(q.index, c) && c.email in q.index.records
    requires key != "" && Key(q.inbounds[ib].protocol, c) != key && Hit(q.inbounds[ib].protocol, {key}, kept + [c])
    ensures var y, pr := q.index, q.inbounds[ib].protocol;
            var left := Rest(pr, y.records.Keys, {key}, kept);
            && Next(q, Detach(ib, [key])) ==
                 Panel(SyncAll(y, ib, left).index, q.inbounds[ib := q.inbounds[ib].(clients := left + [c])])
            && AllSettled(y, left) && AllHaveRows(y, left) && SyncAll(y, ib, left).Done?
  {
    var y, pr := q.index, q.inbounds[ib].protocol;
    var left := Rest(pr, y.records.Keys, {key}, kept);
    assert NonEmpty([key]) == {key};
    RestAdds(pr, y.records.Keys, {key}, kept, c);
    LeftSucceeds(x, y, ib, pr, {key}, kept);
    UnsettledStops(y, ib, left, c, []);
  }

  // Detaching another client of that inbound then saves the settings, fails to synchronize
  // them, and leaves the entry without its link.
  lemma UntidyEntryComesLoose(p: Panel, ib: int, c: Client, key: string)
    requires Consistent(p) && ib in p.inbounds && NewUntidy(p.inbounds[ib].protocol, p.index, c)
    requires key != "" && Key(p.inbounds[ib].protocol, c) != key && Hit(p.inbounds[ib].protocol, {key}, Grown(p, ib, c))
    ensures var r := Next(Next(p, Add(ib, [c])), Detach(ib, [key]));
            && ib in r.inbounds && c in r.inbounds[ib].clients
            && c.email in r.index.records && Link(r.index.records[c.email].id, ib) !in r.index.links
            && !Consistent(r)
  {
    var x, kept := p.index, Compact(p.index.records.Keys, p.inbounds[ib].clients);
    UntidyIsAdded(p, ib, c);
    CompactSucceeds(x, ib, p.inbounds[ib].clients);
    var q := Next(p, Add(ib, [c]));
    DetachFails(x, q, ib, c, key, kept);
    var left := Rest(p.inbounds[ib].protocol, q.index.records.Keys, {key}, kept);
    forall i | 0 <= i < |left| ensures Trim(left[i].email) != c.email {
      TrimTwice(left[i].email);
    }
    UnnamedIsUnlinked(q.index, ib, left, c.email);
    var r := Next(q, Detach(ib, [key]));
    assert (left + [c])[|left|] == c;
    NotLinkedAnywhere(r, ib, c, q.index, left);
  }

  // A panel with one inbound and no clients.
  function NewPanel(): Panel {
    Panel(Index(map[], map[], 1), map[1 := Inbound(Other, [])])
  }

  lemma FirstClient(b: Client)
    requires Accepted(b.email) && Tidy(b.email) && b.id != ""
    ensures var p := Next(NewPanel(), Add(1, [b]));
            Consistent(p) && p.inbounds == map[1 := Inbound(Other, [b])] && p.index.records.Keys == {b.email}
  {
    var x := NewPanel().index;
    assert Consistent(NewPanel());
    TrimIsTidy(b.email);
    NextConsistentIff(NewPanel(), Add(1, [b]));
    assert [] + [b] == [b] && [b][..0] == [];
    assert SyncAll(x, 1, []) == Done(Unlink(x, 1));
    assert MayAdd(Other, x, [b][0]);
  }

  lemma SecondComesLoose(p: Panel, b: Client, c: Client)
    requires Consistent(p) && p.inbounds == map[1 := Inbound(Other, [b])] && p.index.records.Keys == {b.email}
    requires Accepted(b.email) && Tidy(b.email) && Accepted(c.email) && Trim(c.email) != c.email
    requires Trim(c.email) != b.email && b.id != c.id && b.id != "" && c.id != ""
    ensures !Consistent(Next(Next(p, Add(1, [c])), Detach(1, [b.id])))
  {
    TrimIsTidy(b.email);
    TrimIsTidy(c.email);
    AllLiveStays({b.email}, [b]);
    assert Grown(p, 1, c)[0] == b;
    UntidyEntryComesLoose(p, 1, c, b.id);
  }

  // From an empty panel: two clients with accepted e-mails are created, the first one is
  // detached, and the second one's entry is left without a link.
  lemma LooseRun(b: Client, c: Client)
    requires Accepted(b.email) && Tidy(b.email) && Accepted(c.email) && Trim(c.email) != c.email
    requires Trim(c.email) != b.email && b.id != c.id && b.id != "" && c.id != ""
    ensures !Consistent(Next(Next(Next(NewPanel(), Add(1, [b])), Add(1, [c])), Detach(1, [b.id])))
  {
    var p := Next(NewPanel(), Add(1, [b]));
    FirstClient(b);
    SecondComesLoose(p, b, c);
  }

  // ------------------------------------------------------------------
  // Listings
  // ------------------------------------------------------------------

  // d is how the row of an entry with an e-mail is listed with the entry's flow.
  predicate ShowsEntry(x: Index, cs: seq<Client>, d: Client) {
    exists i | 0 <= i < |cs| ::
      Trim(cs[i].email) != "" && Trim(cs[i].email) == d.email && d.email in x.records &&
      d == ToClient(d.email, x.records[d.email], cs[i].flow)
  }

  // The listing of an inbound has one client for each of its entries with an e-mail, and
  // shows the flow of that entry, not the flow the row was last given by another inbound.
  lemma ListingShowsOwnFlow(p: Panel, ib: int, d: Client)
    requires Consistent(p) && ib in p.inbounds
    ensures d in Listing(p.index, ib, p.index.nextId) <==> ShowsEntry(p.index, p.inbounds[ib].clients, d)
  {
    var x, cs := p.index, p.inbounds[ib].clients;
    assert Agrees(x, ib, cs);
    ListingExact(x, ib, x.nextId, d);
    if d in Listing(x, ib, x.nextId) {
      assert OwnsLink(x, cs, x.records[d.email].id);
      var i :| 0 <= i < |cs| && Trim(cs[i].email) != "" && Trim(cs[i].email) in x.records &&
        x.records[Trim(cs[i].email)].id == x.records[d.email].id;
      assert Linked(x, ib, cs[i]);
    }
    if ShowsEntry(x, cs, d) {
      var i :| 0 <= i < |cs| && Trim(cs[i].email) != "" && Trim(cs[i].email) == d.email && d.email in x.records &&
        d == ToClient(d.email, x.records[d.email], cs[i].flow);
      assert Linked(x, ib, cs[i]);
    }
  }

  lemma {:induction false} SettingsSurviveSiblings(p: Panel, evs: seq<Event>, ib: int)
    requires ib in p.inbounds && forall k | 0 <= k < |evs| :: evs[k].ib != ib
    ensures ib in Run(p, evs).inbounds && Run(p, evs).inbounds[ib] == p.inbounds[ib]
    decreases |evs|
  {
    if evs != [] {
      SettingsSurviveSiblings(p, evs[..|evs| - 1], ib);
    }
  }

  // Whatever other inbounds go through, the inbound lists exactly its own entries with an
  // e-mail, each with its own flow; only the other fields follow the rows.
  lemma FlowSurvivesSiblings(p: Panel, evs: seq<Event>, ib: int, d: Client)
    requires Consistent(p) && SoundRun(p, evs) && ib in p.inbounds
    requires forall k | 0 <= k < |evs| :: evs[k].ib != ib
    ensures var x := Run(p, evs).index;
            d in Listing(x, ib, x.nextId) <==> ShowsEntry(x, p.inbounds[ib].clients, d)
  {
    RunIsConsistentIff(p, evs);
    SettingsSurviveSiblings(p, evs, ib);
    ListingShowsOwnFlow(Run(p, evs), ib, d);
  }

  // And none of its entries drops out of the listing.
  lemma EntriesStayListed(p: Panel, evs: seq<Event>, ib: int, i: nat)
    requires Consistent(p) && SoundRun(p, evs) && ib in p.inbounds && i < |p.inbounds[ib].clients|
    requires Trim(p.inbounds[ib].clients[i].email) != "" && forall k | 0 <= k < |evs| :: evs[k].ib != ib
    ensures var x, c := Run(p, evs).index, p.inbounds[ib].clients[i];
            Trim(c.email) in x.records &&
            ToClient(Trim(c.email), x.records[Trim(c.email)], c.flow) in Listing(x, ib, x.nextId)
  {
    RunIsConsistentIff(p, evs);
    SettingsSurviveSiblings(p, evs, ib);
    var x, cs := Run(p, evs).index, p.inbounds[ib].clients;
    assert Agrees(x, ib, cs);
    assert Linked(x, ib, cs[i]);
    FlowSurvivesSiblings(p, evs, ib, ToClient(Trim(cs[i].email), x.records[Trim(cs[i].email)], cs[i].flow));
  }

  // ------------------------------------------------------------------
  // Bulk detach and single detaches
  // ------------------------------------------------------------------

  function Singles(ib: int, keys: seq<string>): seq<Event> {
    seq(|keys|, k requires 0 <= k < |keys| => Detach(ib, [keys[k]]))
  }

  // The same rows under the same ids, and the links of other inbounds as they were.
  ghost predicate SameRows(x: Index, y: Index, ib: int) {
    y.records.Keys == x.records.Keys && RowsStay(x, y) && OthersStay(x, y, ib)
  }

  lemma SameRowsTwice(x: Index, y: Index, z: Index, ib: int)
    requires SameRows(x, y, ib) && SameRows(y, z, ib)
    ensures SameRows(x, z, ib)
  {
  }

  lemma LastSingle(p: Panel, ib: int, keys: seq<string>)
    requires keys != []
    ensures var front, k := keys[..|keys| - 1], keys[|keys| - 1];
            Run(p, Singles(ib, keys)) == Next(Run(p, Singles(ib, front)), Detach(ib, [k]))
  {
    assert Singles(ib, keys)[..|keys| - 1] == Singles(ib, keys[..|keys| - 1]);
  }

  function WithClients(p: Panel, ib: int, cs: seq<Client>): map<int, Inbound>
    requires ib in p.inbounds
  {
    p.inbounds[ib := p.inbounds[ib].(clients := cs)]
  }

  lemma DetachEffect(p: Panel, ib: int, keys: seq<string>)
    requires Consistent(p) && ib in p.inbounds
    ensures var q, inb := Next(p, Detach(ib, keys)), p.inbounds[ib];
            Consistent(q) && SameRows(p.index, q.index, ib) &&
            q.inbounds == WithClients(p, ib, Pruned(inb.protocol, p.index.records.Keys, NonEmpty(keys), inb.clients))
  {
    var inb := p.inbounds[ib];
    var list := Rest(inb.protocol, p.index.records.Keys, NonEmpty(keys), inb.clients);
    NextConsistentIff(p, Detach(ib, keys));
    RestSucceeds(p.index, ib, inb.protocol, NonEmpty(keys), inb.clients);
    NoNewRows(p.index, ib, list);
    SyncKeeps(p.index, ib, list);
    if !Hit(inb.protocol, NonEmpty(keys), inb.clients) {
      assert WithClients(p, ib, inb.clients) == p.inbounds;
    }
  }

  lemma DelOneMore(pr: Protocol, rows: set<string>, cs: seq<Client>, keys: seq<string>)
    requires keys != []
    ensures DelEach(pr, rows, cs, Given(keys)) ==
              Pruned(pr, rows, NonEmpty([keys[|keys| - 1]]), DelEach(pr, rows, cs, Given(keys[..|keys| - 1])))
  {
    var front, k := Given(keys[..|keys| - 1]), keys[|keys| - 1];
    assert NonEmpty([k]) == if k == "" then {} else {k};
    if k == "" {
      assert Given(keys) == front;
    } else {
      assert Given(keys) == front + [k] && (front + [k])[..|front|] == front;
    }
  }

  lemma SingleEffect(p: Panel, q: Panel, ib: int, k: string, cs: seq<Client>)
    requires ib in p.inbounds && Consistent(q) && SameRows(p.index, q.index, ib) && q.inbounds == WithClients(p, ib, cs)
    ensures var r, pr := Next(q, Detach(ib, [k])), p.inbounds[ib].protocol;
            Consistent(r) && SameRows(p.index, r.index, ib) &&
            r.inbounds == WithClients(p, ib, Pruned(pr, p.index.records.Keys, NonEmpty([k]), cs))
  {
    DetachEffect(q, ib, [k]);
    SameRowsTwice(p.index, q.index, Next(q, Detach(ib, [k])).index, ib);
  }

  lemma {:induction false} SinglesEffect(p: Panel, ib: int, keys: seq<string>)
    requires Consistent(p) && ib in p.inbounds
    ensures var q, inb := Run(p, Singles(ib, keys)), p.inbounds[ib];
            Consistent(q) && SameRows(p.index, q.index, ib) &&
            q.inbounds == WithClients(p, ib, DelEach(inb.protocol, p.index.records.Keys, inb.clients, Given(keys)))
    decreases |keys|
  {
    if keys == [] {
      assert WithClients(p, ib, p.inbounds[ib].clients) == p.inbounds;
    } else {
      var front, pr, rows := keys[..|keys| - 1], p.inbounds[ib].protocol, p.index.records.Keys;
      SinglesEffect(p, ib, front);
      LastSingle(p, ib, keys);
      SingleEffect(p, Run(p, Singles(ib, front)), ib, keys[|keys| - 1],
        DelEach(pr, rows, p.inbounds[ib].clients, Given(front)));
      DelOneMore(pr, rows, p.inbounds[ib].clients, keys);
    }
  }

  lemma LinksDetermined(x: Index, y: Index, z: Index, ib: int, cs: seq<Client>)
    requires SameRows(x, y, ib) && SameRows(x, z, ib) && Agrees(y, ib, cs) && Agrees(z, ib, cs)
    ensures forall l | l in y.links :: l in z.links && z.links[l] == y.links[l]
  {
    forall l | l in y.links ensures l in z.links && z.links[l] == y.links[l] {
      if l.inbound == ib {
        assert Link(l.client, ib) in y.links && OwnsLink(y, cs, l.client);
        var i :| 0 <= i < |cs| && Trim(cs[i].email) != "" && Trim(cs[i].email) in y.records &&
          y.records[Trim(cs[i].email)].id == l.client;
        assert Linked(y, ib, cs[i]) && Linked(z, ib, cs[i]);
        assert Trim(cs[i].email) in x.records;
      }
    }
  }

  // One bulk detach and single detaches of the same clients, in any order and whether or
  // not they all have a key for this protocol, end with the same settings in every inbound
  // and the same links.
  lemma BulkDetachEqualsSingles(p: Panel, ib: int, keys: seq<string>)
    requires Consistent(p) && ib in p.inbounds
    ensures var bulk, singles := Next(p, Detach(ib, keys)), Run(p, Singles(ib, keys));
            bulk.inbounds == singles.inbounds && bulk.index.links == singles.index.links
  {
    var bulk, singles, inb := Next(p, Detach(ib, keys)), Run(p, Singles(ib, keys)), p.inbounds[ib];
    DetachEffect(p, ib, keys);
    SinglesEffect(p, ib, keys);
    BatchEqualsSingles(inb.protocol, p.index.records.Keys, inb.clients, keys);
    var cs := bulk.inbounds[ib].clients;
    LinksDetermined(p.index, bulk.index, singles.index, ib, cs);
    LinksDetermined(p.index, singles.index, bulk.index, ib, cs);
  }
}
