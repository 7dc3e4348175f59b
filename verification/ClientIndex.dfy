// The client table and the link table, rebuilt for one inbound at a time from the entries
// in that inbound's settings.

module ClientIndex {

  import opened Settings
  import opened Text

  // A row of the client table; its e-mail is the key it is stored under.
  datatype Rec = Rec(id: nat, uuid: string, password: string, auth: string, flow: string, subId: string,
                     enable: bool, expiryTime: int, exempt: bool)

  datatype Link = Link(client: nat, inbound: int)

  // links gives the flow each inbound uses for each of its clients.
  datatype Index = Index(records: map<string, Rec>, links: map<Link, string>, nextId: nat)

  ghost predicate IdsBelow(x: Index) {
    forall e | e in x.records :: x.records[e].id < x.nextId
  }

  ghost predicate IdsUnique(x: Index) {
    forall e, f | e in x.records && f in x.records && x.records[e].id == x.records[f].id :: e == f
  }

  ghost predicate IsClient(x: Index, id: nat) {
    exists e :: e in x.records && x.records[e].id == id
  }

  ghost predicate LinksResolve(x: Index) {
    forall l | l in x.links :: IsClient(x, l.client)
  }

  ghost predicate Valid(x: Index) {
    IdsBelow(x) && IdsUnique(x) && LinksResolve(x)
  }

  // ------------------------------------------------------------------
  // Synchronizing one inbound
  // ------------------------------------------------------------------

  function Keep(given: string, stored: string): string {
    if given != "" then given else stored
  }

  // Credentials are overwritten only by non-empty ones, everything else always; the id and
  // the exemption stay.
  function Updated(r: Rec, c: Client): Rec {
    Rec(r.id, Keep(c.id, r.uuid), Keep(c.password, r.password), Keep(c.auth, r.auth), c.flow, c.subId,
        c.enable, c.expiryTime, r.exempt)
  }

  function Created(id: nat, c: Client): Rec {
    Rec(id, c.id, c.password, c.auth, c.flow, c.subId, c.enable, c.expiryTime, false)
  }

  datatype Outcome = Done(index: Index) | Failed(index: Index)

  // A second link between the same client and inbound violates the primary key.
  function LinkUp(x: Index, l: Link, flow: string): Outcome {
    if l in x.links then Failed(x) else Done(x.(links := x.links[l := flow]))
  }

  function WithUpdated(x: Index, e: string, c: Client): Index
    requires e in x.records
  {
    x.(records := x.records[e := Updated(x.records[e], c)])
  }

  function WithCreated(x: Index, c: Client): Index {
    Index(x.records[c.email := Created(x.nextId, c)], x.links, x.nextId + 1)
  }

  // The row is looked up by the trimmed e-mail, but a new row gets the e-mail as written,
  // which the unique index may refuse.
  function SyncStep(o: Outcome, ib: int, c: Client): Outcome {
    var x := o.index;
    var e := Trim(c.email);
    if o.Failed? || e == "" then o
    else if e in x.records then
      LinkUp(WithUpdated(x, e, c), Link(x.records[e].id, ib), c.flow)
    else if c.email in x.records then Failed(x)
    else
      LinkUp(WithCreated(x, c), Link(x.nextId, ib), c.flow)
  }

  function Unlink(x: Index, ib: int): Index {
    x.(links := map l | l in x.links && l.inbound != ib :: x.links[l])
  }

  function SyncAll(x: Index, ib: int, cs: seq<Client>): Outcome
    decreases |cs|
  {
    if cs == [] then Done(Unlink(x, ib)) else SyncStep(SyncAll(x, ib, cs[..|cs| - 1]), ib, cs[|cs| - 1])
  }

  lemma {:induction false} StopsAtFailure(x: Index, ib: int, cs: seq<Client>, k: nat)
    requires k <= |cs|
    ensures SyncAll(x, ib, cs[..k]).Failed? ==> SyncAll(x, ib, cs) == SyncAll(x, ib, cs[..k])
    decreases |cs|
  {
    if k < |cs| {
      StopsAtFailure(x, ib, cs[..|cs| - 1], k);
      assert cs[..|cs| - 1][..k] == cs[..k];
    } else {
      assert cs[..k] == cs;
    }
  }

  // ------------------------------------------------------------------
  // What a synchronization keeps
  // ------------------------------------------------------------------

  // y has every row of x under the same id and with the same exemption.
  ghost predicate RowsStay(x: Index, y: Index) {
    forall e | e in x.records ::
      e in y.records && y.records[e].id == x.records[e].id && y.records[e].exempt == x.records[e].exempt
  }

  ghost predicate OthersStay(x: Index, y: Index, ib: int) {
    forall l: Link | l.inbound != ib ::
      (l in y.links <==> l in x.links) && (l in x.links ==> y.links[l] == x.links[l])
  }

  lemma ClientsStay(x: Index, y: Index)
    requires RowsStay(x, y)
    ensures forall id: nat | IsClient(x, id) :: IsClient(y, id)
  {
    forall id: nat | IsClient(x, id) ensures IsClient(y, id) {
      var f :| f in x.records && x.records[f].id == id;
      assert f in y.records && y.records[f].id == id;
    }
  }

  lemma UpdateKeeps(x: Index, e: string, c: Client)
    requires Valid(x) && e in x.records
    ensures var y := WithUpdated(x, e, c);
            Valid(y) && RowsStay(x, y) && IsClient(y, x.records[e].id)
  {
    var y := WithUpdated(x, e, c);
    assert forall f | f in y.records :: f in x.records && y.records[f].id == x.records[f].id;
    ClientsStay(x, y);
    assert y.records[e].id == x.records[e].id;
  }

  lemma CreateKeeps(x: Index, c: Client)
    requires Valid(x) && c.email !in x.records
    ensures var y := WithCreated(x, c);
            Valid(y) && RowsStay(x, y) && IsClient(y, x.nextId)
  {
    var y := WithCreated(x, c);
    assert y.records[c.email].id == x.nextId;
    assert forall f | f in y.records && f != c.email :: f in x.records && y.records[f] == x.records[f];
    ClientsStay(x, y);
  }

  lemma LinkKeeps(x: Index, l: Link, flow: string)
    requires Valid(x) && IsClient(x, l.client)
    ensures var y := LinkUp(x, l, flow).index;
            Valid(y) && y.records == x.records && OthersStay(x, y, l.inbound)
  {
  }

  lemma StepUpdateKeeps(x: Index, ib: int, c: Client)
    requires Valid(x) && Trim(c.email) in x.records
    ensures var y := LinkUp(WithUpdated(x, Trim(c.email), c), Link(x.records[Trim(c.email)].id, ib), c.flow).index;
            Valid(y) && RowsStay(x, y) && OthersStay(x, y, ib)
  {
    var e := Trim(c.email);
    UpdateKeeps(x, e, c);
    LinkKeeps(WithUpdated(x, e, c), Link(x.records[e].id, ib), c.flow);
  }

  lemma StepCreateKeeps(x: Index, ib: int, c: Client)
    requires Valid(x) && c.email !in x.records
    ensures var y := LinkUp(WithCreated(x, c), Link(x.nextId, ib), c.flow).index;
            Valid(y) && RowsStay(x, y) && OthersStay(x, y, ib)
  {
    CreateKeeps(x, c);
    LinkKeeps(WithCreated(x, c), Link(x.nextId, ib), c.flow);
  }

  lemma StepKeeps(x: Index, ib: int, c: Client)
    requires Valid(x)
    ensures var y := SyncStep(Done(x), ib, c).index;
            Valid(y) && RowsStay(x, y) && OthersStay(x, y, ib)
  {
    var e := Trim(c.email);
    if e == "" {
    } else if e in x.records {
      StepUpdateKeeps(x, ib, c);
    } else if c.email !in x.records {
      StepCreateKeeps(x, ib, c);
    }
  }

  lemma {:induction false} SyncKeeps(x: Index, ib: int, cs: seq<Client>)
    requires Valid(x)
    ensures var y := SyncAll(x, ib, cs).index;
            Valid(y) && RowsStay(x, y) && OthersStay(x, y, ib)
    decreases |cs|
  {
    if cs == [] {
      var y := Unlink(x, ib);
      forall id: nat | IsClient(x, id) ensures IsClient(y, id) {
        var f :| f in x.records && x.records[f].id == id;
        assert f in y.records && y.records[f].id == id;
      }
    } else {
      var front := cs[..|cs| - 1];
      SyncKeeps(x, ib, front);
      if SyncAll(x, ib, front).Done? {
        StepKeeps(SyncAll(x, ib, front).index, ib, cs[|cs| - 1]);
      }
    }
  }

  // ------------------------------------------------------------------
  // What a synchronization links
  // ------------------------------------------------------------------

  // The client id that entry c is linked under when it is reached in state x.
  function IdFor(x: Index, c: Client): nat {
    if Trim(c.email) in x.records then x.records[Trim(c.email)].id else x.nextId
  }

  predicate LinkedAs(x: Index, ib: int, cs: seq<Client>, i: nat, id: nat)
    requires i < |cs|
  {
    Trim(cs[i].email) != "" && IdFor(SyncAll(x, ib, cs[..i]).index, cs[i]) == id
  }

  predicate SomeLinked(x: Index, ib: int, cs: seq<Client>, id: nat) {
    exists i: nat | i < |cs| :: LinkedAs(x, ib, cs, i, id)
  }

  lemma LastLinks(x: Index, ib: int, cs: seq<Client>, id: nat)
    requires cs != [] && SyncAll(x, ib, cs).Done?
    ensures var was, now := SyncAll(x, ib, cs[..|cs| - 1]).index.links, SyncAll(x, ib, cs).index.links;
            if LinkedAs(x, ib, cs, |cs| - 1, id)
            then Link(id, ib) !in was && Link(id, ib) in now && now[Link(id, ib)] == cs[|cs| - 1].flow
            else
              && (Link(id, ib) in now <==> Link(id, ib) in was)
              && (Link(id, ib) in was ==> now[Link(id, ib)] == was[Link(id, ib)])
  {
  }

  lemma FrontLinks(x: Index, ib: int, cs: seq<Client>, id: nat)
    requires cs != []
    ensures forall i: nat | i < |cs| - 1 :: LinkedAs(x, ib, cs[..|cs| - 1], i, id) <==> LinkedAs(x, ib, cs, i, id)
    ensures forall i: nat | i < |cs| - 1 :: cs[..|cs| - 1][i] == cs[i]
    ensures SomeLinked(x, ib, cs, id) <==> SomeLinked(x, ib, cs[..|cs| - 1], id) || LinkedAs(x, ib, cs, |cs| - 1, id)
  {
    var front := cs[..|cs| - 1];
    forall i: nat | i < |front| ensures LinkedAs(x, ib, front, i, id) <==> LinkedAs(x, ib, cs, i, id) {
      assert front[..i] == cs[..i] && front[i] == cs[i];
    }
    if SomeLinked(x, ib, front, id) {
      var i: nat :| i < |front| && LinkedAs(x, ib, front, i, id);
      assert LinkedAs(x, ib, cs, i, id);
    }
  }

  lemma {:induction false} LinkIffSomeLinked(x: Index, ib: int, cs: seq<Client>, id: nat)
    requires SyncAll(x, ib, cs).Done?
    ensures Link(id, ib) in SyncAll(x, ib, cs).index.links <==> SomeLinked(x, ib, cs, id)
    decreases |cs|
  {
    if cs != [] {
      LinkIffSomeLinked(x, ib, cs[..|cs| - 1], id);
      FrontLinks(x, ib, cs, id);
      LastLinks(x, ib, cs, id);
    }
  }

  lemma {:induction false} LinkHasFlow(x: Index, ib: int, cs: seq<Client>, i: nat, id: nat)
    requires SyncAll(x, ib, cs).Done? && i < |cs| && LinkedAs(x, ib, cs, i, id)
    ensures var y := SyncAll(x, ib, cs).index;
            Link(id, ib) in y.links && y.links[Link(id, ib)] == cs[i].flow
    decreases |cs|
  {
    LastLinks(x, ib, cs, id);
    if i < |cs| - 1 {
      FrontLinks(x, ib, cs, id);
      LinkHasFlow(x, ib, cs[..|cs| - 1], i, id);
    }
  }

  // After a successful run the inbound's links are those of its entries with an e-mail,
  // each with that entry's own flow.
  lemma LinksExact(x: Index, ib: int, cs: seq<Client>, id: nat)
    requires SyncAll(x, ib, cs).Done?
    ensures var y := SyncAll(x, ib, cs).index;
            && (Link(id, ib) in y.links <==> SomeLinked(x, ib, cs, id))
            && (forall i: nat | i < |cs| && LinkedAs(x, ib, cs, i, id) ::
                  Link(id, ib) in y.links && y.links[Link(id, ib)] == cs[i].flow)
  {
    LinkIffSomeLinked(x, ib, cs, id);
    forall i: nat | i < |cs| && LinkedAs(x, ib, cs, i, id)
      ensures Link(id, ib) in SyncAll(x, ib, cs).index.links &&
        SyncAll(x, ib, cs).index.links[Link(id, ib)] == cs[i].flow
    {
      LinkHasFlow(x, ib, cs, i, id);
    }
  }

  // ------------------------------------------------------------------
  // When a synchronization succeeds
  // ------------------------------------------------------------------

  // Looking up the trimmed e-mail finds the row, or will create it under that very e-mail.
  predicate Settled(x: Index, c: Client) {
    Trim(c.email) == "" || Trim(c.email) == c.email || Trim(c.email) in x.records
  }

  predicate AllSettled(x: Index, cs: seq<Client>) {
    forall i | 0 <= i < |cs| :: Settled(x, cs[i])
  }

  predicate DistinctEmails(cs: seq<Client>) {
    forall i, j | 0 <= i < j < |cs| :: Trim(cs[i].email) == "" || Trim(cs[i].email) != Trim(cs[j].email)
  }

  // Entry i is linked to the row of its trimmed e-mail.
  predicate LinkedToRow(x: Index, ib: int, cs: seq<Client>, i: nat)
    requires i < |cs|
  {
    var y, e := SyncAll(x, ib, cs).index, Trim(cs[i].email);
    e != "" ==> e in y.records && LinkedAs(x, ib, cs, i, y.records[e].id)
  }

  lemma {:induction false} EntriesHaveRows(x: Index, ib: int, cs: seq<Client>, i: nat)
    requires Valid(x) && AllSettled(x, cs) && SyncAll(x, ib, cs).Done? && i < |cs|
    ensures LinkedToRow(x, ib, cs, i)
    decreases |cs|
  {
    var front, c := cs[..|cs| - 1], cs[|cs| - 1];
    var yf := SyncAll(x, ib, front).index;
    SyncKeeps(x, ib, front);
    StepKeeps(yf, ib, c);
    if i < |front| {
      EntriesHaveRows(x, ib, front, i);
      assert front[..i] == cs[..i] && front[i] == cs[i];
    } else {
      assert cs[..i] == front;
      assert Settled(x, cs[i]);
    }
  }

  lemma FreshIdUnlinked(x: Index, ib: int)
    requires Valid(x)
    ensures Link(x.nextId, ib) !in x.links
  {
    forall l | l in x.links ensures l.client != x.nextId {
      assert IsClient(x, l.client);
    }
  }

  lemma RepeatedIsTaken(x: Index, ib: int, front: seq<Client>, i: nat)
    requires Valid(x) && AllSettled(x, front) && SyncAll(x, ib, front).Done? && i < |front| &&
      Trim(front[i].email) != ""
    ensures var y, e := SyncAll(x, ib, front).index, Trim(front[i].email);
            e in y.records && Link(y.records[e].id, ib) in y.links &&
              y.links[Link(y.records[e].id, ib)] == front[i].flow
  {
    EntriesHaveRows(x, ib, front, i);
    LinksExact(x, ib, front, SyncAll(x, ib, front).index.records[Trim(front[i].email)].id);
  }

  lemma TakenIsRepeated(x: Index, ib: int, front: seq<Client>, e: string) returns (i: nat)
    requires Valid(x) && AllSettled(x, front) && SyncAll(x, ib, front).Done? && e in SyncAll(x, ib, front).index.records
    requires var y := SyncAll(x, ib, front).index;
             Link(y.records[e].id, ib) in y.links
    ensures i < |front| && Trim(front[i].email) == e != ""
  {
    var y := SyncAll(x, ib, front).index;
    LinksExact(x, ib, front, y.records[e].id);
    assert SomeLinked(x, ib, front, y.records[e].id);
    i :| i < |front| && LinkedAs(x, ib, front, i, y.records[e].id);
    EntriesHaveRows(x, ib, front, i);
    SyncKeeps(x, ib, front);
    assert y.records[Trim(front[i].email)].id == y.records[e].id;
  }

  predicate Repeats(front: seq<Client>, e: string) {
    exists i: nat | i < |front| :: Trim(front[i].email) == e
  }

  // The row of an e-mail is linked already exactly when an earlier entry has that e-mail.
  lemma TakenIffRepeated(x: Index, ib: int, front: seq<Client>, e: string)
    requires Valid(x) && AllSettled(x, front) && SyncAll(x, ib, front).Done? && e != ""
    ensures var y := SyncAll(x, ib, front).index;
            Repeats(front, e) <==> e in y.records && Link(y.records[e].id, ib) in y.links
  {
    var y := SyncAll(x, ib, front).index;
    if Repeats(front, e) {
      var i: nat :| i < |front| && Trim(front[i].email) == e;
      RepeatedIsTaken(x, ib, front, i);
    } else if e in y.records && Link(y.records[e].id, ib) in y.links {
      var i := TakenIsRepeated(x, ib, front, e);
    }
  }

  lemma LastStepSucceedsIff(x: Index, ib: int, front: seq<Client>, c: Client)
    requires Valid(x) && AllSettled(x, front) && Settled(x, c) && SyncAll(x, ib, front).Done? && Trim(c.email) != ""
    ensures SyncStep(SyncAll(x, ib, front), ib, c).Done? <==> !Repeats(front, Trim(c.email))
  {
    SyncKeeps(x, ib, front);
    TakenIffRepeated(x, ib, front, Trim(c.email));
    FreshIdUnlinked(SyncAll(x, ib, front).index, ib);
  }

  lemma {:induction false} SyncSucceedsIff(x: Index, ib: int, cs: seq<Client>)
    requires Valid(x) && AllSettled(x, cs)
    ensures SyncAll(x, ib, cs).Done? <==> DistinctEmails(cs)
    decreases |cs|
  {
    if cs != [] {
      var front, c := cs[..|cs| - 1], cs[|cs| - 1];
      SyncSucceedsIff(x, ib, front);
      assert forall i | 0 <= i < |front| :: cs[i] == front[i];
      if SyncAll(x, ib, front).Done? && Trim(c.email) != "" {
        LastStepSucceedsIff(x, ib, front, c);
      }
    }
  }

  // ------------------------------------------------------------------
  // What a synchronization writes into the client rows
  // ------------------------------------------------------------------

  function RowBefore(x: Index, e: string): Rec {
    if e in x.records then x.records[e] else Rec(x.nextId, "", "", "", "", "", false, 0, false)
  }

  // d has the entry's fields; a credential the entry does not give is the one stored before.
  predicate HasFields(c: Client, was: Rec, enable: bool, expiryTime: int, subId: string, uuid: string,
                      password: string, auth: string) {
    && enable == c.enable && expiryTime == c.expiryTime && subId == c.subId
    && (if c.id == "" then uuid == was.uuid else uuid == c.id)
    && (if c.password == "" then password == was.password else password == c.password)
    && (if c.auth == "" then auth == was.auth else auth == c.auth)
  }

  // The row of the entry's e-mail says what the entry says; an older row keeps its id and
  // its exemption, a new one has none.
  predicate RowFollows(x: Index, y: Index, c: Client) {
    var e, was := Trim(c.email), RowBefore(x, Trim(c.email));
    e in y.records &&
    var r := y.records[e];
    && HasFields(c, was, r.enable, r.expiryTime, r.subId, r.uuid, r.password, r.auth)
    && r.flow == c.flow && r.exempt == was.exempt && (e in x.records ==> r.id == was.id)
  }

  predicate IsNamed(cs: seq<Client>, e: string) {
    exists i | 0 <= i < |cs| :: Trim(cs[i].email) == e
  }

  // Every entry with an e-mail has reached its row, and no other row has changed.
  ghost predicate RowsFollow(x: Index, y: Index, cs: seq<Client>) {
    && (forall i | 0 <= i < |cs| && Trim(cs[i].email) != "" :: RowFollows(x, y, cs[i]))
    && (forall e | e == "" || !IsNamed(cs, e) ::
          (e in y.records <==> e in x.records) && (e in x.records ==> y.records[e] == x.records[e]))
  }

  // Nothing but the row under e differs.
  ghost predicate OtherRowsSame(y: Index, z: Index, e: string) {
    forall f | f != e :: (f in z.records <==> f in y.records) && (f in y.records ==> z.records[f] == y.records[f])
  }

  lemma StepWrites(y: Index, ib: int, c: Client)
    requires Settled(y, c) && SyncStep(Done(y), ib, c).Done? && Trim(c.email) != ""
    ensures var z := SyncStep(Done(y), ib, c).index;
            RowFollows(y, z, c) && OtherRowsSame(y, z, Trim(c.email))
  {
  }

  lemma NamedMore(front: seq<Client>, c: Client, e: string)
    ensures IsNamed(front + [c], e) <==> IsNamed(front, e) || Trim(c.email) == e
  {
    var cs := front + [c];
    assert cs[|front|] == c;
    if IsNamed(front, e) {
      var i :| 0 <= i < |front| && Trim(front[i].email) == e;
      assert Trim(cs[i].email) == e;
    }
  }

  lemma FollowMore(x: Index, y: Index, z: Index, front: seq<Client>, c: Client)
    requires RowsFollow(x, y, front) && Trim(c.email) != "" && !IsNamed(front, Trim(c.email))
    requires RowFollows(y, z, c) && OtherRowsSame(y, z, Trim(c.email))
    ensures RowsFollow(x, z, front + [c])
  {
    var cs := front + [c];
    forall i | 0 <= i < |cs| && Trim(cs[i].email) != "" ensures RowFollows(x, z, cs[i]) {
      if i < |front| {
        assert RowFollows(x, y, front[i]) && Trim(front[i].email) != Trim(c.email);
      }
    }
    forall e | e == "" || !IsNamed(cs, e)
      ensures (e in z.records <==> e in x.records) && (e in x.records ==> z.records[e] == x.records[e])
    {
      NamedMore(front, c, e);
    }
  }

  lemma FollowBlank(x: Index, y: Index, front: seq<Client>, c: Client)
    requires RowsFollow(x, y, front) && Trim(c.email) == ""
    ensures RowsFollow(x, y, front + [c])
  {
    var cs := front + [c];
    forall i | 0 <= i < |cs| && Trim(cs[i].email) != "" ensures RowFollows(x, y, cs[i]) {
      assert cs[i] == front[i];
    }
    forall e | e == "" || !IsNamed(cs, e)
      ensures (e in y.records <==> e in x.records) && (e in x.records ==> y.records[e] == x.records[e])
    {
      NamedMore(front, c, e);
    }
  }

  lemma LastIsNew(cs: seq<Client>)
    requires cs != [] && DistinctEmails(cs) && Trim(cs[|cs| - 1].email) != ""
    ensures !IsNamed(cs[..|cs| - 1], Trim(cs[|cs| - 1].email))
  {
  }

  lemma {:induction false} RowsAreWritten(x: Index, ib: int, cs: seq<Client>)
    requires Valid(x) && AllSettled(x, cs) && SyncAll(x, ib, cs).Done?
    ensures RowsFollow(x, SyncAll(x, ib, cs).index, cs)
    decreases |cs|
  {
    if cs != [] {
      var front, c := cs[..|cs| - 1], cs[|cs| - 1];
      assert cs == front + [c] && Settled(x, c);
      RowsAreWritten(x, ib, front);
      SyncKeeps(x, ib, front);
      var y := SyncAll(x, ib, front).index;
      if Trim(c.email) == "" {
        FollowBlank(x, y, front, c);
      } else {
        SyncSucceedsIff(x, ib, cs);
        LastIsNew(cs);
        StepWrites(y, ib, c);
        FollowMore(x, y, SyncAll(x, ib, cs).index, front, c);
      }
    }
  }

  // ------------------------------------------------------------------
  // Synchronizing the same entries again
  // ------------------------------------------------------------------

  // The tables refuse to create a row for this entry.
  predicate HasRow(x: Index, c: Client) {
    Trim(c.email) == "" || Trim(c.email) in x.records || c.email in x.records
  }

  predicate AllHaveRows(x: Index, cs: seq<Client>) {
    forall i | 0 <= i < |cs| :: HasRow(x, cs[i])
  }

  lemma {:induction false} RowsAfterSync(x: Index, ib: int, cs: seq<Client>)
    requires Valid(x) && SyncAll(x, ib, cs).Done?
    ensures AllHaveRows(SyncAll(x, ib, cs).index, cs)
    decreases |cs|
  {
    if cs != [] {
      var front := cs[..|cs| - 1];
      RowsAfterSync(x, ib, front);
      SyncKeeps(x, ib, front);
      StepKeeps(SyncAll(x, ib, front).index, ib, cs[|cs| - 1]);
      assert forall i | 0 <= i < |front| :: cs[i] == front[i];
    }
  }

  lemma {:induction false} NoNewRows(x: Index, ib: int, cs: seq<Client>)
    requires AllHaveRows(x, cs)
    ensures SyncAll(x, ib, cs).index.records.Keys == x.records.Keys
    decreases |cs|
  {
    if cs != [] {
      var front := cs[..|cs| - 1];
      assert forall i | 0 <= i < |front| :: cs[i] == front[i];
      NoNewRows(x, ib, front);
      assert HasRow(x, cs[|cs| - 1]);
    }
  }

  // An entry whose e-mail has spaces around it is created under the e-mail as written and
  // looked up under the trimmed one: synchronizing the same entries again succeeds exactly
  // when every entry is found under its trimmed e-mail and these are all different.
  lemma ResyncSucceedsIff(x: Index, ib: int, cs: seq<Client>)
    requires Valid(x) && SyncAll(x, ib, cs).Done?
    ensures var y := SyncAll(x, ib, cs).index;
            SyncAll(y, ib, cs).Done? <==> AllSettled(y, cs) && DistinctEmails(cs)
  {
    var y := SyncAll(x, ib, cs).index;
    SyncKeeps(x, ib, cs);
    RowsAfterSync(x, ib, cs);
    if AllSettled(y, cs) {
      SyncSucceedsIff(y, ib, cs);
    } else {
      var i: nat :| i < |cs| && !Settled(y, cs[i]);
      assert HasRow(y, cs[i]);
      NoNewRows(y, ib, cs[..i]);
      StopsAtFailure(y, ib, cs, i + 1);
      assert cs[..i + 1][..i] == cs[..i];
    }
  }

  // ------------------------------------------------------------------
  // The tables in place
  // ------------------------------------------------------------------

  class Tables {
    var records: map<string, Rec>
    var links: map<Link, string>
    var nextId: nat

    function View(): Index
      reads this
    {
      Index(records, links, nextId)
    }

    method SyncClient(ib: int, c: Client) returns (ok: bool)
      modifies this
      ensures View() == SyncStep(Done(old(View())), ib, c).index
      ensures ok == SyncStep(Done(old(View())), ib, c).Done?
    {
      var email := Trim(c.email);
      if email == "" {
        return true;
      }
      var id: nat;
      if email in records {
        id := records[email].id;
        records := records[email := Updated(records[email], c)];
      } else {
        if c.email in records {
          return false;
        }
        id := nextId;
        records, nextId := records[c.email := Created(id, c)], nextId + 1;
      }
      if Link(id, ib) in links {
        return false;
      }
      links := links[Link(id, ib) := c.flow];
      return true;
    }

    // Replaces the links of the inbound by one for each entry with an e-mail, and brings
    // the clients' rows up to date. Stops at the first entry the tables refuse.
    method SyncInbound(ib: int, clients: seq<Client>) returns (ok: bool)
      modifies this
      ensures View() == SyncAll(old(View()), ib, clients).index
      ensures ok == SyncAll(old(View()), ib, clients).Done?
      ensures ok && Valid(old(View())) && AllSettled(old(View()), clients) ==> RowsFollow(old(View()), View(), clients)
    {
      ghost var before := View();
      links := map l | l in links && l.inbound != ib :: links[l];
      for i := 0 to |clients|
        invariant SyncAll(before, ib, clients[..i]) == Done(View())
      {
        assert clients[..i + 1][..i] == clients[..i];
        StopsAtFailure(before, ib, clients, i + 1);
        ok := SyncClient(ib, clients[i]);
        if !ok {
          return;
        }
      }
      assert clients[..|clients|] == clients;
      if Valid(before) && AllSettled(before, clients) {
        RowsAreWritten(before, ib, clients);
      }
      return true;
    }
  }

  // ------------------------------------------------------------------
  // Listing the clients of an inbound
  // ------------------------------------------------------------------

  function ToClient(email: string, r: Rec, flow: string): Client {
    Client(email, r.uuid, r.password, r.auth, flow, r.subId, r.enable, r.expiryTime)
  }

  ghost function EmailOf(x: Index, id: nat): (e: string)
    requires IsClient(x, id)
    ensures e in x.records && x.records[e].id == id
  {
    var e :| e in x.records && x.records[e].id == id;
    e
  }

  // The clients below id n that are linked to the inbound, by ascending id, each with the
  // flow of its link.
  ghost function Listing(x: Index, ib: int, n: nat): seq<Client> {
    if n == 0 then []
    else if Link(n - 1, ib) in x.links && IsClient(x, n - 1) then
      var e := EmailOf(x, n - 1);
      Listing(x, ib, n - 1) + [ToClient(e, x.records[e], x.links[Link(n - 1, ib)])]
    else Listing(x, ib, n - 1)
  }

  lemma {:induction false} ListingExact(x: Index, ib: int, n: nat, d: Client)
    requires Valid(x)
    ensures d in Listing(x, ib, n) <==>
            d.email in x.records && x.records[d.email].id < n && Link(x.records[d.email].id, ib) in x.links &&
            d == ToClient(d.email, x.records[d.email], x.links[Link(x.records[d.email].id, ib)])
  {
    if n > 0 {
      ListingExact(x, ib, n - 1, d);
      if d.email in x.records && x.records[d.email].id == n - 1 {
        assert IsClient(x, n - 1);
        assert EmailOf(x, n - 1) == d.email;
      }
    }
  }

  // The ids of the listed clients are below n and ascend.
  predicate Ascends(x: Index, l: seq<Client>, n: nat) {
    && (forall i | 0 <= i < |l| :: l[i].email in x.records && x.records[l[i].email].id < n)
    && (forall i, j | 0 <= i < j < |l| :: x.records[l[i].email].id < x.records[l[j].email].id)
  }

  lemma AscendsMore(x: Index, l: seq<Client>, n: nat, d: Client)
    requires Ascends(x, l, n) && d.email in x.records && x.records[d.email].id == n
    ensures Ascends(x, l + [d], n + 1)
  {
    var more := l + [d];
    assert more[|l|] == d && forall i | 0 <= i < |l| :: more[i] == l[i];
  }

  // The listing goes by ascending client id, so nobody is listed twice.
  lemma {:induction false} ListingAscends(x: Index, ib: int, n: nat)
    ensures Ascends(x, Listing(x, ib, n), n)
  {
    if n > 0 {
      ListingAscends(x, ib, n - 1);
      var l := Listing(x, ib, n - 1);
      if Link(n - 1, ib) in x.links && IsClient(x, n - 1) {
        var e := EmailOf(x, n - 1);
        AscendsMore(x, l, n - 1, ToClient(e, x.records[e], x.links[Link(n - 1, ib)]));
      } else {
        assert Listing(x, ib, n) == l;
      }
    }
  }

  // d is the entry as saved, under its trimmed e-mail.
  predicate ShowsSaved(x: Index, c: Client, d: Client) {
    && d.email == Trim(c.email) && d.flow == c.flow
    && HasFields(c, RowBefore(x, d.email), d.enable, d.expiryTime, d.subId, d.id, d.password, d.auth)
  }

  lemma ShownIff(x: Index, y: Index, c: Client, d: Client)
    requires RowFollows(x, y, c)
    ensures ShowsSaved(x, c, d) <==>
              d.email == Trim(c.email) && d == ToClient(d.email, y.records[d.email], c.flow)
  {
  }

  lemma SavedIsListed(x: Index, ib: int, cs: seq<Client>, d: Client, i: nat)
    requires Valid(x) && AllSettled(x, cs) && SyncAll(x, ib, cs).Done?
    requires i < |cs| && Trim(cs[i].email) != "" && ShowsSaved(x, cs[i], d)
    ensures var y := SyncAll(x, ib, cs).index; d in Listing(y, ib, y.nextId)
  {
    var y := SyncAll(x, ib, cs).index;
    SyncKeeps(x, ib, cs);
    RowsAreWritten(x, ib, cs);
    ShownIff(x, y, cs[i], d);
    RepeatedIsTaken(x, ib, cs, i);
    ListingExact(y, ib, y.nextId, d);
  }

  lemma ListedIsSaved(x: Index, ib: int, cs: seq<Client>, d: Client) returns (i: nat)
    requires Valid(x) && AllSettled(x, cs) && SyncAll(x, ib, cs).Done?
    requires var y := SyncAll(x, ib, cs).index; d in Listing(y, ib, y.nextId)
    ensures i < |cs| && Trim(cs[i].email) != "" && ShowsSaved(x, cs[i], d)
  {
    var y := SyncAll(x, ib, cs).index;
    SyncKeeps(x, ib, cs);
    ListingExact(y, ib, y.nextId, d);
    i := TakenIsRepeated(x, ib, cs, d.email);
    RepeatedIsTaken(x, ib, cs, i);
    RowsAreWritten(x, ib, cs);
    ShownIff(x, y, cs[i], d);
  }

  // The round trip: what is listed after a synchronization is exactly what was saved.
  lemma ListingAfterSync(x: Index, ib: int, cs: seq<Client>, d: Client)
    requires Valid(x) && AllSettled(x, cs) && SyncAll(x, ib, cs).Done?
    ensures var y := SyncAll(x, ib, cs).index;
            d in Listing(y, ib, y.nextId) <==>
              exists i: nat | i < |cs| :: Trim(cs[i].email) != "" && ShowsSaved(x, cs[i], d)
  {
    var y := SyncAll(x, ib, cs).index;
    if d in Listing(y, ib, y.nextId) {
      var i := ListedIsSaved(x, ib, cs, d);
    }
    forall i: nat | i < |cs| && Trim(cs[i].email) != "" && ShowsSaved(x, cs[i], d)
      ensures d in Listing(y, ib, y.nextId)
    {
      SavedIsListed(x, ib, cs, d, i);
    }
  }

  method ListForInbound(t: Tables, ib: int) returns (out: seq<Client>)
    requires Valid(t.View())
    ensures out == Listing(t.View(), ib, t.nextId)
  {
    out := [];
    for id := 0 to t.nextId
      invariant out == Listing(t.View(), ib, id)
    {
      if Link(id, ib) in t.links && exists e :: e in t.records && t.records[e].id == id {
        var e :| e in t.records && t.records[e].id == id;
        assert IsClient(t.View(), id) && EmailOf(t.View(), id) == e;
        out := out + [ToClient(e, t.records[e], t.links[Link(id, ib)])];
      }
    }
  }
}
