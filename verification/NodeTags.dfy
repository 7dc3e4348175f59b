// Matching a node's inbounds to central inbounds by tag. Either panel may keep the
// n<id>- prefix, so a tag also stands for its flipped form: the prefix is cut off
// when it is there and put in front when it is not.

module NodeTags {

  import opened Options
  import opened Text

  // A row of the central inbounds table; node is 0 for an inbound of the panel itself.
  // config stands for the columns a node dictates (settings, port, remark, ...).
  datatype Inbound = Inbound(id: int, node: int, tag: string, config: string, up: nat, down: nat, lastReset: int)

  // An inbound as a node's snapshot lists it.
  datatype Entry = Entry(tag: string, config: string, up: nat, down: nat)

  const GRACE_MS := 30000

  function Prefix(node: nat): string {
    "n" + Decimal(node) + "-"
  }

  function Flip(p: string, t: string): string {
    if p <= t then t[|p|..] else p + t
  }

  predicate Doubled(p: string, t: string) {
    p + p <= t
  }

  lemma DoubledIsPrefixed(p: string, t: string)
    ensures Doubled(p, t) ==> p <= t
  {
    if p + p <= t {
      assert t[..|p|] == (p + p)[..|p|] == p;
    }
  }

  lemma NotDoubledWhenPrefixed(p: string, t: string)
    ensures !(p <= t) ==> !Doubled(p, p + t)
  {
    if p + p <= p + t {
      assert (p + t)[|p|..|p| + |p|] == p;
      assert (p + t)[|p|..] == t;
    }
  }

  // Flipping is its own inverse exactly on tags that do not carry the prefix twice.
  lemma FlipTwiceIff(p: string, t: string)
    requires p != ""
    ensures Flip(p, Flip(p, t)) == t <==> !Doubled(p, t)
  {
    if p <= t {
      var r := t[|p|..];
      assert t == p + r;
      assert p <= r ==> t == p + p + r[|p|..];
      assert p + p <= t ==> t[|p|..|p| + |p|] == p;
    } else {
      assert (p + t)[|p|..] == t;
      DoubledIsPrefixed(p, t);
    }
  }

  lemma FlipDiffers(p: string, t: string)
    requires p != ""
    ensures Flip(p, t) != t
  {
    assert |Flip(p, t)| != |t|;
  }

  // ------------------------------------------------------------------
  // The sync of inbounds
  // ------------------------------------------------------------------

  function OfNode(table: seq<Inbound>, node: int): seq<Inbound> {
    if table == [] then []
    else (if table[0].node == node then [table[0]] else []) + OfNode(table[1..], node)
  }

  // The lookup: every central inbound under its tag and its flipped tag, later rows win.
  function Index(p: string, central: seq<Inbound>): map<string, int>
    decreases |central|
  {
    if central == [] then map[]
    else
      var c := central[|central| - 1];
      Index(p, central[..|central| - 1])[c.tag := c.id][Flip(p, c.tag) := c.id]
  }

  predicate TagTaken(table: seq<Inbound>, tag: string) {
    exists i :: 0 <= i < |table| && table[i].tag == tag
  }

  // The tag a new central inbound gets, or "" when even the prefixed form collides.
  function FreeTag(table: seq<Inbound>, p: string, tag: string): string {
    if !TagTaken(table, tag) then tag
    else if !(p <= tag) && !TagTaken(table, p + tag) then p + tag
    else ""
  }

  predicate InGrace(c: Inbound, now: int) {
    c.lastReset > 0 && now - c.lastReset < GRACE_MS
  }

  // For a while after a reset the node's older, larger total must not come back. The entry
  // is compared with the row as it was read before the sync, not with what an earlier entry
  // of the same snapshot made of it.
  function Refresh(c: Inbound, read: Inbound, e: Entry, now: int): Inbound {
    if !InGrace(read, now) || e.up + e.down <= read.up + read.down
    then c.(config := e.config, up := e.up, down := e.down)
    else c.(config := e.config)
  }

  // The row with the id of c among those read; a row this sync created stands for itself.
  function AsRead(read: seq<Inbound>, c: Inbound): Inbound
    decreases |read|
  {
    if read == [] then c
    else if read[|read| - 1].id == c.id then read[|read| - 1]
    else AsRead(read[..|read| - 1], c)
  }

  function RefreshRow(table: seq<Inbound>, read: seq<Inbound>, id: int, e: Entry, now: int): seq<Inbound> {
    seq(|table|, i requires 0 <= i < |table| =>
      if table[i].id == id then Refresh(table[i], AsRead(read, table[i]), e, now) else table[i])
  }

  // The inbounds table with its id counter, and what the sync holds in memory: the rows of
  // the node as read at the start, the lookup and the tags of the snapshot so far.
  datatype Tx = Tx(table: seq<Inbound>, nextId: int, read: seq<Inbound>, index: map<string, int>, snapTags: set<string>)

  function EntryStep(tx: Tx, node: int, p: string, e: Entry, now: int): Tx {
    var tags := tx.snapTags + {e.tag, Flip(p, e.tag)};
    if e.tag in tx.index then
      tx.(table := RefreshRow(tx.table, tx.read, tx.index[e.tag], e, now), snapTags := tags)
    else
      var t := FreeTag(tx.table, p, e.tag);
      if t == "" then tx.(snapTags := tags)
      else Tx(tx.table + [Inbound(tx.nextId, node, t, e.config, e.up, e.down, 0)],
              tx.nextId + 1, tx.read, tx.index[e.tag := tx.nextId][t := tx.nextId], tags)
  }

  function EntrySteps(tx: Tx, node: int, p: string, snap: seq<Entry>, now: int): Tx
    decreases |snap|
  {
    if snap == [] then tx
    else EntryStep(EntrySteps(tx, node, p, snap[..|snap| - 1], now), node, p, snap[|snap| - 1], now)
  }

  function Without(table: seq<Inbound>, id: int): seq<Inbound> {
    if table == [] then []
    else (if table[0].id == id then [] else [table[0]]) + Without(table[1..], id)
  }

  function SweepStep(tx: Tx, c: Inbound): Tx {
    if c.tag in tx.snapTags then tx
    else tx.(table := Without(tx.table, c.id), index := tx.index - {c.tag})
  }

  function SweepSteps(tx: Tx, central: seq<Inbound>): Tx
    decreases |central|
  {
    if central == [] then tx
    else SweepStep(SweepSteps(tx, central[..|central| - 1]), central[|central| - 1])
  }

  function Begin(table: seq<Inbound>, nextId: int, node: int, p: string): Tx {
    Tx(table, nextId, OfNode(table, node), Index(p, OfNode(table, node)), {})
  }

  function SyncTags(table: seq<Inbound>, nextId: int, node: int, p: string, snap: seq<Entry>, now: int): Tx {
    SweepSteps(EntrySteps(Begin(table, nextId, node, p), node, p, snap, now), OfNode(table, node))
  }

  // ------------------------------------------------------------------
  // Facts about the pieces
  // ------------------------------------------------------------------

  lemma {:induction false} OfNodeExact(table: seq<Inbound>, node: int)
    ensures forall c :: c in OfNode(table, node) <==> c in table && c.node == node
  {
    if table != [] {
      OfNodeExact(table[1..], node);
      assert table == [table[0]] + table[1..];
    }
  }

  lemma {:induction false} WithoutExact(table: seq<Inbound>, id: int)
    ensures forall c :: c in Without(table, id) <==> c in table && c.id != id
  {
    if table != [] {
      WithoutExact(table[1..], id);
      assert table == [table[0]] + table[1..];
    }
  }

  // t looks up c directly or through c's flipped tag.
  predicate Hits(p: string, c: Inbound, t: string) {
    c.tag == t || Flip(p, c.tag) == t
  }

  // The last inbound that t looks up.
  predicate LastHit(p: string, central: seq<Inbound>, t: string, i: int) {
    0 <= i < |central| && Hits(p, central[i], t) && forall j | i < j < |central| :: !Hits(p, central[j], t)
  }

  lemma {:induction false} LastHitLeads(p: string, central: seq<Inbound>, t: string, i: int)
    requires LastHit(p, central, t, i)
    ensures t in Index(p, central) && Index(p, central)[t] == central[i].id
    decreases |central|
  {
    if i < |central| - 1 {
      var front := central[..|central| - 1];
      assert forall j | 0 <= j < |front| :: front[j] == central[j];
      LastHitLeads(p, front, t, i);
      assert !Hits(p, central[|front|], t);
    }
  }

  lemma {:induction false} FindLastHit(p: string, central: seq<Inbound>, t: string) returns (i: int)
    requires t in Index(p, central) || exists j :: 0 <= j < |central| && Hits(p, central[j], t)
    ensures LastHit(p, central, t, i)
    decreases |central|
  {
    i := |central| - 1;
    if !Hits(p, central[i], t) {
      var front := central[..|central| - 1];
      assert forall j | 0 <= j < |front| :: front[j] == central[j];
      i := FindLastHit(p, front, t);
    }
  }

  // The lookup knows exactly the tags some inbound has in either form, and leads to the
  // last of those inbounds.
  lemma IndexExact(p: string, central: seq<Inbound>, t: string)
    ensures t in Index(p, central) <==> exists c :: c in central && Hits(p, c, t)
    ensures t in Index(p, central) ==> exists i :: LastHit(p, central, t, i)
    ensures forall i | LastHit(p, central, t, i) :: t in Index(p, central) && Index(p, central)[t] == central[i].id
  {
    if t in Index(p, central) || exists c :: c in central && Hits(p, c, t) {
      var i := FindLastHit(p, central, t);
      LastHitLeads(p, central, t, i);
      assert central[i] in central && Hits(p, central[i], t);
    }
    forall i | LastHit(p, central, t, i)
      ensures t in Index(p, central) && Index(p, central)[t] == central[i].id
    {
      LastHitLeads(p, central, t, i);
    }
  }

  lemma IndexLeads(p: string, central: seq<Inbound>, t: string) returns (c: Inbound)
    requires t in Index(p, central)
    ensures c in central && Hits(p, c, t) && c.id == Index(p, central)[t]
  {
    IndexExact(p, central, t);
    var i :| LastHit(p, central, t, i);
    c := central[i];
  }

  // ------------------------------------------------------------------
  // One sync
  // ------------------------------------------------------------------

  // Ids and tags are unique and the id counter is ahead of every id.
  predicate WellFormed(table: seq<Inbound>, nextId: int) {
    && (forall i, j | 0 <= i < j < |table| :: table[i].id != table[j].id && table[i].tag != table[j].tag)
    && (forall i | 0 <= i < |table| :: table[i].id < nextId)
  }

  predicate SameIdentity(a: Inbound, b: Inbound) {
    a.id == b.id && a.node == b.node && a.tag == b.tag
  }

  // b starts with the rows of a, refreshed at most where they belong to the node.
  predicate Extends(a: seq<Inbound>, b: seq<Inbound>, node: int) {
    |a| <= |b| && forall i | 0 <= i < |a| :: SameIdentity(a[i], b[i]) && (a[i].node != node ==> a[i] == b[i])
  }

  // The tag of a snapshot entry, or its flipped form.
  predicate Names(p: string, e: Entry, tag: string) {
    tag == e.tag || tag == Flip(p, e.tag)
  }

  predicate SnapNames(p: string, snap: seq<Entry>, tag: string) {
    exists i :: 0 <= i < |snap| && Names(p, snap[i], tag)
  }

  // A key of the lookup leads to a row of the node that the key or its flip names.
  predicate LeadsTo(tx: Tx, node: int, p: string, key: string, i: int) {
    0 <= i < |tx.table| && key in tx.index && tx.table[i].id == tx.index[key] && tx.table[i].node == node &&
    (Hits(p, tx.table[i], key) || tx.table[i].tag == Flip(p, key))
  }

  ghost predicate IndexSound(tx: Tx, node: int, p: string) {
    forall key | key in tx.index :: exists i :: LeadsTo(tx, node, p, key, i)
  }

  // A row the sync created: it belongs to the node and carries the tag of an entry that
  // the lookup of the starting table did not match.
  predicate Created(c: Inbound, node: int, p: string, snap: seq<Entry>, start: map<string, int>) {
    c.node == node &&
    exists i :: 0 <= i < |snap| && snap[i].tag !in start &&
      (c.tag == snap[i].tag || (!(p <= snap[i].tag) && c.tag == p + snap[i].tag))
  }

  ghost predicate Progress(table: seq<Inbound>, tx: Tx, node: int, p: string, snap: seq<Entry>,
                           start: map<string, int>) {
    && Extends(table, tx.table, node)
    && WellFormed(tx.table, tx.nextId)
    && start.Keys <= tx.index.Keys
    && IndexSound(tx, node, p)
    && (forall i | |table| <= i < |tx.table| :: Created(tx.table[i], node, p, snap, start))
    && (forall tag :: tag in tx.snapTags <==> SnapNames(p, snap, tag))
  }

  lemma BeginProgress(table: seq<Inbound>, nextId: int, node: int, p: string)
    requires WellFormed(table, nextId)
    ensures Progress(table, Begin(table, nextId, node, p), node, p, [], Index(p, OfNode(table, node)))
  {
    var tx := Begin(table, nextId, node, p);
    OfNodeExact(table, node);
    forall key | key in tx.index ensures exists i :: LeadsTo(tx, node, p, key, i) {
      var c := IndexLeads(p, OfNode(table, node), key);
      var i :| 0 <= i < |table| && table[i] == c;
      assert LeadsTo(tx, node, p, key, i);
    }
  }

  lemma CreatedMore(c: Inbound, node: int, p: string, snap: seq<Entry>, e: Entry, start: map<string, int>)
    requires Created(c, node, p, snap, start)
    ensures Created(c, node, p, snap + [e], start)
  {
    var i :| 0 <= i < |snap| && snap[i].tag !in start &&
      (c.tag == snap[i].tag || (!(p <= snap[i].tag) && c.tag == p + snap[i].tag));
    assert (snap + [e])[i] == snap[i];
  }

  lemma SnapNamesMore(p: string, snap: seq<Entry>, e: Entry, tag: string)
    ensures SnapNames(p, snap + [e], tag) <==> SnapNames(p, snap, tag) || Names(p, e, tag)
  {
    if SnapNames(p, snap, tag) {
      var i :| 0 <= i < |snap| && Names(p, snap[i], tag);
      assert (snap + [e])[i] == snap[i];
    }
    if Names(p, e, tag) {
      assert (snap + [e])[|snap|] == e;
    }
  }

  lemma EntryStepKeepsIndex(tx: Tx, node: int, p: string, e: Entry, now: int)
    requires IndexSound(tx, node, p)
    ensures IndexSound(EntryStep(tx, node, p, e, now), node, p)
  {
    var tx' := EntryStep(tx, node, p, e, now);
    forall key | key in tx'.index ensures exists i :: LeadsTo(tx', node, p, key, i) {
      if key in tx.index && tx'.index[key] == tx.index[key] {
        var i :| LeadsTo(tx, node, p, key, i);
        assert LeadsTo(tx', node, p, key, i);
      } else {
        assert LeadsTo(tx', node, p, key, |tx.table|);
      }
    }
  }

  lemma FreeTagIsFree(table: seq<Inbound>, p: string, tag: string)
    ensures var t := FreeTag(table, p, tag);
            t != "" ==> !TagTaken(table, t) && (t == tag || (!(p <= tag) && t == p + tag))
  {
  }

  lemma TakenStays(a: seq<Inbound>, b: seq<Inbound>, tag: string)
    requires a <= b
    ensures TagTaken(a, tag) ==> TagTaken(b, tag)
  {
    if i :| 0 <= i < |a| && a[i].tag == tag {
      assert b[i].tag == tag;
    }
  }

  // An entry that leads nowhere is given its own tag, unless that is taken, and then, if it
  // has no prefix, its prefixed one: afterwards no name it may have is left.
  lemma UnmatchedTakesName(tx: Tx, node: int, p: string, e: Entry, now: int)
    requires e.tag !in tx.index && e.tag != ""
    ensures var after := EntryStep(tx, node, p, e, now).table;
            && tx.table <= after && |after| <= |tx.table| + 1
            && TagTaken(after, e.tag)
            && (TagTaken(tx.table, e.tag) && !(p <= e.tag) ==> TagTaken(after, p + e.tag))
  {
    var after := EntryStep(tx, node, p, e, now).table;
    if |after| > |tx.table| {
      assert after[|tx.table|].tag == FreeTag(tx.table, p, e.tag);
    }
    TakenStays(tx.table, after, e.tag);
    TakenStays(tx.table, after, p + e.tag);
  }

  lemma RefreshWellFormed(table: seq<Inbound>, read: seq<Inbound>, nextId: int, id: int, e: Entry, now: int)
    requires WellFormed(table, nextId)
    ensures WellFormed(RefreshRow(table, read, id, e, now), nextId)
  {
    var out := RefreshRow(table, read, id, e, now);
    assert forall i | 0 <= i < |out| :: SameIdentity(table[i], out[i]);
  }

  lemma AppendWellFormed(table: seq<Inbound>, nextId: int, c: Inbound)
    requires WellFormed(table, nextId) && c.id == nextId && !TagTaken(table, c.tag)
    ensures WellFormed(table + [c], nextId + 1)
  {
  }

  lemma EntryStepWellFormed(tx: Tx, node: int, p: string, e: Entry, now: int)
    requires WellFormed(tx.table, tx.nextId)
    ensures var tx' := EntryStep(tx, node, p, e, now); WellFormed(tx'.table, tx'.nextId)
  {
    FreeTagIsFree(tx.table, p, e.tag);
    if e.tag in tx.index {
      RefreshWellFormed(tx.table, tx.read, tx.nextId, tx.index[e.tag], e, now);
    } else {
      var t := FreeTag(tx.table, p, e.tag);
      if t != "" {
        AppendWellFormed(tx.table, tx.nextId, Inbound(tx.nextId, node, t, e.config, e.up, e.down, 0));
      }
    }
  }

  lemma EntryStepExtends(table: seq<Inbound>, tx: Tx, node: int, p: string, e: Entry, now: int)
    requires Extends(table, tx.table, node) && WellFormed(tx.table, tx.nextId) && IndexSound(tx, node, p)
    ensures Extends(table, EntryStep(tx, node, p, e, now).table, node)
  {
    if e.tag in tx.index {
      var k :| LeadsTo(tx, node, p, e.tag, k);
      forall i | 0 <= i < |table| && table[i].node != node ensures table[i].id != tx.index[e.tag] {
        assert SameIdentity(table[i], tx.table[i]) && i != k;
      }
    }
  }

  lemma NewRowCreated(table: seq<Inbound>, tx: Tx, node: int, p: string, snap: seq<Entry>, e: Entry, now: int,
                      start: map<string, int>, i: int)
    requires Progress(table, tx, node, p, snap, start) && |table| <= i < |EntryStep(tx, node, p, e, now).table|
    ensures Created(EntryStep(tx, node, p, e, now).table[i], node, p, snap + [e], start)
  {
    var tx' := EntryStep(tx, node, p, e, now);
    EntryStepExtends(table, tx, node, p, e, now);
    if i < |tx.table| {
      CreatedMore(tx.table[i], node, p, snap, e, start);
      assert SameIdentity(tx.table[i], tx'.table[i]);
    } else {
      assert (snap + [e])[|snap|] == e;
    }
  }

  lemma EntryStepNames(tx: Tx, node: int, p: string, snap: seq<Entry>, e: Entry, now: int)
    requires forall tag :: tag in tx.snapTags <==> SnapNames(p, snap, tag)
    ensures forall tag :: tag in EntryStep(tx, node, p, e, now).snapTags <==> SnapNames(p, snap + [e], tag)
  {
    forall tag ensures tag in EntryStep(tx, node, p, e, now).snapTags <==> SnapNames(p, snap + [e], tag) {
      SnapNamesMore(p, snap, e, tag);
    }
  }

  lemma EntryStepProgress(table: seq<Inbound>, tx: Tx, node: int, p: string, snap: seq<Entry>, e: Entry, now: int,
                          start: map<string, int>)
    requires Progress(table, tx, node, p, snap, start)
    ensures Progress(table, EntryStep(tx, node, p, e, now), node, p, snap + [e], start)
  {
    var tx' := EntryStep(tx, node, p, e, now);
    EntryStepKeepsIndex(tx, node, p, e, now);
    EntryStepWellFormed(tx, node, p, e, now);
    EntryStepExtends(table, tx, node, p, e, now);
    EntryStepNames(tx, node, p, snap, e, now);
    forall i | |table| <= i < |tx'.table| ensures Created(tx'.table[i], node, p, snap + [e], start) {
      NewRowCreated(table, tx, node, p, snap, e, now, start, i);
    }
  }

  lemma ProgressLast(table: seq<Inbound>, tx: Tx, node: int, p: string, front: seq<Entry>, e: Entry, now: int,
                     start: map<string, int>)
    requires Progress(table, EntrySteps(tx, node, p, front, now), node, p, front, start)
    ensures Progress(table, EntrySteps(tx, node, p, front + [e], now), node, p, front + [e], start)
  {
    EntryStepProgress(table, EntrySteps(tx, node, p, front, now), node, p, front, e, now, start);
    assert (front + [e])[..|front|] == front;
  }

  lemma {:induction false} EntryStepsProgress(table: seq<Inbound>, nextId: int, node: int, p: string,
                                              snap: seq<Entry>, now: int)
    requires WellFormed(table, nextId)
    ensures Progress(table, EntrySteps(Begin(table, nextId, node, p), node, p, snap, now), node, p, snap,
                     Index(p, OfNode(table, node)))
    decreases |snap|
  {
    if snap == [] {
      BeginProgress(table, nextId, node, p);
    } else {
      var front := snap[..|snap| - 1];
      assert snap == front + [snap[|snap| - 1]];
      EntryStepsProgress(table, nextId, node, p, front, now);
      ProgressLast(table, Begin(table, nextId, node, p), node, p, front, snap[|snap| - 1], now,
                   Index(p, OfNode(table, node)));
    }
  }

  predicate Swept(tx: Tx, central: seq<Inbound>, id: int) {
    exists i :: 0 <= i < |central| && central[i].id == id && central[i].tag !in tx.snapTags
  }

  lemma {:induction false} SweepStepsExact(tx: Tx, central: seq<Inbound>)
    ensures var tx' := SweepSteps(tx, central);
            tx'.snapTags == tx.snapTags && tx'.nextId == tx.nextId &&
            (forall c :: c in tx'.table <==> c in tx.table && !Swept(tx, central, c.id))
    decreases |central|
  {
    if central != [] {
      var front, last := central[..|central| - 1], central[|central| - 1];
      SweepStepsExact(tx, front);
      WithoutExact(SweepSteps(tx, front).table, last.id);
      forall id ensures Swept(tx, central, id) <==>
        Swept(tx, front, id) || (last.id == id && last.tag !in tx.snapTags) {
        if Swept(tx, front, id) {
          var i :| 0 <= i < |front| && front[i].id == id && front[i].tag !in tx.snapTags;
          assert central[i] == front[i];
        }
      }
    }
  }

  // The lookup forgets the tags of the inbounds the sweep removes.
  lemma {:induction false} SweepForgets(tx: Tx, central: seq<Inbound>, t: string)
    ensures t in SweepSteps(tx, central).index <==>
              t in tx.index && !exists i :: 0 <= i < |central| && central[i].tag == t && t !in tx.snapTags
    ensures t in SweepSteps(tx, central).index ==> SweepSteps(tx, central).index[t] == tx.index[t]
    decreases |central|
  {
    if central != [] {
      var front := central[..|central| - 1];
      SweepForgets(tx, front, t);
      SweepStepsExact(tx, front);
      assert forall i | 0 <= i < |front| :: front[i] == central[i];
      assert central[|central| - 1].tag == t ==> 0 <= |central| - 1 < |central|;
    }
  }

  lemma TailWellFormed(table: seq<Inbound>, nextId: int)
    requires table != [] && WellFormed(table, nextId)
    ensures WellFormed(table[1..], nextId)
    ensures forall c | c in table[1..] :: c.id != table[0].id && c.tag != table[0].tag
  {
    forall c | c in table[1..] ensures c.id != table[0].id && c.tag != table[0].tag {
      var j :| 0 <= j < |table[1..]| && table[1..][j] == c;
      assert table[j + 1] == c;
    }
  }

  lemma PrependWellFormed(c: Inbound, rest: seq<Inbound>, nextId: int)
    requires WellFormed(rest, nextId) && c.id < nextId
    requires forall i | 0 <= i < |rest| :: rest[i].id != c.id && rest[i].tag != c.tag
    ensures WellFormed([c] + rest, nextId)
  {
    var t := [c] + rest;
    assert forall i | 0 < i < |t| :: t[i] == rest[i - 1];
    forall i, j | 0 <= i < j < |t| ensures t[i].id != t[j].id && t[i].tag != t[j].tag {
      if i > 0 {
        assert rest[i - 1].id != rest[j - 1].id;
      }
    }
  }

  lemma {:induction false} WithoutWellFormed(table: seq<Inbound>, id: int, nextId: int)
    requires WellFormed(table, nextId)
    ensures WellFormed(Without(table, id), nextId)
  {
    if table != [] {
      var rest := Without(table[1..], id);
      TailWellFormed(table, nextId);
      WithoutWellFormed(table[1..], id, nextId);
      WithoutExact(table[1..], id);
      forall i | 0 <= i < |rest| ensures rest[i].id != table[0].id && rest[i].tag != table[0].tag {
        assert rest[i] in rest;
      }
      PrependWellFormed(table[0], rest, nextId);
      assert [] + rest == rest;
    }
  }

  lemma {:induction false} SweepStepsWellFormed(tx: Tx, central: seq<Inbound>)
    requires WellFormed(tx.table, tx.nextId)
    ensures WellFormed(SweepSteps(tx, central).table, tx.nextId)
    decreases |central|
  {
    if central != [] {
      SweepStepsExact(tx, central[..|central| - 1]);
      SweepStepsWellFormed(tx, central[..|central| - 1]);
      WithoutWellFormed(SweepSteps(tx, central[..|central| - 1]).table, central[|central| - 1].id, tx.nextId);
    }
  }

  // A sync keeps ids and tags unique over the whole table, not just the node's part.
  lemma TagsStayUnique(table: seq<Inbound>, nextId: int, node: int, p: string, snap: seq<Entry>, now: int)
    requires WellFormed(table, nextId)
    ensures var tx := SyncTags(table, nextId, node, p, snap, now); WellFormed(tx.table, tx.nextId)
  {
    EntryStepsProgress(table, nextId, node, p, snap, now);
    SweepStepsExact(EntrySteps(Begin(table, nextId, node, p), node, p, snap, now), OfNode(table, node));
    SweepStepsWellFormed(EntrySteps(Begin(table, nextId, node, p), node, p, snap, now), OfNode(table, node));
  }

  lemma OldRowInTx(table: seq<Inbound>, tx: Tx, node: int, p: string, snap: seq<Entry>, start: map<string, int>,
                   c: Inbound)
    returns (c': Inbound)
    requires Progress(table, tx, node, p, snap, start) && c in table
    ensures c' in tx.table && SameIdentity(c, c') && (c.node != node ==> c' == c)
  {
    var i :| 0 <= i < |table| && table[i] == c;
    c' := tx.table[i];
  }

  predicate Present(table: seq<Inbound>, c: Inbound) {
    exists i :: 0 <= i < |table| && SameIdentity(table[i], c)
  }

  lemma SweptIff(table: seq<Inbound>, nextId: int, tx: Tx, node: int, p: string, snap: seq<Entry>, c: Inbound)
    requires WellFormed(table, nextId) && c in table && c.node == node
    requires Progress(table, tx, node, p, snap, Index(p, OfNode(table, node)))
    ensures Swept(tx, OfNode(table, node), c.id) <==> !SnapNames(p, snap, c.tag)
  {
    var central := OfNode(table, node);
    OfNodeExact(table, node);
    var i :| 0 <= i < |central| && central[i] == c;
    forall j | 0 <= j < |central| && central[j].id == c.id ensures central[j] == c {
      assert central[j] in table;
    }
  }

  // The orphan sweep removes a central inbound of the node exactly when no entry of the
  // snapshot names its tag.
  lemma SweepRemovesExactly(table: seq<Inbound>, nextId: int, node: int, p: string, snap: seq<Entry>, now: int,
                            c: Inbound)
    requires WellFormed(table, nextId) && c in table && c.node == node
    ensures Present(SyncTags(table, nextId, node, p, snap, now).table, c) <==> SnapNames(p, snap, c.tag)
  {
    var central := OfNode(table, node);
    var tx := EntrySteps(Begin(table, nextId, node, p), node, p, snap, now);
    var out := SyncTags(table, nextId, node, p, snap, now);
    EntryStepsProgress(table, nextId, node, p, snap, now);
    SweepStepsExact(tx, central);
    SweptIff(table, nextId, tx, node, p, snap, c);
    if SnapNames(p, snap, c.tag) {
      var c' := OldRowInTx(table, tx, node, p, snap, Index(p, central), c);
      var k :| 0 <= k < |out.table| && out.table[k] == c';
      assert SameIdentity(out.table[k], c);
    } else {
      forall k | 0 <= k < |out.table| ensures !SameIdentity(out.table[k], c) {
        assert out.table[k] in out.table;
      }
    }
  }

  lemma SweptIsUnnamed(table: seq<Inbound>, tx: Tx, node: int, p: string, snap: seq<Entry>, c: Inbound)
    requires Progress(table, tx, node, p, snap, Index(p, OfNode(table, node)))
    requires c in tx.table && Swept(tx, OfNode(table, node), c.id)
    ensures c.node == node && !SnapNames(p, snap, c.tag)
  {
    var central := OfNode(table, node);
    OfNodeExact(table, node);
    var i :| 0 <= i < |central| && central[i].id == c.id && central[i].tag !in tx.snapTags;
    var c' := OldRowInTx(table, tx, node, p, snap, Index(p, central), central[i]);
    assert c' == c;
  }

  // Inbounds of the panel itself and of other nodes are exactly as before.
  lemma OtherNodesUntouched(table: seq<Inbound>, nextId: int, node: int, p: string, snap: seq<Entry>, now: int,
                            c: Inbound)
    requires WellFormed(table, nextId) && c.node != node
    ensures c in SyncTags(table, nextId, node, p, snap, now).table <==> c in table
  {
    var central := OfNode(table, node);
    var tx := EntrySteps(Begin(table, nextId, node, p), node, p, snap, now);
    EntryStepsProgress(table, nextId, node, p, snap, now);
    OfNodeExact(table, node);
    SweepStepsExact(tx, central);
    if c in table {
      var c' := OldRowInTx(table, tx, node, p, snap, Index(p, central), c);
      if Swept(tx, central, c.id) {
        SweptIsUnnamed(table, tx, node, p, snap, c);
      }
    } else {
      forall k | 0 <= k < |tx.table| ensures tx.table[k].node == node || tx.table[k] in table {
        assert k >= |table| || table[k] in table;
      }
    }
  }

  predicate SnapHits(p: string, snap: seq<Entry>, c: Inbound) {
    exists i :: 0 <= i < |snap| && Hits(p, c, snap[i].tag)
  }

  // Lookup and sweep agree on a central inbound, whatever the snapshot, exactly when its
  // tag does not carry the prefix twice: otherwise the stripped form is looked up, and
  // refreshed, and the row is swept away in the same sync.
  lemma LookupAndSweepAgreeIff(p: string, c: Inbound)
    requires p != ""
    ensures (forall snap: seq<Entry> :: SnapHits(p, snap, c) ==> SnapNames(p, snap, c.tag))
            <==> !Doubled(p, c.tag)
  {
    FlipTwiceIff(p, c.tag);
    if Doubled(p, c.tag) {
      DoubledIsPrefixed(p, c.tag);
      var e := Entry(Flip(p, c.tag), "", 0, 0);
      assert Hits(p, c, [e][0].tag) && SnapHits(p, [e], c);
      FlipDiffers(p, c.tag);
      assert !SnapNames(p, [e], c.tag);
    } else {
      forall snap: seq<Entry> | SnapHits(p, snap, c) ensures SnapNames(p, snap, c.tag) {
        var i :| 0 <= i < |snap| && Hits(p, c, snap[i].tag);
        assert Names(p, snap[i], c.tag);
      }
    }
  }

  // A sync creates inbounds only for entries the lookup does not match, so a matched
  // entry never gets a second central inbound, and it never puts the prefix twice.
  lemma CreatesOnlyUnmatched(table: seq<Inbound>, nextId: int, node: int, p: string, snap: seq<Entry>, now: int,
                             c: Inbound)
    requires WellFormed(table, nextId) && p != ""
    requires c in SyncTags(table, nextId, node, p, snap, now).table && !Present(table, c)
    ensures Created(c, node, p, snap, Index(p, OfNode(table, node)))
    ensures Doubled(p, c.tag) ==> exists i :: 0 <= i < |snap| && snap[i].tag == c.tag
    ensures forall i, b | 0 <= i < |snap| && b in table && b.node == node && Hits(p, b, snap[i].tag) ::
              snap[i].tag in Index(p, OfNode(table, node))
  {
    var central := OfNode(table, node);
    var tx := EntrySteps(Begin(table, nextId, node, p), node, p, snap, now);
    EntryStepsProgress(table, nextId, node, p, snap, now);
    SweepStepsExact(tx, central);
    OfNodeExact(table, node);
    var k :| 0 <= k < |tx.table| && tx.table[k] == c;
    forall k | 0 <= k < |table| ensures Present(table, tx.table[k]) {
      assert SameIdentity(table[k], tx.table[k]);
    }
    var i :| 0 <= i < |snap| && snap[i].tag !in Index(p, central) &&
      (c.tag == snap[i].tag || (!(p <= snap[i].tag) && c.tag == p + snap[i].tag));
    NotDoubledWhenPrefixed(p, snap[i].tag);
    forall i, b | 0 <= i < |snap| && b in table && b.node == node && Hits(p, b, snap[i].tag)
      ensures snap[i].tag in Index(p, central)
    {
      assert b in central;
      IndexExact(p, central, snap[i].tag);
    }
  }

  // ------------------------------------------------------------------
  // The grace period after a reset
  // ------------------------------------------------------------------

  lemma {:induction false} AsReadExact(read: seq<Inbound>, c: Inbound)
    ensures (exists r :: r in read && r.id == c.id) ==> AsRead(read, c) in read && AsRead(read, c).id == c.id
    decreases |read|
  {
    if read != [] {
      AsReadExact(read[..|read| - 1], c);
      assert read == read[..|read| - 1] + [read[|read| - 1]];
    }
  }

  lemma ReadsItsRow(table: seq<Inbound>, nextId: int, node: int, i: int, c: Inbound)
    requires WellFormed(table, nextId) && 0 <= i < |table| && table[i].node == node && c.id == table[i].id
    ensures AsRead(OfNode(table, node), c) == table[i]
  {
    OfNodeExact(table, node);
    AsReadExact(OfNode(table, node), c);
    assert table[i] in OfNode(table, node);
    var r := AsRead(OfNode(table, node), c);
    var j :| 0 <= j < |table| && table[j] == r;
  }

  // In the grace period a whole snapshot, however often it lists an inbound, never raises
  // the inbound's total above what it was before the sync.
  lemma {:induction false} GraceNeverRaises(table: seq<Inbound>, nextId: int, node: int, p: string, snap: seq<Entry>,
                                            now: int, i: int)
    requires WellFormed(table, nextId) && 0 <= i < |table| && table[i].node == node && InGrace(table[i], now)
    ensures var tx := EntrySteps(Begin(table, nextId, node, p), node, p, snap, now);
            i < |tx.table| && tx.table[i].id == table[i].id && tx.read == OfNode(table, node) &&
            tx.table[i].up + tx.table[i].down <= table[i].up + table[i].down
    decreases |snap|
  {
    if snap != [] {
      GraceNeverRaises(table, nextId, node, p, snap[..|snap| - 1], now, i);
      var tx := EntrySteps(Begin(table, nextId, node, p), node, p, snap[..|snap| - 1], now);
      ReadsItsRow(table, nextId, node, i, tx.table[i]);
    }
  }

  // The entry leads to inbound id when it is reached.
  predicate Leads(table: seq<Inbound>, nextId: int, node: int, p: string, before: seq<Entry>, e: Entry, now: int,
                  id: int) {
    var index := EntrySteps(Begin(table, nextId, node, p), node, p, before, now).index;
    e.tag in index && index[e.tag] == id
  }

  // The last entry that leads to the inbound, or the last of those with at most cap bytes.
  function LastEntry(table: seq<Inbound>, nextId: int, node: int, p: string, snap: seq<Entry>, now: int, id: int,
                     cap: Option<int>): Option<Entry>
    decreases |snap|
  {
    if snap == [] then None
    else
      var front, e := snap[..|snap| - 1], snap[|snap| - 1];
      if Leads(table, nextId, node, p, front, e, now, id) && (cap.Some? ==> e.up + e.down <= cap.value) then Some(e)
      else LastEntry(table, nextId, node, p, front, now, id, cap)
  }

  // The bytes in the grace period may only be as many as were read.
  function Cap(c: Inbound, now: int): Option<int> {
    if c.lastReset > 0 && now - c.lastReset < GRACE_MS then Some(c.up + c.down) else None
  }

  // What the entries make of one inbound of the node: the configuration of the last entry
  // that leads to it and, outside the grace period after a reset, that entry's bytes; in the
  // grace period those of the last such entry that does not raise the total. The id, the
  // tag, the node and the time of the reset stay, and without an entry everything does.
  predicate SaysLastEntry(was: Inbound, now: Inbound, config: Option<Entry>, bytes: Option<Entry>) {
    && now.id == was.id && now.node == was.node && now.tag == was.tag && now.lastReset == was.lastReset
    && now.config == (if config.Some? then config.value.config else was.config)
    && now.up == (if bytes.Some? then bytes.value.up else was.up)
    && now.down == (if bytes.Some? then bytes.value.down else was.down)
  }

  lemma RefreshSays(was: Inbound, mid: Inbound, e: Entry, now: int, config: Option<Entry>, bytes: Option<Entry>)
    requires SaysLastEntry(was, mid, config, bytes)
    ensures SaysLastEntry(was, Refresh(mid, was, e, now), Some(e),
                          if Cap(was, now).Some? ==> e.up + e.down <= Cap(was, now).value then Some(e) else bytes)
  {
  }

  lemma EntryStepAt(tx: Tx, node: int, p: string, e: Entry, now: int, i: int)
    requires 0 <= i < |tx.table|
    ensures var tx', c := EntryStep(tx, node, p, e, now), tx.table[i];
            && i < |tx'.table| && tx'.read == tx.read
            && tx'.table[i] == if e.tag in tx.index && tx.index[e.tag] == c.id
                               then Refresh(c, AsRead(tx.read, c), e, now) else c
  {
  }

  lemma {:induction false} InboundsSayLastEntry(table: seq<Inbound>, nextId: int, node: int, p: string,
                                                snap: seq<Entry>, now: int, i: int)
    requires WellFormed(table, nextId) && 0 <= i < |table| && table[i].node == node
    ensures var tx := EntrySteps(Begin(table, nextId, node, p), node, p, snap, now);
            && i < |tx.table| && tx.read == OfNode(table, node)
            && SaysLastEntry(table[i], tx.table[i],
                             LastEntry(table, nextId, node, p, snap, now, table[i].id, None),
                             LastEntry(table, nextId, node, p, snap, now, table[i].id, Cap(table[i], now)))
    decreases |snap|
  {
    if snap != [] {
      var front, e := snap[..|snap| - 1], snap[|snap| - 1];
      InboundsSayLastEntry(table, nextId, node, p, front, now, i);
      var tx := EntrySteps(Begin(table, nextId, node, p), node, p, front, now);
      ReadsItsRow(table, nextId, node, i, tx.table[i]);
      EntryStepAt(tx, node, p, e, now, i);
      RefreshSays(table[i], tx.table[i], e, now, LastEntry(table, nextId, node, p, front, now, table[i].id, None),
        LastEntry(table, nextId, node, p, front, now, table[i].id, Cap(table[i], now)));
    }
  }

  predicate SaysEntry(c: Inbound, e: Entry) {
    c.config == e.config && c.up == e.up && c.down == e.down
  }

  // A new inbound that was never reset, with the configuration and bytes of some entry.
  ghost predicate SaysSome(c: Inbound, snap: seq<Entry>) {
    c.lastReset == 0 && exists j :: 0 <= j < |snap| && SaysEntry(c, snap[j])
  }

  lemma {:induction false} AsReadNew(read: seq<Inbound>, c: Inbound)
    requires forall j | 0 <= j < |read| :: read[j].id != c.id
    ensures AsRead(read, c) == c
    decreases |read|
  {
    if read != [] {
      AsReadNew(read[..|read| - 1], c);
    }
  }

  lemma NewStepSays(table: seq<Inbound>, tx: Tx, node: int, p: string, front: seq<Entry>, e: Entry, now: int, i: int)
    requires WellFormed(tx.table, tx.nextId) && |table| <= |tx.table|
    requires forall j, k | 0 <= j < |tx.read| && |table| <= k < |tx.table| :: tx.read[j].id != tx.table[k].id
    requires |table| <= i < |EntryStep(tx, node, p, e, now).table|
    requires i < |tx.table| ==> SaysSome(tx.table[i], front)
    ensures SaysSome(EntryStep(tx, node, p, e, now).table[i], front + [e])
  {
    var snap := front + [e];
    assert snap[|front|] == e && forall j | 0 <= j < |front| :: snap[j] == front[j];
    if i < |tx.table| {
      var j :| 0 <= j < |front| && SaysEntry(tx.table[i], front[j]);
      assert SaysEntry(tx.table[i], snap[j]);
      AsReadNew(tx.read, tx.table[i]);
      EntryStepAt(tx, node, p, e, now, i);
    }
    var c := EntryStep(tx, node, p, e, now).table[i];
    assert SaysEntry(c, e) ==> SaysEntry(c, snap[|front|]);
  }

  lemma ReadIdsAreOld(table: seq<Inbound>, tx: Tx, node: int)
    requires Extends(table, tx.table, node) && WellFormed(tx.table, tx.nextId) && tx.read == OfNode(table, node)
    ensures forall j, k | 0 <= j < |tx.read| && |table| <= k < |tx.table| :: tx.read[j].id != tx.table[k].id
  {
    OfNodeExact(table, node);
    forall j, k | 0 <= j < |tx.read| && |table| <= k < |tx.table| ensures tx.read[j].id != tx.table[k].id {
      assert tx.read[j] in tx.read;
      var i :| 0 <= i < |table| && table[i] == tx.read[j];
      assert SameIdentity(table[i], tx.table[i]);
    }
  }

  lemma {:induction false} ReadStays(tx: Tx, node: int, p: string, snap: seq<Entry>, now: int)
    ensures EntrySteps(tx, node, p, snap, now).read == tx.read
    decreases |snap|
  {
    if snap != [] {
      ReadStays(tx, node, p, snap[..|snap| - 1], now);
    }
  }

  lemma CreatedLast(table: seq<Inbound>, nextId: int, node: int, p: string, front: seq<Entry>, e: Entry, now: int,
                    i: int)
    requires WellFormed(table, nextId)
    requires |table| <= i < |EntrySteps(Begin(table, nextId, node, p), node, p, front + [e], now).table|
    requires var tx := EntrySteps(Begin(table, nextId, node, p), node, p, front, now);
             i < |tx.table| ==> SaysSome(tx.table[i], front)
    ensures SaysSome(EntrySteps(Begin(table, nextId, node, p), node, p, front + [e], now).table[i], front + [e])
  {
    var tx := EntrySteps(Begin(table, nextId, node, p), node, p, front, now);
    assert (front + [e])[..|front|] == front;
    EntryStepsProgress(table, nextId, node, p, front, now);
    ReadStays(Begin(table, nextId, node, p), node, p, front, now);
    ReadIdsAreOld(table, tx, node);
    NewStepSays(table, tx, node, p, front, e, now, i);
  }

  // Every inbound a sync creates says what some entry of the snapshot says.
  lemma {:induction false} CreatedSaySome(table: seq<Inbound>, nextId: int, node: int, p: string, snap: seq<Entry>,
                                          now: int, i: int)
    requires WellFormed(table, nextId)
    requires |table| <= i < |EntrySteps(Begin(table, nextId, node, p), node, p, snap, now).table|
    ensures SaysSome(EntrySteps(Begin(table, nextId, node, p), node, p, snap, now).table[i], snap)
    decreases |snap|
  {
    if snap != [] {
      var front, e := snap[..|snap| - 1], snap[|snap| - 1];
      assert snap == front + [e];
      if i < |EntrySteps(Begin(table, nextId, node, p), node, p, front, now).table| {
        CreatedSaySome(table, nextId, node, p, front, now, i);
      }
      CreatedLast(table, nextId, node, p, front, e, now, i);
    }
  }

  // ------------------------------------------------------------------
  // Two syncs in a row
  // ------------------------------------------------------------------

  // Every name the entry may take is held by an inbound outside the node.
  predicate TakenElsewhere(table: seq<Inbound>, node: int, tag: string) {
    exists i :: 0 <= i < |table| && table[i].node != node && table[i].tag == tag
  }

  predicate Collides(table: seq<Inbound>, node: int, p: string, e: Entry) {
    TakenElsewhere(table, node, e.tag) && (p <= e.tag || TakenElsewhere(table, node, p + e.tag))
  }

  predicate NamedRow(table: seq<Inbound>, node: int, p: string, e: Entry, i: int) {
    0 <= i < |table| && table[i].node == node && Names(p, e, table[i].tag)
  }

  // The entry has a central inbound of the node, or can never get one.
  ghost predicate Settled(table: seq<Inbound>, node: int, p: string, e: Entry) {
    Collides(table, node, p, e) || exists i :: NamedRow(table, node, p, e, i)
  }

  // No tag of the node carries the prefix twice; no tag it reports is empty or does.
  predicate PlainTable(table: seq<Inbound>, node: int, p: string) {
    forall i | 0 <= i < |table| && table[i].node == node :: !Doubled(p, table[i].tag)
  }

  predicate PlainSnap(snap: seq<Entry>, p: string) {
    forall i | 0 <= i < |snap| :: snap[i].tag != "" && !Doubled(p, snap[i].tag)
  }

  predicate OwnTagsIndexed(tx: Tx, node: int) {
    forall i | 0 <= i < |tx.table| && tx.table[i].node == node :: tx.table[i].tag in tx.index
  }

  lemma SettledStays(a: seq<Inbound>, b: seq<Inbound>, node: int, p: string, e: Entry)
    requires Extends(a, b, node) && Settled(a, node, p, e)
    ensures Settled(b, node, p, e)
  {
    if Collides(a, node, p, e) {
      assert forall tag :: TakenElsewhere(a, node, tag) ==> TakenElsewhere(b, node, tag) by {
        forall tag | TakenElsewhere(a, node, tag) ensures TakenElsewhere(b, node, tag) {
          var i :| 0 <= i < |a| && a[i].node != node && a[i].tag == tag;
          assert b[i] == a[i];
        }
      }
    } else {
      var i :| NamedRow(a, node, p, e, i);
      assert NamedRow(b, node, p, e, i);
    }
  }

  lemma EntryStepStaysPlain(tx: Tx, node: int, p: string, e: Entry, now: int)
    requires PlainTable(tx.table, node, p) && !Doubled(p, e.tag) && OwnTagsIndexed(tx, node)
    ensures var tx' := EntryStep(tx, node, p, e, now); PlainTable(tx'.table, node, p) && OwnTagsIndexed(tx', node)
  {
    NotDoubledWhenPrefixed(p, e.tag);
    FreeTagIsFree(tx.table, p, e.tag);
  }

  lemma MatchedEntrySettles(tx: Tx, node: int, p: string, e: Entry, now: int)
    requires p != "" && IndexSound(tx, node, p) && PlainTable(tx.table, node, p) && e.tag in tx.index
    ensures Settled(EntryStep(tx, node, p, e, now).table, node, p, e)
  {
    var i :| LeadsTo(tx, node, p, e.tag, i);
    FlipTwiceIff(p, tx.table[i].tag);
    assert NamedRow(EntryStep(tx, node, p, e, now).table, node, p, e, i);
  }

  lemma UnmatchedEntrySettles(tx: Tx, node: int, p: string, e: Entry, now: int)
    requires OwnTagsIndexed(tx, node) && e.tag !in tx.index && e.tag != ""
    ensures Settled(EntryStep(tx, node, p, e, now).table, node, p, e)
  {
    var tx' := EntryStep(tx, node, p, e, now);
    var t := FreeTag(tx.table, p, e.tag);
    FreeTagIsFree(tx.table, p, e.tag);
    if t != "" {
      assert NamedRow(tx'.table, node, p, e, |tx.table|);
    } else {
      var i :| 0 <= i < |tx.table| && tx.table[i].tag == e.tag;
      assert TakenElsewhere(tx.table, node, e.tag);
      if !(p <= e.tag) {
        var j :| 0 <= j < |tx.table| && tx.table[j].tag == p + e.tag;
        assert NamedRow(tx.table, node, p, e, j) || TakenElsewhere(tx.table, node, p + e.tag);
      }
    }
  }

  ghost predicate AllSettled(table: seq<Inbound>, node: int, p: string, snap: seq<Entry>) {
    forall i | 0 <= i < |snap| :: Settled(table, node, p, snap[i])
  }

  lemma AllSettledStay(a: seq<Inbound>, b: seq<Inbound>, node: int, p: string, front: seq<Entry>, e: Entry)
    requires Extends(a, b, node) && AllSettled(a, node, p, front) && Settled(b, node, p, e)
    ensures AllSettled(b, node, p, front + [e])
  {
    forall i | 0 <= i < |front| ensures Settled(b, node, p, front[i]) {
      SettledStays(a, b, node, p, front[i]);
    }
  }

  lemma EntryStepSettlesAll(tx: Tx, node: int, p: string, front: seq<Entry>, e: Entry, now: int)
    requires p != "" && WellFormed(tx.table, tx.nextId) && IndexSound(tx, node, p)
    requires OwnTagsIndexed(tx, node) && PlainTable(tx.table, node, p)
    requires e.tag != "" && AllSettled(tx.table, node, p, front)
    ensures AllSettled(EntryStep(tx, node, p, e, now).table, node, p, front + [e])
  {
    EntryStepExtends(tx.table, tx, node, p, e, now);
    if e.tag in tx.index {
      MatchedEntrySettles(tx, node, p, e, now);
    } else {
      UnmatchedEntrySettles(tx, node, p, e, now);
    }
    AllSettledStay(tx.table, EntryStep(tx, node, p, e, now).table, node, p, front, e);
  }

  lemma BeginOwnTags(table: seq<Inbound>, nextId: int, node: int, p: string)
    ensures OwnTagsIndexed(Begin(table, nextId, node, p), node)
  {
    OfNodeExact(table, node);
    forall i | 0 <= i < |table| && table[i].node == node ensures table[i].tag in Begin(table, nextId, node, p).index {
      IndexExact(p, OfNode(table, node), table[i].tag);
      assert table[i] in OfNode(table, node) && Hits(p, table[i], table[i].tag);
    }
  }

  // What the entries gone through so far have left: own tags indexed, none doubly prefixed,
  // every entry settled.
  ghost predicate SettledSoFar(tx: Tx, node: int, p: string, snap: seq<Entry>) {
    OwnTagsIndexed(tx, node) && PlainTable(tx.table, node, p) && AllSettled(tx.table, node, p, snap)
  }

  lemma SettleOneMore(table: seq<Inbound>, tx: Tx, node: int, p: string, front: seq<Entry>, e: Entry, now: int,
                      start: map<string, int>)
    requires p != "" && e.tag != "" && !Doubled(p, e.tag)
    requires Progress(table, tx, node, p, front, start) && SettledSoFar(tx, node, p, front)
    ensures SettledSoFar(EntryStep(tx, node, p, e, now), node, p, front + [e])
  {
    EntryStepStaysPlain(tx, node, p, e, now);
    EntryStepSettlesAll(tx, node, p, front, e, now);
  }

  lemma SettleLast(table: seq<Inbound>, nextId: int, node: int, p: string, front: seq<Entry>, e: Entry, now: int)
    requires WellFormed(table, nextId) && p != "" && e.tag != "" && !Doubled(p, e.tag)
    requires SettledSoFar(EntrySteps(Begin(table, nextId, node, p), node, p, front, now), node, p, front)
    ensures SettledSoFar(EntrySteps(Begin(table, nextId, node, p), node, p, front + [e], now), node, p, front + [e])
  {
    var tx := EntrySteps(Begin(table, nextId, node, p), node, p, front, now);
    EntryStepsProgress(table, nextId, node, p, front, now);
    SettleOneMore(table, tx, node, p, front, e, now, Index(p, OfNode(table, node)));
    assert (front + [e])[..|front|] == front;
  }

  lemma {:induction false} EntryStepsSettle(table: seq<Inbound>, nextId: int, node: int, p: string, snap: seq<Entry>,
                                            now: int)
    requires WellFormed(table, nextId) && p != "" && PlainTable(table, node, p) && PlainSnap(snap, p)
    ensures SettledSoFar(EntrySteps(Begin(table, nextId, node, p), node, p, snap, now), node, p, snap)
    decreases |snap|
  {
    if snap == [] {
      BeginOwnTags(table, nextId, node, p);
    } else {
      var front, e := snap[..|snap| - 1], snap[|snap| - 1];
      assert snap == front + [e];
      EntryStepsSettle(table, nextId, node, p, front, now);
      SettleLast(table, nextId, node, p, front, e, now);
    }
  }

  ghost predicate AllNamed(table: seq<Inbound>, node: int, p: string, snap: seq<Entry>) {
    forall i | 0 <= i < |table| && table[i].node == node :: SnapNames(p, snap, table[i].tag)
  }

  lemma SettledSurvives(tx: Tx, out: Tx, node: int, p: string, snap: seq<Entry>, i: int)
    requires 0 <= i < |snap| && Settled(tx.table, node, p, snap[i])
    requires forall c | c in tx.table && c !in out.table :: c.node == node && !SnapNames(p, snap, c.tag)
    ensures Settled(out.table, node, p, snap[i])
  {
    var e := snap[i];
    if Collides(tx.table, node, p, e) {
      forall tag | TakenElsewhere(tx.table, node, tag) ensures TakenElsewhere(out.table, node, tag) {
        var k :| 0 <= k < |tx.table| && tx.table[k].node != node && tx.table[k].tag == tag;
        assert tx.table[k] in out.table;
      }
    } else {
      var k :| NamedRow(tx.table, node, p, e, k);
      assert SnapNames(p, snap, tx.table[k].tag);
      var j :| 0 <= j < |out.table| && out.table[j] == tx.table[k];
      assert NamedRow(out.table, node, p, e, j);
    }
  }

  // After a sync every entry is settled and every row of the node is named by an entry.
  lemma SyncSettles(table: seq<Inbound>, nextId: int, node: int, p: string, snap: seq<Entry>, now: int)
    requires WellFormed(table, nextId) && p != "" && PlainTable(table, node, p) && PlainSnap(snap, p)
    ensures AllSettled(SyncTags(table, nextId, node, p, snap, now).table, node, p, snap)
  {
    var central := OfNode(table, node);
    var tx := EntrySteps(Begin(table, nextId, node, p), node, p, snap, now);
    var out := SyncTags(table, nextId, node, p, snap, now);
    EntryStepsSettle(table, nextId, node, p, snap, now);
    EntryStepsProgress(table, nextId, node, p, snap, now);
    OfNodeExact(table, node);
    SweepStepsExact(tx, central);
    forall c | c in tx.table && Swept(tx, central, c.id) ensures c.node == node && !SnapNames(p, snap, c.tag) {
      SweptIsUnnamed(table, tx, node, p, snap, c);
    }
    forall i | 0 <= i < |snap| ensures Settled(out.table, node, p, snap[i]) {
      SettledSurvives(tx, out, node, p, snap, i);
    }
  }

  lemma CreatedIsNamed(c: Inbound, node: int, p: string, snap: seq<Entry>, start: map<string, int>)
    requires Created(c, node, p, snap, start)
    ensures SnapNames(p, snap, c.tag)
  {
    var j :| 0 <= j < |snap| && snap[j].tag !in start &&
      (c.tag == snap[j].tag || (!(p <= snap[j].tag) && c.tag == p + snap[j].tag));
    assert Names(p, snap[j], c.tag);
  }

  lemma SurvivorIsNamed(table: seq<Inbound>, nextId: int, tx: Tx, node: int, p: string, snap: seq<Entry>, c: Inbound)
    requires WellFormed(table, nextId) && Progress(table, tx, node, p, snap, Index(p, OfNode(table, node)))
    requires c in tx.table && c.node == node && !Swept(tx, OfNode(table, node), c.id)
    ensures SnapNames(p, snap, c.tag)
  {
    var k :| 0 <= k < |tx.table| && tx.table[k] == c;
    if k < |table| {
      assert SameIdentity(table[k], c);
      SweptIff(table, nextId, tx, node, p, snap, table[k]);
    } else {
      CreatedIsNamed(c, node, p, snap, Index(p, OfNode(table, node)));
    }
  }

  lemma SyncNamesAll(table: seq<Inbound>, nextId: int, node: int, p: string, snap: seq<Entry>, now: int)
    requires WellFormed(table, nextId)
    ensures AllNamed(SyncTags(table, nextId, node, p, snap, now).table, node, p, snap)
  {
    var central := OfNode(table, node);
    var tx := EntrySteps(Begin(table, nextId, node, p), node, p, snap, now);
    var out := SyncTags(table, nextId, node, p, snap, now);
    EntryStepsProgress(table, nextId, node, p, snap, now);
    OfNodeExact(table, node);
    SweepStepsExact(tx, central);
    forall i | 0 <= i < |out.table| && out.table[i].node == node ensures SnapNames(p, snap, out.table[i].tag) {
      assert out.table[i] in out.table;
      SurvivorIsNamed(table, nextId, tx, node, p, snap, out.table[i]);
    }
  }

  lemma NamedIsIndexed(table: seq<Inbound>, node: int, p: string, e: Entry)
    requires p != "" && !Doubled(p, e.tag) && exists i :: NamedRow(table, node, p, e, i)
    ensures e.tag in Index(p, OfNode(table, node))
  {
    OfNodeExact(table, node);
    IndexExact(p, OfNode(table, node), e.tag);
    FlipTwiceIff(p, e.tag);
    var i :| NamedRow(table, node, p, e, i);
    assert table[i] in OfNode(table, node) && Hits(p, table[i], e.tag);
  }

  lemma ElsewhereIsTaken(table: seq<Inbound>, tx: Tx, node: int, tag: string)
    requires |tx.table| == |table| && Extends(table, tx.table, node)
    ensures TakenElsewhere(table, node, tag) ==> TagTaken(tx.table, tag)
  {
    if TakenElsewhere(table, node, tag) {
      var i :| 0 <= i < |table| && table[i].node != node && table[i].tag == tag;
      assert tx.table[i].tag == tag;
    }
  }

  lemma SettledEntryCreatesNothing(table: seq<Inbound>, tx: Tx, node: int, p: string, e: Entry, now: int)
    requires p != "" && e.tag != "" && !Doubled(p, e.tag) && Settled(table, node, p, e)
    requires |tx.table| == |table| && Extends(table, tx.table, node)
    requires tx.index == Index(p, OfNode(table, node))
    ensures var tx' := EntryStep(tx, node, p, e, now);
            |tx'.table| == |tx.table| && tx'.nextId == tx.nextId && tx'.index == tx.index
  {
    if Collides(table, node, p, e) {
      ElsewhereIsTaken(table, tx, node, e.tag);
      ElsewhereIsTaken(table, tx, node, p + e.tag);
    } else {
      NamedIsIndexed(table, node, p, e);
    }
  }

  lemma {:induction false} SettledSnapCreatesNothing(table: seq<Inbound>, nextId: int, node: int, p: string,
                                                     snap: seq<Entry>, now: int)
    requires WellFormed(table, nextId) && p != ""
    requires PlainSnap(snap, p) && AllSettled(table, node, p, snap)
    ensures var tx := EntrySteps(Begin(table, nextId, node, p), node, p, snap, now);
            |tx.table| == |table| && tx.nextId == nextId && tx.index == Index(p, OfNode(table, node))
    decreases |snap|
  {
    if snap != [] {
      var front := snap[..|snap| - 1];
      SettledSnapCreatesNothing(table, nextId, node, p, front, now);
      EntryStepsProgress(table, nextId, node, p, front, now);
      SettledEntryCreatesNothing(table, EntrySteps(Begin(table, nextId, node, p), node, p, front, now), node, p,
        snap[|snap| - 1], now);
    }
  }

  lemma {:induction false} SweepNothing(tx: Tx, central: seq<Inbound>)
    requires forall i | 0 <= i < |central| :: central[i].tag in tx.snapTags
    ensures SweepSteps(tx, central) == tx
    decreases |central|
  {
    if central != [] {
      SweepNothing(tx, central[..|central| - 1]);
    }
  }

  // Syncing again with the same tags finds every inbound: nothing is created, nothing is
  // removed, and every row keeps its id, owner and tag. The prefix may sit on either side.
  lemma SecondSyncIsQuiet(table: seq<Inbound>, nextId: int, node: int, p: string, snap: seq<Entry>, now: int,
                          later: int)
    requires WellFormed(table, nextId) && p != "" && PlainTable(table, node, p) && PlainSnap(snap, p)
    ensures var first := SyncTags(table, nextId, node, p, snap, now);
            var second := SyncTags(first.table, first.nextId, node, p, snap, later);
            second.nextId == first.nextId && |second.table| == |first.table| &&
            forall i | 0 <= i < |first.table| :: SameIdentity(first.table[i], second.table[i])
  {
    var first := SyncTags(table, nextId, node, p, snap, now);
    TagsStayUnique(table, nextId, node, p, snap, now);
    SyncSettles(table, nextId, node, p, snap, now);
    SyncNamesAll(table, nextId, node, p, snap, now);
    SettledSnapCreatesNothing(first.table, first.nextId, node, p, snap, later);
    EntryStepsProgress(first.table, first.nextId, node, p, snap, later);
    OfNodeExact(first.table, node);
    var tx := EntrySteps(Begin(first.table, first.nextId, node, p), node, p, snap, later);
    forall i | 0 <= i < |OfNode(first.table, node)| ensures OfNode(first.table, node)[i].tag in tx.snapTags {
      assert OfNode(first.table, node)[i] in first.table;
    }
    SweepNothing(tx, OfNode(first.table, node));
  }
}
