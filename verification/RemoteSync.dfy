// The node sync as the panel runs it: one pass over the snapshot that rewrites the
// inbounds table, the usage rows and the baselines in place, plus the id lookup the
// panel keeps for each node.

module RemoteSync {

  import R = NodeRows
  import opened NodeTags
  import opened Sets
  import U = NodeUsage

  datatype SnapInbound = SnapInbound(entry: Entry, stats: seq<U.Stat>)

  function Entries(snap: seq<SnapInbound>): seq<Entry> {
    seq(|snap|, i requires 0 <= i < |snap| => snap[i].entry)
  }

  // The snapshot entries that lead to a central inbound once inbounds are synced.
  function Reports(index: map<string, int>, snap: seq<SnapInbound>): seq<U.Report>
    decreases |snap|
  {
    if snap == [] then []
    else
      var last := snap[|snap| - 1];
      Reports(index, snap[..|snap| - 1]) +
      (if last.entry.tag in index then [U.Report(index[last.entry.tag], last.stats)] else [])
  }

  function Orphans(snapTags: set<string>, central: seq<Inbound>): seq<int>
    decreases |central|
  {
    if central == [] then []
    else
      var c := central[|central| - 1];
      Orphans(snapTags, central[..|central| - 1]) + (if c.tag in snapTags then [] else [c.id])
  }

  function Ids(central: seq<Inbound>): set<int> {
    set c | c in central :: c.id
  }

  lemma SweepOneMore(t: U.Tables, node: int, before: seq<int>, id: int)
    ensures U.Sweep(t, node, before + [id]) == U.SweepStep(U.Sweep(t, node, before), node, id)
  {
    assert (before + [id])[..|before|] == before;
  }

  lemma SweepTagsOneMore(tx: Tx, snapTags: set<string>, central: seq<Inbound>, i: nat)
    requires i < |central|
    ensures SweepSteps(tx, central[..i + 1]) == NodeTags.SweepStep(SweepSteps(tx, central[..i]), central[i])
    ensures Orphans(snapTags, central[..i + 1]) ==
            (if central[i].tag in snapTags then Orphans(snapTags, central[..i])
             else Orphans(snapTags, central[..i]) + [central[i].id])
  {
    assert central[..i + 1][..i] == central[..i];
  }

  lemma ReportsOneMore(index: map<string, int>, snap: seq<SnapInbound>, i: nat)
    requires i < |snap|
    ensures Reports(index, snap[..i + 1]) ==
            (if snap[i].entry.tag in index
             then Reports(index, snap[..i]) + [U.Report(index[snap[i].entry.tag], snap[i].stats)]
             else Reports(index, snap[..i]))
  {
    assert snap[..i + 1][..i] == snap[..i];
  }

  lemma ReportOneMore(s: U.Sync, node: int, before: seq<U.Report>, r: U.Report)
    ensures U.ReportSteps(s, node, before + [r]) == U.ReportStep(U.ReportSteps(s, node, before), node, r)
  {
    assert (before + [r])[..|before|] == before;
  }

  lemma RemoveNothing(t: U.Tables, node: int, id: int)
    ensures U.Remove(t, node, id, {}) == t
  {
    var t' := U.Remove(t, node, id, {});
    assert t'.rows == t.rows && t'.baselines == t.baselines;
  }

  lemma RemoveOneMore(t: U.Tables, node: int, id: int, gone: set<string>, e: string)
    ensures var t' := U.Remove(t, node, id, gone);
            U.Remove(t, node, id, gone + {e}) ==
              U.Tables(if e in t'.rows && t'.rows[e].inboundId == id then t'.rows - {e} else t'.rows,
                t'.baselines - {U.Key(node, e)})
  {
    var t', t'' := U.Remove(t, node, id, gone), U.Remove(t, node, id, gone + {e});
    assert t''.rows == if e in t'.rows && t'.rows[e].inboundId == id then t'.rows - {e} else t'.rows;
    assert t''.baselines == t'.baselines - {U.Key(node, e)};
  }

  // ------------------------------------------------------------------
  // Which usage rows come through a sync, told from the snapshot
  // ------------------------------------------------------------------

  predicate Unnamed(snapTags: set<string>, central: seq<Inbound>, id: int) {
    exists i :: 0 <= i < |central| && central[i].id == id && central[i].tag !in snapTags
  }

  lemma UnnamedMore(snapTags: set<string>, front: seq<Inbound>, c: Inbound, id: int)
    ensures Unnamed(snapTags, front + [c], id) <==> Unnamed(snapTags, front, id) || (c.id == id && c.tag !in snapTags)
  {
    var central := front + [c];
    assert central[|front|] == c;
    if i :| 0 <= i < |front| && front[i].id == id && front[i].tag !in snapTags {
      assert central[i] == front[i];
    }
  }

  lemma {:induction false} OrphansExact(snapTags: set<string>, central: seq<Inbound>, id: int)
    ensures id in Orphans(snapTags, central) <==> Unnamed(snapTags, central, id)
    decreases |central|
  {
    if central != [] {
      var front, c := central[..|central| - 1], central[|central| - 1];
      assert central == front + [c];
      OrphansExact(snapTags, front, id);
      UnnamedMore(snapTags, front, c, id);
    }
  }

  predicate Lists(s: SnapInbound, e: string) {
    exists i :: 0 <= i < |s.stats| && s.stats[i].email == e
  }

  predicate LeadsTo(index: map<string, int>, s: SnapInbound, o: int) {
    s.entry.tag in index && index[s.entry.tag] == o
  }

  // Every entry that leads to the inbound lists the e-mail.
  predicate ListedBy(index: map<string, int>, snap: seq<SnapInbound>, o: int, e: string) {
    forall k | 0 <= k < |snap| && LeadsTo(index, snap[k], o) :: Lists(snap[k], e)
  }

  lemma ReportLists(id: int, s: SnapInbound, e: string)
    ensures R.HasLine(U.Report(id, s.stats), e) <==> Lists(s, e)
  {
  }

  lemma ListedMore(reports: seq<U.Report>, r: U.Report, o: int, e: string)
    ensures R.AlwaysListed(reports + [r], o, e) <==>
              R.AlwaysListed(reports, o, e) && (r.inboundId == o ==> R.HasLine(r, e))
  {
    var more := reports + [r];
    assert more[|reports|] == r && forall j | 0 <= j < |reports| :: more[j] == reports[j];
  }

  lemma ListedByMore(index: map<string, int>, front: seq<SnapInbound>, last: SnapInbound, o: int, e: string)
    ensures ListedBy(index, front + [last], o, e) <==>
              ListedBy(index, front, o, e) && (LeadsTo(index, last, o) ==> Lists(last, e))
  {
    var snap := front + [last];
    assert snap[|front|] == last && forall k | 0 <= k < |front| :: snap[k] == front[k];
  }

  lemma LastReport(index: map<string, int>, front: seq<SnapInbound>, last: SnapInbound)
    ensures Reports(index, front + [last]) ==
            if last.entry.tag in index
            then Reports(index, front) + [U.Report(index[last.entry.tag], last.stats)] else Reports(index, front)
  {
    ReportsOneMore(index, front + [last], |front|);
    assert (front + [last])[..|front|] == front && (front + [last])[..|front| + 1] == front + [last];
  }

  lemma {:induction false} ReportsListed(index: map<string, int>, snap: seq<SnapInbound>, o: int, e: string)
    ensures R.AlwaysListed(Reports(index, snap), o, e) <==> ListedBy(index, snap, o, e)
    decreases |snap|
  {
    if snap != [] {
      var front, last := snap[..|snap| - 1], snap[|snap| - 1];
      assert snap == front + [last];
      ReportsListed(index, front, o, e);
      LastReport(index, front, last);
      ListedByMore(index, front, last, o, e);
      if last.entry.tag in index {
        ListedMore(Reports(index, front), U.Report(index[last.entry.tag], last.stats), o, e);
        ReportLists(index[last.entry.tag], last, e);
      }
    }
  }

  // No entry after the given one that leads to o, if o counts, lacks the e-mail.
  predicate NoneLacks(index: map<string, int>, snap: seq<SnapInbound>, after: int, o: int, counts: bool, e: string) {
    forall k | 0 <= k < |snap| && after < k && counts && LeadsTo(index, snap[k], o) :: Lists(snap[k], e)
  }

  // Some entry that leads to a central inbound lists the e-mail, and none after it lacks it.
  predicate ListedLately(index: map<string, int>, snap: seq<SnapInbound>, o: int, counts: bool, e: string) {
    exists k :: 0 <= k < |snap| && snap[k].entry.tag in index && Lists(snap[k], e) &&
                NoneLacks(index, snap, k, o, counts, e)
  }

  lemma ListedLatelyMore(index: map<string, int>, front: seq<SnapInbound>, last: SnapInbound, o: int, counts: bool,
                         e: string)
    ensures ListedLately(index, front + [last], o, counts, e) <==>
              (last.entry.tag in index && Lists(last, e)) ||
              (ListedLately(index, front, o, counts, e) && (counts && LeadsTo(index, last, o) ==> Lists(last, e)))
  {
    var snap := front + [last];
    assert snap[|front|] == last && forall k | 0 <= k < |front| :: snap[k] == front[k];
    if last.entry.tag in index && Lists(last, e) {
      assert Lists(snap[|front|], e) && NoneLacks(index, snap, |front|, o, counts, e);
    }
    if k :| 0 <= k < |front| && front[k].entry.tag in index && Lists(front[k], e) &&
            NoneLacks(index, front, k, o, counts, e) {
      assert (counts && LeadsTo(index, last, o) ==> Lists(last, e)) ==>
          Lists(snap[k], e) && NoneLacks(index, snap, k, o, counts, e);
    }
    if k :| 0 <= k < |snap| && snap[k].entry.tag in index && Lists(snap[k], e) &&
            NoneLacks(index, snap, k, o, counts, e) {
      assert k < |front| ==> Lists(front[k], e) && NoneLacks(index, front, k, o, counts, e);
      assert k < |front| && counts && LeadsTo(index, snap[|front|], o) ==> Lists(snap[|front|], e);
    }
  }

  lemma {:induction false} ReportsListedLately(index: map<string, int>, snap: seq<SnapInbound>, o: int, counts: bool,
                                               e: string)
    ensures R.ListedLast(Reports(index, snap), e, o, counts) <==> ListedLately(index, snap, o, counts, e)
    decreases |snap|
  {
    if snap != [] {
      var front, last := snap[..|snap| - 1], snap[|snap| - 1];
      assert snap == front + [last];
      ReportsListedLately(index, front, o, counts, e);
      LastReport(index, front, last);
      ListedLatelyMore(index, front, last, o, counts, e);
      if last.entry.tag in index {
        R.ListedMore(Reports(index, front), U.Report(index[last.entry.tag], last.stats), e, o, counts);
        ReportLists(index[last.entry.tag], last, e);
      }
    }
  }

  lemma {:induction false} SnapTagsExact(tx: Tx, node: int, p: string, snap: seq<Entry>, now: int)
    requires tx.snapTags == {}
    ensures forall tag :: tag in EntrySteps(tx, node, p, snap, now).snapTags <==> SnapNames(p, snap, tag)
    decreases |snap|
  {
    if snap != [] {
      var front, e := snap[..|snap| - 1], snap[|snap| - 1];
      SnapTagsExact(tx, node, p, front, now);
      EntryStepNames(EntrySteps(tx, node, p, front, now), node, p, front, e, now);
      assert snap == front + [e];
    }
  }

  // The tags the snapshot names are the ones a sync collects.
  lemma SyncCollectsTags(table: seq<Inbound>, nextId: int, node: int, p: string, snap: seq<Entry>, now: int)
    ensures forall tag :: tag in SyncTags(table, nextId, node, p, snap, now).snapTags <==> SnapNames(p, snap, tag)
  {
    SnapTagsExact(Begin(table, nextId, node, p), node, p, snap, now);
    SweepStepsExact(EntrySteps(Begin(table, nextId, node, p), node, p, snap, now), OfNode(table, node));
  }

  // An inbound of the node.
  predicate IsOf(table: seq<Inbound>, node: int, o: int) {
    exists i :: 0 <= i < |table| && table[i].node == node && table[i].id == o
  }

  // The snapshot names the tag of each inbound of the node with this id.
  predicate IsNamed(table: seq<Inbound>, node: int, p: string, snap: seq<Entry>, o: int) {
    forall i | 0 <= i < |table| && table[i].node == node && table[i].id == o :: SnapNames(p, snap, table[i].tag)
  }

  lemma IdsExact(table: seq<Inbound>, node: int, o: int)
    ensures o in Ids(OfNode(table, node)) <==> IsOf(table, node, o)
  {
    OfNodeExact(table, node);
    if IsOf(table, node, o) {
      var i :| 0 <= i < |table| && table[i].node == node && table[i].id == o;
      assert table[i] in OfNode(table, node);
    }
  }

  lemma OrphanIff(table: seq<Inbound>, node: int, p: string, snap: seq<Entry>, snapTags: set<string>, o: int)
    requires forall tag :: tag in snapTags <==> SnapNames(p, snap, tag)
    ensures o in Orphans(snapTags, OfNode(table, node)) <==> !IsNamed(table, node, p, snap, o)
  {
    var central := OfNode(table, node);
    OfNodeExact(table, node);
    OrphansExact(snapTags, central, o);
    if i :| 0 <= i < |central| && central[i].id == o && central[i].tag !in snapTags {
      assert central[i] in table;
    }
    if !IsNamed(table, node, p, snap, o) {
      var i :| 0 <= i < |table| && table[i].node == node && table[i].id == o && !SnapNames(p, snap, table[i].tag);
      assert table[i] in central;
    }
  }

  // The inbound is not one of the node, or the snapshot names its tag and lists the e-mail
  // in every entry that leads to it.
  ghost predicate Keeps(table: seq<Inbound>, nextId: int, node: nat, snap: seq<SnapInbound>, now: int, o: int,
                        e: string) {
    IsOf(table, node, o) ==>
      && IsNamed(table, node, Prefix(node), Entries(snap), o)
      && ListedBy(SyncTags(table, nextId, node, Prefix(node), Entries(snap), now).index, snap, o, e)
  }

  // Its baseline at the node is there afterwards: some entry lists the e-mail late enough,
  // or it was there and the inbound keeps the row.
  ghost predicate KeepsBaseline(table: seq<Inbound>, nextId: int, node: nat, snap: seq<SnapInbound>, now: int, o: int,
                                e: string, was: bool) {
    ListedLately(SyncTags(table, nextId, node, Prefix(node), Entries(snap), now).index, snap, o,
      IsOf(table, node, o), e) ||
    (was && Keeps(table, nextId, node, snap, now, o, e))
  }

  // The rows and baselines a sync leaves of those that were there.
  ghost predicate KeptExactly(table: seq<Inbound>, nextId: int, node: nat, snap: seq<SnapInbound>, now: int,
                              t: U.Tables, after: U.Tables) {
    forall e | e in t.rows ::
      && (e in after.rows <==> Keeps(table, nextId, node, snap, now, t.rows[e].inboundId, e))
      && (U.Key(node, e) in after.baselines <==>
            KeepsBaseline(table, nextId, node, snap, now, t.rows[e].inboundId, e, U.Key(node, e) in t.baselines))
  }

  // The usage effect of one snapshot on the tables.
  function Effect(table: seq<Inbound>, nextId: int, t: U.Tables, node: nat, snap: seq<SnapInbound>,
                  now: int): U.Tables {
    var central := OfNode(table, node);
    var tx := SyncTags(table, nextId, node, Prefix(node), Entries(snap), now);
    U.SyncNode(t, node, Ids(central), Orphans(tx.snapTags, central), Reports(tx.index, snap))
  }

  lemma SyncedRowStaysIff(table: seq<Inbound>, nextId: int, t: U.Tables, node: nat, snap: seq<SnapInbound>, now: int,
                          e: string)
    requires e in t.rows
    ensures var after, o := Effect(table, nextId, t, node, snap, now), t.rows[e].inboundId;
            && (e in after.rows <==> Keeps(table, nextId, node, snap, now, o, e))
            && (U.Key(node, e) in after.baselines <==>
                  KeepsBaseline(table, nextId, node, snap, now, o, e, U.Key(node, e) in t.baselines))
  {
    var p, central, o := Prefix(node), OfNode(table, node), t.rows[e].inboundId;
    var tx := SyncTags(table, nextId, node, p, Entries(snap), now);
    R.RowStaysIff(t, node, Ids(central), Orphans(tx.snapTags, central), Reports(tx.index, snap), e);
    R.BaselineStaysIff(t, node, Ids(central), Orphans(tx.snapTags, central), Reports(tx.index, snap), e);
    SyncCollectsTags(table, nextId, node, p, Entries(snap), now);
    IdsExact(table, node, o);
    OrphanIff(table, node, p, Entries(snap), tx.snapTags, o);
    ReportsListed(tx.index, snap, o, e);
    ReportsListedLately(tx.index, snap, o, IsOf(table, node, o), e);
  }

  // A usage row stays through the sync of a node exactly when its inbound keeps it.
  lemma SyncKeepsExactly(table: seq<Inbound>, nextId: int, t: U.Tables, node: nat, snap: seq<SnapInbound>, now: int)
    ensures KeptExactly(table, nextId, node, snap, now, t, Effect(table, nextId, t, node, snap, now))
  {
    forall e | e in t.rows
      ensures var after, o := Effect(table, nextId, t, node, snap, now), t.rows[e].inboundId;
              && (e in after.rows <==> Keeps(table, nextId, node, snap, now, o, e))
              && (U.Key(node, e) in after.baselines <==>
                    KeepsBaseline(table, nextId, node, snap, now, o, e, U.Key(node, e) in t.baselines))
    {
      SyncedRowStaysIff(table, nextId, t, node, snap, now, e);
    }
  }

  class CentralPanel {
    var inbounds: seq<Inbound>
    var nextId: int
    var rows: map<string, U.Row>
    var baselines: map<U.Key, U.Counter>

    function Tables(): U.Tables
      reads this
    {
      U.Tables(rows, baselines)
    }

    // Every central inbound under its tag and its flipped tag.
    method BuildIndex(p: string, central: seq<Inbound>) returns (index: map<string, int>)
      ensures index == Index(p, central)
    {
      index := map[];
      for i := 0 to |central|
        invariant index == Index(p, central[..i])
      {
        assert central[..i + 1][..i] == central[..i];
        index := index[central[i].tag := central[i].id][Flip(p, central[i].tag) := central[i].id];
      }
      assert central[..|central|] == central;
    }

    // Creates or refreshes a central inbound for each entry; central holds the rows read
    // before the sync.
    method SyncEntries(node: int, p: string, central: seq<Inbound>, index0: map<string, int>, snap: seq<SnapInbound>,
                       now: int)
      returns (index: map<string, int>, snapTags: set<string>)
      modifies this`inbounds, this`nextId
      ensures Tx(inbounds, nextId, central, index, snapTags) ==
              EntrySteps(Tx(old(inbounds), old(nextId), central, index0, {}), node, p, Entries(snap), now)
    {
      index, snapTags := index0, {};
      ghost var es := Entries(snap);
      for i := 0 to |snap|
        invariant Tx(inbounds, nextId, central, index, snapTags) ==
                  EntrySteps(Tx(old(inbounds), old(nextId), central, index0, {}), node, p, es[..i], now)
      {
        var e := snap[i].entry;
        assert es[..i + 1][..i] == es[..i] && es[i] == e;
        snapTags := snapTags + {e.tag, Flip(p, e.tag)};
        if e.tag in index {
          inbounds := RefreshRow(inbounds, central, index[e.tag], e, now);
        } else {
          var t := FreeTag(inbounds, p, e.tag);
          if t != "" {
            inbounds := inbounds + [Inbound(nextId, node, t, e.config, e.up, e.down, 0)];
            index := index[e.tag := nextId][t := nextId];
            nextId := nextId + 1;
          }
        }
      }
      assert es[..|snap|] == es;
    }

    method ApplyStat(node: int, id: int, cs: U.Stat,
                     base0: map<string, U.Counter>, existing0: set<string>, owned0: set<U.Key>)
      returns (base: map<string, U.Counter>, existing: set<string>, owned: set<U.Key>)
      modifies this`rows, this`baselines
      ensures U.Sync(Tables(), base, existing, owned) ==
              U.StatStep(U.Sync(old(Tables()), base0, existing0, owned0), node, id, cs)
    {
      base, existing, owned := base0, existing0, owned0;
      var up, down := 0, 0;
      if cs.email in base {
        var b := base[cs.email];
        up := if cs.counter.up - b.up < 0 then cs.counter.up else cs.counter.up - b.up;
        down := if cs.counter.down - b.down < 0 then cs.counter.down else cs.counter.down - b.down;
      }
      if cs.email !in existing {
        if cs.email !in rows {
          rows := rows[cs.email := U.Row(id, cs.counter, cs.quota, cs.lastOnline)];
        }
        owned := owned + {U.Key(id, cs.email)};
        existing := existing + {cs.email};
      } else if cs.email in rows {
        var row := rows[cs.email];
        rows := rows[cs.email := U.Row(row.inboundId, U.Counter(row.used.up + up, row.used.down + down), cs.quota,
                                       U.Max(row.lastOnline, cs.lastOnline))];
      }
      baselines := baselines[U.Key(node, cs.email) := cs.counter];
      base := base[cs.email := cs.counter];
    }

    // Folds the client lines of one inbound into the rows and baselines.
    method ApplyStats(node: int, id: int, stats: seq<U.Stat>,
                      base0: map<string, U.Counter>, existing0: set<string>, owned0: set<U.Key>)
      returns (base: map<string, U.Counter>, existing: set<string>, owned: set<U.Key>)
      modifies this`rows, this`baselines
      ensures U.Sync(Tables(), base, existing, owned) ==
              U.StatSteps(U.Sync(old(Tables()), base0, existing0, owned0), node, id, stats)
    {
      base, existing, owned := base0, existing0, owned0;
      for i := 0 to |stats|
        invariant U.Sync(Tables(), base, existing, owned) ==
                  U.StatSteps(U.Sync(old(Tables()), base0, existing0, owned0), node, id, stats[..i])
      {
        assert stats[..i + 1][..i] == stats[..i];
        base, existing, owned := ApplyStat(node, id, stats[i], base, existing, owned);
      }
      assert stats[..|stats|] == stats;
    }

    // Deletes the baselines of the node and the rows the inbound owns, e-mail by e-mail.
    method DropRows(node: int, id: int, gone: set<string>)
      modifies this`rows, this`baselines
      ensures Tables() == U.Remove(old(Tables()), node, id, gone)
    {
      var todo := gone;
      RemoveNothing(Tables(), node, id);
      while todo != {}
        invariant todo <= gone
        invariant Tables() == U.Remove(old(Tables()), node, id, gone - todo)
        decreases todo
      {
        HasElement(todo);
        var e :| e in todo;
        RemoveOneMore(old(Tables()), node, id, gone - todo, e);
        if e in rows && rows[e].inboundId == id {
          rows := rows - {e};
        }
        baselines := baselines - {U.Key(node, e)};
        assert gone - todo + {e} == gone - (todo - {e});
        todo := todo - {e};
      }
      assert gone - todo == gone;
    }

    method DropInbound(node: int, id: int)
      modifies this
      ensures inbounds == Without(old(inbounds), id) && nextId == old(nextId)
      ensures Tables() == U.SweepStep(old(Tables()), node, id)
    {
      var gone := set e | e in rows && rows[e].inboundId == id;
      DropRows(node, id, gone);
      inbounds := Without(inbounds, id);
    }

    // Removes each central inbound the snapshot does not name, with its rows and baselines.
    method SweepOrphans(node: int, central: seq<Inbound>, index0: map<string, int>, snapTags: set<string>)
      returns (index: map<string, int>)
      modifies this
      ensures Tx(inbounds, nextId, central, index, snapTags) ==
              SweepSteps(Tx(old(inbounds), old(nextId), central, index0, snapTags), central)
      ensures Tables() == U.Sweep(old(Tables()), node, Orphans(snapTags, central))
    {
      index := index0;
      ghost var mid := Tx(inbounds, nextId, central, index, snapTags);
      for i := 0 to |central|
        invariant Tx(inbounds, nextId, central, index, snapTags) == SweepSteps(mid, central[..i])
        invariant Tables() == U.Sweep(old(Tables()), node, Orphans(snapTags, central[..i]))
      {
        var c := central[i];
        SweepTagsOneMore(mid, snapTags, central, i);
        if c.tag !in snapTags {
          SweepOneMore(old(Tables()), node, Orphans(snapTags, central[..i]), c.id);
          DropInbound(node, c.id);
          index := index - {c.tag};
        }
      }
      assert central[..|central|] == central;
    }

    method ApplyReport(node: int, id: int, stats: seq<U.Stat>,
                       base0: map<string, U.Counter>, existing0: set<string>, owned0: set<U.Key>)
      returns (base: map<string, U.Counter>, existing: set<string>, owned: set<U.Key>)
      modifies this`rows, this`baselines
      ensures U.Sync(Tables(), base, existing, owned) ==
              U.ReportStep(U.Sync(old(Tables()), base0, existing0, owned0), node, U.Report(id, stats))
    {
      base, existing, owned := ApplyStats(node, id, stats, base0, existing0, owned0);
      var gone := U.Gone(U.Sync(Tables(), base, existing, owned), id, stats);
      DropRows(node, id, gone);
    }

    // Applies the client lines of every entry that leads to a central inbound, and drops
    // the e-mails such an inbound owned and no longer lists.
    method ApplyReports(node: int, index: map<string, int>, snap: seq<SnapInbound>,
                        base0: map<string, U.Counter>, existing0: set<string>, owned0: set<U.Key>)
      modifies this`rows, this`baselines
      ensures Tables() == U.ReportSteps(U.Sync(old(Tables()), base0, existing0, owned0), node, Reports(index, snap)).t
    {
      var base, existing, owned := base0, existing0, owned0;
      ghost var first := U.Sync(Tables(), base, existing, owned);
      for i := 0 to |snap|
        invariant U.Sync(Tables(), base, existing, owned) == U.ReportSteps(first, node, Reports(index, snap[..i]))
      {
        ReportsOneMore(index, snap, i);
        if snap[i].entry.tag in index {
          var id, stats := index[snap[i].entry.tag], snap[i].stats;
          ghost var before := Reports(index, snap[..i]);
          ReportOneMore(first, node, before, U.Report(id, stats));
          base, existing, owned := ApplyReport(node, id, stats, base, existing, owned);
        }
      }
      assert snap[..|snap|] == snap;
    }

    // The whole effect of one snapshot: inbounds as SyncTags says, usage as SyncNode says.
    // A missing snapshot or a node id that is not positive changes nothing.
    method SetRemoteTraffic(node: int, snap: seq<SnapInbound>, now: int)
      modifies this
      ensures node <= 0 ==> inbounds == old(inbounds) && nextId == old(nextId) && Tables() == old(Tables())
      ensures node > 0 ==>
                var tx := SyncTags(old(inbounds), old(nextId), node, Prefix(node), Entries(snap), now);
                inbounds == tx.table && nextId == tx.nextId &&
                Tables() == Effect(old(inbounds), old(nextId), old(Tables()), node, snap, now)
      ensures node > 0 ==>
                KeptExactly(old(inbounds), old(nextId), node, snap, now, old(Tables()), Tables())
    {
      if node <= 0 {
        return;
      }
      SyncKeepsExactly(inbounds, nextId, Tables(), node, snap, now);
      var p := Prefix(node);
      var central := OfNode(inbounds, node);
      var index := BuildIndex(p, central);
      var start := U.Load(Tables(), node, Ids(central));
      var snapTags;
      index, snapTags := SyncEntries(node, p, central, index, snap, now);
      index := SweepOrphans(node, central, index, snapTags);
      ApplyReports(node, index, snap, start.base, start.existing, start.owned);
    }
  }

  // ------------------------------------------------------------------
  // The id lookup of one node
  // ------------------------------------------------------------------

  datatype Listed = Listed(id: int, tag: string)

  function ListingMap(list: seq<Listed>): map<string, int>
    decreases |list|
  {
    if list == [] then map[]
    else
      var m := ListingMap(list[..|list| - 1]);
      var last := list[|list| - 1];
      if last.tag == "" then m else m[last.tag := last.id]
  }

  // The last inbound listed under the tag.
  predicate LastListed(list: seq<Listed>, tag: string, i: int) {
    0 <= i < |list| && list[i].tag == tag && forall j | i < j < |list| :: list[j].tag != tag
  }

  predicate IsListed(list: seq<Listed>, tag: string) {
    exists i | 0 <= i < |list| :: list[i].tag == tag
  }

  // The cache has exactly the listed tags, each with the id of its last listing.
  lemma {:induction false} ListingMapExact(list: seq<Listed>, tag: string)
    ensures tag in ListingMap(list) <==> tag != "" && IsListed(list, tag)
    ensures tag in ListingMap(list) ==> exists i :: LastListed(list, tag, i)
    ensures forall i | tag in ListingMap(list) && LastListed(list, tag, i) :: ListingMap(list)[tag] == list[i].id
    decreases |list|
  {
    if list != [] {
      var front, last := list[..|list| - 1], list[|list| - 1];
      ListingMapExact(front, tag);
      assert forall i | 0 <= i < |front| :: list[i] == front[i];
      if last.tag == tag {
        assert LastListed(list, tag, |front|);
      } else {
        assert forall i :: LastListed(list, tag, i) <==> LastListed(front, tag, i);
      }
    }
  }

  datatype Lookup = Found(id: int) | NotFound

  function Probe(cache: map<string, int>, p: string, tag: string): Lookup {
    if tag in cache then Found(cache[tag])
    else if Flip(p, tag) in cache then Found(cache[Flip(p, tag)])
    else NotFound
  }

  class TagCache {
    var remoteIdByTag: map<string, int>

    // Looks a tag up under both its forms; on a miss the node's listing replaces the cache
    // and the lookup is tried once more. reachable says whether the listing call succeeds.
    method Resolve(p: string, tag: string, reachable: bool, list: seq<Listed>) returns (r: Lookup)
      modifies this
      ensures Probe(old(remoteIdByTag), p, tag).Found? ==>
                r == Probe(old(remoteIdByTag), p, tag) && remoteIdByTag == old(remoteIdByTag)
      ensures Probe(old(remoteIdByTag), p, tag).NotFound? && reachable ==>
                remoteIdByTag == ListingMap(list) && r == Probe(ListingMap(list), p, tag)
      ensures Probe(old(remoteIdByTag), p, tag).NotFound? && !reachable ==>
                r == NotFound && remoteIdByTag == old(remoteIdByTag)
    {
      r := Probe(remoteIdByTag, p, tag);
      if r.NotFound? && reachable {
        var next: map<string, int> := map[];
        for i := 0 to |list|
          invariant next == ListingMap(list[..i])
        {
          assert list[..i + 1][..i] == list[..i];
          if list[i].tag != "" {
            next := next[list[i].tag := list[i].id];
          }
        }
        assert list[..|list|] == list;
        remoteIdByTag := next;
        r := Probe(remoteIdByTag, p, tag);
      }
    }
  }

  // On a fresh listing a lookup returns the id last listed under the tag itself; without
  // one, the id last listed under the flipped tag; and fails when neither is listed. A tag
  // and its flipped form are found or missed together when neither carries the prefix twice.
  lemma ProbeFindsEitherForm(list: seq<Listed>, p: string, tag: string)
    requires p != "" && tag != ""
    ensures forall i | LastListed(list, tag, i) :: Probe(ListingMap(list), p, tag) == Found(list[i].id)
    ensures forall i | !IsListed(list, tag) && Flip(p, tag) != "" && LastListed(list, Flip(p, tag), i) ::
              Probe(ListingMap(list), p, tag) == Found(list[i].id)
    ensures Probe(ListingMap(list), p, tag) == NotFound <==>
              !IsListed(list, tag) && (Flip(p, tag) == "" || !IsListed(list, Flip(p, tag)))
    ensures !Doubled(p, tag) ==>
              (Probe(ListingMap(list), p, tag).Found? <==> Probe(ListingMap(list), p, Flip(p, tag)).Found?)
  {
    ListingMapExact(list, tag);
    ListingMapExact(list, Flip(p, tag));
    FlipTwiceIff(p, tag);
  }
}
