// Which usage rows and baselines a node sync keeps, and what it writes into them, told from
// the tables before it and the lines of the snapshot.

module NodeRows {

  import opened NodeUsage
  import opened Options

  predicate HasLine(r: Report, e: string) {
    exists i | 0 <= i < |r.stats| :: r.stats[i].email == e
  }

  // Every report of the inbound has a line with the e-mail.
  predicate AlwaysListed(reports: seq<Report>, id: int, e: string) {
    forall j | 0 <= j < |reports| && reports[j].inboundId == id :: HasLine(reports[j], e)
  }

  // ------------------------------------------------------------------
  // The sweep
  // ------------------------------------------------------------------

  lemma {:induction false} SweepExact(t: Tables, node: int, orphans: seq<int>, e: string)
    ensures var t' := Sweep(t, node, orphans);
            && (e in t'.rows <==> e in t.rows && t.rows[e].inboundId !in orphans)
            && (e in t'.rows ==> t'.rows[e] == t.rows[e])
            && (Key(node, e) in t'.baselines <==>
                  Key(node, e) in t.baselines && !(e in t.rows && t.rows[e].inboundId in orphans))
            && (Key(node, e) in t'.baselines ==> t'.baselines[Key(node, e)] == t.baselines[Key(node, e)])
    decreases |orphans|
  {
    if orphans != [] {
      SweepExact(t, node, orphans[..|orphans| - 1], e);
      assert orphans == orphans[..|orphans| - 1] + [orphans[|orphans| - 1]];
    }
  }

  // ------------------------------------------------------------------
  // One report
  // ------------------------------------------------------------------

  // The sync knows the e-mail: it has or had a row of inbound o, which the sync holds under
  // that inbound if mine, and under no other.
  ghost predicate Known(s: Sync, e: string, o: int, mine: bool) {
    && e in s.existing
    && (forall id :: Key(id, e) in s.owned <==> mine && id == o)
    && (e in s.t.rows ==> s.t.rows[e].inboundId == o)
  }

  // The sync has not met the e-mail.
  ghost predicate Unknown(s: Sync, e: string) {
    e !in s.existing && e !in s.t.rows && forall id :: Key(id, e) !in s.owned
  }

  lemma HasLineMore(inboundId: int, front: seq<Stat>, last: Stat, e: string)
    ensures HasLine(Report(inboundId, front + [last]), e) <==> HasLine(Report(inboundId, front), e) || last.email == e
  {
    var stats := front + [last];
    assert stats[|front|] == last;
    if i :| 0 <= i < |front| && front[i].email == e {
      assert stats[i].email == e;
    }
  }

  lemma {:induction false} LinesKeepKnown(s: Sync, node: int, inboundId: int, stats: seq<Stat>, e: string, o: int,
                                          mine: bool)
    requires Known(s, e, o, mine)
    ensures var s' := StatSteps(s, node, inboundId, stats);
            && Known(s', e, o, mine) && (e in s'.t.rows <==> e in s.t.rows)
            && (Key(node, e) in s'.t.baselines <==>
                  Key(node, e) in s.t.baselines || HasLine(Report(inboundId, stats), e))
    decreases |stats|
  {
    if stats != [] {
      var front, last := stats[..|stats| - 1], stats[|stats| - 1];
      LinesKeepKnown(s, node, inboundId, front, e, o, mine);
      HasLineMore(inboundId, front, last, e);
      assert stats == front + [last];
    }
  }

  // The inbound that owns the e-mail has a report without it.
  predicate Drops(r: Report, e: string, o: int, mine: bool) {
    mine && r.inboundId == o && !HasLine(r, e)
  }

  lemma KnownReport(s: Sync, node: int, r: Report, e: string, o: int, mine: bool)
    requires Known(s, e, o, mine)
    ensures var s' := ReportStep(s, node, r);
            && Known(s', e, o, mine)
            && (e in s'.t.rows <==> e in s.t.rows && !Drops(r, e, o, mine))
            && (Key(node, e) in s'.t.baselines <==>
                  HasLine(r, e) || (Key(node, e) in s.t.baselines && !Drops(r, e, o, mine)))
  {
    LinesKeepKnown(s, node, r.inboundId, r.stats, e, o, mine);
    var s' := StatSteps(s, node, r.inboundId, r.stats);
    assert e in Gone(s', r.inboundId, r.stats) <==> Drops(r, e, o, mine) by {
      if Drops(r, e, o, mine) {
        assert Key(o, e) in s'.owned;
      }
    }
  }

  // ------------------------------------------------------------------
  // A whole snapshot
  // ------------------------------------------------------------------

  // Whether a row, or a baseline, comes through the reports.
  predicate NoneDrops(reports: seq<Report>, from: int, e: string, o: int, mine: bool) {
    forall j | 0 <= j < |reports| && from <= j :: !Drops(reports[j], e, o, mine)
  }

  predicate ListedLast(reports: seq<Report>, e: string, o: int, mine: bool) {
    exists j | 0 <= j < |reports| :: HasLine(reports[j], e) && NoneDrops(reports, j, e, o, mine)
  }

  lemma ListedMore(front: seq<Report>, r: Report, e: string, o: int, mine: bool)
    ensures ListedLast(front + [r], e, o, mine) <==>
              HasLine(r, e) || (ListedLast(front, e, o, mine) && !Drops(r, e, o, mine))
    ensures NoneDrops(front + [r], 0, e, o, mine) <==> NoneDrops(front, 0, e, o, mine) && !Drops(r, e, o, mine)
  {
    var reports := front + [r];
    assert reports[|front|] == r && forall j | 0 <= j < |front| :: reports[j] == front[j];
    if HasLine(r, e) {
      assert HasLine(reports[|front|], e) && NoneDrops(reports, |front|, e, o, mine);
    }
    if j :| 0 <= j < |front| && HasLine(front[j], e) && NoneDrops(front, j, e, o, mine) {
      assert !Drops(r, e, o, mine) ==> HasLine(reports[j], e) && NoneDrops(reports, j, e, o, mine);
    }
    if j :| 0 <= j < |reports| && HasLine(reports[j], e) && NoneDrops(reports, j, e, o, mine) {
      assert j < |front| ==> HasLine(front[j], e) && NoneDrops(front, j, e, o, mine);
      assert !Drops(reports[|front|], e, o, mine);
    }
  }

  lemma {:induction false} KnownReports(s: Sync, node: int, reports: seq<Report>, e: string, o: int, mine: bool)
    requires Known(s, e, o, mine)
    ensures var s' := ReportSteps(s, node, reports);
            && Known(s', e, o, mine)
            && (e in s'.t.rows <==> e in s.t.rows && NoneDrops(reports, 0, e, o, mine))
            && (Key(node, e) in s'.t.baselines <==>
                  ListedLast(reports, e, o, mine) ||
                  (Key(node, e) in s.t.baselines && NoneDrops(reports, 0, e, o, mine)))
    decreases |reports|
  {
    if reports != [] {
      var front, r := reports[..|reports| - 1], reports[|reports| - 1];
      KnownReports(s, node, front, e, o, mine);
      KnownReport(ReportSteps(s, node, front), node, r, e, o, mine);
      ListedMore(front, r, e, o, mine);
      assert reports == front + [r];
    }
  }

  // The state in which the reports are applied.
  function Start(t: Tables, node: int, central: set<int>, orphans: seq<int>): Sync {
    Load(t, node, central).(t := Sweep(t, node, orphans))
  }

  // A row that was there stays exactly when its inbound is not swept and, if that belongs
  // to the node, every report of it has a line with the e-mail.
  lemma RowStaysIff(t: Tables, node: int, central: set<int>, orphans: seq<int>, reports: seq<Report>, e: string)
    requires e in t.rows
    ensures var o, after := t.rows[e].inboundId, SyncNode(t, node, central, orphans, reports);
            && (e in after.rows <==> o !in orphans && (o !in central || AlwaysListed(reports, o, e)))
            && (e in after.rows ==> after.rows[e].inboundId == o)
  {
    var o := t.rows[e].inboundId;
    SweepExact(t, node, orphans, e);
    KnownReports(Start(t, node, central, orphans), node, reports, e, o, o in central);
    assert NoneDrops(reports, 0, e, o, o in central) <==> o !in central || AlwaysListed(reports, o, e);
  }

  // Its baseline at the node is there afterwards exactly when a report lists the e-mail and
  // no later report of its inbound drops it, or it was there and nothing drops it.
  lemma BaselineStaysIff(t: Tables, node: int, central: set<int>, orphans: seq<int>, reports: seq<Report>, e: string)
    requires e in t.rows
    ensures var o, after := t.rows[e].inboundId, SyncNode(t, node, central, orphans, reports);
            Key(node, e) in after.baselines <==>
              ListedLast(reports, e, o, o in central) ||
              (Key(node, e) in t.baselines && o !in orphans && (o !in central || AlwaysListed(reports, o, e)))
  {
    var o := t.rows[e].inboundId;
    SweepExact(t, node, orphans, e);
    KnownReports(Start(t, node, central, orphans), node, reports, e, o, o in central);
    assert NoneDrops(reports, 0, e, o, o in central) <==> o !in central || AlwaysListed(reports, o, e);
  }

  // ------------------------------------------------------------------
  // E-mails without a row
  // ------------------------------------------------------------------

  // The first report with a line for the e-mail.
  predicate FirstLister(reports: seq<Report>, j: int, e: string) {
    0 <= j < |reports| && HasLine(reports[j], e) && forall i | 0 <= i < j :: !HasLine(reports[i], e)
  }

  lemma {:induction false} LinesWithout(s: Sync, node: int, inboundId: int, stats: seq<Stat>, e: string)
    requires Unknown(s, e) && !HasLine(Report(inboundId, stats), e)
    ensures var s' := StatSteps(s, node, inboundId, stats);
            Unknown(s', e) && (Key(node, e) in s'.t.baselines <==> Key(node, e) in s.t.baselines)
    decreases |stats|
  {
    if stats != [] {
      var front, last := stats[..|stats| - 1], stats[|stats| - 1];
      HasLineMore(inboundId, front, last, e);
      assert stats == front + [last];
      LinesWithout(s, node, inboundId, front, e);
    }
  }

  lemma ReportWithout(s: Sync, node: int, r: Report, e: string)
    requires Unknown(s, e) && !HasLine(r, e)
    ensures var s' := ReportStep(s, node, r);
            Unknown(s', e) && (Key(node, e) in s'.t.baselines <==> Key(node, e) in s.t.baselines)
  {
    LinesWithout(s, node, r.inboundId, r.stats, e);
    var s' := StatSteps(s, node, r.inboundId, r.stats);
    assert e !in Gone(s', r.inboundId, r.stats);
  }

  lemma {:induction false} ReportsWithout(s: Sync, node: int, reports: seq<Report>, e: string)
    requires Unknown(s, e) && forall j | 0 <= j < |reports| :: !HasLine(reports[j], e)
    ensures var s' := ReportSteps(s, node, reports);
            Unknown(s', e) && (Key(node, e) in s'.t.baselines <==> Key(node, e) in s.t.baselines)
    decreases |reports|
  {
    if reports != [] {
      ReportsWithout(s, node, reports[..|reports| - 1], e);
      ReportWithout(ReportSteps(s, node, reports[..|reports| - 1]), node, reports[|reports| - 1], e);
    }
  }

  lemma {:induction false} LinesCreate(s: Sync, node: int, inboundId: int, stats: seq<Stat>, e: string)
    requires Unknown(s, e) && HasLine(Report(inboundId, stats), e)
    ensures var s' := StatSteps(s, node, inboundId, stats);
            Known(s', e, inboundId, true) && e in s'.t.rows && Key(node, e) in s'.t.baselines
    decreases |stats|
  {
    var front, last := stats[..|stats| - 1], stats[|stats| - 1];
    HasLineMore(inboundId, front, last, e);
    assert stats == front + [last];
    var y := StatSteps(s, node, inboundId, front);
    if HasLine(Report(inboundId, front), e) {
      LinesCreate(s, node, inboundId, front, e);
      LinesKeepKnown(y, node, inboundId, [last], e, inboundId, true);
      assert [last][..0] == [];
      assert StatSteps(y, node, inboundId, []) == y;
    } else {
      LinesWithout(s, node, inboundId, front, e);
    }
  }

  // The first report that lists the e-mail gives it a row under its own inbound.
  lemma ReportCreates(s: Sync, node: int, r: Report, e: string)
    requires Unknown(s, e) && HasLine(r, e)
    ensures var s' := ReportStep(s, node, r);
            Known(s', e, r.inboundId, true) && e in s'.t.rows && Key(node, e) in s'.t.baselines
  {
    LinesCreate(s, node, r.inboundId, r.stats, e);
    var s' := StatSteps(s, node, r.inboundId, r.stats);
    assert e !in Gone(s', r.inboundId, r.stats);
  }

  lemma {:induction false} ReportsInTurn(s: Sync, node: int, a: seq<Report>, b: seq<Report>)
    ensures ReportSteps(s, node, a + b) == ReportSteps(ReportSteps(s, node, a), node, b)
    decreases |b|
  {
    if b == [] {
      assert a + b == a;
    } else {
      ReportsInTurn(s, node, a, b[..|b| - 1]);
      assert (a + b)[..|a + b| - 1] == a + b[..|b| - 1];
    }
  }

  lemma CreatedAt(s: Sync, node: int, reports: seq<Report>, j: int, e: string)
    requires Unknown(s, e) && FirstLister(reports, j, e)
    ensures var s' := ReportSteps(s, node, reports[..j + 1]);
            Known(s', e, reports[j].inboundId, true) && e in s'.t.rows && Key(node, e) in s'.t.baselines
  {
    ReportsWithout(s, node, reports[..j], e);
    ReportCreates(ReportSteps(s, node, reports[..j]), node, reports[j], e);
    assert reports[..j + 1][..j] == reports[..j];
  }

  lemma LaterPart(reports: seq<Report>, j: int, e: string, o: int)
    requires FirstLister(reports, j, e)
    ensures var rest := reports[j + 1..];
            && (NoneDrops(rest, 0, e, o, true) <==> NoneDrops(reports, j, e, o, true))
            && (ListedLast(rest, e, o, true) || NoneDrops(rest, 0, e, o, true) <==> ListedLast(reports, e, o, true))
  {
    var rest := reports[j + 1..];
    assert forall i | 0 <= i < |rest| :: rest[i] == reports[j + 1 + i];
    assert forall i | j < i < |reports| :: reports[i] == rest[i - j - 1];
    if NoneDrops(reports, j, e, o, true) {
      assert HasLine(reports[j], e) && NoneDrops(reports, j, e, o, true);
    }
    if i :| 0 <= i < |rest| && HasLine(rest[i], e) && NoneDrops(rest, i, e, o, true) {
      assert HasLine(reports[j + 1 + i], e) && NoneDrops(reports, j + 1 + i, e, o, true);
    }
    if i :| 0 <= i < |reports| && HasLine(reports[i], e) && NoneDrops(reports, i, e, o, true) {
      assert i >= j;
      assert i > j ==> HasLine(rest[i - j - 1], e) && NoneDrops(rest, i - j - 1, e, o, true);
    }
  }

  ghost predicate NewRowAt(s: Sync, node: int, reports: seq<Report>, j: int, e: string)
    requires FirstLister(reports, j, e)
  {
    var s', o := ReportSteps(s, node, reports), reports[j].inboundId;
    && (e in s'.t.rows <==> NoneDrops(reports, j, e, o, true))
    && (e in s'.t.rows ==> s'.t.rows[e].inboundId == o)
    && (Key(node, e) in s'.t.baselines <==> ListedLast(reports, e, o, true))
  }

  lemma AfterCreation(y: Sync, node: int, reports: seq<Report>, j: int, e: string, o: int)
    requires FirstLister(reports, j, e) && Known(y, e, o, true) && e in y.t.rows && Key(node, e) in y.t.baselines
    ensures var s' := ReportSteps(y, node, reports[j + 1..]);
            && (e in s'.t.rows <==> NoneDrops(reports, j, e, o, true))
            && (e in s'.t.rows ==> s'.t.rows[e].inboundId == o)
            && (Key(node, e) in s'.t.baselines <==> ListedLast(reports, e, o, true))
  {
    KnownReports(y, node, reports[j + 1..], e, o, true);
    LaterPart(reports, j, e, o);
  }

  lemma NewRowFollows(s: Sync, node: int, reports: seq<Report>, j: int, e: string)
    requires Unknown(s, e) && FirstLister(reports, j, e)
    ensures NewRowAt(s, node, reports, j, e)
  {
    var o := reports[j].inboundId;
    CreatedAt(s, node, reports, j, e);
    AfterCreation(ReportSteps(s, node, reports[..j + 1]), node, reports, j, e, o);
    assert reports[..j + 1] + reports[j + 1..] == reports;
    ReportsInTurn(s, node, reports[..j + 1], reports[j + 1..]);
  }

  lemma {:induction false} NobodyLists(reports: seq<Report>, e: string)
    requires forall j :: !FirstLister(reports, j, e)
    ensures forall j | 0 <= j < |reports| :: !HasLine(reports[j], e)
    decreases |reports|
  {
    if reports != [] {
      var front := reports[..|reports| - 1];
      forall j ensures !FirstLister(front, j, e) {
        assert FirstLister(front, j, e) ==> FirstLister(reports, j, e);
      }
      NobodyLists(front, e);
      assert forall j | 0 <= j < |front| :: front[j] == reports[j];
      assert !FirstLister(reports, |reports| - 1, e);
    }
  }

  // An e-mail without a row has one afterwards exactly when some report lists it and no
  // later report of the first lister's inbound drops it; the row is that inbound's.
  lemma NewRowIff(t: Tables, node: int, central: set<int>, orphans: seq<int>, reports: seq<Report>, e: string)
    requires e !in t.rows
    ensures var after := SyncNode(t, node, central, orphans, reports);
            && (e in after.rows <==>
                  exists j :: FirstLister(reports, j, e) && NoneDrops(reports, j, e, reports[j].inboundId, true))
            && (forall j | FirstLister(reports, j, e) ::
                  && (e in after.rows ==> after.rows[e].inboundId == reports[j].inboundId)
                  && (Key(node, e) in after.baselines <==> ListedLast(reports, e, reports[j].inboundId, true)))
            && ((forall j :: !FirstLister(reports, j, e)) ==>
                  (Key(node, e) in after.baselines <==> Key(node, e) in t.baselines))
  {
    var s := Start(t, node, central, orphans);
    SweepExact(t, node, orphans, e);
    assert Unknown(s, e);
    forall j | FirstLister(reports, j, e)
      ensures NewRowAt(s, node, reports, j, e)
    {
      NewRowFollows(s, node, reports, j, e);
    }
    if forall j :: !FirstLister(reports, j, e) {
      NobodyLists(reports, e);
      ReportsWithout(s, node, reports, e);
    }
  }

  // ------------------------------------------------------------------
  // What is written
  // ------------------------------------------------------------------

  // The stored baselines of the node are the ones held in memory.
  ghost predicate Mirrored(s: Sync, node: int) {
    forall e | Key(node, e) in s.t.baselines :: InMemory(s, e) == Some(s.t.baselines[Key(node, e)])
  }

  lemma {:induction false} LinesMirrored(s: Sync, node: int, inboundId: int, stats: seq<Stat>)
    requires Mirrored(s, node)
    ensures Mirrored(StatSteps(s, node, inboundId, stats), node)
    ensures forall k: Key | k.id != node ::
              var t := StatSteps(s, node, inboundId, stats).t;
              (k in t.baselines <==> k in s.t.baselines) &&
              (k in s.t.baselines ==> t.baselines[k] == s.t.baselines[k])
    decreases |stats|
  {
    if stats != [] {
      LinesMirrored(s, node, inboundId, stats[..|stats| - 1]);
    }
  }

  ghost predicate OthersSame(a: Tables, b: Tables, node: int) {
    forall k: Key | k.id != node ::
      (k in b.baselines <==> k in a.baselines) && (k in a.baselines ==> b.baselines[k] == a.baselines[k])
  }

  lemma {:induction false} ReportsMirrored(s: Sync, node: int, reports: seq<Report>)
    requires Mirrored(s, node)
    ensures var s' := ReportSteps(s, node, reports); Mirrored(s', node) && OthersSame(s.t, s'.t, node)
    decreases |reports|
  {
    if reports != [] {
      var front, r := reports[..|reports| - 1], reports[|reports| - 1];
      ReportsMirrored(s, node, front);
      LinesMirrored(ReportSteps(s, node, front), node, r.inboundId, r.stats);
    }
  }

  lemma {:induction false} SweepOthersSame(t: Tables, node: int, orphans: seq<int>)
    ensures OthersSame(t, Sweep(t, node, orphans), node)
    decreases |orphans|
  {
    if orphans != [] {
      SweepOthersSame(t, node, orphans[..|orphans| - 1]);
    }
  }

  // A baseline of the node that is there afterwards is the counter of the e-mail's last
  // line, or the old one when no line has it. Other nodes' baselines are as before.
  lemma BaselinesAreLastLines(t: Tables, node: int, central: set<int>, orphans: seq<int>, reports: seq<Report>,
                              e: string)
    ensures var after := SyncNode(t, node, central, orphans, reports);
            && OthersSame(t, after, node)
            && (Key(node, e) in after.baselines ==>
                  && (LastReported(reports, e).None? ==> Key(node, e) in t.baselines)
                  && after.baselines[Key(node, e)] ==
                       (if LastReported(reports, e).Some? then LastReported(reports, e).value.counter
                        else t.baselines[Key(node, e)]))
  {
    var s := Start(t, node, central, orphans);
    SweepOthersSame(t, node, orphans);
    assert Mirrored(s, node) by {
      forall e | Key(node, e) in s.t.baselines ensures InMemory(s, e) == Some(s.t.baselines[Key(node, e)]) {
        SweepExact(t, node, orphans, e);
      }
    }
    ReportsMirrored(s, node, reports);
    ReportsSetBaseline(s, node, reports, e);
  }

  // The lines of a snapshot in the order in which they are applied.
  function Lines(reports: seq<Report>): seq<Stat>
    decreases |reports|
  {
    if reports == [] then [] else Lines(reports[..|reports| - 1]) + reports[|reports| - 1].stats
  }

  // now is the largest of was, if given, and the last-online times of the e-mail's lines.
  ghost predicate IsLatest(now: int, was: Option<int>, lines: seq<Stat>, e: string) {
    && (was.Some? ==> was.value <= now)
    && (forall i | 0 <= i < |lines| && lines[i].email == e :: lines[i].lastOnline <= now)
    && (was == Some(now) || exists i :: 0 <= i < |lines| && lines[i].email == e && lines[i].lastOnline == now)
  }

  // The row now says what the last line of the e-mail says, and is as recent as the most
  // recent of them.
  ghost predicate Written(was: Option<Row>, lines: seq<Stat>, e: string, now: Row) {
    && (match LastLine(lines, e)
        case Some(line) => now.quota == line.quota
        case None => was.Some? && now.quota == was.value.quota)
    && IsLatest(now.lastOnline, if was.Some? then Some(was.value.lastOnline) else None, lines, e)
  }

  lemma {:induction false} LastLineOfBoth(a: seq<Stat>, b: seq<Stat>, e: string)
    ensures LastLine(a + b, e) == if LastLine(b, e).Some? then LastLine(b, e) else LastLine(a, e)
    decreases |b|
  {
    if b == [] {
      assert a + b == a;
    } else {
      LastLineOfBoth(a, b[..|b| - 1], e);
      assert (a + b)[..|a + b| - 1] == a + b[..|b| - 1];
    }
  }

  lemma LatestOfBoth(now: int, mid: int, was: Option<int>, a: seq<Stat>, b: seq<Stat>, e: string)
    requires IsLatest(mid, was, a, e) && IsLatest(now, Some(mid), b, e)
    ensures IsLatest(now, was, a + b, e)
  {
    var lines := a + b;
    forall i | 0 <= i < |lines| && lines[i].email == e ensures lines[i].lastOnline <= now {
      assert lines[i] == if i < |a| then a[i] else b[i - |a|];
    }
    if now == mid {
      if i :| 0 <= i < |a| && a[i].email == e && a[i].lastOnline == now {
        assert lines[i] == a[i];
      }
    } else {
      var i :| 0 <= i < |b| && b[i].email == e && b[i].lastOnline == now;
      assert lines[|a| + i] == b[i];
    }
  }

  lemma WrittenTwice(was: Option<Row>, a: seq<Stat>, mid: Row, b: seq<Stat>, now: Row, e: string)
    requires Written(was, a, e, mid) && Written(Some(mid), b, e, now)
    ensures Written(was, a + b, e, now)
  {
    LastLineOfBoth(a, b, e);
    LatestOfBoth(now.lastOnline, mid.lastOnline, if was.Some? then Some(was.value.lastOnline) else None, a, b, e);
  }

  function RowOf(t: Tables, e: string): Option<Row> {
    if e in t.rows then Some(t.rows[e]) else None
  }

  // Every row is one the sync knows.
  ghost predicate AllExist(s: Sync) {
    s.t.rows.Keys <= s.existing
  }

  lemma LineWrites(s: Sync, node: int, inboundId: int, stat: Stat, e: string)
    requires AllExist(s)
    ensures var s' := StatStep(s, node, inboundId, stat);
            AllExist(s') && (e in s'.t.rows ==> Written(RowOf(s.t, e), [stat], e, s'.t.rows[e]))
  {
    assert LastLine([stat], e) == if stat.email == e then Some(stat) else LastLine([], e);
    assert [stat][0] == stat;
  }

  predicate NoLine(lines: seq<Stat>, e: string) {
    forall i | 0 <= i < |lines| :: lines[i].email != e
  }

  lemma {:induction false} NoLastLine(lines: seq<Stat>, e: string)
    requires NoLine(lines, e)
    ensures LastLine(lines, e).None?
    decreases |lines|
  {
    if lines != [] {
      NoLastLine(lines[..|lines| - 1], e);
    }
  }

  // After some lines the sync is s': every row it has is written by them, and an e-mail it
  // does not know was in none of them.
  ghost predicate WrittenSince(s: Sync, lines: seq<Stat>, s': Sync, e: string) {
    && AllExist(s')
    && (e in s'.t.rows ==> Written(RowOf(s.t, e), lines, e, s'.t.rows[e]))
    && (e !in s'.existing ==> e !in s.existing && NoLine(lines, e))
  }

  lemma FirstIsLatest(now: int, front: seq<Stat>, last: Stat, e: string)
    requires NoLine(front, e) && last.email == e && last.lastOnline == now
    ensures IsLatest(now, None, front + [last], e)
  {
    assert (front + [last])[|front|] == last;
  }

  lemma WriteOneMore(s: Sync, front: seq<Stat>, y: Sync, node: int, inboundId: int, last: Stat, e: string)
    requires AllExist(s) && WrittenSince(s, front, y, e)
    ensures WrittenSince(s, front + [last], StatStep(y, node, inboundId, last), e)
  {
    var s' := StatStep(y, node, inboundId, last);
    LineWrites(y, node, inboundId, last, e);
    assert (front + [last])[|front|] == last;
    if e in s'.t.rows {
      if e in y.t.rows {
        WrittenTwice(RowOf(s.t, e), front, y.t.rows[e], [last], s'.t.rows[e], e);
      } else {
        NoLastLine(front, e);
        LastLineOfBoth(front, [last], e);
        FirstIsLatest(s'.t.rows[e].lastOnline, front, last, e);
      }
    }
  }

  lemma {:induction false} LinesWrite(s: Sync, front: seq<Stat>, y: Sync, node: int, inboundId: int, stats: seq<Stat>,
                                      e: string)
    requires AllExist(s) && WrittenSince(s, front, y, e)
    ensures WrittenSince(s, front + stats, StatSteps(y, node, inboundId, stats), e)
    decreases |stats|
  {
    if stats == [] {
      assert front + stats == front;
    } else {
      var before, last := stats[..|stats| - 1], stats[|stats| - 1];
      LinesWrite(s, front, y, node, inboundId, before, e);
      WriteOneMore(s, front + before, StatSteps(y, node, inboundId, before), node, inboundId, last, e);
      assert front + before + [last] == front + stats;
    }
  }

  lemma {:induction false} ReportsWrite(s: Sync, node: int, reports: seq<Report>, e: string)
    requires AllExist(s)
    ensures WrittenSince(s, Lines(reports), ReportSteps(s, node, reports), e)
    decreases |reports|
  {
    if reports == [] {
      assert e in s.t.rows ==> Written(RowOf(s.t, e), [], e, s.t.rows[e]);
    } else {
      var front, r := reports[..|reports| - 1], reports[|reports| - 1];
      ReportsWrite(s, node, front, e);
      LinesWrite(s, Lines(front), ReportSteps(s, node, front), node, r.inboundId, r.stats, e);
    }
  }

  // Every row there is after a sync says what the last line of its e-mail says, and was
  // last online at the latest of its old time and those of the lines.
  lemma RowsSayLastLines(t: Tables, node: int, central: set<int>, orphans: seq<int>, reports: seq<Report>, e: string)
    ensures var after := SyncNode(t, node, central, orphans, reports);
            e in after.rows ==> Written(RowOf(t, e), Lines(reports), e, after.rows[e])
  {
    var s := Start(t, node, central, orphans);
    SweepExact(t, node, orphans, e);
    SweepKeeps(t, node, orphans);
    ReportsWrite(s, node, reports, e);
    if e in t.rows {
      RowStaysIff(t, node, central, orphans, reports, e);
    }
  }
}
