// How a node's counter snapshots are folded into the shared usage rows of the
// central panel, and what that keeps over whole runs.
//
// One row exists per e-mail, whatever number of nodes report that e-mail. Each
// (node, e-mail) pair has a baseline: the counter the node last reported. The
// functions below are the specification of the two table loops of a node sync;
// RemoteSync.dfy proves the in-place loops against them.

module NodeUsage {

  import opened Options

  // Upload and download bytes.
  datatype Counter = Counter(up: nat, down: nat)

  function Plus(a: Counter, b: Counter): Counter {
    Counter(a.up + b.up, a.down + b.down)
  }

  datatype Direction = Upload | Download

  function Of(c: Counter, d: Direction): nat {
    if d == Upload then c.up else c.down
  }

  predicate AtMost(a: Counter, b: Counter) {
    a.up <= b.up && a.down <= b.down
  }

  const ZERO := Counter(0, 0)

  // The settings a node dictates for a client; usage never depends on them.
  datatype Quota = Quota(enable: bool, total: int, expiryTime: int, reset: int)

  datatype Row = Row(inboundId: int, used: Counter, quota: Quota, lastOnline: int)

  // One client line of a snapshot.
  datatype Stat = Stat(email: string, counter: Counter, quota: Quota, lastOnline: int)

  // A snapshot inbound already resolved to a central inbound.
  datatype Report = Report(inboundId: int, stats: seq<Stat>)

  // An e-mail as seen by one node, or as owned by one inbound.
  datatype Key = Key(id: int, email: string)

  // The tables, plus the indexes a sync loads into memory before it starts to write.
  // The indexes are not refreshed when rows are deleted later in the same sync.
  datatype Tables = Tables(rows: map<string, Row>, baselines: map<Key, Counter>)

  datatype Sync = Sync(t: Tables, base: map<string, Counter>, existing: set<string>, owned: set<Key>)

  function Load(t: Tables, node: int, central: set<int>): Sync {
    Sync(t,
         map k | k in t.baselines && k.id == node :: k.email := t.baselines[k],
         t.rows.Keys,
         set e | e in t.rows && t.rows[e].inboundId in central :: Key(t.rows[e].inboundId, e))
  }

  // A counter below its baseline has restarted, so all of it is new traffic.
  function Delta(base: nat, reported: nat): nat {
    if reported < base then reported else reported - base
  }

  function Credit(s: Sync, stat: Stat): Counter {
    if stat.email in s.base then
      var b := s.base[stat.email];
      Counter(Delta(b.up, stat.counter.up), Delta(b.down, stat.counter.down))
    else ZERO
  }

  function Max(a: int, b: int): int {
    if a < b then b else a
  }

  function StatStep(s: Sync, node: int, inboundId: int, stat: Stat): Sync {
    var rows := s.t.rows;
    var e := stat.email;
    var baselines := s.t.baselines[Key(node, e) := stat.counter];
    var base := s.base[e := stat.counter];
    if e !in s.existing then
      var created := Row(inboundId, stat.counter, stat.quota, stat.lastOnline);
      Sync(Tables(if e in rows then rows else rows[e := created], baselines),
           base, s.existing + {e}, s.owned + {Key(inboundId, e)})
    else if e in rows then
      var row := Row(rows[e].inboundId, Plus(rows[e].used, Credit(s, stat)), stat.quota,
                     Max(rows[e].lastOnline, stat.lastOnline));
      s.(t := Tables(rows[e := row], baselines), base := base)
    else
      s.(t := Tables(rows, baselines), base := base)
  }

  function StatSteps(s: Sync, node: int, inboundId: int, stats: seq<Stat>): Sync
    decreases |stats|
  {
    if stats == [] then s
    else StatStep(StatSteps(s, node, inboundId, stats[..|stats| - 1]), node, inboundId, stats[|stats| - 1])
  }

  // The e-mails an inbound owned that its snapshot entry no longer lists.
  function Gone(s: Sync, inboundId: int, stats: seq<Stat>): set<string> {
    set k | k in s.owned && k.id == inboundId && (forall i :: 0 <= i < |stats| ==> stats[i].email != k.email) :: k.email
  }

  function Remove(t: Tables, node: int, inboundId: int, gone: set<string>): Tables {
    Tables(map e | e in t.rows && !(e in gone && t.rows[e].inboundId == inboundId) :: t.rows[e],
           map k | k in t.baselines && !(k.id == node && k.email in gone) :: t.baselines[k])
  }

  function ReportStep(s: Sync, node: int, r: Report): Sync {
    var s' := StatSteps(s, node, r.inboundId, r.stats);
    s'.(t := Remove(s'.t, node, r.inboundId, Gone(s', r.inboundId, r.stats)))
  }

  function ReportSteps(s: Sync, node: int, reports: seq<Report>): Sync
    decreases |reports|
  {
    if reports == [] then s
    else ReportStep(ReportSteps(s, node, reports[..|reports| - 1]), node, reports[|reports| - 1])
  }

  // Rows of a central inbound the node no longer has are dropped with their baselines.
  function SweepStep(t: Tables, node: int, inboundId: int): Tables {
    Remove(t, node, inboundId, set e | e in t.rows && t.rows[e].inboundId == inboundId)
  }

  function Sweep(t: Tables, node: int, orphans: seq<int>): Tables
    decreases |orphans|
  {
    if orphans == [] then t
    else SweepStep(Sweep(t, node, orphans[..|orphans| - 1]), node, orphans[|orphans| - 1])
  }

  // The table effect of one whole node sync: indexes are loaded first, then the
  // orphan sweep runs, then the reports.
  function SyncNode(t: Tables, node: int, central: set<int>, orphans: seq<int>, reports: seq<Report>): Tables {
    var s := Load(t, node, central);
    ReportSteps(s.(t := Sweep(t, node, orphans)), node, reports).t
  }

  // ------------------------------------------------------------------
  // Facts about one sync
  // ------------------------------------------------------------------

  // The last of the lines for the e-mail.
  function LastLine(stats: seq<Stat>, e: string): Option<Stat>
    decreases |stats|
  {
    if stats == [] then None
    else if stats[|stats| - 1].email == e then Some(stats[|stats| - 1])
    else LastLine(stats[..|stats| - 1], e)
  }

  // The same over the whole reports of a snapshot.
  function LastReported(reports: seq<Report>, e: string): Option<Stat>
    decreases |reports|
  {
    if reports == [] then None
    else
      var line := LastLine(reports[|reports| - 1].stats, e);
      if line.Some? then line else LastReported(reports[..|reports| - 1], e)
  }

  // What the sync holds as the e-mail's baseline.
  function InMemory(s: Sync, e: string): Option<Counter> {
    if e in s.base then Some(s.base[e]) else None
  }

  function Latest(later: Option<Stat>, earlier: Option<Counter>): Option<Counter> {
    if later.Some? then Some(later.value.counter) else earlier
  }

  lemma {:induction false} LinesSetBaseline(s: Sync, node: int, inboundId: int, stats: seq<Stat>, e: string)
    ensures InMemory(StatSteps(s, node, inboundId, stats), e) == Latest(LastLine(stats, e), InMemory(s, e))
    decreases |stats|
  {
    if stats != [] {
      LinesSetBaseline(s, node, inboundId, stats[..|stats| - 1], e);
    }
  }

  // In the middle of a sync the baseline held for an e-mail is its last line so far,
  // whichever inbounds the lines belong to and whatever was deleted in between.
  lemma {:induction false} ReportsSetBaseline(s: Sync, node: int, reports: seq<Report>, e: string)
    ensures InMemory(ReportSteps(s, node, reports), e) == Latest(LastReported(reports, e), InMemory(s, e))
    decreases |reports|
  {
    if reports != [] {
      var front, r := reports[..|reports| - 1], reports[|reports| - 1];
      ReportsSetBaseline(s, node, front, e);
      LinesSetBaseline(ReportSteps(s, node, front), node, r.inboundId, r.stats, e);
    }
  }

  // The state in which line k of the next report is reached.
  function Reached(s: Sync, node: int, reports: seq<Report>, r: Report, k: nat): Sync
    requires k <= |r.stats|
  {
    StatSteps(ReportSteps(s, node, reports), node, r.inboundId, r.stats[..k])
  }

  // The counter of the e-mail's last line before line k of the report.
  function Before(reports: seq<Report>, r: Report, k: nat, e: string): Option<Counter>
    requires k <= |r.stats|
  {
    Latest(LastLine(r.stats[..k], e), Latest(LastReported(reports, e), None))
  }

  // An e-mail that occurs again in a snapshot, under the same inbound or a later one, adds
  // what it differs from its last line; so it adds nothing exactly when, in each direction,
  // it repeats the counter or reports zero.
  lemma RepeatAddsNothingIff(s: Sync, node: int, reports: seq<Report>, r: Report, k: nat)
    requires k < |r.stats| && Before(reports, r, k, r.stats[k].email).Some?
    ensures var was, now := Before(reports, r, k, r.stats[k].email).value, r.stats[k].counter;
            Credit(Reached(s, node, reports, r, k), r.stats[k]) == ZERO <==>
              (now.up == was.up || now.up == 0) && (now.down == was.down || now.down == 0)
  {
    var e := r.stats[k].email;
    ReportsSetBaseline(s, node, reports, e);
    LinesSetBaseline(ReportSteps(s, node, reports), node, r.inboundId, r.stats[..k], e);
  }

  // Every line of the e-mail gives this counter, as in a snapshot built from one table.
  predicate AllGive(stats: seq<Stat>, e: string, c: Counter) {
    forall i | 0 <= i < |stats| && stats[i].email == e :: stats[i].counter == c
  }

  predicate OneCounter(reports: seq<Report>, e: string, c: Counter) {
    forall j | 0 <= j < |reports| :: AllGive(reports[j].stats, e, c)
  }

  lemma {:induction false} LastLineIsGiven(stats: seq<Stat>, e: string, c: Counter)
    requires AllGive(stats, e, c)
    ensures LastLine(stats, e).Some? ==> LastLine(stats, e).value.counter == c
    decreases |stats|
  {
    if stats != [] && stats[|stats| - 1].email != e {
      LastLineIsGiven(stats[..|stats| - 1], e, c);
    }
  }

  lemma {:induction false} LastReportedIsGiven(reports: seq<Report>, e: string, c: Counter)
    requires OneCounter(reports, e, c)
    ensures LastReported(reports, e).Some? ==> LastReported(reports, e).value.counter == c
    decreases |reports|
  {
    if reports != [] {
      LastLineIsGiven(reports[|reports| - 1].stats, e, c);
      LastReportedIsGiven(reports[..|reports| - 1], e, c);
    }
  }

  // When all lines of an e-mail in a snapshot give one counter, only the first can add to
  // its row: at every later line the row keeps its usage.
  lemma RepeatedEmailAddsOnce(s: Sync, node: int, reports: seq<Report>, r: Report, k: nat, c: Counter)
    requires k < |r.stats| && Before(reports, r, k, r.stats[k].email).Some?
    requires OneCounter(reports + [r], r.stats[k].email, c)
    ensures var here, e := Reached(s, node, reports, r, k), r.stats[k].email;
            Credit(here, r.stats[k]) == ZERO &&
            (e in here.t.rows ==>
               e in StatStep(here, node, r.inboundId, r.stats[k]).t.rows &&
               StatStep(here, node, r.inboundId, r.stats[k]).t.rows[e].used == here.t.rows[e].used)
  {
    var e := r.stats[k].email;
    assert forall j | 0 <= j < |reports| :: (reports + [r])[j] == reports[j];
    assert (reports + [r])[|reports|] == r;
    LastReportedIsGiven(reports, e, c);
    LastLineIsGiven(r.stats[..k], e, c);
    RepeatAddsNothingIff(s, node, reports, r, k);
  }

  ghost predicate Kept(before: Tables, after: Tables) {
    forall e | e in before.rows && e in after.rows ::
      AtMost(before.rows[e].used, after.rows[e].used) && before.rows[e].inboundId == after.rows[e].inboundId
  }

  // What the in-memory index of existing e-mails guarantees: no e-mail gets a second
  // row in the same sync, so a row present at both ends is the same row.
  ghost predicate Indexed(before: Tables, s: Sync) {
    before.rows.Keys + s.t.rows.Keys <= s.existing
  }

  lemma {:induction false} StatStepsKeep(before: Tables, s: Sync, node: int, inboundId: int, stats: seq<Stat>)
    requires Indexed(before, s) && Kept(before, s.t)
    ensures var s' := StatSteps(s, node, inboundId, stats); Indexed(before, s') && Kept(before, s'.t)
    decreases |stats|
  {
    if stats != [] {
      StatStepsKeep(before, s, node, inboundId, stats[..|stats| - 1]);
    }
  }

  lemma {:induction false} ReportStepsKeep(before: Tables, s: Sync, node: int, reports: seq<Report>)
    requires Indexed(before, s) && Kept(before, s.t)
    ensures var s' := ReportSteps(s, node, reports); Indexed(before, s') && Kept(before, s'.t)
    decreases |reports|
  {
    if reports != [] {
      var last := reports[|reports| - 1];
      ReportStepsKeep(before, s, node, reports[..|reports| - 1]);
      StatStepsKeep(before, ReportSteps(s, node, reports[..|reports| - 1]), node, last.inboundId, last.stats);
    }
  }

  lemma {:induction false} SweepKeeps(t: Tables, node: int, orphans: seq<int>)
    ensures Kept(t, Sweep(t, node, orphans)) && Sweep(t, node, orphans).rows.Keys <= t.rows.Keys
    decreases |orphans|
  {
    if orphans != [] {
      SweepKeeps(t, node, orphans[..|orphans| - 1]);
    }
  }

  // A usage row that survives a sync never loses bytes and keeps its owner, whatever
  // the snapshot says and whatever else the sync deletes.
  lemma SurvivingRowNeverDecreases(t: Tables, node: int, central: set<int>, orphans: seq<int>, reports: seq<Report>)
    ensures Kept(t, SyncNode(t, node, central, orphans, reports))
  {
    SweepKeeps(t, node, orphans);
    ReportStepsKeep(t, Load(t, node, central).(t := Sweep(t, node, orphans)), node, reports);
  }
}
