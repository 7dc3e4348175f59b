// Whole runs of many nodes against the shared usage rows: nothing is counted twice,
// and while nothing falls or is deleted, nothing is lost.
//
// A world adds to the tables what the tables cannot see: the counter each node holds,
// the bytes it really moved, and a ledger that splits each row's usage into what the
// sync loop credited for each node and what was added locally.

module NodeRuns {

  import opened NodeUsage
  import opened Options
  import opened Sets

  // Bytes by node, e-mail and direction; bytes by e-mail and direction.
  type PerNode = (int, string, Direction) -> nat
  type PerEmail = (string, Direction) -> nat

  // credited: added to the row by the sync loop; late: reported by a node when it first
  // met an existing row; local: added by the panel's own poll.
  ghost const NOTHING: PerNode := (n, e, d) => 0
  ghost const NONE: PerEmail := (e, d) => 0

  datatype Ledger = Ledger(credited: PerNode, late: PerNode, local: PerEmail)

  // fallen: for each fall of a counter, what it fell to.
  datatype World = World(t: Tables, counters: PerNode, moved: PerNode, fallen: PerNode, l: Ledger)

  function If(c: bool, a: nat, b: nat): nat {
    if c then a else b
  }

  function Sum(a: nat, b: nat): nat {
    a + b
  }

  // f with the bytes of c added, or put in place, for one node and e-mail.
  ghost function Bump(f: PerNode, n: int, e: string, c: Counter): PerNode {
    (n', e', d) => Sum(f(n', e', d), If(n' == n && e' == e, Of(c, d), 0))
  }

  ghost function Put(f: PerNode, n: int, e: string, c: Counter): PerNode {
    (n', e', d) => If(n' == n && e' == e, Of(c, d), f(n', e', d))
  }

  // ------------------------------------------------------------------
  // Sums over the nodes that report one e-mail
  // ------------------------------------------------------------------

  ghost function Pick(nodes: set<int>): (n: int)
    requires nodes != {}
    ensures n in nodes
  {
    HasInt(nodes);
    var n :| n in nodes; n
  }

  ghost function Total(nodes: set<int>, f: PerNode, e: string, d: Direction): nat
    decreases nodes
  {
    if nodes == {} then 0
    else var n := Pick(nodes); f(n, e, d) + Total(nodes - {n}, f, e, d)
  }

  lemma {:induction false} TotalPick(nodes: set<int>, f: PerNode, e: string, d: Direction, n: int)
    requires n in nodes
    ensures Total(nodes, f, e, d) == f(n, e, d) + Total(nodes - {n}, f, e, d)
    decreases nodes
  {
    var p := Pick(nodes);
    if p != n {
      TotalPick(nodes - {p}, f, e, d, n);
      TotalPick(nodes - {n}, f, e, d, p);
      assert nodes - {p} - {n} == nodes - {n} - {p};
    }
  }

  lemma {:induction false} TotalAtMost(nodes: set<int>, f: PerNode, g: PerNode, e: string, d: Direction)
    requires forall n | n in nodes :: f(n, e, d) <= g(n, e, d)
    ensures Total(nodes, f, e, d) <= Total(nodes, g, e, d)
    decreases nodes
  {
    if nodes != {} {
      TotalAtMost(nodes - {Pick(nodes)}, f, g, e, d);
    }
  }

  lemma TotalSame(nodes: set<int>, f: PerNode, g: PerNode, e: string, d: Direction)
    requires forall n | n in nodes :: f(n, e, d) == g(n, e, d)
    ensures Total(nodes, f, e, d) == Total(nodes, g, e, d)
  {
    TotalAtMost(nodes, f, g, e, d);
    TotalAtMost(nodes, g, f, e, d);
  }

  lemma TotalBump(nodes: set<int>, f: PerNode, n: int, e: string, c: Counter, e': string, d: Direction)
    requires n in nodes
    ensures Total(nodes, Bump(f, n, e, c), e', d) == Total(nodes, f, e', d) + (if e' == e then Of(c, d) else 0)
  {
    var g := Bump(f, n, e, c);
    if e' == e {
      TotalPick(nodes, f, e, d, n);
      TotalPick(nodes, g, e, d, n);
      TotalSame(nodes - {n}, f, g, e, d);
    } else {
      TotalSame(nodes, f, g, e', d);
    }
  }

  lemma {:induction false} TotalZero(nodes: set<int>, f: PerNode, e: string, d: Direction)
    requires forall n | n in nodes :: f(n, e, d) == 0
    ensures Total(nodes, f, e, d) == 0
    decreases nodes
  {
    if nodes != {} {
      TotalZero(nodes - {Pick(nodes)}, f, e, d);
    }
  }

  lemma {:induction false} TotalSplit(nodes: set<int>, sum: PerNode, f: PerNode, g: PerNode, e: string, d: Direction)
    requires forall n | n in nodes :: sum(n, e, d) == f(n, e, d) + g(n, e, d)
    ensures Total(nodes, sum, e, d) == Total(nodes, f, e, d) + Total(nodes, g, e, d)
    decreases nodes
  {
    if nodes != {} {
      TotalSplit(nodes - {Pick(nodes)}, sum, f, g, e, d);
    }
  }

  // ------------------------------------------------------------------
  // A sync with its bookkeeping
  // ------------------------------------------------------------------

  datatype Booked = Booked(s: Sync, l: Ledger)

  ghost function Book(b: Booked, node: int, stat: Stat): Ledger {
    var e := stat.email;
    if e in b.s.t.rows then
      b.l.(credited := Bump(b.l.credited, node, e, Credit(b.s, stat)),
           late := if e in b.s.base then b.l.late else Put(b.l.late, node, e, stat.counter))
    else if e !in b.s.existing then
      b.l.(credited := Bump(b.l.credited, node, e, stat.counter))
    else b.l
  }

  ghost function BookStats(b: Booked, node: int, inboundId: int, stats: seq<Stat>): Booked
    decreases |stats|
  {
    if stats == [] then b
    else
      var b' := BookStats(b, node, inboundId, stats[..|stats| - 1]);
      Booked(StatStep(b'.s, node, inboundId, stats[|stats| - 1]), Book(b', node, stats[|stats| - 1]))
  }

  // Deleting a row closes its account.
  ghost function Close(l: Ledger, rows: set<string>): Ledger {
    Ledger((n, e, d) => If(e in rows, l.credited(n, e, d), 0),
           (n, e, d) => If(e in rows, l.late(n, e, d), 0),
           (e, d) => If(e in rows, l.local(e, d), 0))
  }

  ghost function BookReport(b: Booked, node: int, r: Report): Booked {
    var b' := BookStats(b, node, r.inboundId, r.stats);
    var t' := Remove(b'.s.t, node, r.inboundId, Gone(b'.s, r.inboundId, r.stats));
    Booked(b'.s.(t := t'), Close(b'.l, t'.rows.Keys))
  }

  ghost function BookReports(b: Booked, node: int, reports: seq<Report>): Booked
    decreases |reports|
  {
    if reports == [] then b
    else BookReport(BookReports(b, node, reports[..|reports| - 1]), node, reports[|reports| - 1])
  }

  ghost function BookStart(w: World, node: int, central: set<int>, orphans: seq<int>): Booked {
    var t := Sweep(w.t, node, orphans);
    Booked(Load(w.t, node, central).(t := t), Close(w.l, t.rows.Keys))
  }

  lemma {:induction false} BookStatsIsStatSteps(b: Booked, node: int, inboundId: int, stats: seq<Stat>)
    ensures BookStats(b, node, inboundId, stats).s == StatSteps(b.s, node, inboundId, stats)
    decreases |stats|
  {
    if stats != [] {
      BookStatsIsStatSteps(b, node, inboundId, stats[..|stats| - 1]);
    }
  }

  // The bookkeeping only watches: the tables move exactly as in the plain sync.
  lemma {:induction false} BookReportsIsReportSteps(b: Booked, node: int, reports: seq<Report>)
    ensures BookReports(b, node, reports).s == ReportSteps(b.s, node, reports)
    decreases |reports|
  {
    if reports != [] {
      var last := reports[|reports| - 1];
      BookReportsIsReportSteps(b, node, reports[..|reports| - 1]);
      BookStatsIsStatSteps(BookReports(b, node, reports[..|reports| - 1]), node, last.inboundId, last.stats);
    }
  }

  // ------------------------------------------------------------------
  // Events
  // ------------------------------------------------------------------

  datatype Event =
    | Grow(n: int, e: string, c: Counter)      // node n moves bytes for e
    | Fall(n: int, e: string, c: Counter)      // node n's counter for e falls to c
    | NodeSync(n: int, central: set<int>, orphans: seq<int>, reports: seq<Report>)
    | LocalDelta(e: string, c: Counter)        // the local poll adds to a row
    | Create(e: string, row: Row)              // a client is added on the panel: an empty row unless one exists
    | ResetRow(e: string)                      // usage set back to zero, baselines kept
    | Purge(e: string)                         // row and all its baselines deleted

  // A snapshot reports the counters the node holds at that moment.
  ghost predicate Honest(counters: PerNode, n: int, stats: seq<Stat>) {
    forall i, d | 0 <= i < |stats| :: Of(stats[i].counter, d) == counters(n, stats[i].email, d)
  }

  // What is left in the directions that fell; the sync will count it once more.
  ghost function Residue(counters: PerNode, n: int, e: string, c: Counter): Counter {
    Counter(If(c.up < counters(n, e, Upload), c.up, 0), If(c.down < counters(n, e, Download), c.down, 0))
  }

  ghost predicate Legal(w: World, nodes: set<int>, ev: Event) {
    match ev
    case NodeSync(n, _, _, reports) =>
      n in nodes && forall i | 0 <= i < |reports| :: Honest(w.counters, n, reports[i].stats)
    case Create(_, row) => row.used == ZERO
    case Fall(n, e, c) => forall d :: Of(c, d) <= w.counters(n, e, d)
    case _ => true
  }

  ghost function Apply(w: World, ev: Event): World {
    match ev
    case Grow(n, e, c) => w.(counters := Bump(w.counters, n, e, c), moved := Bump(w.moved, n, e, c))
    case Fall(n, e, c) =>
      w.(counters := Put(w.counters, n, e, c), fallen := Bump(w.fallen, n, e, Residue(w.counters, n, e, c)))
    case NodeSync(n, central, orphans, reports) =>
      var b := BookReports(BookStart(w, n, central, orphans), n, reports);
      w.(t := b.s.t, l := b.l)
    case LocalDelta(e, c) =>
      if e !in w.t.rows then w
      else w.(t := w.t.(rows := w.t.rows[e := w.t.rows[e].(used := Plus(w.t.rows[e].used, c))]),
              l := w.l.(local := (e', d) => Sum(w.l.local(e', d), If(e' == e, Of(c, d), 0))))
    case Create(e, row) =>
      if e in w.t.rows then w else w.(t := w.t.(rows := w.t.rows[e := row]))
    case ResetRow(e) =>
      if e !in w.t.rows then w
      else w.(t := w.t.(rows := w.t.rows[e := w.t.rows[e].(used := ZERO)]), l := Close(w.l, w.t.rows.Keys - {e}))
    case Purge(e) =>
      w.(t := Tables(w.t.rows - {e}, map k | k in w.t.baselines && k.email != e :: w.t.baselines[k]),
         l := Close(w.l, w.t.rows.Keys - {e}))
  }

  ghost function Run(w: World, evs: seq<Event>): World
    decreases |evs|
  {
    if evs == [] then w else Apply(Run(w, evs[..|evs| - 1]), evs[|evs| - 1])
  }

  ghost predicate LegalRun(w: World, nodes: set<int>, evs: seq<Event>)
    decreases |evs|
  {
    evs == [] || (LegalRun(w, nodes, evs[..|evs| - 1]) && Legal(Run(w, evs[..|evs| - 1]), nodes, evs[|evs| - 1]))
  }

  ghost const EMPTY: World := World(Tables(map[], map[]), NOTHING, NOTHING, NOTHING, Ledger(NOTHING, NOTHING, NONE))

  // The plain sync is what NodeSync does to the tables.
  lemma SyncEventIsSyncNode(w: World, n: int, central: set<int>, orphans: seq<int>, reports: seq<Report>)
    ensures Apply(w, NodeSync(n, central, orphans, reports)).t == SyncNode(w.t, n, central, orphans, reports)
  {
    BookReportsIsReportSteps(BookStart(w, n, central, orphans), n, reports);
  }

  // ------------------------------------------------------------------
  // No over-counting
  // ------------------------------------------------------------------

  // What the next report of counter c can add, given the baseline.
  function Pending(base: Option<Counter>, c: nat, d: Direction): nat {
    match base
    case None => 0
    case Some(b) => Delta(Of(b, d), c)
  }

  function Stored(t: Tables, n: int, e: string): Option<Counter> {
    if Key(n, e) in t.baselines then Some(t.baselines[Key(n, e)]) else None
  }

  // During node's own sync the in-memory baseline is the one that counts.
  function BaseOf(s: Sync, node: int, n: int, e: string): Option<Counter> {
    if n != node then Stored(s.t, n, e)
    else if e in s.base then Some(s.base[e]) else None
  }

  ghost predicate Blank(l: Ledger, e: string) {
    && (forall n, d :: l.credited(n, e, d) == 0 && l.late(n, e, d) == 0)
    && (forall d :: l.local(e, d) == 0)
  }

  ghost predicate Adds(t: Tables, l: Ledger, nodes: set<int>, e: string) {
    if e in t.rows then forall d :: Of(t.rows[e].used, d) == l.local(e, d) + Total(nodes, l.credited, e, d)
    else Blank(l, e)
  }

  ghost predicate Accounted(t: Tables, l: Ledger, nodes: set<int>) {
    forall e :: Adds(t, l, nodes, e)
  }

  // The bytes a node may account for: those it moved, and those it fell to.
  ghost function Accountable(w: World, n: int, e: string, d: Direction): nat {
    w.moved(n, e, d) + w.fallen(n, e, d)
  }

  // What was credited, and what the next report may still add, is accountable.
  ghost predicate Bounded(l: Ledger, w: World, base: Option<Counter>, n: int, e: string) {
    forall d :: l.credited(n, e, d) + Pending(base, w.counters(n, e, d), d) <= Accountable(w, n, e, d)
  }

  ghost predicate Covered(w: World, n: int, e: string) {
    forall d :: w.counters(n, e, d) <= Accountable(w, n, e, d)
  }

  ghost predicate Within(w: World, nodes: set<int>) {
    && Accounted(w.t, w.l, nodes)
    && (forall n, e :: Covered(w, n, e))
    && (forall n, e | e in w.t.rows :: Bounded(w.l, w, Stored(w.t, n, e), n, e))
  }

  ghost predicate Mirrors(s: Sync, node: int) {
    && s.t.rows.Keys <= s.existing
    && (forall e | Key(node, e) in s.t.baselines :: e in s.base && s.base[e] == s.t.baselines[Key(node, e)])
  }

  // The same inside the sync of one node.
  ghost predicate Inside(b: Booked, w: World, node: int, nodes: set<int>) {
    && Accounted(b.s.t, b.l, nodes)
    && Mirrors(b.s, node)
    && (forall n, e :: Covered(w, n, e))
    && (forall n, e | e in b.s.t.rows :: Bounded(b.l, w, BaseOf(b.s, node, n, e), n, e))
  }

  lemma ClosedIsBlank(l: Ledger, rows: set<string>, e: string)
    requires e !in rows
    ensures Blank(Close(l, rows), e)
  {
    var l' := Close(l, rows);
    forall n, d ensures l'.credited(n, e, d) == 0 && l'.late(n, e, d) == 0 {
      assert l'.credited(n, e, d) == If(e in rows, l.credited(n, e, d), 0);
      assert l'.late(n, e, d) == If(e in rows, l.late(n, e, d), 0);
    }
    forall d ensures l'.local(e, d) == 0 {
      assert l'.local(e, d) == If(e in rows, l.local(e, d), 0);
    }
  }

  lemma CloseAccounts(t: Tables, t': Tables, l: Ledger, nodes: set<int>)
    requires Accounted(t, l, nodes)
    requires t'.rows.Keys <= t.rows.Keys && forall e | e in t'.rows :: t'.rows[e].used == t.rows[e].used
    ensures Accounted(t', Close(l, t'.rows.Keys), nodes)
  {
    var l' := Close(l, t'.rows.Keys);
    forall e ensures Adds(t', l', nodes, e) {
      assert Adds(t, l, nodes, e);
      if e in t'.rows {
        forall d ensures Total(nodes, l'.credited, e, d) == Total(nodes, l.credited, e, d) {
          TotalSame(nodes, l'.credited, l.credited, e, d);
        }
      } else {
        ClosedIsBlank(l, t'.rows.Keys, e);
      }
    }
  }

  lemma BookAccounts(b: Booked, node: int, nodes: set<int>, inboundId: int, stat: Stat)
    requires node in nodes && Accounted(b.s.t, b.l, nodes) && b.s.t.rows.Keys <= b.s.existing
    ensures Accounted(StatStep(b.s, node, inboundId, stat).t, Book(b, node, stat), nodes)
  {
    var t', l' := StatStep(b.s, node, inboundId, stat).t, Book(b, node, stat);
    forall e ensures Adds(t', l', nodes, e) {
      assert Adds(b.s.t, b.l, nodes, e);
      forall d ensures e in t'.rows ==> Of(t'.rows[e].used, d) == l'.local(e, d) + Total(nodes, l'.credited, e, d) {
        TotalBump(nodes, b.l.credited, node, stat.email, Credit(b.s, stat), e, d);
        TotalBump(nodes, b.l.credited, node, stat.email, stat.counter, e, d);
        if e !in b.s.t.rows {
          TotalZero(nodes, b.l.credited, e, d);
        }
      }
    }
  }

  // Reporting a counter moves exactly what was pending to the credited side.
  lemma BookBounds(b: Booked, w: World, node: int, inboundId: int, stat: Stat, n: int, e: string)
    requires forall d :: Of(stat.counter, d) == w.counters(node, stat.email, d)
    requires stat.email in b.s.t.rows ==> stat.email in b.s.existing
    requires if e in b.s.t.rows then Bounded(b.l, w, BaseOf(b.s, node, n, e), n, e) else Blank(b.l, e)
    requires Covered(w, n, e)
    requires e in StatStep(b.s, node, inboundId, stat).t.rows
    ensures Bounded(Book(b, node, stat), w, BaseOf(StatStep(b.s, node, inboundId, stat), node, n, e), n, e)
  {
    var s', l' := StatStep(b.s, node, inboundId, stat), Book(b, node, stat);
    forall d ensures l'.credited(n, e, d) + Pending(BaseOf(s', node, n, e), w.counters(n, e, d), d) <=
      Accountable(w, n, e, d) {
      if e != stat.email || n != node {
        assert BaseOf(s', node, n, e) == BaseOf(b.s, node, n, e);
        assert l'.credited(n, e, d) == b.l.credited(n, e, d);
      } else {
        assert BaseOf(s', node, n, e) == Some(stat.counter);
        assert Of(Credit(b.s, stat), d) == Pending(BaseOf(b.s, node, n, e), w.counters(n, e, d), d);
      }
    }
  }

  lemma BookStatInside(b: Booked, w: World, node: int, nodes: set<int>, inboundId: int, stat: Stat)
    requires node in nodes && Inside(b, w, node, nodes) && Honest(w.counters, node, [stat])
    ensures Inside(Booked(StatStep(b.s, node, inboundId, stat), Book(b, node, stat)), w, node, nodes)
  {
    BookAccounts(b, node, nodes, inboundId, stat);
    var s', l' := StatStep(b.s, node, inboundId, stat), Book(b, node, stat);
    assert forall d :: Of([stat][0].counter, d) == w.counters(node, [stat][0].email, d);
    forall n, e | e in s'.t.rows ensures Bounded(l', w, BaseOf(s', node, n, e), n, e) {
      assert Adds(b.s.t, b.l, nodes, e);
      BookBounds(b, w, node, inboundId, stat, n, e);
    }
  }

  lemma {:induction false} BookStatsInside(b: Booked, w: World, node: int, nodes: set<int>, inboundId: int,
                                           stats: seq<Stat>)
    requires node in nodes && Inside(b, w, node, nodes) && Honest(w.counters, node, stats)
    ensures Inside(BookStats(b, node, inboundId, stats), w, node, nodes)
    decreases |stats|
  {
    if stats != [] {
      BookStatsInside(b, w, node, nodes, inboundId, stats[..|stats| - 1]);
      BookStatInside(BookStats(b, node, inboundId, stats[..|stats| - 1]), w, node, nodes, inboundId,
        stats[|stats| - 1]);
    }
  }

  // Deletions can only lower what is credited and forget baselines.
  lemma ForgettingIsSafe(b: Booked, w: World, node: int, nodes: set<int>, t': Tables)
    requires Inside(b, w, node, nodes)
    requires t'.rows.Keys <= b.s.t.rows.Keys && forall e | e in t'.rows :: t'.rows[e] == b.s.t.rows[e]
    requires t'.baselines.Keys <= b.s.t.baselines.Keys
    requires forall k | k in t'.baselines :: t'.baselines[k] == b.s.t.baselines[k]
    ensures Inside(Booked(b.s.(t := t'), Close(b.l, t'.rows.Keys)), w, node, nodes)
  {
    CloseAccounts(b.s.t, t', b.l, nodes);
    var s', l' := b.s.(t := t'), Close(b.l, t'.rows.Keys);
    forall n, e | e in t'.rows ensures Bounded(l', w, BaseOf(s', node, n, e), n, e) {
      assert Bounded(b.l, w, BaseOf(b.s, node, n, e), n, e);
    }
  }

  lemma {:induction false} BookReportsInside(b: Booked, w: World, node: int, nodes: set<int>, reports: seq<Report>)
    requires node in nodes && Inside(b, w, node, nodes)
    requires forall i | 0 <= i < |reports| :: Honest(w.counters, node, reports[i].stats)
    ensures Inside(BookReports(b, node, reports), w, node, nodes)
    decreases |reports|
  {
    if reports != [] {
      var r := reports[|reports| - 1];
      var b1 := BookReports(b, node, reports[..|reports| - 1]);
      BookReportsInside(b, w, node, nodes, reports[..|reports| - 1]);
      BookStatsInside(b1, w, node, nodes, r.inboundId, r.stats);
      var b2 := BookStats(b1, node, r.inboundId, r.stats);
      ForgettingIsSafe(b2, w, node, nodes, Remove(b2.s.t, node, r.inboundId, Gone(b2.s, r.inboundId, r.stats)));
    }
  }

  lemma {:induction false} SweepShrinks(t: Tables, node: int, orphans: seq<int>)
    ensures var t' := Sweep(t, node, orphans);
            t'.rows.Keys <= t.rows.Keys && (forall e | e in t'.rows :: t'.rows[e] == t.rows[e]) &&
            t'.baselines.Keys <= t.baselines.Keys && (forall k | k in t'.baselines :: t'.baselines[k] == t.baselines[k])
    decreases |orphans|
  {
    if orphans != [] {
      SweepShrinks(t, node, orphans[..|orphans| - 1]);
    }
  }

  lemma NodeSyncWithin(w: World, nodes: set<int>, ev: Event)
    requires ev.NodeSync? && Within(w, nodes) && Legal(w, nodes, ev)
    ensures Within(Apply(w, ev), nodes)
  {
    var node := ev.n;
    var b0 := Booked(Load(w.t, node, ev.central), w.l);
    forall n, e | e in w.t.rows ensures Bounded(b0.l, w, BaseOf(b0.s, node, n, e), n, e) {
      assert Bounded(w.l, w, Stored(w.t, n, e), n, e);
    }
    assert Inside(b0, w, node, nodes);
    SweepShrinks(w.t, node, ev.orphans);
    ForgettingIsSafe(b0, w, node, nodes, Sweep(w.t, node, ev.orphans));
    BookReportsInside(BookStart(w, node, ev.central, ev.orphans), w, node, nodes, ev.reports);
    var b := BookReports(BookStart(w, node, ev.central, ev.orphans), node, ev.reports);
    var w' := Apply(w, ev);
    forall n, e ensures Covered(w', n, e) {
      assert Covered(w, n, e);
    }
    forall n, e | e in w'.t.rows ensures Bounded(w'.l, w', Stored(w'.t, n, e), n, e) {
      assert Bounded(b.l, w, BaseOf(b.s, node, n, e), n, e);
    }
  }

  lemma TotalZeroIfBlank(nodes: set<int>, l: Ledger, e: string, d: Direction)
    ensures Blank(l, e) ==> Total(nodes, l.credited, e, d) == 0
  {
    if Blank(l, e) {
      TotalZero(nodes, l.credited, e, d);
    }
  }

  lemma LocalEventWithin(w: World, nodes: set<int>, ev: Event)
    requires ev.LocalDelta? || ev.Create? || ev.ResetRow? || ev.Purge?
    requires Within(w, nodes) && Legal(w, nodes, ev)
    ensures Within(Apply(w, ev), nodes)
  {
    var w', e := Apply(w, ev), ev.e;
    forall n, e ensures Covered(w', n, e) {
      assert Covered(w, n, e);
    }
    forall n, e' | e' in w'.t.rows ensures Bounded(w'.l, w', Stored(w'.t, n, e'), n, e') {
      assert Covered(w, n, e') && Adds(w.t, w.l, nodes, e');
      assert e' in w.t.rows ==> Bounded(w.l, w, Stored(w.t, n, e'), n, e');
    }
    if (ev.ResetRow? && e in w.t.rows) || ev.Purge? {
      CloseAccounts(w.t, w.t.(rows := w.t.rows - {e}), w.l, nodes);
      assert (w.t.rows - {e}).Keys == w.t.rows.Keys - {e};
    }
    forall e' ensures Adds(w'.t, w'.l, nodes, e') {
      assert Adds(w.t, w.l, nodes, e');
      assert (ev.ResetRow? && e in w.t.rows) || ev.Purge? ==> Adds(w.t.(rows := w.t.rows - {e}), w'.l, nodes, e');
      forall d ensures Blank(w'.l, e') ==> Total(nodes, w'.l.credited, e', d) == 0 {
        TotalZeroIfBlank(nodes, w'.l, e', d);
      }
    }
  }

  lemma ApplyWithin(w: World, nodes: set<int>, ev: Event)
    requires Within(w, nodes) && Legal(w, nodes, ev)
    ensures Within(Apply(w, ev), nodes)
  {
    if ev.NodeSync? {
      NodeSyncWithin(w, nodes, ev);
    } else if ev.Grow? || ev.Fall? {
      var w' := Apply(w, ev);
      forall n, e ensures Covered(w', n, e) {
        assert Covered(w, n, e);
      }
      forall n, e | e in w'.t.rows ensures Bounded(w'.l, w', Stored(w'.t, n, e), n, e) {
        assert Bounded(w.l, w, Stored(w.t, n, e), n, e);
      }
    } else {
      LocalEventWithin(w, nodes, ev);
    }
  }

  lemma {:induction false} RunWithin(nodes: set<int>, evs: seq<Event>)
    requires LegalRun(EMPTY, nodes, evs)
    ensures Within(Run(EMPTY, evs), nodes)
    decreases |evs|
  {
    if evs != [] {
      RunWithin(nodes, evs[..|evs| - 1]);
      ApplyWithin(Run(EMPTY, evs[..|evs| - 1]), nodes, evs[|evs| - 1]);
    } else {
      assert forall e :: Adds(EMPTY.t, EMPTY.l, nodes, e);
    }
  }

  ghost function Summed(f: PerNode, g: PerNode): PerNode {
    (n, e, d) => Sum(f(n, e, d), g(n, e, d))
  }

  // Whatever the interleaving of growing, falling and syncing nodes with local traffic,
  // resets and deletions: in each direction a row holds its local deltas plus what the sync
  // loop credited, and that never exceeds the bytes the nodes moved plus, for each fall of
  // a counter, the value it fell to.
  lemma SyncCountsAtMost(nodes: set<int>, evs: seq<Event>, e: string, d: Direction)
    requires LegalRun(EMPTY, nodes, evs)
    requires e in Run(EMPTY, evs).t.rows
    ensures var w := Run(EMPTY, evs);
            Of(w.t.rows[e].used, d) == w.l.local(e, d) + Total(nodes, w.l.credited, e, d) &&
            Total(nodes, w.l.credited, e, d) <= Total(nodes, w.moved, e, d) + Total(nodes, w.fallen, e, d)
  {
    RunWithin(nodes, evs);
    var w := Run(EMPTY, evs);
    assert Adds(w.t, w.l, nodes, e);
    forall n ensures w.l.credited(n, e, d) <= Summed(w.moved, w.fallen)(n, e, d) {
      assert Bounded(w.l, w, Stored(w.t, n, e), n, e);
    }
    TotalAtMost(nodes, w.l.credited, Summed(w.moved, w.fallen), e, d);
    TotalSplit(nodes, Summed(w.moved, w.fallen), w.moved, w.fallen, e, d);
  }

  // Every counter that falls restarts at zero.
  predicate FallsToZero(evs: seq<Event>) {
    forall i | 0 <= i < |evs| && evs[i].Fall? :: evs[i].c == ZERO
  }

  lemma {:induction false} NothingFallen(evs: seq<Event>, n: int, e: string, d: Direction)
    requires FallsToZero(evs)
    ensures Run(EMPTY, evs).fallen(n, e, d) == 0
    decreases |evs|
  {
    if evs != [] {
      NothingFallen(evs[..|evs| - 1], n, e, d);
    }
  }

  // With counters that only grow or restart at zero, a row never holds more than the bytes
  // the nodes really moved and the local ones.
  lemma SyncNeverOverCounts(nodes: set<int>, evs: seq<Event>, e: string, d: Direction)
    requires LegalRun(EMPTY, nodes, evs) && FallsToZero(evs)
    requires e in Run(EMPTY, evs).t.rows
    ensures var w := Run(EMPTY, evs);
            Of(w.t.rows[e].used, d) == w.l.local(e, d) + Total(nodes, w.l.credited, e, d) &&
            Total(nodes, w.l.credited, e, d) <= Total(nodes, w.moved, e, d)
  {
    SyncCountsAtMost(nodes, evs, e, d);
    var w := Run(EMPTY, evs);
    forall n ensures w.fallen(n, e, d) == 0 {
      NothingFallen(evs, n, e, d);
    }
    TotalZero(nodes, w.fallen, e, d);
  }

  // A snapshot with one line.
  function OneLine(n: int, ib: int, stat: Stat): Event {
    NodeSync(n, {}, [], [Report(ib, [stat])])
  }

  lemma OneLineEffect(w: World, n: int, ib: int, stat: Stat)
    ensures var b0 := BookStart(w, n, {}, []);
            var s', w' := StatStep(b0.s, n, ib, stat), Apply(w, OneLine(n, ib, stat));
            && w'.moved == w.moved && w'.fallen == w.fallen && w'.counters == w.counters
            && w'.t.baselines.Keys >= {Key(n, stat.email)} && w'.t.baselines[Key(n, stat.email)] == stat.counter
            && (stat.email in s'.t.rows ==> stat.email in w'.t.rows && w'.t.rows[stat.email] == s'.t.rows[stat.email])
            && (stat.email in s'.t.rows ==>
                  forall d :: w'.l.credited(n, stat.email, d) == Book(b0, n, stat).credited(n, stat.email, d))
  {
    var b0 := BookStart(w, n, {}, []);
    var r := Report(ib, [stat]);
    assert [r][..0] == [] && [stat][..0] == [];
    assert BookReports(b0, n, [r][..0]) == b0;
    assert BookStats(b0, n, ib, [stat][..0]) == b0;
    var b1 := BookStats(b0, n, ib, [stat]);
    assert b1 == Booked(StatStep(b0.s, n, ib, stat), Book(b0, n, stat));
    assert stat.email !in Gone(b1.s, ib, [stat]) by {
      assert [stat][0].email == stat.email;
    }
    assert BookReports(b0, n, [r]) == BookReport(b0, n, r);
  }

  // A snapshot with one line of an e-mail that has a row adds what the baseline leaves.
  lemma OneLineCredits(w: World, n: int, ib: int, stat: Stat, d: Direction)
    requires stat.email in w.t.rows
    ensures var e, w' := stat.email, Apply(w, OneLine(n, ib, stat));
            var added := Pending(Stored(w.t, n, e), Of(stat.counter, d), d);
            && w'.moved == w.moved && e in w'.t.rows
            && Of(w'.t.rows[e].used, d) == Of(w.t.rows[e].used, d) + added
            && w'.l.credited(n, e, d) == w.l.credited(n, e, d) + added
  {
    OneLineEffect(w, n, ib, stat);
    var b0 := BookStart(w, n, {}, []);
    assert b0.l.credited(n, stat.email, d) == If(stat.email in w.t.rows, w.l.credited(n, stat.email, d), 0);
    assert Of(Credit(b0.s, stat), d) == Pending(Stored(w.t, n, stat.email), Of(stat.counter, d), d);
  }

  // The bound is reached: a fully accounted counter that falls to a smaller value is
  // counted again from the bottom by the next sync, so the node is credited more than it
  // moved exactly when that value is not zero.
  lemma FallOverCountsIff(w: World, n: int, e: string, c: Counter, ib: int, stat: Stat, d: Direction)
    requires e in w.t.rows && stat.email == e && stat.counter == c && Stored(w.t, n, e).Some?
    requires Of(c, d) < Of(Stored(w.t, n, e).value, d) && w.l.credited(n, e, d) == w.moved(n, e, d)
    ensures var w' := Apply(Apply(w, Fall(n, e, c)), OneLine(n, ib, stat));
            w'.l.credited(n, e, d) == w'.moved(n, e, d) + Of(c, d) &&
            (w'.l.credited(n, e, d) > w'.moved(n, e, d) <==> Of(c, d) != 0)
  {
    OneLineCredits(Apply(w, Fall(n, e, c)), n, ib, stat, d);
  }

  lemma RunOneMore(w: World, nodes: set<int>, evs: seq<Event>, ev: Event)
    ensures Run(w, evs + [ev]) == Apply(Run(w, evs), ev)
    ensures LegalRun(w, nodes, evs + [ev]) <==> LegalRun(w, nodes, evs) && Legal(Run(w, evs), nodes, ev)
  {
    assert (evs + [ev])[..|evs|] == evs;
  }

  // The bytes of a line are moved, and reported.
  function FirstReport(n: int, ib: int, stat: Stat): seq<Event> {
    [Grow(n, stat.email, stat.counter)] + [OneLine(n, ib, stat)]
  }

  // Then the counter falls to that of another line, which is reported as well.
  function FallRun(n: int, ib: int, first: Stat, left: Stat): seq<Event> {
    FirstReport(n, ib, first) + [Fall(n, left.email, left.counter)] + [OneLine(n, ib, left)]
  }

  lemma OneLineIsLegal(w: World, nodes: set<int>, n: int, ib: int, stat: Stat)
    requires n in nodes && forall d :: Of(stat.counter, d) == w.counters(n, stat.email, d)
    ensures Legal(w, nodes, OneLine(n, ib, stat))
  {
    assert Honest(w.counters, n, [stat]);
  }

  lemma CountersAfter(w: World, n: int, e: string, c: Counter, d: Direction)
    ensures Apply(w, Grow(n, e, c)).counters(n, e, d) == w.counters(n, e, d) + Of(c, d)
    ensures Apply(w, Grow(n, e, c)).moved(n, e, d) == w.moved(n, e, d) + Of(c, d)
    ensures Apply(w, Fall(n, e, c)).counters(n, e, d) == Of(c, d)
  {
  }

  // The first line of an e-mail without a row creates it with the counter as its usage.
  lemma NewRowCounts(w: World, n: int, ib: int, stat: Stat)
    requires stat.email !in w.t.rows
    ensures var w' := Apply(w, OneLine(n, ib, stat));
            && stat.email in w'.t.rows && w'.t.rows[stat.email].used == stat.counter
            && Stored(w'.t, n, stat.email) == Some(stat.counter)
            && w'.moved == w.moved && w'.counters == w.counters
  {
    OneLineEffect(w, n, ib, stat);
  }

  lemma TwoEvents(w: World, nodes: set<int>, first: Event, second: Event)
    ensures Run(w, [first] + [second]) == Apply(Apply(w, first), second)
    ensures Legal(w, nodes, first) && Legal(Apply(w, first), nodes, second) ==>
              LegalRun(w, nodes, [first] + [second])
  {
    RunOneMore(w, nodes, [], first);
    assert [] + [first] == [first];
    RunOneMore(w, nodes, [first], second);
  }

  lemma FirstReportCounts(n: int, ib: int, stat: Stat)
    ensures var w, e := Run(EMPTY, FirstReport(n, ib, stat)), stat.email;
            && LegalRun(EMPTY, {n}, FirstReport(n, ib, stat))
            && e in w.t.rows && w.t.rows[e].used == stat.counter && Stored(w.t, n, e) == Some(stat.counter)
            && forall d :: w.moved(n, e, d) == w.counters(n, e, d) == Of(stat.counter, d)
  {
    var grow := Grow(n, stat.email, stat.counter);
    var w := Apply(EMPTY, grow);
    forall d ensures w.moved(n, stat.email, d) == w.counters(n, stat.email, d) == Of(stat.counter, d) {
      CountersAfter(EMPTY, n, stat.email, stat.counter, d);
    }
    OneLineIsLegal(w, {n}, n, ib, stat);
    NewRowCounts(w, n, ib, stat);
    TwoEvents(EMPTY, {n}, grow, OneLine(n, ib, stat));
  }

  // A fall to the counter of a line that is then reported.
  lemma FallAndReport(w: World, nodes: set<int>, n: int, ib: int, stat: Stat, d: Direction)
    requires n in nodes && stat.email in w.t.rows && forall d :: Of(stat.counter, d) <= w.counters(n, stat.email, d)
    ensures var e, fall, line := stat.email, Fall(n, stat.email, stat.counter), OneLine(n, ib, stat);
            var w' := Apply(Apply(w, fall), line);
            && Legal(w, nodes, fall) && Legal(Apply(w, fall), nodes, line)
            && w'.moved == w.moved && e in w'.t.rows
            && Of(w'.t.rows[e].used, d) ==
                 Of(w.t.rows[e].used, d) + Pending(Stored(w.t, n, e), Of(stat.counter, d), d)
  {
    var w' := Apply(w, Fall(n, stat.email, stat.counter));
    forall d ensures Of(stat.counter, d) == w'.counters(n, stat.email, d) {
      CountersAfter(w, n, stat.email, stat.counter, d);
    }
    OneLineIsLegal(w', nodes, n, ib, stat);
    OneLineCredits(w', n, ib, stat, d);
  }

  // A run that exceeds: the row holds the bytes moved and, in each direction that fell,
  // those the fall left over.
  lemma FallRunExceeds(n: int, ib: int, first: Stat, left: Stat, d: Direction)
    requires left.email == first.email && AtMost(left.counter, first.counter)
    ensures var w, e := Run(EMPTY, FallRun(n, ib, first, left)), first.email;
            var was, now := Of(first.counter, d), Of(left.counter, d);
            LegalRun(EMPTY, {n}, FallRun(n, ib, first, left)) && w.moved(n, e, d) == was &&
            e in w.t.rows && Of(w.t.rows[e].used, d) == was + (if now < was then now else 0)
  {
    var w, fall := Run(EMPTY, FirstReport(n, ib, first)), Fall(n, left.email, left.counter);
    FirstReportCounts(n, ib, first);
    FallAndReport(w, {n}, n, ib, left, d);
    RunOneMore(EMPTY, {n}, FirstReport(n, ib, first), fall);
    RunOneMore(EMPTY, {n}, FirstReport(n, ib, first) + [fall], OneLine(n, ib, left));
  }

  // ------------------------------------------------------------------
  // Conservation
  // ------------------------------------------------------------------

  // No entry of the snapshot drops an e-mail its inbound owned.
  ghost predicate NothingGone(s: Sync, node: int, reports: seq<Report>)
    decreases |reports|
  {
    reports == [] ||
    (var before := reports[..|reports| - 1];
     var r := reports[|reports| - 1];
     NothingGone(s, node, before) &&
     Gone(StatSteps(ReportSteps(s, node, before), node, r.inboundId, r.stats), r.inboundId, r.stats) == {})
  }

  // Events in which no node counter falls and nothing is reset or deleted.
  ghost predicate Lossless(w: World, ev: Event) {
    match ev
    case Fall(_, _, _) => false
    case ResetRow(_) => false
    case Purge(_) => false
    case NodeSync(n, central, orphans, reports) => orphans == [] && NothingGone(Load(w.t, n, central), n, reports)
    case _ => true
  }

  ghost predicate LosslessRun(w: World, evs: seq<Event>)
    decreases |evs|
  {
    evs == [] || (LosslessRun(w, evs[..|evs| - 1]) && Lossless(Run(w, evs[..|evs| - 1]), evs[|evs| - 1]))
  }

  // The stored baselines as bytes.
  ghost function Baselines(t: Tables): PerNode {
    (n, e, d) => match Stored(t, n, e) case None => 0 case Some(b) => Of(b, d)
  }

  // A baseline is exactly what its node was credited plus what it reported too late.
  ghost predicate Balanced(base: Option<Counter>, l: Ledger, counters: PerNode, n: int, e: string) {
    match base
    case None => forall d :: l.credited(n, e, d) == 0 && l.late(n, e, d) == 0
    case Some(b) => forall d :: Of(b, d) == l.credited(n, e, d) + l.late(n, e, d) && Of(b, d) <= counters(n, e, d)
  }

  ghost predicate Conserved(w: World, nodes: set<int>) {
    && Accounted(w.t, w.l, nodes)
    && (forall n, e :: Balanced(Stored(w.t, n, e), w.l, w.counters, n, e))
    && (forall k | k in w.t.baselines :: k.email in w.t.rows)
  }

  // During a sync that deletes nothing, memory and table agree on the syncing node.
  ghost predicate Steady(b: Booked, counters: PerNode, node: int, nodes: set<int>) {
    && Accounted(b.s.t, b.l, nodes)
    && (forall n, e :: Balanced(Stored(b.s.t, n, e), b.l, counters, n, e))
    && b.s.t.rows.Keys == b.s.existing
    && (forall k | k in b.s.t.baselines :: k.email in b.s.t.rows)
    && (forall e :: BaseOf(b.s, node, node, e) == Stored(b.s.t, node, e))
  }

  lemma BookStatSteady(b: Booked, counters: PerNode, node: int, nodes: set<int>, inboundId: int, stat: Stat)
    requires node in nodes && Steady(b, counters, node, nodes)
    requires forall d :: Of(stat.counter, d) == counters(node, stat.email, d)
    ensures Steady(Booked(StatStep(b.s, node, inboundId, stat), Book(b, node, stat)), counters, node, nodes)
  {
    BookAccounts(b, node, nodes, inboundId, stat);
    var s', l' := StatStep(b.s, node, inboundId, stat), Book(b, node, stat);
    forall n, e ensures Balanced(Stored(s'.t, n, e), l', counters, n, e) {
      assert Balanced(Stored(b.s.t, n, e), b.l, counters, n, e);
      if n == node && e == stat.email {
        assert BaseOf(b.s, node, node, e) == Stored(b.s.t, node, e);
        assert Adds(b.s.t, b.l, nodes, e);
        forall d ensures Of(stat.counter, d) == l'.credited(n, e, d) + l'.late(n, e, d) {
          assert Of(Credit(b.s, stat), d) == Pending(Stored(b.s.t, n, e), counters(n, e, d), d);
        }
      } else {
        assert Stored(s'.t, n, e) == Stored(b.s.t, n, e);
        assert forall d :: l'.credited(n, e, d) == b.l.credited(n, e, d) && l'.late(n, e, d) == b.l.late(n, e, d);
      }
    }
    forall e ensures BaseOf(s', node, node, e) == Stored(s'.t, node, e) {
      assert BaseOf(b.s, node, node, e) == Stored(b.s.t, node, e);
    }
  }

  lemma {:induction false} BookStatsSteady(b: Booked, counters: PerNode, node: int, nodes: set<int>, inboundId: int,
                                           stats: seq<Stat>)
    requires node in nodes && Steady(b, counters, node, nodes) && Honest(counters, node, stats)
    ensures Steady(BookStats(b, node, inboundId, stats), counters, node, nodes)
    decreases |stats|
  {
    if stats != [] {
      BookStatsSteady(b, counters, node, nodes, inboundId, stats[..|stats| - 1]);
      BookStatSteady(BookStats(b, node, inboundId, stats[..|stats| - 1]), counters, node, nodes, inboundId,
        stats[|stats| - 1]);
    }
  }

  // Closing no account changes no entry of the ledger.
  lemma CloseNothing(b: Booked, counters: PerNode, node: int, nodes: set<int>)
    requires Steady(b, counters, node, nodes)
    ensures Steady(Booked(b.s, Close(b.l, b.s.t.rows.Keys)), counters, node, nodes)
  {
    CloseAccounts(b.s.t, b.s.t, b.l, nodes);
    var l' := Close(b.l, b.s.t.rows.Keys);
    forall n, e ensures Balanced(Stored(b.s.t, n, e), l', counters, n, e) {
      assert Balanced(Stored(b.s.t, n, e), b.l, counters, n, e);
      assert Adds(b.s.t, b.l, nodes, e);
    }
  }

  // A report that drops nothing only closes the accounts without a row.
  lemma QuietReport(b: Booked, node: int, r: Report)
    requires Gone(StatSteps(b.s, node, r.inboundId, r.stats), r.inboundId, r.stats) == {}
    ensures var b' := BookStats(b, node, r.inboundId, r.stats);
            BookReport(b, node, r) == Booked(b'.s, Close(b'.l, b'.s.t.rows.Keys))
  {
    var b' := BookStats(b, node, r.inboundId, r.stats);
    BookStatsIsStatSteps(b, node, r.inboundId, r.stats);
    assert Remove(b'.s.t, node, r.inboundId, {}) == b'.s.t;
  }

  lemma QuietReportSteady(b: Booked, counters: PerNode, node: int, nodes: set<int>, r: Report)
    requires node in nodes && Steady(b, counters, node, nodes) && Honest(counters, node, r.stats)
    requires Gone(StatSteps(b.s, node, r.inboundId, r.stats), r.inboundId, r.stats) == {}
    ensures Steady(BookReport(b, node, r), counters, node, nodes)
  {
    var b' := BookStats(b, node, r.inboundId, r.stats);
    BookStatsSteady(b, counters, node, nodes, r.inboundId, r.stats);
    CloseNothing(b', counters, node, nodes);
    QuietReport(b, node, r);
  }

  lemma {:induction false} BookReportsSteady(b: Booked, counters: PerNode, node: int, nodes: set<int>,
                                             reports: seq<Report>)
    requires node in nodes && Steady(b, counters, node, nodes)
    requires forall i | 0 <= i < |reports| :: Honest(counters, node, reports[i].stats)
    requires NothingGone(b.s, node, reports)
    ensures Steady(BookReports(b, node, reports), counters, node, nodes)
    decreases |reports|
  {
    if reports != [] {
      var before, r := reports[..|reports| - 1], reports[|reports| - 1];
      BookReportsSteady(b, counters, node, nodes, before);
      BookReportsIsReportSteps(b, node, before);
      QuietReportSteady(BookReports(b, node, before), counters, node, nodes, r);
    }
  }

  lemma SyncConserves(w: World, nodes: set<int>, ev: Event)
    requires ev.NodeSync? && Conserved(w, nodes) && Legal(w, nodes, ev) && Lossless(w, ev)
    ensures Conserved(Apply(w, ev), nodes)
  {
    var b0 := Booked(Load(w.t, ev.n, ev.central), w.l);
    forall e ensures BaseOf(b0.s, ev.n, ev.n, e) == Stored(w.t, ev.n, e) {
      assert Key(ev.n, e) in w.t.baselines ==> e in b0.s.base;
    }
    CloseNothing(b0, w.counters, ev.n, nodes);
    BookReportsSteady(BookStart(w, ev.n, ev.central, ev.orphans), w.counters, ev.n, nodes, ev.reports);
  }

  lemma ApplyConserves(w: World, nodes: set<int>, ev: Event)
    requires Conserved(w, nodes) && Legal(w, nodes, ev) && Lossless(w, ev)
    ensures Conserved(Apply(w, ev), nodes)
  {
    var w' := Apply(w, ev);
    if ev.NodeSync? {
      SyncConserves(w, nodes, ev);
    } else {
      forall n, e ensures Balanced(Stored(w'.t, n, e), w'.l, w'.counters, n, e) {
        assert Balanced(Stored(w.t, n, e), w.l, w.counters, n, e);
      }
      forall e ensures Adds(w'.t, w'.l, nodes, e) {
        assert Adds(w.t, w.l, nodes, e);
        forall d ensures Blank(w.l, e) ==> Total(nodes, w.l.credited, e, d) == 0 {
          TotalZeroIfBlank(nodes, w.l, e, d);
        }
      }
    }
  }

  lemma {:induction false} RunConserves(nodes: set<int>, evs: seq<Event>)
    requires LegalRun(EMPTY, nodes, evs) && LosslessRun(EMPTY, evs)
    ensures Conserved(Run(EMPTY, evs), nodes)
    decreases |evs|
  {
    if evs != [] {
      RunConserves(nodes, evs[..|evs| - 1]);
      ApplyConserves(Run(EMPTY, evs[..|evs| - 1]), nodes, evs[|evs| - 1]);
    } else {
      assert forall e :: Adds(EMPTY.t, EMPTY.l, nodes, e);
    }
  }

  // While no counter falls and nothing is reset or deleted, no byte is lost: in each
  // direction the row plus the first reports of nodes that joined an existing row equals
  // the stored baselines plus the local deltas.
  lemma UsageIsConserved(nodes: set<int>, evs: seq<Event>, e: string, d: Direction)
    requires LegalRun(EMPTY, nodes, evs) && LosslessRun(EMPTY, evs)
    requires e in Run(EMPTY, evs).t.rows
    ensures var w := Run(EMPTY, evs);
            Of(w.t.rows[e].used, d) + Total(nodes, w.l.late, e, d) ==
            Total(nodes, Baselines(w.t), e, d) + w.l.local(e, d)
  {
    RunConserves(nodes, evs);
    var w := Run(EMPTY, evs);
    assert Adds(w.t, w.l, nodes, e);
    forall n ensures Baselines(w.t)(n, e, d) == w.l.credited(n, e, d) + w.l.late(n, e, d) {
      assert Balanced(Stored(w.t, n, e), w.l, w.counters, n, e);
    }
    TotalSplit(nodes, Baselines(w.t), w.l.credited, w.l.late, e, d);
  }
}
