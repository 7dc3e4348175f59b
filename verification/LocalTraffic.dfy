// Traffic of the panel's own Xray: a poll turns absolute counters into deltas, and the
// deltas are added to the usage rows of local inbounds.
//
// Unlike the node sync, the first sight of a counter and a counter that fell both count
// as nothing: the value is only remembered.

module LocalTraffic {

  import opened NodeUsage
  import opened Sets

  // What a statistic's name says, already taken apart.
  datatype StatName =
    | TagStat(isInbound: bool, tag: string, d: Direction)
    | UserStat(email: string, d: Direction)
    | OtherStat(name: string)

  datatype Sample = Sample(name: StatName, value: nat)

  datatype TagTraffic = TagTraffic(isInbound: bool, used: Counter)

  datatype Poll = Poll(last: map<StatName, nat>, tags: map<string, TagTraffic>, clients: map<string, Counter>)

  function Set(c: Counter, d: Direction, value: nat): Counter {
    if d == Upload then Counter(value, c.down) else Counter(c.up, value)
  }

  function PollStep(p: Poll, s: Sample): Poll {
    var last := p.last[s.name := s.value];
    if s.name !in p.last || s.value < p.last[s.name] then p.(last := last)
    else
      var value := s.value - p.last[s.name];
      match s.name
      case TagStat(isInbound, tag, d) =>
        if tag == "api" then p.(last := last)
        else
          var t := if tag in p.tags then p.tags[tag] else TagTraffic(isInbound, ZERO);
          p.(last := last, tags := p.tags[tag := t.(used := Set(t.used, d, value))])
      case UserStat(e, d) =>
        p.(last := last, clients := p.clients[e := Set(if e in p.clients then p.clients[e] else ZERO, d, value)])
      case OtherStat(_) => p.(last := last)
  }

  function PollSteps(p: Poll, samples: seq<Sample>): Poll
    decreases |samples|
  {
    if samples == [] then p
    else PollStep(PollSteps(p, samples[..|samples| - 1]), samples[|samples| - 1])
  }

  function Add(row: Row, c: Counter, now: int): Row {
    row.(used := Plus(row.used, c), lastOnline := if c.up + c.down > 0 then now else row.lastOnline)
  }

  // Only rows of inbounds that no node manages take local deltas.
  function Credited(rows: map<string, Row>, remote: set<int>, clients: map<string, Counter>,
                    now: int): map<string, Row> {
    map e | e in rows ::
      if e in clients && rows[e].inboundId !in remote then Add(rows[e], clients[e], now) else rows[e]
  }

  // ------------------------------------------------------------------
  // One poll
  // ------------------------------------------------------------------

  predicate DistinctNames(samples: seq<Sample>) {
    forall i, j | 0 <= i < j < |samples| :: samples[i].name != samples[j].name
  }

  function Response(samples: seq<Sample>): map<StatName, nat>
    decreases |samples|
  {
    if samples == [] then map[]
    else
      var s := samples[|samples| - 1];
      Response(samples[..|samples| - 1])[s.name := s.value]
  }

  // The growth a poll observes for one statistic.
  function Observed(last: map<StatName, nat>, response: map<StatName, nat>, name: StatName): nat {
    if name in last && name in response && last[name] <= response[name] then response[name] - last[name] else 0
  }

  function Shown(clients: map<string, Counter>, e: string, d: Direction): nat {
    if e in clients then Of(clients[e], d) else 0
  }

  lemma {:induction false} ResponseNames(samples: seq<Sample>, name: StatName)
    ensures name in Response(samples) <==> exists i :: 0 <= i < |samples| && samples[i].name == name
    decreases |samples|
  {
    if samples != [] {
      ResponseNames(samples[..|samples| - 1], name);
      assert samples == samples[..|samples| - 1] + [samples[|samples| - 1]];
    }
  }

  lemma PollStepShows(p: Poll, s: Sample, e: string, d: Direction)
    ensures Shown(PollStep(p, s).clients, e, d) ==
            if s.name == UserStat(e, d) && s.name in p.last && p.last[s.name] <= s.value
            then s.value - p.last[s.name] else Shown(p.clients, e, d)
  {
  }

  lemma PollStepRemembers(p: Poll, s: Sample)
    ensures PollStep(p, s).last == p.last[s.name := s.value]
  {
  }

  lemma {:induction false} PollRemembers(last: map<StatName, nat>, samples: seq<Sample>)
    ensures PollSteps(Poll(last, map[], map[]), samples).last == last + Response(samples)
    decreases |samples|
  {
    if samples != [] {
      var front, s := samples[..|samples| - 1], samples[|samples| - 1];
      PollRemembers(last, front);
      PollStepRemembers(PollSteps(Poll(last, map[], map[]), front), s);
      assert (last + Response(front))[s.name := s.value] == last + Response(samples);
    }
  }

  // One poll reports, for each e-mail and direction, exactly the observed growth.
  lemma {:induction false} PollIsObserved(last: map<StatName, nat>, samples: seq<Sample>, e: string, d: Direction)
    requires DistinctNames(samples)
    ensures Shown(PollSteps(Poll(last, map[], map[]), samples).clients, e, d) ==
            Observed(last, Response(samples), UserStat(e, d))
    decreases |samples|
  {
    if samples != [] {
      var front, s := samples[..|samples| - 1], samples[|samples| - 1];
      PollIsObserved(last, front, e, d);
      PollRemembers(last, front);
      ResponseNames(front, s.name);
      PollStepShows(PollSteps(Poll(last, map[], map[]), front), s, e, d);
    }
  }

  function ShownTag(tags: map<string, TagTraffic>, tag: string, d: Direction): nat {
    if tag in tags then Of(tags[tag].used, d) else 0
  }

  // No statistic of the other kind has the tag: the traffic map is keyed by the tag alone.
  predicate OfOneKind(n: StatName, isInbound: bool, tag: string) {
    n.TagStat? && n.tag == tag ==> n.isInbound == isInbound
  }

  predicate OneKind(samples: seq<Sample>, isInbound: bool, tag: string) {
    forall i | 0 <= i < |samples| :: OfOneKind(samples[i].name, isInbound, tag)
  }

  lemma TagStepShows(p: Poll, s: Sample, isInbound: bool, tag: string, d: Direction)
    requires tag != "api" && OfOneKind(s.name, isInbound, tag)
    ensures ShownTag(PollStep(p, s).tags, tag, d) ==
            if s.name == TagStat(isInbound, tag, d) && s.name in p.last && p.last[s.name] <= s.value
            then s.value - p.last[s.name] else ShownTag(p.tags, tag, d)
    ensures tag in PollStep(p, s).tags && tag !in p.tags ==> PollStep(p, s).tags[tag].isInbound == isInbound
    ensures tag in p.tags ==> tag in PollStep(p, s).tags && PollStep(p, s).tags[tag].isInbound == p.tags[tag].isInbound
  {
  }

  // One poll reports, for each tag of one kind, the kind and exactly the observed growth;
  // the panel's own tag is left out.
  lemma {:induction false} TagIsObserved(last: map<StatName, nat>, samples: seq<Sample>, isInbound: bool, tag: string,
                                         d: Direction)
    requires DistinctNames(samples) && OneKind(samples, isInbound, tag)
    ensures var tags := PollSteps(Poll(last, map[], map[]), samples).tags;
            && ShownTag(tags, tag, d) ==
                 (if tag == "api" then 0 else Observed(last, Response(samples), TagStat(isInbound, tag, d)))
            && (tag in tags ==> tags[tag].isInbound == isInbound && tag != "api")
    decreases |samples|
  {
    if samples != [] {
      var front, s := samples[..|samples| - 1], samples[|samples| - 1];
      TagIsObserved(last, front, isInbound, tag, d);
      PollRemembers(last, front);
      ResponseNames(front, s.name);
      if tag != "api" {
        TagStepShows(PollSteps(Poll(last, map[], map[]), front), s, isInbound, tag, d);
      }
    }
  }

  // A row of a local inbound grows by the bytes shown for it and was online now if there
  // are any; nothing else of it changes, and rows of remote inbounds stay.
  lemma CreditedExactly(rows: map<string, Row>, remote: set<int>, clients: map<string, Counter>, now: int, e: string)
    requires e in rows
    ensures var after, was := Credited(rows, remote, clients, now), rows[e];
            var up, down := Shown(clients, e, Upload), Shown(clients, e, Download);
            && after.Keys == rows.Keys
            && (was.inboundId in remote ==> after[e] == was)
            && (was.inboundId !in remote ==>
                  after[e] == was.(used := Counter(was.used.up + up, was.used.down + down),
                                   lastOnline := if up + down > 0 then now else was.lastOnline))
  {
  }

  // ------------------------------------------------------------------
  // The loops
  // ------------------------------------------------------------------

  class XrayApi {
    var statsLastValues: map<StatName, nat>

    method GetTraffic(samples: seq<Sample>) returns (tags: map<string, TagTraffic>, clients: map<string, Counter>)
      modifies this
      ensures Poll(statsLastValues, tags, clients) == PollSteps(Poll(old(statsLastValues), map[], map[]), samples)
      ensures statsLastValues == old(statsLastValues) + Response(samples)
      ensures DistinctNames(samples) ==> forall e, d ::
                Shown(clients, e, d) == Observed(old(statsLastValues), Response(samples), UserStat(e, d))
    {
      tags, clients := map[], map[];
      for i := 0 to |samples|
        invariant Poll(statsLastValues, tags, clients) ==
          PollSteps(Poll(old(statsLastValues), map[], map[]), samples[..i])
      {
        assert samples[..i + 1][..i] == samples[..i];
        var stat := samples[i];
        var seen := stat.name in statsLastValues;
        var lastValue := if seen then statsLastValues[stat.name] else 0;
        statsLastValues := statsLastValues[stat.name := stat.value];
        if !seen || stat.value < lastValue {
          continue;
        }
        var value := stat.value - lastValue;
        match stat.name {
          case TagStat(isInbound, tag, d) =>
            if tag != "api" {
              var t := if tag in tags then tags[tag] else TagTraffic(isInbound, ZERO);
              tags := tags[tag := TagTraffic(t.isInbound, Set(t.used, d, value))];
            }
          case UserStat(e, d) =>
            var c := if e in clients then clients[e] else ZERO;
            clients := clients[e := Set(c, d, value)];
          case OtherStat(_) =>
        }
      }
      assert samples[..|samples|] == samples;
      PollRemembers(old(statsLastValues), samples);
      if DistinctNames(samples) {
        forall e, d ensures Shown(clients, e, d) == Observed(old(statsLastValues), Response(samples), UserStat(e, d)) {
          PollIsObserved(old(statsLastValues), samples, e, d);
        }
      }
    }
  }

  class UsageTable {
    var rows: map<string, Row>

    method AddClientTraffic(clients: map<string, Counter>, remote: set<int>, now: int)
      modifies this
      ensures rows == Credited(old(rows), remote, clients, now)
    {
      var found := set e | e in rows && e in clients && rows[e].inboundId !in remote;
      var todo := found;
      while todo != {}
        invariant todo <= found
        invariant rows.Keys == old(rows.Keys)
        invariant forall e | e in rows ::
                    rows[e] == if e in found && e !in todo then Add(old(rows)[e], clients[e], now) else old(rows)[e]
        decreases todo
      {
        HasElement(todo);
        var e :| e in todo;
        var row, t := rows[e], clients[e];
        row := row.(used := Counter(row.used.up + t.up, row.used.down + t.down));
        if t.up + t.down > 0 {
          row := row.(lastOnline := now);
        }
        rows := rows[e := row];
        todo := todo - {e};
      }
    }
  }

  // ------------------------------------------------------------------
  // Runs
  // ------------------------------------------------------------------

  type Bytes = StatName -> nat

  ghost const NOTHING: Bytes := n => 0

  // counters: what Xray holds now; moved: bytes really moved; mark and first: moved when a
  // poll last, and first, saw the statistic.
  datatype World = World(last: map<StatName, nat>, rows: map<string, Row>, counters: map<StatName, nat>,
                         moved: Bytes, mark: Bytes, first: Bytes)

  datatype Event =
    | Move(name: StatName, k: nat)
    | Restart
    | PollNow(samples: seq<Sample>, now: int, saved: bool)

  function Get(m: map<StatName, nat>, n: StatName): nat {
    if n in m then m[n] else 0
  }

  function Bumped(f: nat, k: nat, hit: bool): nat {
    if hit then f + k else f
  }

  function Marked(was: nat, moved: nat, seen: bool): nat {
    if seen then moved else was
  }

  // Xray answers with every counter it holds, each once, in any order.
  predicate Legal(w: World, ev: Event) {
    ev.PollNow? ==> DistinctNames(ev.samples) && Response(ev.samples) == w.counters
  }

  ghost function Apply(w: World, remote: set<int>, ev: Event): World {
    match ev
    case Move(name, k) =>
      w.(counters := w.counters[name := Get(w.counters, name) + k], moved := n => Bumped(w.moved(n), k, n == name))
    case Restart => w.(counters := map[])
    case PollNow(samples, now, saved) =>
      var p := PollSteps(Poll(w.last, map[], map[]), samples);
      w.(last := p.last,
         rows := if saved then Credited(w.rows, remote, p.clients, now) else w.rows,
         mark := n => Marked(w.mark(n), w.moved(n), n in w.counters),
         first := n => Marked(w.first(n), w.moved(n), n in w.counters && n !in w.last))
  }

  ghost function Start(rows: map<string, Row>): World {
    World(map[], rows, map[], NOTHING, NOTHING, NOTHING)
  }

  ghost function Run(rows: map<string, Row>, remote: set<int>, evs: seq<Event>): World
    decreases |evs|
  {
    if evs == [] then Start(rows) else Apply(Run(rows, remote, evs[..|evs| - 1]), remote, evs[|evs| - 1])
  }

  ghost predicate LegalRun(rows: map<string, Row>, remote: set<int>, evs: seq<Event>)
    decreases |evs|
  {
    evs == [] ||
    (LegalRun(rows, remote, evs[..|evs| - 1]) && Legal(Run(rows, remote, evs[..|evs| - 1]), evs[|evs| - 1]))
  }

  // The non-negative counter steps that the saved polls of a run observed.
  ghost function ObservedSteps(rows: map<string, Row>, remote: set<int>, evs: seq<Event>, n: StatName): nat
    decreases |evs|
  {
    if evs == [] then 0
    else
      var w, ev := Run(rows, remote, evs[..|evs| - 1]), evs[|evs| - 1];
      ObservedSteps(rows, remote, evs[..|evs| - 1], n) +
      (if ev.PollNow? && ev.saved then Observed(w.last, w.counters, n) else 0)
  }

  // Over any number of polls and restarts a local row grows by exactly the observed
  // steps; rows of node inbounds never change.
  lemma {:induction false} RowGrowsByObservedSteps(rows: map<string, Row>, remote: set<int>, evs: seq<Event>,
                                                   e: string, d: Direction)
    requires LegalRun(rows, remote, evs) && e in rows
    ensures var w := Run(rows, remote, evs);
            e in w.rows && w.rows[e].inboundId == rows[e].inboundId &&
            (rows[e].inboundId in remote ==> w.rows[e] == rows[e]) &&
            (rows[e].inboundId !in remote ==>
              Of(w.rows[e].used, d) == Of(rows[e].used, d) + ObservedSteps(rows, remote, evs, UserStat(e, d)))
    decreases |evs|
  {
    if evs != [] {
      var w, ev := Run(rows, remote, evs[..|evs| - 1]), evs[|evs| - 1];
      RowGrowsByObservedSteps(rows, remote, evs[..|evs| - 1], e, d);
      if ev.PollNow? {
        PollIsObserved(w.last, ev.samples, e, d);
      }
    }
  }

  // The value a counter shows above its last polled value was moved since that poll.
  ghost predicate Traced(w: World, n: StatName) {
    && w.first(n) <= w.mark(n) <= w.moved(n)
    && (n in w.counters && n in w.last ==> w.counters[n] - w.last[n] <= w.moved(n) - w.mark(n))
    && (n !in w.last ==> w.first(n) == w.mark(n) == 0)
  }

  lemma {:induction false} StepsAreMoved(rows: map<string, Row>, remote: set<int>, evs: seq<Event>, n: StatName)
    requires LegalRun(rows, remote, evs)
    ensures var w := Run(rows, remote, evs);
            Traced(w, n) && ObservedSteps(rows, remote, evs, n) <= w.mark(n) - w.first(n)
    decreases |evs|
  {
    if evs != [] {
      var w, ev := Run(rows, remote, evs[..|evs| - 1]), evs[|evs| - 1];
      StepsAreMoved(rows, remote, evs[..|evs| - 1], n);
      if ev.PollNow? {
        PollRemembers(w.last, ev.samples);
      }
    }
  }

  // Restarts and lost writes can only make a row miss bytes: it never grows by more than
  // what was moved between the first and the last poll that saw the client.
  lemma LocalRowNeverOverCounts(rows: map<string, Row>, remote: set<int>, evs: seq<Event>, e: string, d: Direction)
    requires LegalRun(rows, remote, evs) && e in rows
    ensures var w := Run(rows, remote, evs);
            var n := UserStat(e, d);
            e in w.rows && Of(rows[e].used, d) <= Of(w.rows[e].used, d) &&
            Of(w.rows[e].used, d) - Of(rows[e].used, d) <= w.mark(n) - w.first(n) <= w.moved(n)
  {
    RowGrowsByObservedSteps(rows, remote, evs, e, d);
    StepsAreMoved(rows, remote, evs, UserStat(e, d));
  }

  // No restart, and every poll's rows were saved.
  predicate Smooth(evs: seq<Event>) {
    forall i | 0 <= i < |evs| :: !evs[i].Restart? && (evs[i].PollNow? ==> evs[i].saved)
  }

  lemma {:induction false} SmoothSteps(rows: map<string, Row>, remote: set<int>, evs: seq<Event>, n: StatName)
    requires LegalRun(rows, remote, evs) && Smooth(evs)
    ensures var w := Run(rows, remote, evs);
            Get(w.counters, n) == w.moved(n) &&
            (n in w.last ==> n in w.counters && w.last[n] == w.mark(n) <= w.moved(n)) &&
            w.first(n) <= w.mark(n) && ObservedSteps(rows, remote, evs, n) == w.mark(n) - w.first(n) &&
            (n !in w.last ==> w.first(n) == w.mark(n) == 0)
    decreases |evs|
  {
    if evs != [] {
      var w, ev := Run(rows, remote, evs[..|evs| - 1]), evs[|evs| - 1];
      SmoothSteps(rows, remote, evs[..|evs| - 1], n);
      if ev.PollNow? {
        PollRemembers(w.last, ev.samples);
      }
    }
  }

  // When the counter never falls, a local row grows by the last polled value minus the
  // first polled value, to the byte.
  lemma SmoothRunCountsLastMinusFirst(rows: map<string, Row>, remote: set<int>, evs: seq<Event>, e: string,
                                      d: Direction)
    requires LegalRun(rows, remote, evs) && Smooth(evs) && e in rows && rows[e].inboundId !in remote
    ensures var w := Run(rows, remote, evs);
            var n := UserStat(e, d);
            e in w.rows &&
            Of(w.rows[e].used, d) == Of(rows[e].used, d) + (if n in w.last then w.last[n] - w.first(n) else 0)
  {
    RowGrowsByObservedSteps(rows, remote, evs, e, d);
    SmoothSteps(rows, remote, evs, UserStat(e, d));
  }
}
