// The traffic tick after the counters have been added: due clients are renewed, then
// depleted ones are disabled in their usage row, their client row and the settings of
// every inbound they are attached to.

module Tick {

  import opened ClientIndex
  import DelayedStart
  import opened LocalTraffic
  import opened NodeUsage
  import opened Sets
  import opened Settings
  import opened Text

  datatype Inbound = Inbound(local: bool, clients: seq<Client>)

  // A user handed to the running core because its row was disabled.
  datatype Queued = Queued(inbound: int, client: Client)

  const DAY: int := 86400000

  // ------------------------------------------------------------------
  // Renewal of one row
  // ------------------------------------------------------------------

  function Advance(expiry: int, period: int, now: int): int
    requires period > 0
    decreases now - expiry
  {
    if expiry < now then Advance(expiry + period, period, now) else expiry
  }

  method NextExpiry(expiry: int, reset: int, now: int) returns (next: int)
    requires reset > 0
    ensures next == Advance(expiry, reset * DAY, now)
  {
    next := expiry;
    while next < now
      invariant Advance(next, reset * DAY, now) == Advance(expiry, reset * DAY, now)
      decreases now - next
    {
      next := next + reset * DAY;
    }
  }

  // The new expiry is the first date of the schedule that is not in the past, so it is less
  // than one period ahead.
  lemma {:induction false} AdvanceIsLeast(expiry: int, period: int, now: int) returns (k: nat)
    requires period > 0
    ensures Advance(expiry, period, now) == expiry + k * period >= now
    ensures forall j: nat | j < k :: expiry + j * period < now
    ensures expiry <= now ==> Advance(expiry, period, now) < now + period
    decreases now - expiry
  {
    if expiry < now {
      var i := AdvanceIsLeast(expiry + period, period, now);
      k := i + 1;
      assert (i + 1) * period == i * period + period;
      forall j: nat | j < k ensures expiry + j * period < now {
        if j > 0 {
          assert (j - 1) * period + period == j * period;
          assert expiry + period + (j - 1) * period < now;
        }
      }
    } else {
      k := 0;
    }
  }

  lemma AdvanceStops(expiry: int, period: int, now: int)
    requires period > 0
    ensures Advance(expiry, period, now) >= now
    ensures Advance(Advance(expiry, period, now), period, now) == Advance(expiry, period, now)
  {
    var k := AdvanceIsLeast(expiry, period, now);
  }

  function Renewed(r: Row, now: int): Row
    requires r.quota.reset > 0
  {
    var date := Advance(r.quota.expiryTime, r.quota.reset * DAY, now);
    r.(used := ZERO, quota := r.quota.(expiryTime := date, enable := true))
  }

  // ------------------------------------------------------------------
  // Renewal of all due rows
  // ------------------------------------------------------------------

  // Rows of inbounds on other nodes are renewed there.
  predicate Due(r: Row, inbounds: map<int, Inbound>, now: int) {
    r.quota.reset > 0 && r.quota.expiryTime > 0 && r.quota.expiryTime <= now &&
      (r.inboundId in inbounds ==> inbounds[r.inboundId].local)
  }

  function DueEmails(rows: map<string, Row>, inbounds: map<int, Inbound>, now: int): set<string> {
    set e | e in rows && Due(rows[e], inbounds, now)
  }

  datatype Pass = Pass(rows: map<string, Row>, queue: seq<Queued>)

  predicate Ready(p: Pass, due: set<string>) {
    forall e | e in due :: e in p.rows && p.rows[e].quota.reset > 0
  }

  function RenewEntry(p: Pass, due: set<string>, now: int, c: Client): Client
    requires Ready(p, due)
  {
    if c.email !in due then c
    else
      var r := p.rows[c.email];
      c.(expiryTime := Advance(r.quota.expiryTime, r.quota.reset * DAY, now), enable := c.enable || !r.quota.enable)
  }

  // One settings entry: its row and the entry get the new expiry; the first entry met of a
  // disabled row is enabled and queued.
  function RenewRow(p: Pass, due: set<string>, now: int, ib: int, c: Client): (q: Pass)
    requires Ready(p, due)
    ensures Ready(q, due)
  {
    if c.email !in due then p
    else
      var r := p.rows[c.email];
      Pass(p.rows[c.email := Renewed(r, now)],
           if r.quota.enable then p.queue else p.queue + [Queued(ib, RenewEntry(p, due, now, c))])
  }

  function RenewRows(p: Pass, due: set<string>, now: int, ib: int, cs: seq<Client>): (q: Pass)
    requires Ready(p, due)
    ensures Ready(q, due)
    decreases |cs|
  {
    if cs == [] then p else RenewRow(RenewRows(p, due, now, ib, cs[..|cs| - 1]), due, now, ib, cs[|cs| - 1])
  }

  function RenewEntries(p: Pass, due: set<string>, now: int, ib: int, cs: seq<Client>): (r: seq<Client>)
    requires Ready(p, due)
    ensures |r| == |cs|
    decreases |cs|
  {
    if cs == [] then []
    else
      var front := cs[..|cs| - 1];
      RenewEntries(p, due, now, ib, front) + [RenewEntry(RenewRows(p, due, now, ib, front), due, now, cs[|cs| - 1])]
  }

  // The rows after the inbounds in order have been gone through.
  function RenewAll(p: Pass, due: set<string>, now: int, inbounds: map<int, Inbound>, order: seq<int>): (q: Pass)
    requires Ready(p, due) && forall k | 0 <= k < |order| :: order[k] in inbounds
    ensures Ready(q, due)
    decreases |order|
  {
    if order == [] then p
    else
      var ib := order[|order| - 1];
      RenewRows(RenewAll(p, due, now, inbounds, order[..|order| - 1]), due, now, ib, inbounds[ib].clients)
  }

  // ------------------------------------------------------------------
  // What the renewal leaves
  // ------------------------------------------------------------------

  predicate Has(cs: seq<Client>, e: string) {
    exists i | 0 <= i < |cs| :: cs[i].email == e
  }

  function Times(queue: seq<Queued>, e: string): nat {
    if queue == [] then 0 else Times(queue[..|queue| - 1], e) + (if queue[|queue| - 1].client.email == e then 1 else 0)
  }

  // Where e stands: untouched, or renewed from its first row and queued once if disabled.
  predicate Status(start: map<string, Row>, p: Pass, due: set<string>, now: int, e: string, seen: bool) {
    if e in due && seen
    then e in start && start[e].quota.reset > 0 && e in p.rows && p.rows[e] == Renewed(start[e], now) &&
         Times(p.queue, e) == (if start[e].quota.enable then 0 else 1)
    else (e in p.rows <==> e in start) && (e in start ==> p.rows[e] == start[e]) && Times(p.queue, e) == 0
  }

  lemma RowStatus(start: map<string, Row>, p: Pass, due: set<string>, now: int, ib: int, c: Client, e: string,
                  seen: bool)
    requires Ready(p, due) && Status(start, p, due, now, e, seen)
    ensures Status(start, RenewRow(p, due, now, ib, c), due, now, e, seen || c.email == e)
  {
    var q := RenewRow(p, due, now, ib, c);
    if c.email in due {
      var added := Queued(ib, RenewEntry(p, due, now, c));
      assert (p.queue + [added])[..|p.queue|] == p.queue;
      assert added.client.email == c.email;
      if c.email == e && seen {
        AdvanceStops(start[e].quota.expiryTime, start[e].quota.reset * DAY, now);
      }
    }
  }

  lemma HasExtends(front: seq<Client>, c: Client, e: string)
    ensures Has(front + [c], e) <==> Has(front, e) || c.email == e
  {
    var cs := front + [c];
    if Has(front, e) {
      var i :| 0 <= i < |front| && front[i].email == e;
      assert cs[i].email == e;
    }
    assert cs[|front|] == c;
  }

  lemma {:induction false} RowsStatus(start: map<string, Row>, p: Pass, due: set<string>, now: int, ib: int,
                                      cs: seq<Client>,
                                      e: string, seen: bool)
    requires Ready(p, due) && Status(start, p, due, now, e, seen)
    ensures Status(start, RenewRows(p, due, now, ib, cs), due, now, e, seen || Has(cs, e))
    decreases |cs|
  {
    if cs != [] {
      var front, c := cs[..|cs| - 1], cs[|cs| - 1];
      RowsStatus(start, p, due, now, ib, front, e, seen);
      RowStatus(start, RenewRows(p, due, now, ib, front), due, now, ib, c, e, seen || Has(front, e));
      HasExtends(front, c, e);
      assert front + [c] == cs;
    }
  }

  // An entry of the e-mail in one of the inbounds gone through.
  predicate Met(inbounds: map<int, Inbound>, order: seq<int>, e: string) {
    exists k | 0 <= k < |order| && order[k] in inbounds :: Has(inbounds[order[k]].clients, e)
  }

  lemma MetExtends(inbounds: map<int, Inbound>, front: seq<int>, ib: int, e: string)
    requires ib in inbounds
    ensures Met(inbounds, front + [ib], e) <==> Met(inbounds, front, e) || Has(inbounds[ib].clients, e)
  {
    var order := front + [ib];
    if Met(inbounds, front, e) {
      var k :| 0 <= k < |front| && front[k] in inbounds && Has(inbounds[front[k]].clients, e);
      assert order[k] == front[k];
    }
    assert order[|front|] == ib;
  }

  lemma {:induction false} AllStatus(start: map<string, Row>, due: set<string>, now: int, inbounds: map<int, Inbound>,
                                     order: seq<int>, e: string)
    requires Ready(Pass(start, []), due) && forall k | 0 <= k < |order| :: order[k] in inbounds
    ensures Status(start, RenewAll(Pass(start, []), due, now, inbounds, order), due, now, e, Met(inbounds, order, e))
    decreases |order|
  {
    if order != [] {
      var front, ib := order[..|order| - 1], order[|order| - 1];
      AllStatus(start, due, now, inbounds, front, e);
      RowsStatus(start, RenewAll(Pass(start, []), due, now, inbounds, front), due, now, ib, inbounds[ib].clients, e,
        Met(inbounds, front, e));
      MetExtends(inbounds, front, ib, e);
      assert front + [ib] == order;
    }
  }

  // Rows outside the due ones, and due rows without an entry, stay as they are; a due row
  // with an entry has no usage, is enabled, has its next date, and is queued once if it was
  // disabled and never otherwise.
  lemma RowsAfterRenewal(rows: map<string, Row>, inbounds: map<int, Inbound>, now: int, order: seq<int>, e: string)
    requires forall k | 0 <= k < |order| :: order[k] in inbounds
    ensures var due := DueEmails(rows, inbounds, now);
            var p := RenewAll(Pass(rows, []), due, now, inbounds, order);
            if e in due && Met(inbounds, order, e)
            then e in p.rows && p.rows[e].quota.enable && p.rows[e].used == ZERO &&
                 p.rows[e].quota.expiryTime == Advance(rows[e].quota.expiryTime, rows[e].quota.reset * DAY, now) &&
                 p.rows[e].quota.total == rows[e].quota.total && p.rows[e].quota.reset == rows[e].quota.reset &&
                 Times(p.queue, e) == (if rows[e].quota.enable then 0 else 1)
            else (e in p.rows <==> e in rows) && (e in rows ==> p.rows[e] == rows[e]) && Times(p.queue, e) == 0
  {
    AllStatus(rows, DueEmails(rows, inbounds, now), now, inbounds, order, e);
  }

  // Which rows that are, from the row and its inbound: those that renew, have a date that is
  // over, and are not a node's. They come out with a date that is not before now.
  lemma RenewedExactly(rows: map<string, Row>, inbounds: map<int, Inbound>, now: int, order: seq<int>, e: string)
    requires e in rows && forall k | 0 <= k < |order| :: order[k] in inbounds
    ensures var due, r := DueEmails(rows, inbounds, now), rows[e];
            var after := RenewAll(Pass(rows, []), due, now, inbounds, order).rows;
            e in after &&
            if r.quota.reset > 0 && 0 < r.quota.expiryTime <= now &&
               (r.inboundId in inbounds ==> inbounds[r.inboundId].local) && Met(inbounds, order, e)
            then && after[e].quota.expiryTime >= now && after[e].used == ZERO
                 && after[e].quota == r.quota.(expiryTime := after[e].quota.expiryTime, enable := true)
                 && after[e].inboundId == r.inboundId && after[e].lastOnline == r.lastOnline
            else after[e] == r
  {
    AllStatus(rows, DueEmails(rows, inbounds, now), now, inbounds, order, e);
    if rows[e].quota.reset > 0 {
      AdvanceStops(rows[e].quota.expiryTime, rows[e].quota.reset * DAY, now);
    }
  }

  // The queued client is an entry of its inbound whose row was disabled, enabled and with
  // the next date.
  ghost predicate IsRevival(start: map<string, Row>, inbounds: map<int, Inbound>, now: int, q: Queued) {
    var e := q.client.email;
    && e in start && start[e].quota.reset > 0 && !start[e].quota.enable && q.inbound in inbounds
    && exists i :: 0 <= i < |inbounds[q.inbound].clients| &&
                   q.client == inbounds[q.inbound].clients[i].(
                     expiryTime := Advance(start[e].quota.expiryTime, start[e].quota.reset * DAY, now), enable := true)
  }

  ghost predicate AllRevivals(start: map<string, Row>, inbounds: map<int, Inbound>, now: int, queue: seq<Queued>) {
    forall k | 0 <= k < |queue| :: IsRevival(start, inbounds, now, queue[k])
  }

  lemma RevivalQueued(start: map<string, Row>, p: Pass, due: set<string>, now: int, inbounds: map<int, Inbound>,
                      ib: int, i: nat, seen: bool)
    requires Ready(p, due) && ib in inbounds && i < |inbounds[ib].clients|
    requires Status(start, p, due, now, inbounds[ib].clients[i].email, seen)
    requires AllRevivals(start, inbounds, now, p.queue)
    ensures AllRevivals(start, inbounds, now, RenewRow(p, due, now, ib, inbounds[ib].clients[i]).queue)
  {
    var c := inbounds[ib].clients[i];
    if c.email in due && !p.rows[c.email].quota.enable {
      var q := Queued(ib, RenewEntry(p, due, now, c));
      var quota := start[c.email].quota;
      assert q.client == inbounds[ib].clients[i].(
          expiryTime := Advance(quota.expiryTime, quota.reset * DAY, now), enable := true);
      assert IsRevival(start, inbounds, now, q);
    }
  }

  lemma {:induction false} RowsRevive(start: map<string, Row>, p: Pass, due: set<string>, now: int,
                                      inbounds: map<int, Inbound>, before: seq<int>, ib: int, n: nat)
    requires Ready(p, due) && ib in inbounds && n <= |inbounds[ib].clients|
    requires AllRevivals(start, inbounds, now, p.queue)
    requires forall e :: Status(start, p, due, now, e, Met(inbounds, before, e))
    ensures AllRevivals(start, inbounds, now, RenewRows(p, due, now, ib, inbounds[ib].clients[..n]).queue)
  {
    if n > 0 {
      var front, c := inbounds[ib].clients[..n - 1], inbounds[ib].clients[n - 1];
      RowsRevive(start, p, due, now, inbounds, before, ib, n - 1);
      RowsStatus(start, p, due, now, ib, front, c.email, Met(inbounds, before, c.email));
      RevivalQueued(start, RenewRows(p, due, now, ib, front), due, now, inbounds, ib, n - 1,
        Met(inbounds, before, c.email) || Has(front, c.email));
      assert inbounds[ib].clients[..n][..n - 1] == front;
    }
  }

  lemma {:induction false} QueueIsRevived(start: map<string, Row>, due: set<string>, now: int,
                                          inbounds: map<int, Inbound>, order: seq<int>)
    requires Ready(Pass(start, []), due) && forall k | 0 <= k < |order| :: order[k] in inbounds
    ensures AllRevivals(start, inbounds, now, RenewAll(Pass(start, []), due, now, inbounds, order).queue)
    decreases |order|
  {
    if order != [] {
      var front, ib := order[..|order| - 1], order[|order| - 1];
      var p := RenewAll(Pass(start, []), due, now, inbounds, front);
      QueueIsRevived(start, due, now, inbounds, front);
      forall e ensures Status(start, p, due, now, e, Met(inbounds, front, e)) {
        AllStatus(start, due, now, inbounds, front, e);
      }
      RowsRevive(start, p, due, now, inbounds, front, ib, |inbounds[ib].clients|);
      assert inbounds[ib].clients[..|inbounds[ib].clients|] == inbounds[ib].clients;
    }
  }

  // What becomes of entry c: first tells whether it is the first one met of its e-mail.
  function EntryAfter(start: map<string, Row>, due: set<string>, now: int, c: Client, first: bool): Client
    requires Ready(Pass(start, []), due)
  {
    if c.email !in due then c
    else c.(expiryTime := Renewed(start[c.email], now).quota.expiryTime,
            enable := c.enable || (first && !start[c.email].quota.enable))
  }

  lemma {:induction false} EntryResult(start: map<string, Row>, p: Pass, due: set<string>, now: int, ib: int,
                                       cs: seq<Client>,
                                       i: nat, seen: bool)
    requires Ready(p, due) && Ready(Pass(start, []), due) && i < |cs|
    requires Status(start, p, due, now, cs[i].email, seen)
    ensures RenewEntries(p, due, now, ib, cs)[i] ==
      EntryAfter(start, due, now, cs[i], !seen && !Has(cs[..i], cs[i].email))
    decreases |cs|
  {
    var front := cs[..|cs| - 1];
    if i < |front| {
      EntryResult(start, p, due, now, ib, front, i, seen);
      assert front[..i] == cs[..i] && front[i] == cs[i];
    } else {
      assert cs[..i] == front;
      var e := cs[i].email;
      RowsStatus(start, p, due, now, ib, front, e, seen);
      if e in due {
        AdvanceStops(start[e].quota.expiryTime, start[e].quota.reset * DAY, now);
      }
    }
  }

  function RenewSettings(p: Pass, due: set<string>, now: int, inbounds: map<int, Inbound>,
                         order: seq<int>): (r: map<int, Inbound>)
    requires Ready(p, due) && forall k | 0 <= k < |order| :: order[k] in inbounds
    ensures r.Keys == inbounds.Keys
    decreases |order|
  {
    if order == [] then inbounds
    else
      var front, ib := order[..|order| - 1], order[|order| - 1];
      var before := RenewAll(p, due, now, inbounds, front);
      var cs := RenewEntries(before, due, now, ib, inbounds[ib].clients);
      RenewSettings(p, due, now, inbounds, front)[ib := inbounds[ib].(clients := cs)]
  }

  predicate Distinct(order: seq<int>) {
    forall j, k | 0 <= j < k < |order| :: order[j] != order[k]
  }

  lemma {:induction false} SettingsAt(p: Pass, due: set<string>, now: int, inbounds: map<int, Inbound>,
                                      order: seq<int>, k: nat)
    requires Ready(p, due) && (forall j | 0 <= j < |order| :: order[j] in inbounds) && Distinct(order) && k < |order|
    ensures var ib := order[k];
            var before := RenewAll(p, due, now, inbounds, order[..k]);
            RenewSettings(p, due, now, inbounds, order)[ib] ==
              inbounds[ib].(clients := RenewEntries(before, due, now, ib, inbounds[ib].clients))
    decreases |order|
  {
    var front := order[..|order| - 1];
    if k < |front| {
      SettingsAt(p, due, now, inbounds, front, k);
      assert front[..k] == order[..k];
    } else {
      assert order[..k] == front;
    }
  }

  lemma {:induction false} SettingsElsewhere(p: Pass, due: set<string>, now: int, inbounds: map<int, Inbound>,
                                             order: seq<int>, ib: int)
    requires Ready(p, due) && (forall j | 0 <= j < |order| :: order[j] in inbounds) && ib !in order && ib in inbounds
    ensures RenewSettings(p, due, now, inbounds, order)[ib] == inbounds[ib]
    decreases |order|
  {
    if order != [] {
      SettingsElsewhere(p, due, now, inbounds, order[..|order| - 1], ib);
    }
  }

  // Entry i of the k-th inbound is the first one met of its e-mail.
  predicate IsFirst(inbounds: map<int, Inbound>, order: seq<int>, k: nat, i: nat)
    requires k < |order| && order[k] in inbounds && i < |inbounds[order[k]].clients|
  {
    var cs := inbounds[order[k]].clients;
    !Met(inbounds, order[..k], cs[i].email) && !Has(cs[..i], cs[i].email)
  }

  // Every entry of a due e-mail in the inbounds gone through gets the row's new date; only
  // the first one met is enabled along with a disabled row.
  lemma EntriesAfterRenewal(rows: map<string, Row>, inbounds: map<int, Inbound>, now: int, order: seq<int>, k: nat,
                            i: nat)
    requires (forall j | 0 <= j < |order| :: order[j] in inbounds) && Distinct(order)
    requires k < |order| && i < |inbounds[order[k]].clients|
    ensures var due := DueEmails(rows, inbounds, now);
            var after := RenewSettings(Pass(rows, []), due, now, inbounds, order)[order[k]];
            after.local == inbounds[order[k]].local && |after.clients| == |inbounds[order[k]].clients| &&
            after.clients[i] == EntryAfter(rows, due, now, inbounds[order[k]].clients[i],
              IsFirst(inbounds, order, k, i))
  {
    var due, cs := DueEmails(rows, inbounds, now), inbounds[order[k]].clients;
    SettingsAt(Pass(rows, []), due, now, inbounds, order, k);
    AllStatus(rows, due, now, inbounds, order[..k], cs[i].email);
    EntryResult(rows, RenewAll(Pass(rows, []), due, now, inbounds, order[..k]), due, now, order[k], cs, i,
      Met(inbounds, order[..k], cs[i].email));
  }

  // An entry of a renewed row gets the date its row gets; everything else of it stays but
  // the flag, which can only turn on. Entries of other e-mails stay.
  lemma RenewedCopiesAgree(rows: map<string, Row>, inbounds: map<int, Inbound>, now: int, order: seq<int>, k: nat,
                           i: nat)
    requires (forall j | 0 <= j < |order| :: order[j] in inbounds) && Distinct(order)
    requires k < |order| && i < |inbounds[order[k]].clients|
    ensures var due := DueEmails(rows, inbounds, now);
            var c := inbounds[order[k]].clients[i];
            var settings := RenewSettings(Pass(rows, []), due, now, inbounds, order)[order[k]].clients;
            var after := RenewAll(Pass(rows, []), due, now, inbounds, order).rows;
            && i < |settings|
            && (c.email !in due ==> settings[i] == c)
            && (c.email in due ==>
                  && c.email in after
                  && settings[i] == c.(expiryTime := after[c.email].quota.expiryTime, enable := settings[i].enable)
                  && (c.enable ==> settings[i].enable))
  {
    var c := inbounds[order[k]].clients[i];
    EntriesAfterRenewal(rows, inbounds, now, order, k, i);
    RowsAfterRenewal(rows, inbounds, now, order, c.email);
    assert Has(inbounds[order[k]].clients, c.email);
    assert Met(inbounds, order, c.email);
  }

  // Every entry of the e-mail, in every inbound, is enabled.
  predicate EnabledEverywhere(inbounds: map<int, Inbound>, e: string) {
    forall ib, i | ib in inbounds && 0 <= i < |inbounds[ib].clients| && inbounds[ib].clients[i].email == e ::
      inbounds[ib].clients[i].enable
  }

  // Entry i of inbound ib is the one the renewal enables along with a disabled row.
  predicate Revived(inbounds: map<int, Inbound>, order: seq<int>, ib: int, i: nat)
    requires ib in inbounds && i < |inbounds[ib].clients|
  {
    exists k: nat | k < |order| && order[k] == ib && order[k] in inbounds :: IsFirst(inbounds, order, k, i)
  }

  // Enabled already, or revived.
  predicate SoundCopies(inbounds: map<int, Inbound>, order: seq<int>, e: string) {
    forall ib, i: nat | ib in inbounds && i < |inbounds[ib].clients| && inbounds[ib].clients[i].email == e ::
      inbounds[ib].clients[i].enable || Revived(inbounds, order, ib, i)
  }

  lemma EntryEnabledIff(rows: map<string, Row>, inbounds: map<int, Inbound>, now: int, order: seq<int>, e: string,
                        ib: int, i: nat)
    requires (forall j | 0 <= j < |order| :: order[j] in inbounds) && Distinct(order)
    requires e in DueEmails(rows, inbounds, now) && !rows[e].quota.enable
    requires ib in inbounds && i < |inbounds[ib].clients| && inbounds[ib].clients[i].email == e
    ensures var after := RenewSettings(Pass(rows, []), DueEmails(rows, inbounds, now), now, inbounds, order);
            |after[ib].clients| == |inbounds[ib].clients| && after[ib].clients[i].email == e &&
            (after[ib].clients[i].enable <==> inbounds[ib].clients[i].enable || Revived(inbounds, order, ib, i))
  {
    if ib in order {
      var k: nat :| k < |order| && order[k] == ib;
      EntriesAfterRenewal(rows, inbounds, now, order, k, i);
    } else {
      SettingsElsewhere(Pass(rows, []), DueEmails(rows, inbounds, now), now, inbounds, order, ib);
    }
  }

  lemma SameLengths(rows: map<string, Row>, inbounds: map<int, Inbound>, now: int, order: seq<int>, ib: int)
    requires (forall j | 0 <= j < |order| :: order[j] in inbounds) && Distinct(order) && ib in inbounds
    ensures var after := RenewSettings(Pass(rows, []), DueEmails(rows, inbounds, now), now, inbounds, order);
            |after[ib].clients| == |inbounds[ib].clients| &&
            forall i | 0 <= i < |inbounds[ib].clients| :: after[ib].clients[i].email == inbounds[ib].clients[i].email
  {
    if ib in order {
      var k: nat :| k < |order| && order[k] == ib;
      SettingsAt(Pass(rows, []), DueEmails(rows, inbounds, now), now, inbounds, order, k);
      forall i | 0 <= i < |inbounds[ib].clients|
        ensures var after := RenewSettings(Pass(rows, []), DueEmails(rows, inbounds, now), now, inbounds, order);
                after[ib].clients[i].email == inbounds[ib].clients[i].email
      {
        EntriesAfterRenewal(rows, inbounds, now, order, k, i);
      }
    } else {
      SettingsElsewhere(Pass(rows, []), DueEmails(rows, inbounds, now), now, inbounds, order, ib);
    }
  }

  // A renewed row is enabled, but its entries are not all enabled with it: they are exactly
  // when every entry other than the revived one was enabled already.
  lemma RenewalReachesAllCopiesIff(rows: map<string, Row>, inbounds: map<int, Inbound>, now: int, order: seq<int>,
                                   e: string)
    requires (forall j | 0 <= j < |order| :: order[j] in inbounds) && Distinct(order)
    requires e in DueEmails(rows, inbounds, now) && !rows[e].quota.enable
    ensures EnabledEverywhere(RenewSettings(Pass(rows, []), DueEmails(rows, inbounds, now), now, inbounds, order), e)
            <==> SoundCopies(inbounds, order, e)
  {
    var after := RenewSettings(Pass(rows, []), DueEmails(rows, inbounds, now), now, inbounds, order);
    forall ib | ib in inbounds
      ensures |after[ib].clients| == |inbounds[ib].clients| &&
              forall i | 0 <= i < |inbounds[ib].clients| :: after[ib].clients[i].email == inbounds[ib].clients[i].email
    {
      SameLengths(rows, inbounds, now, order, ib);
    }
    forall ib, i: nat | ib in inbounds && i < |inbounds[ib].clients| && inbounds[ib].clients[i].email == e
      ensures after[ib].clients[i].enable <==> inbounds[ib].clients[i].enable || Revived(inbounds, order, ib, i)
    {
      EntryEnabledIff(rows, inbounds, now, order, e, ib, i);
    }
  }

  // ------------------------------------------------------------------
  // Disabling depleted clients
  // ------------------------------------------------------------------

  // The multiplier a client is charged with: settings of one or less, and exempt clients,
  // mean one.
  function Factor(setting: int, exempt: bool): (m: int)
    ensures m >= 1
  {
    if setting <= 1 || exempt then 1 else setting
  }

  function Ceil(total: nat, m: nat): nat
    requires m > 0
  {
    (total + m - 1) / m
  }

  lemma TimesGrows(a: nat, b: nat, m: nat)
    requires a <= b
    ensures a * m <= b * m
  {
    assert b * m == a * m + (b - a) * m;
  }

  // The comparison avoids a division: used times the multiplier reaches the total exactly
  // when used reaches the total divided by the multiplier, rounded up.
  lemma QuotaByDivision(used: nat, m: nat, total: nat)
    requires m > 0
    ensures used * m >= total <==> used >= Ceil(total, m)
  {
    var q := Ceil(total, m);
    assert total + m - 1 == q * m + (total + m - 1) % m;
    if used >= q {
      TimesGrows(q, used, m);
    } else {
      TimesGrows(used + 1, q, m);
      assert (used + 1) * m == used * m + m;
    }
  }

  predicate Spent(r: Row, factor: int, now: int) {
    (r.quota.expiryTime > 0 && r.quota.expiryTime <= now) ||
      (r.quota.total > 0 && (r.used.up + r.used.down) * factor >= r.quota.total)
  }

  // Without a row in the client table a client is not exempt.
  predicate Exempt(x: Index, e: string) {
    e in x.records && x.records[e].exempt
  }

  function Depleted(rows: map<string, Row>, x: Index, setting: int, now: int): set<string> {
    set e | e in rows && rows[e].quota.enable && Spent(rows[e], Factor(setting, Exempt(x, e)), now)
  }

  // Expired, or over its total: an exempt client, or any client under a setting of at most
  // one, may use all of it, and every other client the total divided by the setting,
  // rounded up.
  predicate IsOver(r: Row, setting: int, exempt: bool, now: int) {
    || (r.quota.expiryTime > 0 && r.quota.expiryTime <= now)
    || (r.quota.total > 0 && (exempt || setting <= 1) && r.used.up + r.used.down >= r.quota.total)
    || (r.quota.total > 0 && !exempt && setting > 1 &&
        r.used.up + r.used.down >= (r.quota.total + setting - 1) / setting)
  }

  // The disable pass picks exactly the enabled rows that are over. Only the row of the
  // client table under the same e-mail exempts.
  lemma DepletedExactly(rows: map<string, Row>, x: Index, setting: int, now: int, e: string)
    ensures e in Depleted(rows, x, setting, now) <==>
              && e in rows && rows[e].quota.enable
              && IsOver(rows[e], setting, e in x.records && x.records[e].exempt, now)
  {
    if e in rows && rows[e].quota.total > 0 {
      QuotaByDivision(rows[e].used.up + rows[e].used.down, Factor(setting, Exempt(x, e)), rows[e].quota.total);
    }
  }

  // With a multiplier of one the query that leaves exemptions out selects the same rows.
  lemma PlainQueryAgrees(rows: map<string, Row>, x: Index, setting: int, now: int)
    requires setting <= 1
    ensures Depleted(rows, x, setting, now) ==
            set e | e in rows && rows[e].quota.enable &&
              ((rows[e].quota.total > 0 && rows[e].used.up + rows[e].used.down >= rows[e].quota.total) ||
                                                    (rows[e].quota.expiryTime > 0 && rows[e].quota.expiryTime <= now))
  {
  }

  // The depleted e-mails attached to an inbound through the link table.
  function Targets(x: Index, depleted: set<string>, ib: int): set<string> {
    set e | e in depleted && e != "" && e in x.records && Link(x.records[e].id, ib) in x.links
  }

  function Mark(emails: set<string>, c: Client): Client {
    if c.email in emails then c.(enable := false) else c
  }

  function MarkAll(emails: set<string>, cs: seq<Client>): (r: seq<Client>)
    ensures |r| == |cs| && forall i | 0 <= i < |r| :: r[i] == Mark(emails, cs[i])
  {
    seq(|cs|, i requires 0 <= i < |cs| => Mark(emails, cs[i]))
  }

  function DisableRows(rows: map<string, Row>, depleted: set<string>): map<string, Row> {
    map e | e in rows :: if e in depleted then rows[e].(quota := rows[e].quota.(enable := false)) else rows[e]
  }

  function DisableRecords(x: Index, depleted: set<string>): Index {
    x.(records := map e | e in x.records :: if e in depleted && e != "" then x.records[e].(enable := false)
      else x.records[e])
  }

  function DisableSettings(inbounds: map<int, Inbound>, x: Index, depleted: set<string>): map<int, Inbound> {
    map ib | ib in inbounds :: inbounds[ib].(clients := MarkAll(Targets(x, depleted, ib), inbounds[ib].clients))
  }

  // After the disable pass no enabled row is over.
  lemma NoSpentRowStaysEnabled(rows: map<string, Row>, x: Index, setting: int, now: int, e: string)
    ensures var after := DisableRows(rows, Depleted(rows, x, setting, now));
            e in after && after[e].quota.enable ==>
              !IsOver(after[e], setting, e in x.records && x.records[e].exempt, now)
  {
    DepletedExactly(rows, x, setting, now, e);
  }

  // A disabled e-mail is disabled in its row, in its client row, and in every entry of
  // every inbound it is attached to; the entry of no other client is disabled.
  lemma DisabledInAllCopies(rows: map<string, Row>, x: Index, inbounds: map<int, Inbound>, setting: int, now: int,
                            e: string, ib: int, i: nat)
    requires ib in inbounds && i < |inbounds[ib].clients| && inbounds[ib].clients[i].email == e
    ensures var depleted := Depleted(rows, x, setting, now);
            var attached := e != "" && e in x.records && Link(x.records[e].id, ib) in x.links;
            var entry := DisableSettings(inbounds, x, depleted)[ib].clients[i];
            && (e in depleted ==> e in rows && !DisableRows(rows, depleted)[e].quota.enable)
            && (e in depleted && e != "" && e in x.records ==> !DisableRecords(x, depleted).records[e].enable)
            && (e in depleted && attached ==> !entry.enable)
            && (!(e in depleted && attached) ==> entry == inbounds[ib].clients[i])
  {
  }

  // The three copies of "enabled" agree that the e-mail is off: its row, its client row, and
  // every entry of every inbound the link table attaches it to.
  ghost predicate OffEverywhere(rows: map<string, Row>, x: Index, inbounds: map<int, Inbound>, e: string) {
    && e in rows && !rows[e].quota.enable
    && (e != "" && e in x.records ==>
          !x.records[e].enable &&
          forall ib, i | ib in inbounds && Link(x.records[e].id, ib) in x.links && 0 <= i < |inbounds[ib].clients| &&
                         inbounds[ib].clients[i].email == e :: !inbounds[ib].clients[i].enable)
  }

  lemma DepletedIsOffEverywhere(rows: map<string, Row>, x: Index, inbounds: map<int, Inbound>, depleted: set<string>,
                                e: string)
    requires e in depleted && e in rows
    ensures OffEverywhere(DisableRows(rows, depleted), DisableRecords(x, depleted),
      DisableSettings(inbounds, x, depleted), e)
  {
    var after := DisableSettings(inbounds, x, depleted);
    if e != "" && e in x.records {
      forall ib, i | ib in after && Link(x.records[e].id, ib) in x.links && 0 <= i < |after[ib].clients| &&
        after[ib].clients[i].email == e
        ensures !after[ib].clients[i].enable
      {
        assert after[ib].clients[i] == Mark(Targets(x, depleted, ib), inbounds[ib].clients[i]);
        assert e in Targets(x, depleted, ib);
      }
    }
  }

  // A row renewed in this tick is turned off again by the same tick's disable pass exactly
  // when its new date is not after that pass's clock: its usage is zero by then.
  lemma RenewedThenDisabledIff(rows: map<string, Row>, inbounds: map<int, Inbound>, now: int, order: seq<int>,
                               x: Index, setting: int, later: int, e: string)
    requires forall k | 0 <= k < |order| :: order[k] in inbounds
    requires e in DueEmails(rows, inbounds, now) && Met(inbounds, order, e)
    ensures var p := RenewAll(Pass(rows, []), DueEmails(rows, inbounds, now), now, inbounds, order);
            e in p.rows && (e in Depleted(p.rows, x, setting, later) <==>
              Advance(rows[e].quota.expiryTime, rows[e].quota.reset * DAY, now) <= later)
  {
    RowsAfterRenewal(rows, inbounds, now, order, e);
    AdvanceStops(rows[e].quota.expiryTime, rows[e].quota.reset * DAY, now);
    assert 0 * Factor(setting, Exempt(x, e)) == 0;
  }

  // ------------------------------------------------------------------
  // Renewing, then disabling
  // ------------------------------------------------------------------

  // The inbounds fetched for the renewal: those of the due rows, each once, in any order.
  ghost predicate Fetched(rows: map<string, Row>, inbounds: map<int, Inbound>, now: int, order: seq<int>) {
    && Distinct(order)
    && (forall k | 0 <= k < |order| :: order[k] in inbounds)
    && (forall ib :: ib in order <==>
          ib in inbounds && exists e :: e in DueEmails(rows, inbounds, now) && rows[e].inboundId == ib)
  }

  // Client rows and links follow the saved settings; a refused entry is only logged.
  function SyncEach(x: Index, inbounds: map<int, Inbound>, order: seq<int>): Index
    decreases |order|
  {
    if order == [] then x
    else
      var before, ib := SyncEach(x, inbounds, order[..|order| - 1]), order[|order| - 1];
      if ib in inbounds then SyncAll(before, ib, inbounds[ib].clients).index else before
  }

  // The entry is linked to the row of its e-mail, with its flow.
  predicate LinkedAt(x: Index, ib: int, c: Client) {
    var e := Trim(c.email);
    e in x.records && Link(x.records[e].id, ib) in x.links && x.links[Link(x.records[e].id, ib)] == c.flow
  }

  lemma LinkStays(x: Index, ib: int, jb: int, cs: seq<Client>, c: Client)
    requires Valid(x) && ib != jb && LinkedAt(x, ib, c)
    ensures LinkedAt(SyncAll(x, jb, cs).index, ib, c)
  {
    SyncKeeps(x, jb, cs);
  }

  lemma {:induction false} SyncEachIsValid(x: Index, inbounds: map<int, Inbound>, order: seq<int>)
    requires Valid(x)
    ensures Valid(SyncEach(x, inbounds, order))
    decreases |order|
  {
    if order != [] {
      var front, ib := order[..|order| - 1], order[|order| - 1];
      SyncEachIsValid(x, inbounds, front);
      if ib in inbounds {
        SyncKeeps(SyncEach(x, inbounds, front), ib, inbounds[ib].clients);
      }
    }
  }

  // After the fetched inbounds have been synchronized one after the other, every entry of
  // one whose turn succeeded is linked with its flow, whatever the later turns did.
  lemma {:induction false} SyncEachLinks(x: Index, inbounds: map<int, Inbound>, order: seq<int>, k: nat, i: nat)
    requires Valid(x) && Distinct(order) && k < |order| && order[k] in inbounds && i < |inbounds[order[k]].clients|
    requires Trim(inbounds[order[k]].clients[i].email) != ""
    requires var y, cs := SyncEach(x, inbounds, order[..k]), inbounds[order[k]].clients;
             AllSettled(y, cs) && SyncAll(y, order[k], cs).Done?
    ensures LinkedAt(SyncEach(x, inbounds, order), order[k], inbounds[order[k]].clients[i])
    decreases |order|
  {
    var front, ib := order[..|order| - 1], order[|order| - 1];
    SyncEachIsValid(x, inbounds, front);
    if k < |front| {
      assert front[..k] == order[..k];
      SyncEachLinks(x, inbounds, front, k, i);
      if ib in inbounds {
        LinkStays(SyncEach(x, inbounds, front), order[k], ib, inbounds[ib].clients, inbounds[order[k]].clients[i]);
      }
    } else {
      assert order[..k] == front;
      RepeatedIsTaken(SyncEach(x, inbounds, front), ib, inbounds[ib].clients, i);
    }
  }

  lemma RenewOneMore(p: Pass, due: set<string>, now: int, inbounds: map<int, Inbound>, order: seq<int>, k: nat)
    requires Ready(p, due) && k < |order| && Distinct(order) && forall j | 0 <= j < |order| :: order[j] in inbounds
    ensures RenewSettings(p, due, now, inbounds, order[..k])[order[k]] == inbounds[order[k]]
    ensures var before, ib := RenewAll(p, due, now, inbounds, order[..k]), order[k];
            RenewAll(p, due, now, inbounds, order[..k + 1]) == RenewRows(before, due, now, ib, inbounds[ib].clients) &&
            RenewSettings(p, due, now, inbounds, order[..k + 1]) ==
              RenewSettings(p, due, now, inbounds, order[..k])[ib := inbounds[ib].(
                clients := RenewEntries(before, due, now, ib, inbounds[ib].clients))]
  {
    assert order[..k + 1][..k] == order[..k];
    SettingsElsewhere(p, due, now, inbounds, order[..k], order[k]);
  }

  // Neither expired nor over the quota, a multiplied quota being divided by the factor.
  predicate NoneOver(rows: map<string, Row>, x: Index, setting: int, now: int) {
    forall e | e in rows && rows[e].quota.enable ::
      !IsOver(rows[e], setting, e in x.records && x.records[e].exempt, now)
  }

  // A renewed row has no usage and its next date, and is on unless that date has passed by
  // the time of the disable pass.
  predicate IsRenewed(before: Row, after: Row, now: int, later: int)
    requires before.quota.reset > 0
  {
    && after.used == ZERO
    && after.quota.expiryTime == Advance(before.quota.expiryTime, before.quota.reset * DAY, now)
    && after.quota.enable == (after.quota.expiryTime > later)
  }

  // What renewing and disabling make of the rows.
  ghost predicate Ticked(rows0: map<string, Row>, inbounds: map<int, Inbound>, order: seq<int>, now: int, later: int,
                         x: Index, setting: int, depleted: set<string>, rows: map<string, Row>) {
    && rows.Keys == rows0.Keys
    && NoneOver(rows, x, setting, later)
    && (forall e | e in rows0 && rows0[e].quota.enable && e !in depleted :: rows[e].quota.enable)
    && (forall e | e in depleted ::
          e in rows && !rows[e].quota.enable &&
          IsOver(rows[e], setting, e in x.records && x.records[e].exempt, later))
    && (forall e | e in DueEmails(rows0, inbounds, now) && Met(inbounds, order, e) ::
       IsRenewed(rows0[e], rows[e], now, later))
    && (forall e | e in rows0 && !(e in DueEmails(rows0, inbounds, now) && Met(inbounds, order, e)) ::
          rows[e].used == rows0[e].used && rows[e].quota.expiryTime == rows0[e].quota.expiryTime)
  }

  // Disabling client rows exempts nobody and keeps every exemption.
  lemma TickedAfterDisable(rows0: map<string, Row>, inbounds: map<int, Inbound>, order: seq<int>, now: int, later: int,
                           x: Index, setting: int, depleted: set<string>, rows: map<string, Row>)
    requires Ticked(rows0, inbounds, order, now, later, x, setting, depleted, rows)
    ensures Ticked(rows0, inbounds, order, now, later, DisableRecords(x, depleted), setting, depleted, rows)
  {
    var y := DisableRecords(x, depleted);
    assert forall e :: (e in y.records && y.records[e].exempt) == (e in x.records && x.records[e].exempt);
  }

  lemma TickIsSound(rows0: map<string, Row>, inbounds: map<int, Inbound>, rows1: map<string, Row>,
                    now: int, later: int, setting: int, order: seq<int>, x: Index)
    requires forall k | 0 <= k < |order| :: order[k] in inbounds
    requires rows1 == RenewAll(Pass(rows0, []), DueEmails(rows0, inbounds, now), now, inbounds, order).rows
    ensures var depleted := Depleted(rows1, x, setting, later);
            Ticked(rows0, inbounds, order, now, later, x, setting, depleted, DisableRows(rows1, depleted))
  {
    var depleted := Depleted(rows1, x, setting, later);
    var rows := DisableRows(rows1, depleted);
    forall e
      ensures e in rows <==> e in rows0
      ensures e in rows0 && rows0[e].quota.enable && e !in depleted ==> rows[e].quota.enable
      ensures e in rows0 && !(e in DueEmails(rows0, inbounds, now) && Met(inbounds, order, e)) ==>
                rows[e].used == rows0[e].used && rows[e].quota.expiryTime == rows0[e].quota.expiryTime
    {
      RowsAfterRenewal(rows0, inbounds, now, order, e);
    }
    forall e | e in rows && rows[e].quota.enable
      ensures !IsOver(rows[e], setting, e in x.records && x.records[e].exempt, later)
    {
      NoSpentRowStaysEnabled(rows1, x, setting, later, e);
    }
    forall e | e in depleted
      ensures e in rows && !rows[e].quota.enable &&
              IsOver(rows[e], setting, e in x.records && x.records[e].exempt, later)
    {
      DepletedExactly(rows1, x, setting, later, e);
    }
    forall e | e in DueEmails(rows0, inbounds, now) && Met(inbounds, order, e)
      ensures IsRenewed(rows0[e], rows[e], now, later)
    {
      RowsAfterRenewal(rows0, inbounds, now, order, e);
      RenewedThenDisabledIff(rows0, inbounds, now, order, x, setting, later, e);
    }
  }

  // ------------------------------------------------------------------
  // Adding the counters
  // ------------------------------------------------------------------

  function Remote(inbounds: map<int, Inbound>): set<int> {
    set ib | ib in inbounds && !inbounds[ib].local
  }

  // The rows the poll has bytes for and the panel itself counts, with their expiry.
  function BatchDates(rows: map<string, Row>, inbounds: map<int, Inbound>,
                      clients: map<string, Counter>): map<string, int> {
    map e | e in rows && e in clients && rows[e].inboundId !in Remote(inbounds) :: rows[e].quota.expiryTime
  }

  // The inbounds fetched for clients that have not started: those of their rows, each once.
  ghost predicate FetchedToStart(rows: map<string, Row>, inbounds: map<int, Inbound>, clients: map<string, Counter>,
                                 order: seq<int>) {
    var dates := BatchDates(rows, inbounds, clients);
    && Distinct(order)
    && (forall k | 0 <= k < |order| :: order[k] in inbounds)
    && (forall ib :: ib in order <==>
          ib in inbounds && exists e :: e in dates && dates[e] < 0 && rows[e].inboundId == ib)
  }

  // The dates after the entries of the inbounds in order have been gone through.
  function StartDates(dates: map<string, int>, now: int, inbounds: map<int, Inbound>,
                      order: seq<int>): (r: map<string, int>)
    requires forall k | 0 <= k < |order| :: order[k] in inbounds
    ensures r.Keys == dates.Keys
    decreases |order|
  {
    if order == [] then dates
    else
      var front, ib := order[..|order| - 1], order[|order| - 1];
      DelayedStart.Adjusted(StartDates(dates, now, inbounds, front), now, inbounds[ib].clients).rows
  }

  function StartSettings(dates: map<string, int>, now: int, inbounds: map<int, Inbound>,
                         order: seq<int>): (r: map<int, Inbound>)
    requires forall k | 0 <= k < |order| :: order[k] in inbounds
    ensures r.Keys == inbounds.Keys && forall ib | ib in inbounds :: r[ib].local == inbounds[ib].local
    ensures forall ib | ib in inbounds && ib !in order :: r[ib] == inbounds[ib]
    decreases |order|
  {
    if order == [] then inbounds
    else
      var front, ib := order[..|order| - 1], order[|order| - 1];
      assert forall k | 0 <= k < |front| :: front[k] in order;
      var p := DelayedStart.Adjusted(StartDates(dates, now, inbounds, front), now, inbounds[ib].clients);
      StartSettings(dates, now, inbounds, front)[ib := inbounds[ib].(clients := p.entries)]
  }

  lemma NotBefore(order: seq<int>, k: nat)
    requires k < |order| && Distinct(order)
    ensures order[k] !in order[..k]
  {
  }

  lemma StartOneMore(dates: map<string, int>, now: int, inbounds: map<int, Inbound>, order: seq<int>, k: nat)
    requires k < |order| && Distinct(order) && forall j | 0 <= j < |order| :: order[j] in inbounds
    ensures StartSettings(dates, now, inbounds, order[..k])[order[k]] == inbounds[order[k]]
    ensures var before := StartDates(dates, now, inbounds, order[..k]);
            var p := DelayedStart.Adjusted(before, now, inbounds[order[k]].clients);
            StartDates(dates, now, inbounds, order[..k + 1]) == p.rows &&
            StartSettings(dates, now, inbounds, order[..k + 1]) ==
              StartSettings(dates, now, inbounds, order[..k])[order[k] := inbounds[order[k]].(clients := p.entries)]
  {
    var longer := order[..k + 1];
    assert longer[..|longer| - 1] == order[..k] && longer[|longer| - 1] == order[k];
    NotBefore(order, k);
  }

  function WithDates(rows: map<string, Row>, dates: map<string, int>): map<string, Row> {
    map e | e in rows :: if e in dates then rows[e].(quota := rows[e].quota.(expiryTime := dates[e])) else rows[e]
  }

  // The rows after the poll's bytes have been added.
  function Counted(rows: map<string, Row>, inbounds: map<int, Inbound>, clients: map<string, Counter>, order: seq<int>,
                   now: int): map<string, Row>
    requires forall k | 0 <= k < |order| :: order[k] in inbounds
  {
    var dates := StartDates(BatchDates(rows, inbounds, clients), now, inbounds, order);
    Credited(WithDates(rows, dates), Remote(inbounds), clients, now)
  }

  // Every row keeps its usage plus the bytes shown for it, if the panel counts it.
  lemma CountedAddsShown(rows: map<string, Row>, inbounds: map<int, Inbound>, clients: map<string, Counter>,
                         order: seq<int>, now: int)
    requires forall k | 0 <= k < |order| :: order[k] in inbounds
    ensures var after := Counted(rows, inbounds, clients, order, now);
            after.Keys == rows.Keys &&
            forall e | e in rows ::
              after[e].inboundId == rows[e].inboundId && after[e].quota.enable == rows[e].quota.enable &&
              after[e].used == (if e in clients && rows[e].inboundId !in Remote(inbounds)
                                then Plus(rows[e].used, clients[e]) else rows[e].used)
  {
  }

  // The first inbound fetched, in order, with an entry that can start the client.
  predicate FirstInbound(inbounds: map<int, Inbound>, order: seq<int>, now: int, e: string, k: int) {
    && 0 <= k < |order| && order[k] in inbounds && DelayedStart.Startable(inbounds[order[k]].clients, now, e)
    && forall j | 0 <= j < k && order[j] in inbounds :: !DelayedStart.Startable(inbounds[order[j]].clients, now, e)
  }

  // The date of the first entry that can start it.
  ghost predicate FirstDate(cs: seq<Client>, now: int, e: string, date: int) {
    exists i: nat | i < |cs| :: DelayedStart.FirstToStart(cs, now, e, i) && date == now - cs[i].expiryTime
  }

  lemma FirstOfThose(cs: seq<Client>, now: int, e: string, i: nat) returns (k: nat)
    requires i < |cs| && DelayedStart.CanStart(cs, now, e, i)
    ensures k < |cs| && DelayedStart.FirstToStart(cs, now, e, k)
  {
    k := 0;
    while !DelayedStart.CanStart(cs, now, e, k)
      invariant k <= i && forall j: nat | j < k :: !DelayedStart.CanStart(cs, now, e, j)
      decreases i - k
    {
      k := k + 1;
    }
  }

  lemma PassDates(dates: map<string, int>, now: int, cs: seq<Client>, e: string)
    requires e in dates && dates[e] < 0
    ensures var date := DelayedStart.Adjusted(dates, now, cs).rows[e];
            if DelayedStart.Startable(cs, now, e) then date >= 0 && FirstDate(cs, now, e, date) else date < 0
  {
    DelayedStart.RowStartsIff(dates, now, cs, e);
    if i: nat :| i < |cs| && DelayedStart.CanStart(cs, now, e, i) {
      var k := FirstOfThose(cs, now, e, i);
      assert DelayedStart.FirstToStart(cs, now, e, k);
    }
  }

  lemma {:induction false} NoneStartable(inbounds: map<int, Inbound>, order: seq<int>, now: int, e: string)
    requires forall k | 0 <= k < |order| :: order[k] in inbounds
    requires forall k :: !FirstInbound(inbounds, order, now, e, k)
    ensures forall k | 0 <= k < |order| :: !DelayedStart.Startable(inbounds[order[k]].clients, now, e)
    decreases |order|
  {
    if order != [] {
      var front := order[..|order| - 1];
      assert forall k | 0 <= k < |front| :: front[k] == order[k];
      forall k ensures !FirstInbound(inbounds, front, now, e, k) {
        assert FirstInbound(inbounds, front, now, e, k) ==> FirstInbound(inbounds, order, now, e, k);
      }
      NoneStartable(inbounds, front, now, e);
      assert !FirstInbound(inbounds, order, now, e, |order| - 1);
    }
  }

  lemma FirstInboundMore(inbounds: map<int, Inbound>, front: seq<int>, ib: int, now: int, e: string)
    requires ib in inbounds && forall k | 0 <= k < |front| :: front[k] in inbounds
    ensures forall k | 0 <= k < |front| ::
              FirstInbound(inbounds, front + [ib], now, e, k) <==> FirstInbound(inbounds, front, now, e, k)
    ensures FirstInbound(inbounds, front + [ib], now, e, |front|) <==>
              DelayedStart.Startable(inbounds[ib].clients, now, e) &&
              forall k :: !FirstInbound(inbounds, front, now, e, k)
  {
    var order := front + [ib];
    assert order[|front|] == ib && forall k | 0 <= k < |front| :: order[k] == front[k];
    if forall k :: !FirstInbound(inbounds, front, now, e, k) {
      NoneStartable(inbounds, front, now, e);
    }
  }

  // A waiting e-mail of the batch starts exactly when a fetched inbound has an entry that can
  // start it, with the date of the first such entry of the first such inbound.
  lemma {:induction false} StartDatesExact(dates: map<string, int>, now: int, inbounds: map<int, Inbound>,
                                           order: seq<int>, e: string)
    requires e in dates && forall k | 0 <= k < |order| :: order[k] in inbounds
    ensures var date := StartDates(dates, now, inbounds, order)[e];
            && (dates[e] >= 0 ==> date == dates[e])
            && (dates[e] < 0 ==> (date >= 0 <==> exists k :: FirstInbound(inbounds, order, now, e, k)))
            && (dates[e] < 0 ==> forall k | FirstInbound(inbounds, order, now, e, k) ::
                  FirstDate(inbounds[order[k]].clients, now, e, date))
    decreases |order|
  {
    if order != [] {
      var front, ib := order[..|order| - 1], order[|order| - 1];
      StartDatesExact(dates, now, inbounds, front, e);
      var before := StartDates(dates, now, inbounds, front);
      FirstInboundMore(inbounds, front, ib, now, e);
      assert order == front + [ib];
      if before[e] >= 0 {
        DelayedStart.StartedStays(before, now, inbounds[ib].clients, e);
      } else {
        PassDates(before, now, inbounds[ib].clients, e);
      }
    }
  }

  // The date reaches the row; every other row keeps its date.
  lemma CountedDates(rows: map<string, Row>, inbounds: map<int, Inbound>, clients: map<string, Counter>,
                     order: seq<int>, now: int, e: string)
    requires e in rows && forall k | 0 <= k < |order| :: order[k] in inbounds
    ensures var date := Counted(rows, inbounds, clients, order, now)[e].quota.expiryTime;
            if e in clients && (rows[e].inboundId in inbounds ==> inbounds[rows[e].inboundId].local) &&
               rows[e].quota.expiryTime < 0
            then && (date >= 0 <==> exists k :: FirstInbound(inbounds, order, now, e, k))
                 && forall k | FirstInbound(inbounds, order, now, e, k) ::
                      FirstDate(inbounds[order[k]].clients, now, e, date)
            else date == rows[e].quota.expiryTime
  {
    var dates := BatchDates(rows, inbounds, clients);
    if e in dates {
      StartDatesExact(dates, now, inbounds, order, e);
    }
  }

  // ------------------------------------------------------------------
  // The tick in place
  // ------------------------------------------------------------------

  class Store {
    var rows: map<string, Row>
    var inbounds: map<int, Inbound>
    const tables: ClientIndex.Tables

    constructor (rows: map<string, Row>, inbounds: map<int, Inbound>, tables: ClientIndex.Tables)
      ensures this.rows == rows && this.inbounds == inbounds && this.tables == tables
    {
      this.rows, this.inbounds, this.tables := rows, inbounds, tables;
    }

    // Goes through the entries of one inbound.
    method RenewInbound(ib: int, due: set<string>, now: int, queue: seq<Queued>) returns (q: seq<Queued>)
      requires ib in inbounds && Ready(Pass(rows, queue), due)
      modifies this
      ensures Pass(rows, q) == RenewRows(Pass(old(rows), queue), due, now, ib, old(inbounds)[ib].clients)
      ensures inbounds == old(inbounds)[ib := old(inbounds)[ib].(
                clients := RenewEntries(Pass(old(rows), queue), due, now, ib, old(inbounds)[ib].clients))]
    {
      ghost var start := Pass(rows, queue);
      var cs := inbounds[ib].clients;
      var out: seq<Client> := [];
      q := queue;
      for i := 0 to |cs|
        invariant inbounds == old(inbounds)
        invariant Pass(rows, q) == RenewRows(start, due, now, ib, cs[..i])
        invariant out == RenewEntries(start, due, now, ib, cs[..i])
      {
        assert cs[..i + 1][..i] == cs[..i];
        var c := cs[i];
        if c.email in due {
          var row := rows[c.email];
          var next := NextExpiry(row.quota.expiryTime, row.quota.reset, now);
          c := c.(expiryTime := next);
          if !row.quota.enable {
            c := c.(enable := true);
            q := q + [Queued(ib, c)];
          }
          rows := rows[c.email := row.(used := ZERO, quota := row.quota.(expiryTime := next, enable := true))];
        }
        out := out + [c];
      }
      assert cs[..|cs|] == cs;
      inbounds := inbounds[ib := inbounds[ib].(clients := out)];
    }

    method SyncFetched(order: seq<int>)
      requires forall k | 0 <= k < |order| :: order[k] in inbounds
      modifies tables
      ensures tables.View() == SyncEach(old(tables.View()), inbounds, order)
    {
      for k := 0 to |order|
        invariant tables.View() == SyncEach(old(tables.View()), inbounds, order[..k])
      {
        assert order[..k + 1][..k] == order[..k];
        var _ := tables.SyncInbound(order[k], inbounds[order[k]].clients);
      }
      assert order[..|order|] == order;
    }

    method RenewFetched(due: set<string>, now: int, order: seq<int>) returns (queue: seq<Queued>)
      requires Ready(Pass(rows, []), due) && Distinct(order) && forall k | 0 <= k < |order| :: order[k] in inbounds
      modifies this
      ensures Pass(rows, queue) == RenewAll(Pass(old(rows), []), due, now, old(inbounds), order)
      ensures inbounds == RenewSettings(Pass(old(rows), []), due, now, old(inbounds), order)
    {
      ghost var before := inbounds;
      ghost var start := Pass(rows, []);
      queue := [];
      for k := 0 to |order|
        invariant Pass(rows, queue) == RenewAll(start, due, now, before, order[..k])
        invariant inbounds == RenewSettings(start, due, now, before, order[..k])
      {
        RenewOneMore(start, due, now, before, order, k);
        queue := RenewInbound(order[k], due, now, queue);
      }
      assert order[..|order|] == order;
    }

    // Renews the due rows and returns the users to hand to the running core.
    method AutoRenewClients(now: int, order: seq<int>) returns (queue: seq<Queued>)
      requires Fetched(rows, inbounds, now, order)
      modifies this, tables
      ensures var due := DueEmails(old(rows), old(inbounds), now);
              Pass(rows, queue) == RenewAll(Pass(old(rows), []), due, now, old(inbounds), order) &&
              inbounds == RenewSettings(Pass(old(rows), []), due, now, old(inbounds), order)
      ensures tables.View() == SyncEach(old(tables.View()), inbounds, order)
    {
      queue := RenewFetched(DueEmails(rows, inbounds, now), now, order);
      SyncFetched(order);
    }

    // Turns off the entries of the e-mails in one inbound's settings.
    method MarkClientsDisabledInSettings(ib: int, emails: set<string>)
      requires ib in inbounds
      modifies this`inbounds
      ensures inbounds == old(inbounds)[ib := old(inbounds)[ib].(clients := MarkAll(emails, old(inbounds)[ib].clients))]
    {
      var cs := inbounds[ib].clients;
      var out := cs;
      var mutated := false;
      for i := 0 to |cs|
        invariant |out| == |cs|
        invariant forall j | 0 <= j < |cs| :: out[j] == if j < i then Mark(emails, cs[j]) else cs[j]
        invariant !mutated ==> out == cs
      {
        if cs[i].email in emails && cs[i].enable {
          out := out[i := cs[i].(enable := false)];
          mutated := true;
        }
      }
      if mutated {
        inbounds := inbounds[ib := inbounds[ib].(clients := out)];
      }
      assert out == MarkAll(emails, cs);
    }

    method MarkAttached(depleted: set<string>)
      modifies this`inbounds
      ensures inbounds == DisableSettings(old(inbounds), tables.View(), depleted)
    {
      ghost var x := tables.View();
      var todo := inbounds.Keys;
      while todo != {}
        invariant todo <= old(inbounds).Keys == inbounds.Keys
        invariant forall ib | ib in old(inbounds) ::
                    inbounds[ib] == if ib in todo then old(inbounds)[ib]
                      else DisableSettings(old(inbounds), x, depleted)[ib]
        decreases |todo|
      {
        HasInt(todo);
        var ib :| ib in todo;
        var emails := Targets(tables.View(), depleted, ib);
        MarkClientsDisabledInSettings(ib, emails);
        todo := todo - {ib};
      }
    }

    // Disables the enabled rows that are expired or over their quota, everywhere.
    method DisableInvalidClients(now: int, setting: int) returns (depleted: set<string>)
      modifies this, tables
      ensures depleted == Depleted(old(rows), old(tables.View()), setting, now)
      ensures forall e :: e in depleted <==>
                && e in old(rows) && old(rows)[e].quota.enable
                && IsOver(old(rows)[e], setting, e in old(tables.records) && old(tables.records)[e].exempt, now)
      ensures rows == DisableRows(old(rows), depleted)
      ensures tables.View() == DisableRecords(old(tables.View()), depleted)
      ensures inbounds == DisableSettings(old(inbounds), old(tables.View()), depleted)
      ensures forall e | e in depleted :: OffEverywhere(rows, tables.View(), inbounds, e)
    {
      ghost var rows0, x, inbounds0 := rows, tables.View(), inbounds;
      depleted := Depleted(rows, tables.View(), setting, now);
      forall e
        ensures e in depleted <==>
                  && e in rows0 && rows0[e].quota.enable
                  && IsOver(rows0[e], setting, e in x.records && x.records[e].exempt, now)
      {
        DepletedExactly(rows0, x, setting, now, e);
      }
      forall e | e in depleted
        ensures OffEverywhere(DisableRows(rows0, depleted), DisableRecords(x, depleted),
          DisableSettings(inbounds0, x, depleted), e)
      {
        DepletedIsOffEverywhere(rows0, x, inbounds0, depleted, e);
      }
      MarkAttached(depleted);
      rows := DisableRows(rows, depleted);
      tables.records := DisableRecords(tables.View(), depleted).records;
    }

    // Renewal and disabling. The disable pass reads its own clock.
    method RenewAndDisable(now: int, later: int, setting: int, order: seq<int>)
      returns (queue: seq<Queued>, depleted: set<string>)
      requires Fetched(rows, inbounds, now, order)
      modifies this, tables
      ensures Ticked(old(rows), old(inbounds), order, now, later, tables.View(), setting, depleted, rows)
      ensures forall e | e in depleted :: OffEverywhere(rows, tables.View(), inbounds, e)
    {
      ghost var rows0, inbounds0 := rows, inbounds;
      queue := AutoRenewClients(now, order);
      ghost var rows1 := rows;
      ghost var x := tables.View();
      depleted := DisableInvalidClients(later, setting);
      TickIsSound(rows0, inbounds0, rows1, now, later, setting, order, x);
      TickedAfterDisable(rows0, inbounds0, order, now, later, x, setting, depleted, rows);
    }

    // Starts the waiting clients of the fetched inbounds.
    method StartClients(dates0: map<string, int>, order: seq<int>, now: int) returns (dates: map<string, int>)
      requires Distinct(order) && forall k | 0 <= k < |order| :: order[k] in inbounds
      modifies this`inbounds
      ensures dates == StartDates(dates0, now, old(inbounds), order)
      ensures inbounds == StartSettings(dates0, now, old(inbounds), order)
    {
      ghost var before := inbounds;
      dates := dates0;
      for k := 0 to |order|
        invariant dates == StartDates(dates0, now, before, order[..k])
        invariant inbounds == StartSettings(dates0, now, before, order[..k])
      {
        StartOneMore(dates0, now, before, order, k);
        var entries;
        dates, entries := DelayedStart.AdjustTraffics(dates, now, inbounds[order[k]].clients);
        inbounds := inbounds[order[k] := inbounds[order[k]].(clients := entries)];
      }
      assert order[..|order|] == order;
    }

    // Adds the bytes of a poll, starting the clients that were waiting for their first.
    method AddClientTraffic(clients: map<string, Counter>, order: seq<int>, now: int)
      requires FetchedToStart(rows, inbounds, clients, order)
      modifies this, tables
      ensures rows == Counted(old(rows), old(inbounds), clients, order, now)
      ensures inbounds == StartSettings(BatchDates(old(rows), old(inbounds), clients), now, old(inbounds), order)
      ensures tables.View() == SyncEach(old(tables.View()), inbounds, order)
    {
      var remote := Remote(inbounds);
      var dates := BatchDates(rows, inbounds, clients);
      dates := StartClients(dates, order, now);
      SyncFetched(order);
      rows := Credited(WithDates(rows, dates), remote, clients, now);
    }

    // One traffic tick: add, renew, disable. started and due are the inbounds the first two
    // steps fetch; moment, now and later are the clocks the three steps read.
    method AddTraffic(clients: map<string, Counter>, started: seq<int>, due: seq<int>,
                      moment: int, now: int, later: int, setting: int)
      returns (queue: seq<Queued>, depleted: set<string>)
      requires FetchedToStart(rows, inbounds, clients, started)
      requires Fetched(Counted(rows, inbounds, clients, started, moment),
                       StartSettings(BatchDates(rows, inbounds, clients), moment, inbounds, started), now, due)
      modifies this, tables
      ensures var counted := Counted(old(rows), old(inbounds), clients, started, moment);
              var dates := BatchDates(old(rows), old(inbounds), clients);
              var settings := StartSettings(dates, moment, old(inbounds), started);
              Ticked(counted, settings, due, now, later, tables.View(), setting, depleted, rows)
      ensures forall e | e in depleted :: OffEverywhere(rows, tables.View(), inbounds, e)
      ensures NoneOver(rows, tables.View(), setting, later) && rows.Keys == old(rows).Keys
      ensures forall e | e in rows :: rows[e].used == ZERO || rows[e].used == old(rows)[e].used ||
                (e in clients && rows[e].used == Plus(old(rows)[e].used, clients[e]))
    {
      CountedAddsShown(rows, inbounds, clients, started, moment);
      AddClientTraffic(clients, started, moment);
      queue, depleted := RenewAndDisable(now, later, setting, due);
    }
  }
}
