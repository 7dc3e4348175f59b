// Merging two records of the same client, field by field, into the existing one, and
// what folding a whole list of records gives in whatever order they come.

module RecordMerge {

  // A string, told apart by whether it is empty.
  datatype Text = Empty | NonEmpty(first: char, rest: string)

  datatype Secrets = Secrets(uuid: Text, password: Text, auth: Text)
  datatype Connection = Connection(flow: Text, security: Text, subId: Text)
  datatype Limits = Limits(totalGB: int, expiryTime: int, limitIp: int)
  datatype Numbers = Numbers(tgId: int, reset: int)
  datatype Labels = Labels(reverse: Text, comment: Text, group: Text)
  datatype Times = Times(enable: bool, createdAt: int, updatedAt: int)

  // A row of the client table, its columns grouped by the rule that merges them.
  datatype Rec = Rec(secrets: Secrets, connection: Connection, limits: Limits, numbers: Numbers, labels: Labels,
    times: Times)

  // The fields that carry an identity, a label or a number no record must add up.
  datatype Field = Uuid | Password | Auth | Flow | Security | SubId | Reverse | Comment | Group | TgId | Reset

  // What a record gives for a field; an empty text and a zero give nothing.
  datatype Given = Nothing | Word(text: Text) | Count(n: int)

  function GivenText(t: Text): Given {
    if t == Empty then Nothing else Word(t)
  }

  function GivenNumber(n: int): Given {
    if n == 0 then Nothing else Count(n)
  }

  function Get(r: Rec, f: Field): Given {
    match f
    case Uuid => GivenText(r.secrets.uuid)
    case Password => GivenText(r.secrets.password)
    case Auth => GivenText(r.secrets.auth)
    case Flow => GivenText(r.connection.flow)
    case Security => GivenText(r.connection.security)
    case SubId => GivenText(r.connection.subId)
    case Reverse => GivenText(r.labels.reverse)
    case Comment => GivenText(r.labels.comment)
    case Group => GivenText(r.labels.group)
    case TgId => GivenNumber(r.numbers.tgId)
    case Reset => GivenNumber(r.numbers.reset)
  }

  datatype Limit = TotalGB | ExpiryTime | LimitIp

  function GetLimit(r: Rec, l: Limit): int {
    match l
    case TotalGB => r.limits.totalGB
    case ExpiryTime => r.limits.expiryTime
    case LimitIp => r.limits.limitIp
  }

  predicate Newer(a: Times, b: Times) {
    b.updatedAt > a.updatedAt || (b.updatedAt == a.updatedAt && b.createdAt > a.createdAt)
  }

  function PickText(newer: bool, a: Text, b: Text): Text {
    if b != Empty && (newer || a == Empty) then b else a
  }

  function PickNumber(newer: bool, a: int, b: int): int {
    if b != 0 && (newer || a == 0) then b else a
  }

  // Zero means "no limit was given" and never wins.
  function Largest(a: int, b: int): int {
    if a == 0 then b else if b == 0 || b <= a then a else b
  }

  function Earliest(a: int, b: int): int {
    if b != 0 && (a == 0 || b < a) then b else a
  }

  function Latest(a: int, b: int): int {
    if b > a then b else a
  }

  function MergeSecrets(newer: bool, a: Secrets, b: Secrets): Secrets {
    Secrets(PickText(newer, a.uuid, b.uuid), PickText(newer, a.password, b.password), PickText(newer, a.auth, b.auth))
  }

  function MergeConnection(newer: bool, a: Connection, b: Connection): Connection {
    Connection(PickText(newer, a.flow, b.flow), PickText(newer, a.security, b.security),
      PickText(newer, a.subId, b.subId))
  }

  function MergeLimits(a: Limits, b: Limits): Limits {
    Limits(Largest(a.totalGB, b.totalGB), Largest(a.expiryTime, b.expiryTime), Largest(a.limitIp, b.limitIp))
  }

  function MergeNumbers(newer: bool, a: Numbers, b: Numbers): Numbers {
    Numbers(PickNumber(newer, a.tgId, b.tgId), PickNumber(newer, a.reset, b.reset))
  }

  function MergeLabels(newer: bool, a: Labels, b: Labels): Labels {
    Labels(PickText(newer, a.reverse, b.reverse), PickText(newer, a.comment, b.comment),
      PickText(newer, a.group, b.group))
  }

  function MergeTimes(a: Times, b: Times): Times {
    Times(a.enable || b.enable, Earliest(a.createdAt, b.createdAt), Latest(a.updatedAt, b.updatedAt))
  }

  function Merged(a: Rec, b: Rec): Rec {
    var newer := Newer(a.times, b.times);
    Rec(MergeSecrets(newer, a.secrets, b.secrets), MergeConnection(newer, a.connection, b.connection),
        MergeLimits(a.limits, b.limits), MergeNumbers(newer, a.numbers, b.numbers),
        MergeLabels(newer, a.labels, b.labels), MergeTimes(a.times, b.times))
  }

  lemma MergedFields(a: Rec, b: Rec, f: Field, l: Limit)
    ensures Get(Merged(a, b), f) ==
            if Get(b, f) != Nothing && (Newer(a.times, b.times) || Get(a, f) == Nothing) then Get(b, f) else Get(a, f)
    ensures GetLimit(Merged(a, b), l) == Largest(GetLimit(a, l), GetLimit(b, l))
  {
  }

  // ------------------------------------------------------------------
  // Reported conflicts: every field that changes, except the two times; the uuid is
  // reported whenever the incoming one is another, non-empty value.
  // ------------------------------------------------------------------

  datatype ReportedSecrets = ReportedSecrets(uuid: bool, password: bool, auth: bool)
  datatype ReportedConnection = ReportedConnection(flow: bool, security: bool, subId: bool)
  datatype ReportedLimits = ReportedLimits(totalGB: bool, expiryTime: bool, limitIp: bool)
  datatype ReportedNumbers = ReportedNumbers(tgId: bool, reset: bool)
  datatype ReportedLabels = ReportedLabels(reverse: bool, comment: bool, group: bool)
  datatype ReportedEnable = ReportedEnable(enable: bool)

  datatype Reported = Reported(secrets: ReportedSecrets, connection: ReportedConnection, limits: ReportedLimits,
                               numbers: ReportedNumbers, labels: ReportedLabels, times: ReportedEnable)

  function SecretsReport(a: Secrets, m: Secrets, incoming: Secrets): ReportedSecrets {
    ReportedSecrets(a.uuid != incoming.uuid && incoming.uuid != Empty, m.password != a.password, m.auth != a.auth)
  }

  function ConnectionReport(a: Connection, m: Connection): ReportedConnection {
    ReportedConnection(m.flow != a.flow, m.security != a.security, m.subId != a.subId)
  }

  function LimitsReport(a: Limits, m: Limits): ReportedLimits {
    ReportedLimits(m.totalGB != a.totalGB, m.expiryTime != a.expiryTime, m.limitIp != a.limitIp)
  }

  function NumbersReport(a: Numbers, m: Numbers): ReportedNumbers {
    ReportedNumbers(m.tgId != a.tgId, m.reset != a.reset)
  }

  function LabelsReport(a: Labels, m: Labels): ReportedLabels {
    ReportedLabels(m.reverse != a.reverse, m.comment != a.comment, m.group != a.group)
  }

  function TimesReport(a: Times, m: Times): ReportedEnable {
    ReportedEnable(m.enable != a.enable)
  }

  function Conflicts(a: Rec, b: Rec): Reported {
    var m := Merged(a, b);
    Reported(SecretsReport(a.secrets, m.secrets, b.secrets), ConnectionReport(a.connection, m.connection),
             LimitsReport(a.limits, m.limits), NumbersReport(a.numbers, m.numbers),
             LabelsReport(a.labels, m.labels), TimesReport(a.times, m.times))
  }

  predicate IsReported(c: Reported, f: Field) {
    match f
    case Uuid => c.secrets.uuid
    case Password => c.secrets.password
    case Auth => c.secrets.auth
    case Flow => c.connection.flow
    case Security => c.connection.security
    case SubId => c.connection.subId
    case Reverse => c.labels.reverse
    case Comment => c.labels.comment
    case Group => c.labels.group
    case TgId => c.numbers.tgId
    case Reset => c.numbers.reset
  }

  predicate IsLimitReported(c: Reported, l: Limit) {
    match l
    case TotalGB => c.limits.totalGB
    case ExpiryTime => c.limits.expiryTime
    case LimitIp => c.limits.limitIp
  }

  // A field is reported exactly when the incoming record gives another value that wins,
  // which needs a newer record or a field without one; another uuid is reported even when
  // it loses. A limit is reported when it grows or was not given, and enable when it turns on.
  lemma ConflictsExact(a: Rec, b: Rec, f: Field, l: Limit)
    ensures IsReported(Conflicts(a, b), f) <==>
              && Get(b, f) != Nothing && Get(a, f) != Get(b, f)
              && (f == Uuid || Newer(a.times, b.times) || Get(a, f) == Nothing)
    ensures IsLimitReported(Conflicts(a, b), l) <==>
              GetLimit(b, l) != 0 && (GetLimit(a, l) == 0 || GetLimit(a, l) < GetLimit(b, l))
    ensures Conflicts(a, b).times.enable <==> b.times.enable && !a.times.enable
  {
  }

  // ------------------------------------------------------------------
  // The merge in place
  // ------------------------------------------------------------------

  method TakeSecrets(newer: bool, a: Secrets, b: Secrets) returns (kept: Secrets, reported: ReportedSecrets)
    ensures kept == MergeSecrets(newer, a, b)
    ensures reported == SecretsReport(a, kept, b)
  {
    kept := a;
    reported := ReportedSecrets(false, false, false);
    if kept.uuid != b.uuid && b.uuid != Empty {
      if newer || kept.uuid == Empty {
        kept := kept.(uuid := b.uuid);
      }
      reported := reported.(uuid := true);
    }
    if kept.password != b.password && b.password != Empty && (newer || kept.password == Empty) {
      kept := kept.(password := b.password);
      reported := reported.(password := true);
    }
    if kept.auth != b.auth && b.auth != Empty && (newer || kept.auth == Empty) {
      kept := kept.(auth := b.auth);
      reported := reported.(auth := true);
    }
  }

  method TakeConnection(newer: bool, a: Connection, b: Connection) returns (kept: Connection,
                        reported: ReportedConnection)
    ensures kept == MergeConnection(newer, a, b)
    ensures reported == ConnectionReport(a, kept)
  {
    kept := a;
    reported := ReportedConnection(false, false, false);
    if kept.flow != b.flow && b.flow != Empty && (newer || kept.flow == Empty) {
      kept := kept.(flow := b.flow);
      reported := reported.(flow := true);
    }
    if kept.security != b.security && b.security != Empty && (newer || kept.security == Empty) {
      kept := kept.(security := b.security);
      reported := reported.(security := true);
    }
    if kept.subId != b.subId && b.subId != Empty && (newer || kept.subId == Empty) {
      kept := kept.(subId := b.subId);
      reported := reported.(subId := true);
    }
  }

  method TakeLimits(a: Limits, b: Limits) returns (kept: Limits, reported: ReportedLimits)
    ensures kept == MergeLimits(a, b)
    ensures reported == LimitsReport(a, kept)
  {
    kept := a;
    reported := ReportedLimits(false, false, false);
    if kept.totalGB != b.totalGB {
      var picked := kept.totalGB;
      if kept.totalGB == 0 || (b.totalGB != 0 && b.totalGB > kept.totalGB) {
        picked := b.totalGB;
      }
      if picked != kept.totalGB {
        kept := kept.(totalGB := picked);
        reported := reported.(totalGB := true);
      }
    }
    if kept.expiryTime != b.expiryTime {
      var picked := kept.expiryTime;
      if kept.expiryTime == 0 || (b.expiryTime != 0 && b.expiryTime > kept.expiryTime) {
        picked := b.expiryTime;
      }
      if picked != kept.expiryTime {
        kept := kept.(expiryTime := picked);
        reported := reported.(expiryTime := true);
      }
    }
    if kept.limitIp != b.limitIp && b.limitIp != 0 {
      var picked := kept.limitIp;
      if kept.limitIp == 0 || (b.limitIp != 0 && b.limitIp > kept.limitIp) {
        picked := b.limitIp;
      }
      if picked != kept.limitIp {
        kept := kept.(limitIp := picked);
        reported := reported.(limitIp := true);
      }
    }
  }

  method TakeNumbers(newer: bool, a: Numbers, b: Numbers) returns (kept: Numbers, reported: ReportedNumbers)
    ensures kept == MergeNumbers(newer, a, b)
    ensures reported == NumbersReport(a, kept)
  {
    kept := a;
    reported := ReportedNumbers(false, false);
    if kept.tgId != b.tgId && b.tgId != 0 && (newer || kept.tgId == 0) {
      kept := kept.(tgId := b.tgId);
      reported := reported.(tgId := true);
    }
    if kept.reset != b.reset && b.reset != 0 && (newer || kept.reset == 0) {
      kept := kept.(reset := b.reset);
      reported := reported.(reset := true);
    }
  }

  method TakeLabels(newer: bool, a: Labels, b: Labels) returns (kept: Labels, reported: ReportedLabels)
    ensures kept == MergeLabels(newer, a, b)
    ensures reported == LabelsReport(a, kept)
  {
    kept := a;
    reported := ReportedLabels(false, false, false);
    if kept.reverse != b.reverse && b.reverse != Empty && (newer || kept.reverse == Empty) {
      kept := kept.(reverse := b.reverse);
      reported := reported.(reverse := true);
    }
    if kept.comment != b.comment && b.comment != Empty && (newer || kept.comment == Empty) {
      kept := kept.(comment := b.comment);
      reported := reported.(comment := true);
    }
    if kept.group != b.group && b.group != Empty && (newer || kept.group == Empty) {
      kept := kept.(group := b.group);
      reported := reported.(group := true);
    }
  }

  method TakeTimes(a: Times, b: Times) returns (kept: Times, reported: ReportedEnable)
    ensures kept == MergeTimes(a, b)
    ensures reported == TimesReport(a, kept)
  {
    kept := a;
    reported := ReportedEnable(false);
    if kept.enable != b.enable && b.enable {
      kept := kept.(enable := true);
      reported := reported.(enable := true);
    }
    if b.createdAt != 0 && (kept.createdAt == 0 || b.createdAt < kept.createdAt) {
      kept := kept.(createdAt := b.createdAt);
    }
    if b.updatedAt > kept.updatedAt {
      kept := kept.(updatedAt := b.updatedAt);
    }
  }

  // A row of the client table, changed in place.
  class ClientRecord {
    var secrets: Secrets
    var connection: Connection
    var limits: Limits
    var numbers: Numbers
    var labels: Labels
    var times: Times

    function View(): Rec
      reads this
    {
      Rec(secrets, connection, limits, numbers, labels, times)
    }

    // Merges incoming into this record and tells which fields it reports as conflicts.
    method MergeClientRecord(incoming: ClientRecord) returns (conflicts: Reported)
      modifies this
      ensures View() == Merged(old(View()), old(incoming.View()))
      ensures conflicts == Conflicts(old(View()), old(incoming.View()))
    {
      var newer := Newer(times, incoming.times);
      var reportedSecrets, reportedConnection, reportedLimits, reportedNumbers, reportedLabels, reportedEnable;
      secrets, reportedSecrets := TakeSecrets(newer, secrets, incoming.secrets);
      connection, reportedConnection := TakeConnection(newer, connection, incoming.connection);
      limits, reportedLimits := TakeLimits(limits, incoming.limits);
      numbers, reportedNumbers := TakeNumbers(newer, numbers, incoming.numbers);
      labels, reportedLabels := TakeLabels(newer, labels, incoming.labels);
      times, reportedEnable := TakeTimes(times, incoming.times);
      conflicts := Reported(reportedSecrets, reportedConnection, reportedLimits, reportedNumbers, reportedLabels,
        reportedEnable);
    }
  }

  // ------------------------------------------------------------------
  // Folding a list
  // ------------------------------------------------------------------

  function MergeAll(rs: seq<Rec>): Rec
    requires rs != []
    decreases |rs|
  {
    if |rs| == 1 then rs[0] else Merged(MergeAll(rs[..|rs| - 1]), rs[|rs| - 1])
  }

  // r carries the largest of the non-zero values, or zero when there are none.
  ghost predicate HasLargest(rs: seq<Rec>, l: Limit, r: Rec) {
    && (exists i | 0 <= i < |rs| :: GetLimit(rs[i], l) == GetLimit(r, l))
    && (forall i | 0 <= i < |rs| ::
          GetLimit(rs[i], l) == 0 || (GetLimit(r, l) != 0 && GetLimit(rs[i], l) <= GetLimit(r, l)))
  }

  ghost predicate HasEarliest(rs: seq<Rec>, r: Rec) {
    && (exists i | 0 <= i < |rs| :: rs[i].times.createdAt == r.times.createdAt)
    && (forall i | 0 <= i < |rs| ::
          rs[i].times.createdAt == 0 || (r.times.createdAt != 0 && r.times.createdAt <= rs[i].times.createdAt))
  }

  ghost predicate HasLatest(rs: seq<Rec>, r: Rec) {
    && (exists i | 0 <= i < |rs| :: rs[i].times.updatedAt == r.times.updatedAt)
    && (forall i | 0 <= i < |rs| :: rs[i].times.updatedAt <= r.times.updatedAt)
  }

  ghost predicate EnabledIfAny(rs: seq<Rec>, r: Rec) {
    r.times.enable <==> exists i | 0 <= i < |rs| :: rs[i].times.enable
  }

  lemma {:induction false} LargestLimit(rs: seq<Rec>, l: Limit)
    requires rs != []
    ensures HasLargest(rs, l, MergeAll(rs))
    decreases |rs|
  {
    if |rs| == 1 {
      assert GetLimit(rs[0], l) == GetLimit(MergeAll(rs), l);
    } else {
      var front, last := rs[..|rs| - 1], rs[|rs| - 1];
      LargestLimit(front, l);
      var acc, r := MergeAll(front), MergeAll(rs);
      assert GetLimit(r, l) == Largest(GetLimit(acc, l), GetLimit(last, l));
      var k :| 0 <= k < |front| && GetLimit(front[k], l) == GetLimit(acc, l);
      assert GetLimit(rs[k], l) == GetLimit(acc, l) && GetLimit(rs[|rs| - 1], l) == GetLimit(last, l);
      assert forall i | 0 <= i < |rs| - 1 :: rs[i] == front[i];
    }
  }

  lemma {:induction false} EarliestCreation(rs: seq<Rec>)
    requires rs != []
    ensures HasEarliest(rs, MergeAll(rs))
    decreases |rs|
  {
    if |rs| == 1 {
      assert rs[0].times.createdAt == MergeAll(rs).times.createdAt;
    } else {
      var front, last := rs[..|rs| - 1], rs[|rs| - 1];
      EarliestCreation(front);
      var k :| 0 <= k < |front| && front[k].times.createdAt == MergeAll(front).times.createdAt;
      assert rs[k].times.createdAt == MergeAll(front).times.createdAt && rs[|rs| - 1] == last;
      assert forall i | 0 <= i < |rs| - 1 :: rs[i] == front[i];
    }
  }

  lemma {:induction false} LatestUpdate(rs: seq<Rec>)
    requires rs != []
    ensures HasLatest(rs, MergeAll(rs)) && EnabledIfAny(rs, MergeAll(rs))
    decreases |rs|
  {
    if |rs| == 1 {
      assert rs[0] == MergeAll(rs);
    } else {
      var front, last := rs[..|rs| - 1], rs[|rs| - 1];
      LatestUpdate(front);
      var k :| 0 <= k < |front| && front[k].times.updatedAt == MergeAll(front).times.updatedAt;
      assert rs[k].times.updatedAt == MergeAll(front).times.updatedAt && rs[|rs| - 1] == last;
      assert forall i | 0 <= i < |rs| - 1 :: rs[i] == front[i];
    }
  }

  predicate Permuted(a: seq<Rec>, b: seq<Rec>) {
    multiset(a) == multiset(b)
  }

  lemma PermutedHas(a: seq<Rec>, b: seq<Rec>, i: nat) returns (j: nat)
    requires Permuted(a, b) && i < |a|
    ensures j < |b| && b[j] == a[i]
  {
    assert a[i] in multiset(b);
    j :| j < |b| && b[j] == a[i];
  }

  lemma LimitsAgree(a: seq<Rec>, b: seq<Rec>, l: Limit)
    requires a != [] && b != [] && Permuted(a, b)
    ensures GetLimit(MergeAll(a), l) == GetLimit(MergeAll(b), l)
  {
    LargestLimit(a, l);
    LargestLimit(b, l);
    var i :| 0 <= i < |a| && GetLimit(a[i], l) == GetLimit(MergeAll(a), l);
    var j :| 0 <= j < |b| && GetLimit(b[j], l) == GetLimit(MergeAll(b), l);
    var i' := PermutedHas(a, b, i);
    var j' := PermutedHas(b, a, j);
  }

  lemma TimesAgree(a: seq<Rec>, b: seq<Rec>)
    requires a != [] && b != [] && Permuted(a, b)
    ensures MergeAll(a).times.createdAt == MergeAll(b).times.createdAt &&
      MergeAll(a).times.updatedAt == MergeAll(b).times.updatedAt
  {
    EarliestCreation(a);
    EarliestCreation(b);
    LatestUpdate(a);
    LatestUpdate(b);
    var i :| 0 <= i < |a| && a[i].times.createdAt == MergeAll(a).times.createdAt;
    var j :| 0 <= j < |b| && b[j].times.createdAt == MergeAll(b).times.createdAt;
    var i' := PermutedHas(a, b, i);
    var j' := PermutedHas(b, a, j);
    var u :| 0 <= u < |a| && a[u].times.updatedAt == MergeAll(a).times.updatedAt;
    var v :| 0 <= v < |b| && b[v].times.updatedAt == MergeAll(b).times.updatedAt;
    var u' := PermutedHas(a, b, u);
    var v' := PermutedHas(b, a, v);
  }

  lemma EnableAgrees(a: seq<Rec>, b: seq<Rec>)
    requires a != [] && b != [] && Permuted(a, b) && MergeAll(a).times.enable
    ensures MergeAll(b).times.enable
  {
    LatestUpdate(a);
    LatestUpdate(b);
    var i :| 0 <= i < |a| && a[i].times.enable;
    var j := PermutedHas(a, b, i);
  }

  // Limits, enable flag and times come out the same in every order.
  lemma OrderNeverMattersForLimits(a: seq<Rec>, b: seq<Rec>)
    requires a != [] && Permuted(a, b)
    ensures b != []
    ensures forall l: Limit :: GetLimit(MergeAll(a), l) == GetLimit(MergeAll(b), l)
    ensures MergeAll(a).times.enable == MergeAll(b).times.enable
    ensures MergeAll(a).times.createdAt == MergeAll(b).times.createdAt &&
      MergeAll(a).times.updatedAt == MergeAll(b).times.updatedAt
  {
    assert |multiset(b)| == |b|;
    forall l: Limit ensures GetLimit(MergeAll(a), l) == GetLimit(MergeAll(b), l) {
      LimitsAgree(a, b, l);
    }
    TimesAgree(a, b);
    if MergeAll(a).times.enable {
      EnableAgrees(a, b);
    }
    if MergeAll(b).times.enable {
      EnableAgrees(b, a);
    }
  }

  // ------------------------------------------------------------------
  // Credentials: the newest record wins
  // ------------------------------------------------------------------

  // No two of the records were updated at the same time.
  ghost predicate DistinctTimes(m: multiset<Rec>) {
    && (forall x | x in m :: m[x] == 1)
    && (forall x, y | x in m && y in m && x.times.updatedAt == y.times.updatedAt :: x == y)
  }

  ghost predicate IsNewest(m: multiset<Rec>, x: Rec) {
    x in m && forall y | y in m :: y.times.updatedAt <= x.times.updatedAt
  }

  lemma LatestIsBound(rs: seq<Rec>, x: Rec)
    requires rs != [] && x in rs
    ensures x.times.updatedAt <= MergeAll(rs).times.updatedAt
    ensures exists y | y in rs :: y.times.updatedAt == MergeAll(rs).times.updatedAt
  {
    LatestUpdate(rs);
    var i :| 0 <= i < |rs| && rs[i].times.updatedAt == MergeAll(rs).times.updatedAt;
    assert rs[i] in rs;
  }

  lemma NewestLast(front: seq<Rec>, last: Rec)
    requires front != [] && DistinctTimes(multiset(front) + multiset{last})
    requires IsNewest(multiset(front) + multiset{last}, last)
    ensures Newer(MergeAll(front).times, last.times)
  {
    LatestUpdate(front);
    var i :| 0 <= i < |front| && front[i].times.updatedAt == MergeAll(front).times.updatedAt;
    assert front[i] in multiset(front);
    assert front[i] in multiset(front) + multiset{last};
  }

  lemma {:induction false} NewestWins(rs: seq<Rec>, newest: Rec, f: Field)
    requires rs != [] && DistinctTimes(multiset(rs)) && IsNewest(multiset(rs), newest) && Get(newest, f) != Nothing
    ensures Get(MergeAll(rs), f) == Get(newest, f)
    decreases |rs|
  {
    if |rs| == 1 {
      assert rs == [rs[0]];
    } else {
      var front, last := rs[..|rs| - 1], rs[|rs| - 1];
      assert rs == front + [last];
      assert multiset(rs) == multiset(front) + multiset{last};
      var acc := MergeAll(front);
      MergedFields(acc, last, f, TotalGB);
      if last == newest {
        NewestLast(front, last);
      } else {
        assert newest in multiset(front);
        assert IsNewest(multiset(front), newest);
        NewestWins(front, newest, f);
        LatestIsBound(front, newest);
        assert last in multiset(rs);
        assert !Newer(acc.times, last.times);
      }
    }
  }

  // With distinct update times the newest record's value is the answer in every order,
  // provided that record has a value.
  lemma NewestWinsInEveryOrder(a: seq<Rec>, b: seq<Rec>, newest: Rec, f: Field)
    requires a != [] && Permuted(a, b)
    requires DistinctTimes(multiset(a)) && IsNewest(multiset(a), newest) && Get(newest, f) != Nothing
    ensures b != [] && Get(MergeAll(a), f) == Get(newest, f) == Get(MergeAll(b), f)
  {
    assert |multiset(b)| == |b|;
    NewestWins(a, newest, f);
    NewestWins(b, newest, f);
  }

  // ------------------------------------------------------------------
  // When the newest record has no value: exactly when the order shows
  // ------------------------------------------------------------------

  ghost predicate OrderFree(rs: seq<Rec>, f: Field)
    requires rs != []
  {
    forall other: seq<Rec> | other != [] && Permuted(rs, other) :: Get(MergeAll(other), f) == Get(MergeAll(rs), f)
  }

  // At most one value is given for the field.
  ghost predicate OneValue(m: multiset<Rec>, f: Field) {
    forall x, y | x in m && y in m && Get(x, f) != Nothing && Get(y, f) != Nothing :: Get(x, f) == Get(y, f)
  }

  // The result is one of the given values, and it is empty only when all are.
  lemma {:induction false} ResultIsGiven(rs: seq<Rec>, f: Field)
    requires rs != []
    ensures exists i | 0 <= i < |rs| :: Get(rs[i], f) == Get(MergeAll(rs), f)
    ensures Get(MergeAll(rs), f) == Nothing ==> forall i | 0 <= i < |rs| :: Get(rs[i], f) == Nothing
    decreases |rs|
  {
    if |rs| == 1 {
      assert Get(rs[0], f) == Get(MergeAll(rs), f);
    } else {
      var front, last := rs[..|rs| - 1], rs[|rs| - 1];
      ResultIsGiven(front, f);
      MergedFields(MergeAll(front), last, f, TotalGB);
      var k :| 0 <= k < |front| && Get(front[k], f) == Get(MergeAll(front), f);
      assert Get(rs[k], f) == Get(MergeAll(front), f) && Get(rs[|rs| - 1], f) == Get(last, f);
      assert forall i | 0 <= i < |front| :: rs[i] == front[i];
    }
  }

  lemma OneValueIsFound(a: seq<Rec>, b: seq<Rec>, f: Field)
    requires a != [] && b != [] && Permuted(a, b) && OneValue(multiset(a), f)
    ensures Get(MergeAll(a), f) == Get(MergeAll(b), f)
  {
    ResultIsGiven(a, f);
    ResultIsGiven(b, f);
    var i :| 0 <= i < |a| && Get(a[i], f) == Get(MergeAll(a), f);
    var j :| 0 <= j < |b| && Get(b[j], f) == Get(MergeAll(b), f);
    assert a[i] in multiset(a) && b[j] in multiset(b);
    var i' := PermutedHas(a, b, i);
    var j' := PermutedHas(b, a, j);
  }

  // Once the newest record and a record with a value have been merged, the value stays.
  lemma {:induction false} FirstValueStays(newest: Rec, x: Rec, rest: seq<Rec>, f: Field)
    requires Get(newest, f) == Nothing && Get(x, f) != Nothing
    requires x.times.updatedAt < newest.times.updatedAt
    requires forall i | 0 <= i < |rest| :: rest[i].times.updatedAt < newest.times.updatedAt
    ensures var r := MergeAll([newest, x] + rest);
            Get(r, f) == Get(x, f) && r.times.updatedAt == newest.times.updatedAt
    decreases |rest|
  {
    var rs := [newest, x] + rest;
    if rest == [] {
      assert rs[..1] == [newest] && rs == [newest, x];
      MergedFields(newest, x, f, TotalGB);
    } else {
      var front := rest[..|rest| - 1];
      FirstValueStays(newest, x, front, f);
      assert rs[..|rs| - 1] == [newest, x] + front && rs[|rs| - 1] == rest[|rest| - 1];
      MergedFields(MergeAll([newest, x] + front), rest[|rest| - 1], f, TotalGB);
    }
  }

  lemma TakeOut(rs: seq<Rec>, x: Rec) returns (rest: seq<Rec>)
    requires x in rs
    ensures multiset(rs) == multiset(rest) + multiset{x}
  {
    var n :| 0 <= n < |rs| && rs[n] == x;
    rest := rs[..n] + rs[n + 1..];
    assert rs == rs[..n] + [rs[n]] + rs[n + 1..];
  }

  // A reordering of rs that starts with the two records.
  lemma TwoInFront(rs: seq<Rec>, newest: Rec, x: Rec) returns (rest: seq<Rec>)
    requires newest in rs && x in rs && newest != x
    ensures Permuted(rs, [newest, x] + rest)
  {
    var others := TakeOut(rs, newest);
    assert x in multiset(rs);
    assert x in multiset(others);
    rest := TakeOut(others, x);
    assert multiset([newest, x] + rest) == multiset{newest, x} + multiset(rest);
  }

  lemma ValueInFrontWins(rs: seq<Rec>, newest: Rec, x: Rec, f: Field) returns (order: seq<Rec>)
    requires rs != [] && DistinctTimes(multiset(rs)) && IsNewest(multiset(rs), newest)
    requires Get(newest, f) == Nothing && x in multiset(rs) && Get(x, f) != Nothing
    ensures order != [] && Permuted(rs, order) && Get(MergeAll(order), f) == Get(x, f)
  {
    assert newest in rs && x in rs;
    var rest := TwoInFront(rs, newest, x);
    order := [newest, x] + rest;
    assert multiset(order) == multiset(rest) + multiset{newest, x};
    forall i | 0 <= i < |rest| ensures rest[i].times.updatedAt < newest.times.updatedAt {
      assert rest[i] in multiset(rest);
      assert rest[i] in multiset(rs) && multiset(rs)[newest] == 1;
      assert rest[i] != newest;
    }
    FirstValueStays(newest, x, rest, f);
  }

  // With distinct update times, a field comes out the same in every order exactly when the
  // newest record has a value for it or all records with a value agree on it.
  lemma OrderFreeIff(rs: seq<Rec>, newest: Rec, f: Field)
    requires rs != [] && DistinctTimes(multiset(rs)) && IsNewest(multiset(rs), newest)
    ensures OrderFree(rs, f) <==> Get(newest, f) != Nothing || OneValue(multiset(rs), f)
  {
    if Get(newest, f) != Nothing {
      forall other: seq<Rec> | other != [] && Permuted(rs, other)
        ensures Get(MergeAll(other), f) == Get(MergeAll(rs), f)
      {
        NewestWinsInEveryOrder(rs, other, newest, f);
      }
    } else if OneValue(multiset(rs), f) {
      forall other: seq<Rec> | other != [] && Permuted(rs, other)
        ensures Get(MergeAll(other), f) == Get(MergeAll(rs), f)
      {
        OneValueIsFound(rs, other, f);
      }
    } else {
      var x, y :| x in multiset(rs) && y in multiset(rs) && Get(x, f) != Nothing && Get(y, f) != Nothing &&
        Get(x, f) != Get(y, f);
      var p := ValueInFrontWins(rs, newest, x, f);
      var q := ValueInFrontWins(rs, newest, y, f);
      assert !OrderFree(rs, f);
    }
  }

  function Tied(createdAt: int, uuid: char): Rec {
    Rec(Secrets(NonEmpty(uuid, ""), Empty, Empty), Connection(Empty, Empty, Empty), Limits(0, 0, 0), Numbers(0, 0),
        Labels(Empty, Empty, Empty), Times(true, createdAt, 1))
  }

  // Equal update times are decided by the accumulated creation time, which is the earliest
  // so far and not the winner's: three records merged in two orders give two answers.
  lemma TiesDependOnOrder()
    ensures var a := Tied(5, 'a');
            var b := Tied(3, 'b');
            var c := Tied(4, 'c');
            Permuted([a, b, c], [a, c, b]) &&
            Get(MergeAll([a, b, c]), Uuid) == Word(NonEmpty('c', "")) &&
            Get(MergeAll([a, c, b]), Uuid) == Word(NonEmpty('a', ""))
  {
    var a, b, c := Tied(5, 'a'), Tied(3, 'b'), Tied(4, 'c');
    assert [a, b, c][..2] == [a, b] && [a, c, b][..2] == [a, c] && [a, b][..1] == [a] == [a, c][..1];
    assert MergeAll([a]) == a;
    assert MergeAll([a, b]) == Merged(a, b) && MergeAll([a, c]) == Merged(a, c);
    assert multiset([a, b, c]) == multiset{a, b, c} == multiset([a, c, b]);
  }
}
