// The login limiter: failed logins within a sliding window block a key for a while.
// The limiter keeps only what it still needs; the history kept beside it as a ghost
// says what it must answer. Time is any whole number of ticks.

module LoginLimiter {

  import opened Options
  import opened Text

  // One settled call for a key: a failed login, which may have caused a block, or a success.
  datatype Event = Failure(at: int, blocked: bool) | Success(at: int)

  type History = seq<Event>

  // The times of the failures since the last success or block that are not before cutoff.
  function Recent(h: History, cutoff: int): seq<int>
    decreases |h|
  {
    if h == [] then []
    else
      var last := h[|h| - 1];
      if last.Success? || last.blocked then []
      else Recent(h[..|h| - 1], cutoff) + (if last.at >= cutoff then [last.at] else [])
  }

  predicate BlocksAt(h: History, i: int) {
    0 <= i < |h| && h[i].Failure? && h[i].blocked && forall j | i < j < |h| :: h[j].Failure?
  }

  // Some block is younger than the cooldown and no success came after it.
  ghost predicate Refused(h: History, now: int, cooldown: int) {
    exists i :: BlocksAt(h, i) && now < h[i].at + cooldown
  }

  // The latest block that no success followed.
  function LastBlock(h: History): Option<int>
    decreases |h|
  {
    if h == [] || h[|h| - 1].Success? then None
    else if h[|h| - 1].blocked then Some(h[|h| - 1].at)
    else LastBlock(h[..|h| - 1])
  }

  // The times never go back and do not pass the clock.
  predicate Ordered(h: History, clock: int)
    decreases |h|
  {
    h == [] || (h[|h| - 1].at <= clock && Ordered(h[..|h| - 1], h[|h| - 1].at))
  }

  lemma {:induction false} OrderedBound(h: History, clock: int, i: nat)
    requires Ordered(h, clock) && i < |h|
    ensures h[i].at <= clock
    decreases |h|
  {
    if i < |h| - 1 {
      OrderedBound(h[..|h| - 1], h[|h| - 1].at, i);
    }
  }

  // A block younger than the cooldown exists exactly when the latest one is.
  lemma {:induction false} RefusedIffLastBlock(h: History, clock: int, now: int, cooldown: int)
    requires Ordered(h, clock)
    ensures Refused(h, now, cooldown) <==> LastBlock(h).Some? && now < LastBlock(h).value + cooldown
    decreases |h|
  {
    if h != [] && h[|h| - 1].Failure? {
      var front := h[..|h| - 1];
      RefusedIffLastBlock(front, h[|h| - 1].at, now, cooldown);
      if h[|h| - 1].blocked {
        assert BlocksAt(h, |h| - 1);
        if Refused(h, now, cooldown) {
          var i :| BlocksAt(h, i) && now < h[i].at + cooldown;
          if i < |front| {
            OrderedBound(front, h[|h| - 1].at, i);
          }
        }
      } else {
        forall i ensures BlocksAt(h, i) <==> BlocksAt(front, i) {
          if BlocksAt(front, i) {
            assert forall j | i < j < |h| :: h[j].Failure?;
          }
        }
        if Refused(front, now, cooldown) {
          var i :| BlocksAt(front, i) && now < front[i].at + cooldown;
          assert BlocksAt(h, i) && h[i] == front[i];
        }
        if Refused(h, now, cooldown) {
          var i :| BlocksAt(h, i) && now < h[i].at + cooldown;
          assert BlocksAt(front, i) && h[i] == front[i];
        }
      }
    }
  }

  // Dropping the failures at the front that are older than cutoff.
  function Prune(failures: seq<int>, cutoff: int): seq<int> {
    if failures != [] && failures[0] < cutoff then Prune(failures[1..], cutoff) else failures
  }

  lemma {:induction false} PruneAppend(s: seq<int>, t: int, cutoff: int)
    requires t >= cutoff
    ensures Prune(s + [t], cutoff) == Prune(s, cutoff) + [t]
  {
    if s != [] && s[0] < cutoff {
      assert (s + [t])[1..] == s[1..] + [t];
      PruneAppend(s[1..], t, cutoff);
    }
  }

  lemma {:induction false} PruneAll(s: seq<int>, cutoff: int)
    requires forall i | 0 <= i < |s| :: s[i] < cutoff
    ensures Prune(s, cutoff) == []
  {
    if s != [] {
      PruneAll(s[1..], cutoff);
    }
  }

  lemma {:induction false} RecentAfter(h: History, clock: int, cutoff: int)
    requires Ordered(h, clock)
    ensures forall i | 0 <= i < |Recent(h, cutoff)| :: cutoff <= Recent(h, cutoff)[i] <= clock
    decreases |h|
  {
    if h != [] {
      RecentAfter(h[..|h| - 1], h[|h| - 1].at, cutoff);
    }
  }

  lemma {:induction false} NothingRecent(h: History, clock: int, cutoff: int)
    requires Ordered(h, clock) && clock < cutoff
    ensures Recent(h, cutoff) == []
    decreases |h|
  {
    if h != [] {
      NothingRecent(h[..|h| - 1], h[|h| - 1].at, cutoff);
    }
  }

  // Pruning a list that was pruned before gives what pruning the whole history gives.
  lemma {:induction false} PruneRecent(h: History, clock: int, earlier: int, cutoff: int)
    requires Ordered(h, clock) && earlier <= cutoff
    ensures Prune(Recent(h, earlier), cutoff) == Recent(h, cutoff)
    decreases |h|
  {
    if h != [] {
      var front, last := h[..|h| - 1], h[|h| - 1];
      if last.Failure? && !last.blocked {
        PruneRecent(front, last.at, earlier, cutoff);
        if last.at >= cutoff {
          PruneAppend(Recent(front, earlier), last.at, cutoff);
        } else {
          RecentAfter(front, last.at, earlier);
          NothingRecent(front, last.at, cutoff);
          PruneAll(Recent(h, earlier), cutoff);
        }
      }
    }
  }

  lemma AfterFailure(h: History, now: int, blocked: bool, cutoff: int)
    requires Ordered(h, now) && cutoff <= now
    ensures var h' := h + [Failure(now, blocked)];
            Ordered(h', now) &&
            Recent(h', cutoff) == (if blocked then [] else Recent(h, cutoff) + [now]) &&
            LastBlock(h') == (if blocked then Some(now) else LastBlock(h))
  {
    assert (h + [Failure(now, blocked)])[..|h|] == h;
  }

  // The pruning loop of the limiter.
  method PruneLoginFailures(failures: seq<int>, cutoff: int) returns (kept: seq<int>)
    ensures kept == Prune(failures, cutoff)
  {
    var keepFrom := 0;
    while keepFrom < |failures| && failures[keepFrom] < cutoff
      invariant 0 <= keepFrom <= |failures|
      invariant Prune(failures[keepFrom..], cutoff) == Prune(failures, cutoff)
    {
      assert failures[keepFrom..][1..] == failures[keepFrom + 1..];
      keepFrom := keepFrom + 1;
    }
    kept := failures[keepFrom..];
  }

  // ------------------------------------------------------------------
  // Keys
  // ------------------------------------------------------------------

  function LoginLimitKey(ip: string, username: string): string {
    Trim(ip) + "\0" + Lower(Trim(username))
  }

  // Two logins share a key exactly when address and name agree up to surrounding space
  // and letter case, as long as no address holds the separator.
  lemma KeysAgreeIff(ip: string, user: string, ip': string, user': string)
    requires '\0' !in Trim(ip) && '\0' !in Trim(ip')
    ensures LoginLimitKey(ip, user) == LoginLimitKey(ip', user') <==>
              Trim(ip) == Trim(ip') && Lower(Trim(user)) == Lower(Trim(user'))
  {
    var a, b := Trim(ip), Trim(ip');
    var k, k' := LoginLimitKey(ip, user), LoginLimitKey(ip', user');
    assert k[|a|] == '\0' && k'[|b|] == '\0';
    if k == k' {
      forall i | 0 <= i < |a| ensures k[i] != '\0' {
        assert k[i] == a[i];
      }
      forall i | 0 <= i < |b| ensures k'[i] != '\0' {
        assert k'[i] == b[i];
      }
      assert |a| == |b|;
      assert a == k[..|a|] && b == k'[..|b|];
      assert Lower(Trim(user)) == k[|a| + 1..] && Lower(Trim(user')) == k'[|b| + 1..];
    }
  }

  // ------------------------------------------------------------------
  // The limiter
  // ------------------------------------------------------------------

  datatype Record = Record(failures: seq<int>, blockedUntil: Option<int>)

  const FRESH := Record([], None)

  // The record of a key with history h, pruned at the cutoff: it has the failures since
  // then and the last block, until that is over.
  ghost predicate Fits(record: Record, h: History, clock: int, cutoff: int, cooldown: int) {
    && Ordered(h, clock) && record.failures == Recent(h, cutoff)
    && match record.blockedUntil
       case Some(t) => LastBlock(h) == Some(t - cooldown)
       case None => LastBlock(h).Some? ==> LastBlock(h).value + cooldown <= clock
  }

  // Time passing alone changes no answer the limiter still owes.
  lemma FitsLater(record: Record, h: History, clock: int, now: int, cutoff: int, cooldown: int)
    requires Fits(record, h, clock, cutoff, cooldown) && clock <= now
    ensures Fits(record, h, now, cutoff, cooldown)
  {
  }

  lemma PrunedFits(record: Record, h: History, clock: int, earlier: int, cutoff: int, cooldown: int)
    requires Fits(record, h, clock, earlier, cooldown) && earlier <= cutoff
    ensures Fits(record.(failures := Prune(record.failures, cutoff)), h, clock, cutoff, cooldown)
  {
    PruneRecent(h, clock, earlier, cutoff);
  }

  lemma FailureFits(record: Record, failures: seq<int>, h: History, now: int, cutoff: int, cooldown: int,
                    blocked: bool)
    requires Fits(record.(failures := failures), h, now, cutoff, cooldown) && cutoff <= now
    ensures var next := if blocked then Record([], Some(now + cooldown)) else record.(failures := failures + [now]);
            Fits(next, h + [Failure(now, blocked)], now, cutoff, cooldown)
  {
    AfterFailure(h, now, blocked, cutoff);
  }

  lemma BlockDecides(record: Record, h: History, clock: int, cutoff: int, cooldown: int)
    requires Fits(record, h, clock, cutoff, cooldown)
    ensures Refused(h, clock, cooldown) <==> record.blockedUntil.Some? && clock < record.blockedUntil.value
    ensures record.blockedUntil.Some? ==>
              LastBlock(h).Some? && record.blockedUntil.value == LastBlock(h).value + cooldown
  {
    RefusedIffLastBlock(h, clock, clock, cooldown);
  }

  lemma BlockIsOver(record: Record, h: History, clock: int, cutoff: int, cooldown: int)
    requires Fits(record, h, clock, cutoff, cooldown)
    requires record.blockedUntil.Some? ==> record.blockedUntil.value <= clock
    ensures Fits(record.(blockedUntil := None), h, clock, cutoff, cooldown)
  {
  }

  lemma SuccessFits(record: Record, h: History, now: int, cutoff: int, cooldown: int)
    requires Fits(record, h, now, cutoff, cooldown)
    ensures Fits(FRESH, h + [Success(now)], now, cutoff, cooldown)
  {
  }

  // A record that was pruned at some cutoff not inside the window that ends now.
  ghost predicate FitsSince(record: Record, h: History, clock: int, window: nat, cooldown: int) {
    exists cutoff :: cutoff <= clock - window && Fits(record, h, clock, cutoff, cooldown)
  }

  lemma PrunedNow(record: Record, h: History, clock: int, window: nat, cooldown: int)
    requires FitsSince(record, h, clock, window, cooldown)
    ensures Fits(record.(failures := Prune(record.failures, clock - window)), h, clock, clock - window, cooldown)
  {
    var cutoff :| cutoff <= clock - window && Fits(record, h, clock, cutoff, cooldown);
    PrunedFits(record, h, clock, cutoff, clock - window, cooldown);
  }

  function KeptIn(attempts: map<string, Record>, key: string): Record {
    if key in attempts then attempts[key] else FRESH
  }

  function PastIn(history: map<string, History>, key: string): History {
    if key in history then history[key] else []
  }

  // The records fit the whole past of their keys.
  ghost predicate AllFit(attempts: map<string, Record>, history: map<string, History>, clock: int, window: nat,
                         cooldown: int) {
    forall key {:trigger FitsSince(KeptIn(attempts, key), PastIn(history, key), clock, window, cooldown)} ::
      FitsSince(KeptIn(attempts, key), PastIn(history, key), clock, window, cooldown)
  }

  lemma AllFitLater(attempts: map<string, Record>, history: map<string, History>, clock: int, now: int, window: nat,
                    cooldown: int)
    requires AllFit(attempts, history, clock, window, cooldown) && clock <= now
    ensures AllFit(attempts, history, now, window, cooldown)
  {
    forall key ensures FitsSince(KeptIn(attempts, key), PastIn(history, key), now, window, cooldown) {
      var record, h := KeptIn(attempts, key), PastIn(history, key);
      assert FitsSince(record, h, clock, window, cooldown);
      var cutoff :| cutoff <= clock - window && Fits(record, h, clock, cutoff, cooldown);
      FitsLater(record, h, clock, now, cutoff, cooldown);
    }
  }

  // A step for one key leaves every other key as it was.
  lemma AllFitStep(attempts: map<string, Record>, history: map<string, History>, attempts': map<string, Record>,
                   history': map<string, History>, clock: int, window: nat, cooldown: int, key: string)
    requires AllFit(attempts, history, clock, window, cooldown)
    requires Fits(KeptIn(attempts', key), PastIn(history', key), clock, clock - window, cooldown)
    requires forall k | k != key ::
      KeptIn(attempts', k) == KeptIn(attempts, k) && PastIn(history', k) == PastIn(history, k)
    ensures AllFit(attempts', history', clock, window, cooldown)
  {
    forall k ensures FitsSince(KeptIn(attempts', k), PastIn(history', k), clock, window, cooldown) {
      assert k != key ==> FitsSince(KeptIn(attempts, k), PastIn(history, k), clock, window, cooldown);
    }
  }

  // What the key's record says now decides; once its block is over it may be pruned.
  lemma AskKeepsAll(attempts: map<string, Record>, history: map<string, History>, now: int, window: nat, cooldown: int,
                    key: string)
    requires AllFit(attempts, history, now, window, cooldown)
    ensures var was, h := KeptIn(attempts, key), PastIn(history, key);
            var next := Record(Prune(was.failures, now - window), None);
            && (Refused(h, now, cooldown) <==> was.blockedUntil.Some? && now < was.blockedUntil.value)
            && (was.blockedUntil.Some? ==>
                  LastBlock(h).Some? && was.blockedUntil.value == LastBlock(h).value + cooldown)
            && (!Refused(h, now, cooldown) ==>
                  && AllFit(attempts[key := next], history, now, window, cooldown)
                  && (next.failures == [] ==> AllFit(attempts - {key}, history, now, window, cooldown)))
  {
    var was, h := KeptIn(attempts, key), PastIn(history, key);
    var pruned := was.(failures := Prune(was.failures, now - window));
    assert FitsSince(was, h, now, window, cooldown);
    PrunedNow(was, h, now, window, cooldown);
    BlockDecides(pruned, h, now, now - window, cooldown);
    if !Refused(h, now, cooldown) {
      BlockIsOver(pruned, h, now, now - window, cooldown);
      var next := pruned.(blockedUntil := None);
      AllFitStep(attempts, history, attempts[key := next], history, now, window, cooldown, key);
      if next.failures == [] {
        AllFitStep(attempts, history, attempts - {key}, history, now, window, cooldown, key);
      }
    }
  }

  function Counted(was: Record, failures: seq<int>, now: int, cooldown: int, blocked: bool): Record {
    if blocked then Record([], Some(now + cooldown)) else was.(failures := failures + [now])
  }

  lemma CountedFits(was: Record, h: History, now: int, window: nat, cooldown: int, blocked: bool)
    requires FitsSince(was, h, now, window, cooldown)
    ensures var failures := Prune(was.failures, now - window);
            Fits(Counted(was, failures, now, cooldown, blocked), h + [Failure(now, blocked)], now, now - window,
              cooldown)
  {
    PrunedNow(was, h, now, window, cooldown);
    FailureFits(was, Prune(was.failures, now - window), h, now, now - window, cooldown, blocked);
  }

  lemma PrunedAreRecent(attempts: map<string, Record>, history: map<string, History>, now: int, window: nat,
                        cooldown: int, key: string)
    requires AllFit(attempts, history, now, window, cooldown)
    ensures |Prune(KeptIn(attempts, key).failures, now - window)| == |Recent(PastIn(history, key), now - window)|
  {
    assert FitsSince(KeptIn(attempts, key), PastIn(history, key), now, window, cooldown);
    PrunedNow(KeptIn(attempts, key), PastIn(history, key), now, window, cooldown);
  }

  lemma FailureKeepsAll(attempts: map<string, Record>, history: map<string, History>, now: int, window: nat,
                        cooldown: int, key: string, blocked: bool)
    requires AllFit(attempts, history, now, window, cooldown)
    ensures var was, h := KeptIn(attempts, key), PastIn(history, key);
            AllFit(attempts[key := Counted(was, Prune(was.failures, now - window), now, cooldown, blocked)],
              history[key := h + [Failure(now, blocked)]], now, window, cooldown)
  {
    var was, h := KeptIn(attempts, key), PastIn(history, key);
    assert FitsSince(was, h, now, window, cooldown);
    CountedFits(was, h, now, window, cooldown, blocked);
    AllFitStep(attempts, history,
      attempts[key := Counted(was, Prune(was.failures, now - window), now, cooldown, blocked)],
      history[key := h + [Failure(now, blocked)]], now, window, cooldown, key);
  }

  // The key's record after one more failure, and whether that blocks.
  method CountFailure(attempts: map<string, Record>, ghost history: map<string, History>, key: string, now: int,
                      window: nat, cooldown: int, maxFailures: int)
    returns (record: Record, blocked: bool)
    requires AllFit(attempts, history, now, window, cooldown)
    ensures blocked <==> |Recent(PastIn(history, key), now - window)| + 1 >= maxFailures
    ensures AllFit(attempts[key := record], history[key := PastIn(history, key) + [Failure(now, blocked)]], now, window,
              cooldown)
  {
    record := KeptIn(attempts, key);
    var failures := PruneLoginFailures(record.failures, now - window);
    PrunedAreRecent(attempts, history, now, window, cooldown, key);
    failures := failures + [now];
    blocked := |failures| >= maxFailures;
    FailureKeepsAll(attempts, history, now, window, cooldown, key, blocked);
    record := if blocked then Record([], Some(now + cooldown)) else record.(failures := failures);
  }

  lemma SuccessKeepsAll(attempts: map<string, Record>, history: map<string, History>, now: int, window: nat,
                        cooldown: int, key: string)
    requires AllFit(attempts, history, now, window, cooldown)
    ensures AllFit(attempts - {key}, history[key := PastIn(history, key) + [Success(now)]], now, window, cooldown)
  {
    var was, h := KeptIn(attempts, key), PastIn(history, key);
    assert FitsSince(was, h, now, window, cooldown);
    PrunedNow(was, h, now, window, cooldown);
    SuccessFits(was.(failures := Prune(was.failures, now - window)), h, now, now - window, cooldown);
    AllFitStep(attempts, history, attempts - {key}, history[key := h + [Success(now)]], now, window, cooldown, key);
  }

  class Limiter {
    const maxFailures: int
    const window: nat
    const cooldown: int
    var attempts: map<string, Record>

    // The whole past of each key, and the time of the latest call.
    ghost var history: map<string, History>
    ghost var clock: int

    ghost function Past(key: string): History
      reads this`history
    {
      PastIn(history, key)
    }

    ghost predicate Valid()
      reads this
    {
      AllFit(attempts, history, clock, window, cooldown)
    }

    constructor (maxFailures: int, window: nat, cooldown: int)
      ensures Valid() && history == map[]
      ensures this.maxFailures == maxFailures && this.window == window && this.cooldown == cooldown
    {
      this.maxFailures, this.window, this.cooldown := maxFailures, window, cooldown;
      attempts, history := map[], map[];
      new;
      assert Fits(FRESH, [], clock, clock - window, cooldown);
    }

    // Refuses exactly while some block of the key is younger than the cooldown and no
    // success followed it; pruning and forgetting the record never change that.
    method Allow(key: string, now: int) returns (until: Option<int>, ok: bool)
      requires Valid() && clock <= now
      modifies this`attempts, this`clock
      ensures Valid() && clock == now
      ensures ok <==> !Refused(Past(key), now, cooldown)
      ensures ok ==> until == None
      ensures !ok ==> LastBlock(Past(key)).Some? && until == Some(LastBlock(Past(key)).value + cooldown)
    {
      AllFitLater(attempts, history, clock, now, window, cooldown);
      clock := now;
      AskKeepsAll(attempts, history, now, window, cooldown, key);
      if key !in attempts {
        return None, true;
      }
      var record := attempts[key];
      if record.blockedUntil.Some? && now < record.blockedUntil.value {
        return record.blockedUntil, false;
      }
      var failures := PruneLoginFailures(record.failures, now - window);
      if |failures| == 0 {
        attempts := attempts - {key};
      } else {
        attempts := attempts[key := Record(failures, None)];
      }
      return None, true;
    }

    // Blocks exactly when the failures since the last success or block that lie inside
    // the window, with this one, reach the maximum.
    method RegisterFailure(key: string, now: int) returns (until: Option<int>, blocked: bool)
      requires Valid() && clock <= now
      modifies this
      ensures Valid() && clock == now
      ensures blocked <==> |Recent(old(Past(key)), now - window)| + 1 >= maxFailures
      ensures until == if blocked then Some(now + cooldown) else None
      ensures history == old(history)[key := old(Past(key)) + [Failure(now, blocked)]]
    {
      AllFitLater(attempts, history, clock, now, window, cooldown);
      clock := now;
      var record;
      record, blocked := CountFailure(attempts, history, key, now, window, cooldown, maxFailures);
      attempts, history := attempts[key := record], history[key := Past(key) + [Failure(now, blocked)]];
      until := if blocked then Some(now + cooldown) else None;
    }

    // Forgets everything about the key, which the history records as a success.
    method RegisterSuccess(key: string, now: int)
      requires Valid() && clock <= now
      modifies this
      ensures Valid() && clock == now && key !in attempts
      ensures history == old(history)[key := old(Past(key)) + [Success(now)]]
    {
      AllFitLater(attempts, history, clock, now, window, cooldown);
      clock := now;
      SuccessKeepsAll(attempts, history, now, window, cooldown, key);
      ghost var h := Past(key);
      attempts, history := attempts - {key}, history[key := h + [Success(now)]];
    }
  }
}
