// E-mails deleted a short while ago, remembered so that a node snapshot taken before the
// delete does not bring the client back.

module Tombstones {

  const TTL: int := 90

  // The deletions so far, oldest first, and the clock of the last call.
  datatype Deletion = Deletion(email: string, at: int)

  // The time of the last deletion of the e-mail.
  function LastOf(history: seq<Deletion>, e: string): (i: int)
    ensures -1 <= i < |history|
    ensures i >= 0 ==> history[i].email == e
    ensures forall j | i < j < |history| :: history[j].email != e
    decreases |history|
  {
    if history == [] then -1
    else if history[|history| - 1].email == e then |history| - 1
    else LastOf(history[..|history| - 1], e)
  }

  ghost predicate Recent(history: seq<Deletion>, e: string, now: int) {
    LastOf(history, e) >= 0 && now - history[LastOf(history, e)].at <= TTL
  }

  // What is stored is the last deletion; what is missing was deleted too long ago, if ever.
  ghost predicate Tracks(deleted: map<string, int>, history: seq<Deletion>, clock: int) {
    && (forall i | 0 <= i < |history| :: history[i].at <= clock)
    && (forall e | e in deleted :: LastOf(history, e) >= 0 && deleted[e] == history[LastOf(history, e)].at)
    && (forall e: string | e !in deleted :: !Recent(history, e, clock))
  }

  lemma LastAfter(history: seq<Deletion>, d: Deletion, e: string)
    ensures LastOf(history + [d], e) == if e == d.email then |history| else LastOf(history, e)
  {
    assert (history + [d])[..|history|] == history;
  }

  lemma Remember(deleted: map<string, int>, history: seq<Deletion>, clock: int, d: Deletion)
    requires Tracks(deleted, history, clock) && clock <= d.at
    ensures Tracks(deleted[d.email := d.at], history + [d], d.at)
  {
    var longer := history + [d];
    forall e: string
      ensures LastOf(longer, e) == if e == d.email then |history| else LastOf(history, e)
      ensures e != d.email && LastOf(history, e) >= 0 ==> longer[LastOf(longer, e)] == history[LastOf(history, e)]
    {
      LastAfter(history, d, e);
    }
  }

  lemma Forget(deleted: map<string, int>, history: seq<Deletion>, now: int)
    requires Tracks(deleted, history, now)
    ensures Tracks(map e | e in deleted && deleted[e] >= now - TTL :: deleted[e], history, now)
  {
  }

  class Registry {
    var deleted: map<string, int>
    ghost var history: seq<Deletion>
    ghost var clock: int

    ghost predicate Valid()
      reads this
    {
      Tracks(deleted, history, clock)
    }

    constructor (now: int)
      ensures Valid() && history == [] && clock == now
    {
      deleted, history, clock := map[], [], now;
    }

    // Remembers the deletion and forgets those that are too old.
    method Tombstone(email: string, now: int)
      requires Valid() && clock <= now
      modifies this
      ensures Valid() && clock == now
      ensures history == if email == "" then old(history) else old(history) + [Deletion(email, now)]
    {
      if email == "" {
        clock := now;
        return;
      }
      Remember(deleted, history, clock, Deletion(email, now));
      deleted, history, clock := deleted[email := now], history + [Deletion(email, now)], now;
      Forget(deleted, history, now);
      deleted := map e | e in deleted && deleted[e] >= now - TTL :: deleted[e];
    }

    // Whether the e-mail was deleted within the last 90 seconds: a statement about the
    // whole history, which forgetting never changes.
    method IsTombstoned(email: string, now: int) returns (yes: bool)
      requires Valid() && clock <= now
      modifies this
      ensures Valid() && clock == now && history == old(history)
      ensures yes <==> email != "" && Recent(history, email, now)
    {
      clock := now;
      if email == "" || email !in deleted {
        return false;
      }
      if now - deleted[email] > TTL {
        deleted := deleted - {email};
        return false;
      }
      return true;
    }
  }
}
