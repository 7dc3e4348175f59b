// The stand-alone IP limiter: a loop that disables clients seen from too many addresses,
// and one timer thread per disabled client that puts it back. They share a dictionary of
// tracked clients under a lock, and the panel is reached by calls that may fail.
//
// The protocol is a transition system over atomic steps; a thread may be interrupted
// between any two of them.

module IpLimiter {

  import opened Options
  import opened Sets

  // A client as the panel's API returns it: a dictionary.
  datatype Value = Text(s: string) | Flag(b: bool) | Number(n: int) | Opaque(raw: string)

  type Client = map<string, Value>

  function TextAt(c: Client, k: string): string {
    if k in c && c[k].Text? then c[k].s else ""
  }

  function NumberAt(c: Client, k: string): int {
    if k in c && c[k].Number? then c[k].n else 0
  }

  function Or(a: int, b: int): int {
    if a != 0 then a else b
  }

  // The name the loop tracks a fetched client under ...
  function KeyOf(c: Client): string {
    if TextAt(c, "email") != "" then TextAt(c, "email") else TextAt(c, "Email")
  }

  // ... and the name the disabling code and the timer use for the same client.
  function NameOf(c: Client): string {
    TextAt(c, "email")
  }

  // The limit that decides whether a client is fetched, and the one that is enforced.
  function FetchedLimit(c: Client): int {
    Or(Or(NumberAt(c, "limitIp"), NumberAt(c, "limit_ip")), NumberAt(c, "LimitIP"))
  }

  function EnforcedLimit(c: Client): int {
    Or(NumberAt(c, "limitIp"), NumberAt(c, "limit_ip"))
  }

  // This panel names the fields "email" and "limitIp"; the other spellings can only come
  // from another panel. A fetched client is held to the limit it was fetched for unless only
  // the third spelling is set; then it is held to zero addresses.
  lemma LimitsAgreeIff(c: Client)
    requires FetchedLimit(c) > 0
    ensures EnforcedLimit(c) == FetchedLimit(c) <==> NumberAt(c, "limitIp") != 0 || NumberAt(c, "limit_ip") != 0
    ensures EnforcedLimit(c) != FetchedLimit(c) ==> EnforcedLimit(c) == 0
    ensures EnforcedLimit(c) ==
            if NumberAt(c, "limitIp") != 0 then NumberAt(c, "limitIp") else NumberAt(c, "limit_ip")
  {
  }

  // Two records as another panel might send them: the first is tracked under a name that
  // nothing releases, the second is held to no address at all.
  lemma OtherSpellings()
    ensures var c: Client := map["Email" := Text("a"), "limitIp" := Number(2)];
            KeyOf(c) == "a" && NameOf(c) == "" && EnforcedLimit(c) == FetchedLimit(c) == 2
    ensures var c: Client := map["email" := Text("a"), "LimitIP" := Number(2)];
            KeyOf(c) == NameOf(c) == "a" && FetchedLimit(c) == 2 && EnforcedLimit(c) == 0
  {
    assert "Email" != "email" && "LimitIP" != "limitIp" && "LimitIP" != "limit_ip" by {
      assert "Email"[0] != "email"[0] && "LimitIP"[0] != "limitIp"[0] && "LimitIP"[0] != "limit_ip"[0];
    }
  }

  // The record sent to the panel: everything as fetched, only the flag replaced.
  function BuildPayload(c: Client, enabled: bool): (p: Client)
    ensures p.Keys == c.Keys + {"enable"} && p["enable"] == Flag(enabled)
    ensures forall k | k in c && k != "enable" :: p[k] == c[k]
  {
    c["enable" := Flag(enabled)]
  }

  // ------------------------------------------------------------------
  // The protocol
  // ------------------------------------------------------------------

  datatype Thread = Thread(id: int, email: string, client: Client)

  // A timer thread waits, then calls the panel, then takes the lock to forget the client.
  datatype State = State(
    tracked: map<string, Client>,
    claim: Option<Client>,         // client the loop has claimed and not yet settled
    key: string,                   // the key it was claimed under
    waiting: set<Thread>,
    calling: set<Thread>,
    leaving: set<Thread>,
    nextId: int,
    panel: map<string, Client>)

  datatype Step =
    | Claim(key: string, client: Client)
    | DisableOk                     // the panel took the disabled record: a timer starts
    | DisableFailed(applied: bool)  // the call failed, maybe after the panel applied it
    | Fire(t: Thread)
    | RestoreOk(t: Thread)
    | RestoreFailed(t: Thread)
    | Forget(t: Thread)
    | Edit(email: string, client: Client)  // someone else changes the client on the panel

  predicate Enabled(s: State, st: Step) {
    match st
    case Claim(key, client) => s.claim.None? && key !in s.tracked && key == KeyOf(client) && key != ""
    case DisableOk => s.claim.Some?
    case DisableFailed(_) => s.claim.Some?
    case Fire(t) => t in s.waiting
    case RestoreOk(t) => t in s.calling
    case RestoreFailed(t) => t in s.calling
    case Forget(t) => t in s.leaving
    case Edit(_, _) => true
  }

  function Next(s: State, st: Step): State
    requires Enabled(s, st)
  {
    match st
    case Claim(key, client) => s.(tracked := s.tracked[key := client], claim := Some(client), key := key)
    case DisableOk =>
      var c := s.claim.value;
      s.(claim := None,
         waiting := s.waiting + {Thread(s.nextId, NameOf(c), c)},
         nextId := s.nextId + 1,
         panel := s.panel[NameOf(c) := BuildPayload(c, false)])
    case DisableFailed(applied) =>
      var c := s.claim.value;
      s.(claim := None, tracked := s.tracked - {NameOf(c)},
         panel := if applied then s.panel[NameOf(c) := BuildPayload(c, false)] else s.panel)
    case Fire(t) => s.(waiting := s.waiting - {t}, calling := s.calling + {t})
    case RestoreOk(t) =>
      s.(calling := s.calling - {t}, leaving := s.leaving + {t},
         panel := s.panel[NameOf(t.client) := BuildPayload(t.client, true)])
    case RestoreFailed(t) => s.(calling := s.calling - {t}, leaving := s.leaving + {t})
    case Forget(t) => s.(leaving := s.leaving - {t}, tracked := s.tracked - {t.email})
    case Edit(e, c) => s.(panel := s.panel[e := c])
  }

  function Initial(panel: map<string, Client>): State {
    State(map[], None, "", {}, {}, {}, 0, panel)
  }

  // ------------------------------------------------------------------
  // Who holds an e-mail
  // ------------------------------------------------------------------

  ghost predicate Holds(ts: set<Thread>, e: string) {
    exists t :: t in ts && t.email == e
  }

  ghost predicate Claimed(s: State, e: string) {
    s.claim.Some? && s.key == e
  }

  // Exactly one of the three holds.
  ghost predicate OneHolder(s: State, e: string) {
    var a, b, c := Claimed(s, e), Holds(s.waiting, e), Holds(s.calling + s.leaving, e);
    (a && !b && !c) || (!a && b && !c) || (!a && !b && c)
  }

  function Threads(s: State): set<Thread> {
    s.waiting + s.calling + s.leaving
  }

  ghost predicate SingleTimers(s: State) {
    && (forall t, u | t in Threads(s) && u in Threads(s) && t.email == u.email :: t == u)
    && s.waiting !! s.calling && s.waiting !! s.leaving && s.calling !! s.leaving
  }

  ghost predicate Remembered(s: State) {
    && (s.claim.Some? ==>
          s.key in s.tracked && s.tracked[s.key] == s.claim.value && s.key == KeyOf(s.claim.value) && s.key != "")
    && (forall t | t in Threads(s) ::
          t.id < s.nextId && t.email in s.tracked && s.tracked[t.email] == t.client && t.email == NameOf(t.client))
  }

  ghost predicate Exact(s: State) {
    forall e :: e in s.tracked <==> Claimed(s, e) || Holds(Threads(s), e)
  }

  ghost predicate Good(s: State) {
    && SingleTimers(s) && Remembered(s) && Exact(s)
    && (s.claim.Some? ==> !Holds(Threads(s), s.key))
  }

  // Settling a claim is sound when the fetched client carries its own name in the field the
  // disabling code reads.
  predicate Sound(s: State, st: Step) {
    (st.DisableOk? || st.DisableFailed?) && s.claim.Some? ==> NameOf(s.claim.value) == s.key
  }

  lemma MovingKeepsGood(s: State, st: Step)
    requires Good(s) && Enabled(s, st) && (st.Fire? || st.RestoreOk? || st.RestoreFailed? || st.Edit?)
    ensures Good(Next(s, st))
  {
    assert Threads(Next(s, st)) == Threads(s);
  }

  lemma ClaimKeepsGood(s: State, st: Step)
    requires Good(s) && Enabled(s, st) && st.Claim?
    ensures Good(Next(s, st))
  {
    assert Threads(Next(s, st)) == Threads(s);
    assert !Holds(Threads(s), st.key);
  }

  lemma HoldsMore(ts: set<Thread>, n: Thread, e: string)
    ensures Holds(ts + {n}, e) <==> Holds(ts, e) || n.email == e
  {
    if Holds(ts, e) {
      var t :| t in ts && t.email == e;
      assert t in ts + {n};
    }
    assert n in ts + {n};
  }

  lemma DisableOkKeepsGood(s: State, st: Step)
    requires Good(s) && Enabled(s, st) && st.DisableOk? && Sound(s, st)
    ensures Good(Next(s, st))
  {
    var s' := Next(s, st);
    var n := Thread(s.nextId, NameOf(s.claim.value), s.claim.value);
    assert Threads(s') == Threads(s) + {n};
    assert n.email == s.key && n !in Threads(s);
    forall e ensures e in s'.tracked <==> Claimed(s', e) || Holds(Threads(s'), e) {
      assert e in s.tracked <==> Claimed(s, e) || Holds(Threads(s), e);
      HoldsMore(Threads(s), n, e);
    }
  }

  lemma DisableFailedKeepsGood(s: State, st: Step)
    requires Good(s) && Enabled(s, st) && st.DisableFailed? && Sound(s, st)
    ensures Good(Next(s, st))
  {
    assert Threads(Next(s, st)) == Threads(s);
    forall t | t in Threads(s) ensures t.email != s.key {
      assert !Holds(Threads(s), s.key);
    }
  }

  lemma ForgetKeepsGood(s: State, st: Step)
    requires Good(s) && Enabled(s, st) && st.Forget?
    ensures Good(Next(s, st))
  {
    var s', t := Next(s, st), st.t;
    assert t in Threads(s);
    assert Threads(s') == Threads(s) - {t};
    forall u | u in Threads(s) ensures s.claim.Some? ==> u.email != s.key {
      assert s.claim.Some? ==> !Holds(Threads(s), s.key);
    }
    forall e ensures e in s'.tracked <==> Claimed(s', e) || Holds(Threads(s'), e) {
      assert e in s.tracked <==> Claimed(s, e) || Holds(Threads(s), e);
      if e != t.email && Holds(Threads(s), e) {
        var u :| u in Threads(s) && u.email == e;
        assert u in Threads(s');
      }
    }
  }

  lemma StepKeepsGood(s: State, st: Step)
    requires Good(s) && Enabled(s, st) && Sound(s, st)
    ensures Good(Next(s, st))
  {
    match st
    case Claim(_, _) => ClaimKeepsGood(s, st);
    case DisableOk => DisableOkKeepsGood(s, st);
    case DisableFailed(_) => DisableFailedKeepsGood(s, st);
    case Forget(_) => ForgetKeepsGood(s, st);
    case _ => MovingKeepsGood(s, st);
  }

  ghost predicate Run(s: State, steps: seq<Step>, s': State)
    decreases |steps|
  {
    if steps == [] then s == s'
    else Enabled(s, steps[0]) && Run(Next(s, steps[0]), steps[1..], s')
  }

  predicate SoundRun(s: State, steps: seq<Step>)
    decreases |steps|
  {
    steps != [] && Enabled(s, steps[0]) ==> Sound(s, steps[0]) && SoundRun(Next(s, steps[0]), steps[1..])
  }

  lemma {:induction false} RunKeepsGood(s: State, steps: seq<Step>, s': State)
    requires Good(s) && Run(s, steps, s') && SoundRun(s, steps)
    ensures Good(s')
    decreases |steps|
  {
    if steps != [] {
      StepKeepsGood(s, steps[0]);
      RunKeepsGood(Next(s, steps[0]), steps[1..], s');
    }
  }

  lemma HoldersSplit(s: State, e: string)
    requires Good(s)
    ensures Holds(Threads(s), e) <==> Holds(s.waiting, e) || Holds(s.calling + s.leaving, e)
    ensures !(Holds(s.waiting, e) && Holds(s.calling + s.leaving, e))
    ensures Claimed(s, e) ==> !Holds(s.waiting, e) && !Holds(s.calling + s.leaving, e)
  {
    if Holds(Threads(s), e) {
      var t :| t in Threads(s) && t.email == e;
      assert t in s.waiting || t in s.calling + s.leaving;
    }
    if Holds(s.waiting, e) {
      var t :| t in s.waiting && t.email == e;
      assert t in Threads(s);
    }
    if Holds(s.calling + s.leaving, e) {
      var t :| t in s.calling + s.leaving && t.email == e;
      assert t in Threads(s);
    }
  }

  // In every interleaving of the loop and the timer threads, an e-mail is tracked exactly
  // when one of three holds for it, never two: a claim in flight, a waiting timer, or a
  // restore in progress. So no e-mail ever has two timers.
  lemma TrackedIffOneHolder(panel: map<string, Client>, steps: seq<Step>, s: State, e: string)
    requires Run(Initial(panel), steps, s) && SoundRun(Initial(panel), steps)
    ensures e in s.tracked ==> OneHolder(s, e)
    ensures e !in s.tracked ==> !Claimed(s, e) && !Holds(s.waiting, e) && !Holds(s.calling + s.leaving, e)
    ensures forall t, u | t in Threads(s) && u in Threads(s) && t.email == u.email :: t == u
  {
    RunKeepsGood(Initial(panel), steps, s);
    HoldersSplit(s, e);
  }

  // A claim that is settled although the name is elsewhere leaves an e-mail tracked that
  // nothing holds and nothing will release.
  lemma UnsoundLeaks(s: State, st: Step)
    requires Good(s) && Enabled(s, st) && !Sound(s, st)
    ensures s.key in Next(s, st).tracked && !Exact(Next(s, st))
  {
    var s', n := Next(s, st), Thread(s.nextId, NameOf(s.claim.value), s.claim.value);
    if st.DisableOk? {
      assert Threads(s') == Threads(s) + {n};
      HoldsMore(Threads(s), n, s.key);
    } else {
      assert Threads(s') == Threads(s);
    }
  }

  // Tracking is exact before every step and after the last one.
  ghost predicate AlwaysExact(s: State, steps: seq<Step>)
    decreases |steps|
  {
    Exact(s) && (steps != [] && Enabled(s, steps[0]) ==> AlwaysExact(Next(s, steps[0]), steps[1..]))
  }

  // Over any interleaving, tracking is exact all along exactly when every claim that is
  // settled carries its name where the disabling code reads it.
  lemma {:induction false} AlwaysExactIff(s: State, steps: seq<Step>, s': State)
    requires Good(s) && Run(s, steps, s')
    ensures AlwaysExact(s, steps) <==> SoundRun(s, steps)
    decreases |steps|
  {
    if steps != [] {
      if Sound(s, steps[0]) {
        StepKeepsGood(s, steps[0]);
        AlwaysExactIff(Next(s, steps[0]), steps[1..], s');
      } else {
        UnsoundLeaks(s, steps[0]);
      }
    }
  }

  // The name must be in the field the disabling code reads: for any other claim, a
  // failed disable leaves the e-mail tracked although nothing will ever release it.
  lemma ClaimIsReleasedIff(s: State, key: string, c: Client, applied: bool)
    requires Good(s) && Enabled(s, Claim(key, c))
    ensures var s1 := Next(s, Claim(key, c));
            Exact(Next(s1, DisableFailed(applied))) <==> NameOf(c) == key
  {
    var s1 := Next(s, Claim(key, c));
    var s2 := Next(s1, DisableFailed(applied));
    assert Threads(s2) == Threads(s);
    if NameOf(c) == key {
      ClaimKeepsGood(s, Claim(key, c));
      DisableFailedKeepsGood(s1, DisableFailed(applied));
    } else {
      assert key in s2.tracked && !Claimed(s2, key) && !Holds(Threads(s2), key);
    }
  }

  lemma RestoreWrites(s: State, t: Thread)
    requires Enabled(s, RestoreOk(t))
    ensures var panel := Next(s, RestoreOk(t)).panel;
            panel == s.panel[NameOf(t.client) := BuildPayload(t.client, true)]
  {
  }

  // A restore that reaches the panel puts back the record fetched when the client was
  // claimed, with only the flag set, whatever happened to it on the panel meanwhile.
  lemma RestoreReturnsFetchedRecord(panel: map<string, Client>, steps: seq<Step>, s: State, t: Thread)
    requires Run(Initial(panel), steps, s) && SoundRun(Initial(panel), steps) && t in s.calling
    ensures t.email in s.tracked
    ensures var fetched := s.tracked[t.email];
            var s' := Next(s, RestoreOk(t));
            t.email in s'.panel && s'.panel[t.email] == BuildPayload(fetched, true) &&
            (forall e | e != t.email :: e in s'.panel <==> e in s.panel) &&
            (forall e | e != t.email && e in s.panel :: s'.panel[e] == s.panel[e])
  {
    RunKeepsGood(Initial(panel), steps, s);
    assert t in Threads(s) && Remembered(s);
    RestoreWrites(s, t);
  }

  // A client that was enabled when fetched comes back as it was fetched: disabling and
  // restoring cancel out.
  lemma DisableThenRestoreRoundTrips(c: Client)
    requires "enable" in c && c["enable"] == Flag(true)
    ensures BuildPayload(BuildPayload(c, false), true) == BuildPayload(c, true) == c
  {
  }

  // ------------------------------------------------------------------
  // What the panel holds
  // ------------------------------------------------------------------

  // now is the record with the client turned off and everything else as fetched.
  predicate IsOff(fetched: Client, now: Client) {
    && now.Keys == fetched.Keys + {"enable"} && now["enable"] == Flag(false)
    && forall k | k in fetched && k != "enable" :: now[k] == fetched[k]
  }

  predicate SameAt(a: map<string, Client>, b: map<string, Client>, e: string) {
    (e in a <==> e in b) && (e in a ==> a[e] == b[e])
  }

  // A disabling call that reaches the panel, whether or not the reply arrives, turns the
  // claimed client off there and touches no other record; one that does not, touches none.
  lemma DisablingTurnsOff(s: State, st: Step)
    requires Enabled(s, st) && (st.DisableOk? || st.DisableFailed?)
    ensures var c, panel := s.claim.value, Next(s, st).panel;
            if st == DisableFailed(false) then panel == s.panel
            else && NameOf(c) in panel && IsOff(c, panel[NameOf(c)])
                 && forall e | e != NameOf(c) :: SameAt(s.panel, panel, e)
  {
  }

  // A step that can change the e-mail's record on the panel, other than by disabling.
  predicate Touches(st: Step, e: string) {
    (st.Edit? && st.email == e) || (st.RestoreOk? && NameOf(st.t.client) == e)
  }

  predicate Untouched(steps: seq<Step>, e: string) {
    forall i | 0 <= i < |steps| :: !Touches(steps[i], e)
  }

  lemma PanelStays(s: State, st: Step, e: string)
    requires Enabled(s, st) && !Touches(st, e)
    requires (st.DisableOk? || st.DisableFailed?) ==> NameOf(s.claim.value) != e
    ensures SameAt(s.panel, Next(s, st).panel, e)
  {
  }

  predicate TurnedOff(panel: map<string, Client>, e: string) {
    e in panel && "enable" in panel[e] && panel[e]["enable"] == Flag(false)
  }

  // Once off, a client stays off until a restore of it reaches the panel or someone edits it
  // there; a failed restore, a forgotten timer or a new claim never turns it on.
  lemma {:induction false} OffUntilTouched(s: State, steps: seq<Step>, s': State, e: string)
    requires Run(s, steps, s') && Untouched(steps, e) && TurnedOff(s.panel, e)
    ensures TurnedOff(s'.panel, e)
    decreases |steps|
  {
    if steps != [] {
      assert !Touches(steps[0], e);
      assert forall i | 0 <= i < |steps[1..]| :: steps[1..][i] == steps[i + 1];
      OffUntilTouched(Next(s, steps[0]), steps[1..], s', e);
    }
  }

  // The thread still has to restore its client.
  predicate Pending(s: State, t: Thread) {
    t in s.waiting + s.calling
  }

  lemma PendingStep(s: State, st: Step, t: Thread)
    requires Good(s) && Enabled(s, st) && Sound(s, st) && t.id < s.nextId && Pending(Next(s, st), t)
    ensures Pending(s, t) && st != RestoreOk(t)
    ensures (st.DisableOk? || st.DisableFailed?) ==> NameOf(s.claim.value) != t.email
    ensures st.RestoreOk? ==> NameOf(st.t.client) != t.email
  {
    assert t in Threads(s);
    assert s.claim.Some? && s.key == t.email ==> Holds(Threads(s), s.key);
  }

  // No one else changes the client on the panel.
  predicate NotEdited(steps: seq<Step>, e: string) {
    forall i | 0 <= i < |steps| :: !(steps[i].Edit? && steps[i].email == e)
  }

  lemma IdsGrow(s: State, st: Step)
    requires Enabled(s, st)
    ensures s.nextId <= Next(s, st).nextId
  {
  }

  lemma {:induction false} StaysOff(s: State, steps: seq<Step>, s': State, t: Thread)
    requires Good(s) && Run(s, steps, s') && SoundRun(s, steps) && NotEdited(steps, t.email)
    requires t.id < s.nextId && Pending(s', t)
    ensures Pending(s, t) && SameAt(s.panel, s'.panel, t.email)
    decreases |steps|
  {
    if steps != [] {
      var s1 := Next(s, steps[0]);
      assert forall i | 0 <= i < |steps[1..]| :: steps[1..][i] == steps[i + 1];
      StepKeepsGood(s, steps[0]);
      IdsGrow(s, steps[0]);
      StaysOff(s1, steps[1..], s', t);
      PendingStep(s, steps[0], t);
      PanelStays(s, steps[0], t.email);
    }
  }

  // From the moment its claim is settled, and as long as its timer has not put it back, a
  // disabled client is off on the panel with everything else as fetched, in every
  // interleaving in which no one edits it there.
  lemma DisabledStaysOff(s: State, steps: seq<Step>, s': State)
    requires Good(s) && Enabled(s, DisableOk) && Sound(s, DisableOk)
    requires var t := Thread(s.nextId, NameOf(s.claim.value), s.claim.value);
             Run(Next(s, DisableOk), steps, s') && SoundRun(Next(s, DisableOk), steps) &&
             NotEdited(steps, t.email) && Pending(s', t)
    ensures var c := s.claim.value;
            NameOf(c) in s'.panel && IsOff(c, s'.panel[NameOf(c)])
  {
    var t := Thread(s.nextId, NameOf(s.claim.value), s.claim.value);
    DisablingTurnsOff(s, DisableOk);
    StepKeepsGood(s, DisableOk);
    StaysOff(Next(s, DisableOk), steps, s', t);
  }

  // ------------------------------------------------------------------
  // Nothing stays tracked for ever
  // ------------------------------------------------------------------

  // Steps left before every claim and timer is settled.
  function Work(s: State): nat {
    (if s.claim.Some? then 4 else 0) + 3 * |s.waiting| + 2 * |s.calling| + |s.leaving|
  }

  lemma MoveCounts(a: set<Thread>, b: set<Thread>, t: Thread)
    requires t in a
    ensures |a - {t}| == |a| - 1
    ensures t !in b ==> |b + {t}| == |b| + 1
  {
  }

  lemma SettlingDoesWork(s: State, st: Step)
    requires Good(s) && Enabled(s, st) && (st.DisableOk? || st.DisableFailed?)
    ensures Work(Next(s, st)) < Work(s)
  {
    if st.DisableOk? {
      var n := Thread(s.nextId, NameOf(s.claim.value), s.claim.value);
      assert n in s.waiting ==> n in Threads(s);
      MoveCounts({n}, s.waiting, n);
    }
  }

  lemma FiringDoesWork(s: State, t: Thread)
    requires Good(s) && Enabled(s, Fire(t))
    ensures Work(Next(s, Fire(t))) < Work(s)
  {
    MoveCounts(s.waiting, s.calling, t);
  }

  lemma RestoringDoesWork(s: State, st: Step)
    requires Good(s) && Enabled(s, st) && (st.RestoreOk? || st.RestoreFailed?)
    ensures Work(Next(s, st)) < Work(s)
  {
    MoveCounts(s.calling, s.leaving, st.t);
  }

  lemma ForgettingDoesWork(s: State, t: Thread)
    requires Good(s) && Enabled(s, Forget(t))
    ensures Work(Next(s, Forget(t))) < Work(s)
  {
    MoveCounts(s.leaving, {}, t);
  }

  lemma StepDoesWork(s: State, st: Step)
    requires Good(s) && Enabled(s, st) && !st.Claim? && !st.Edit?
    ensures Work(Next(s, st)) < Work(s)
  {
    match st
    case Fire(t) => FiringDoesWork(s, t);
    case Forget(t) => ForgettingDoesWork(s, t);
    case RestoreOk(_) => RestoringDoesWork(s, st);
    case RestoreFailed(_) => RestoringDoesWork(s, st);
    case _ => SettlingDoesWork(s, st);
  }

  lemma IdleTracksNothing(s: State)
    requires Good(s) && Work(s) == 0
    ensures s.tracked == map[]
  {
    assert Threads(s) == {};
    forall e ensures e !in s.tracked {
      assert e in s.tracked <==> Claimed(s, e) || Holds(Threads(s), e);
    }
    assert s.tracked.Keys == {};
  }

  lemma DrainStep(s: State, st: Step)
    requires Good(s) && Enabled(s, st) && Sound(s, st) && !st.Claim? && !st.Edit?
    ensures Good(Next(s, st)) && Work(Next(s, st)) < Work(s)
  {
    StepDoesWork(s, st);
    StepKeepsGood(s, st);
  }

  // No new claims, and no edits of the panel by others.
  predicate NothingNew(steps: seq<Step>) {
    forall i | 0 <= i < |steps| :: !steps[i].Claim? && !steps[i].Edit?
  }

  lemma {:induction false} DrainRun(s: State, steps: seq<Step>, s': State)
    requires Good(s) && Run(s, steps, s') && SoundRun(s, steps) && NothingNew(steps)
    ensures Good(s') && |steps| + Work(s') <= Work(s)
    decreases |steps|
  {
    if steps != [] {
      assert NothingNew(steps[1..]);
      DrainStep(s, steps[0]);
      DrainRun(Next(s, steps[0]), steps[1..], s');
    }
  }

  // Without new claims the threads take at most Work(s) more steps, and when they are
  // done no e-mail is tracked.
  lemma ThreadsDrain(s: State, steps: seq<Step>, s': State)
    requires Good(s) && Run(s, steps, s') && SoundRun(s, steps) && NothingNew(steps)
    ensures |steps| + Work(s') <= Work(s)
    ensures Work(s') == 0 ==> s'.tracked == map[]
  {
    DrainRun(s, steps, s');
    if Work(s') == 0 {
      IdleTracksNothing(s');
    }
  }

  // Until then some thread can always take a step.
  lemma WorkCanProceed(s: State)
    ensures Work(s) > 0 ==> exists st :: Enabled(s, st) && !st.Claim? && !st.Edit?
  {
    if s.claim.Some? {
      assert Enabled(s, DisableOk);
    } else {
      HasElement(s.waiting);
      HasElement(s.calling);
      HasElement(s.leaving);
      if t :| t in s.waiting {
        assert Enabled(s, Fire(t));
      } else if t :| t in s.calling {
        assert Enabled(s, RestoreFailed(t));
      } else if t :| t in s.leaving {
        assert Enabled(s, Forget(t));
      }
    }
  }

  // ------------------------------------------------------------------
  // The enforcing loop
  // ------------------------------------------------------------------

  lemma {:induction false} RunAppend(s: State, a: seq<Step>, s1: State, st: Step)
    requires Run(s, a, s1) && Enabled(s1, st)
    ensures Run(s, a + [st], Next(s1, st))
    ensures SoundRun(s, a) && Sound(s1, st) ==> SoundRun(s, a + [st])
    decreases |a|
  {
    if a == [] {
      assert a + [st] == [st] && [st][1..] == [];
    } else {
      RunAppend(Next(s, a[0]), a[1..], s1, st);
      assert (a + [st])[1..] == a[1..] + [st];
    }
  }

  predicate ByOthers(st: Step) {
    st.Fire? || st.RestoreOk? || st.RestoreFailed? || st.Forget? || st.Edit?
  }

  predicate OverLimit(c: Client, ips: map<string, set<string>>) {
    (if KeyOf(c) in ips then |ips[KeyOf(c)]| else 0) > EnforcedLimit(c)
  }

  // The keys a round has to claim.
  function Due(clients: seq<Client>, ips: map<string, set<string>>, already: set<string>): set<string> {
    if clients == [] then {}
    else
      var c := clients[|clients| - 1];
      Due(clients[..|clients| - 1], ips, already) +
      (if OverLimit(c, ips) && KeyOf(c) !in already then {KeyOf(c)} else {})
  }

  // The due clients are those seen from more addresses than the limit enforced for them.
  lemma {:induction false} DueExactly(clients: seq<Client>, ips: map<string, set<string>>, already: set<string>,
                                      e: string)
    ensures e in Due(clients, ips, already) <==>
              e !in already &&
              exists i :: 0 <= i < |clients| && KeyOf(clients[i]) == e &&
                          (if e in ips then |ips[e]| > EnforcedLimit(clients[i]) else 0 > EnforcedLimit(clients[i]))
    decreases |clients|
  {
    if clients != [] {
      DueExactly(clients[..|clients| - 1], ips, already, e);
      assert clients == clients[..|clients| - 1] + [clients[|clients| - 1]];
    }
  }

  // Every client the round sets out to disable carries its name where it is read.
  predicate DueNamed(clients: seq<Client>, ips: map<string, set<string>>, already: set<string>) {
    forall i | 0 <= i < |clients| && OverLimit(clients[i], ips) && KeyOf(clients[i]) !in already ::
      NameOf(clients[i]) != ""
  }

  // One fetched client per key, as the dictionary of fetched clients has.
  predicate OnlyOne(clients: seq<Client>, i: nat)
    requires i < |clients|
  {
    forall j | 0 <= j < |clients| && j != i :: KeyOf(clients[j]) != KeyOf(clients[i])
  }

  lemma NotDueBefore(clients: seq<Client>, ips: map<string, set<string>>, already: set<string>, i: nat)
    requires i < |clients| && OnlyOne(clients, i)
    ensures KeyOf(clients[i]) !in Due(clients[..i], ips, already)
  {
    DueExactly(clients[..i], ips, already, KeyOf(clients[i]));
  }

  // A call that was refused never reached the panel; one without a reply did.
  datatype CallOutcome = Applied | Refused | LostReply

  // The client is off on the panel, with everything else as fetched.
  predicate OffOnPanel(panel: map<string, Client>, c: Client) {
    NameOf(c) in panel && IsOff(c, panel[NameOf(c)])
  }

  // Client i of a round is due, alone under its key, and the call for it reached the panel.
  predicate Reached(clients: seq<Client>, ips: map<string, set<string>>, already: set<string>,
                    calls: seq<CallOutcome>, i: nat)
    requires i < |clients| == |calls|
  {
    && OverLimit(clients[i], ips) && KeyOf(clients[i]) !in already && NameOf(clients[i]) != ""
    && OnlyOne(clients, i) && calls[i] != Refused
  }

  lemma UntouchedBefore(before: seq<Step>, steps: seq<Step>, e: string)
    requires before <= steps && Untouched(steps, e)
    ensures Untouched(before, e)
  {
    assert forall i | 0 <= i < |before| :: before[i] == steps[i];
  }

  // Of the first n clients, every one whose call reached the panel is off there unless it
  // was touched since.
  ghost predicate OffSoFar(panel: map<string, Client>, clients: seq<Client>, ips: map<string, set<string>>,
                           already: set<string>, calls: seq<CallOutcome>, steps: seq<Step>, n: nat)
    requires n <= |clients| == |calls|
  {
    forall j: nat | j < n && Reached(clients, ips, already, calls, j) && Untouched(steps, NameOf(clients[j])) ::
      OffOnPanel(panel, clients[j])
  }

  lemma OffOneMore(was: map<string, Client>, panel: map<string, Client>, clients: seq<Client>,
                   ips: map<string, set<string>>, already: set<string>, calls: seq<CallOutcome>,
                   before: seq<Step>, steps: seq<Step>, i: nat)
    requires i < |clients| == |calls| && OffSoFar(was, clients, ips, already, calls, before, i) && before <= steps
    requires forall e | e != NameOf(clients[i]) && Untouched(steps, e) :: SameAt(was, panel, e)
    requires Reached(clients, ips, already, calls, i) ==> OffOnPanel(panel, clients[i])
    ensures OffSoFar(panel, clients, ips, already, calls, steps, i + 1)
  {
    forall j: nat | j < i && Reached(clients, ips, already, calls, j) && Untouched(steps, NameOf(clients[j]))
      ensures OffOnPanel(panel, clients[j])
    {
      UntouchedBefore(before, steps, NameOf(clients[j]));
      assert KeyOf(clients[j]) != KeyOf(clients[i]);
      assert SameAt(was, panel, NameOf(clients[j]));
    }
  }

  lemma PanelStaysAt(panel: map<string, Client>, steps: seq<Step>, s: State, st: Step)
    requires Enabled(s, st) && ByOthers(st) && forall e | Untouched(steps, e) :: SameAt(panel, s.panel, e)
    ensures forall e | Untouched(steps + [st], e) :: SameAt(panel, Next(s, st).panel, e)
  {
    forall e | Untouched(steps + [st], e) ensures SameAt(panel, Next(s, st).panel, e) {
      UntouchedBefore(steps, steps + [st], e);
      assert !Touches((steps + [st])[|steps|], e);
      PanelStays(s, st, e);
    }
  }

  class Limiter {
    var s: State

    // Whatever the timer threads, or someone else on the panel, do before the loop goes on.
    method OtherThreads(schedule: seq<Step>, ghost start: State, ghost before: seq<Step>)
      returns (ghost steps: seq<Step>)
      requires Run(start, before, s)
      modifies this
      ensures Run(start, steps, s) && (SoundRun(start, before) ==> SoundRun(start, steps))
      ensures s.claim == old(s).claim && s.key == old(s).key && s.tracked.Keys <= old(s).tracked.Keys
      ensures before <= steps && forall e | Untouched(steps, e) :: SameAt(old(s).panel, s.panel, e)
    {
      steps := before;
      for i := 0 to |schedule|
        invariant before <= steps && forall e | Untouched(steps, e) :: SameAt(old(s).panel, s.panel, e)
        invariant Run(start, steps, s) && (SoundRun(start, before) ==> SoundRun(start, steps))
        invariant s.claim == old(s).claim && s.key == old(s).key && s.tracked.Keys <= old(s).tracked.Keys
      {
        if ByOthers(schedule[i]) && Enabled(s, schedule[i]) {
          RunAppend(start, steps, s, schedule[i]);
          PanelStaysAt(old(s).panel, steps, s, schedule[i]);
          steps := steps + [schedule[i]];
          s := Next(s, schedule[i]);
        }
      }
    }

    // One step of the loop itself.
    method Take(st: Step, ghost start: State, ghost before: seq<Step>) returns (ghost steps: seq<Step>)
      requires Run(start, before, s) && Enabled(s, st)
      modifies this
      ensures s == Next(old(s), st) && Run(start, steps, s) && before <= steps
      ensures SoundRun(start, before) && Sound(old(s), st) ==> SoundRun(start, steps)
    {
      RunAppend(start, before, s, st);
      steps := before + [st];
      s := Next(s, st);
    }

    // Claims one client under the lock, unless it is tracked by now, and disables it.
    method Enforce(c: Client, call: CallOutcome, schedule: (seq<Step>, seq<Step>), ghost start: State,
                   ghost before: seq<Step>)
      returns (took: bool, ghost steps: seq<Step>)
      requires Run(start, before, s) && s.claim.None? && KeyOf(c) != ""
      modifies this
      ensures Run(start, steps, s) && s.claim.None?
      ensures SoundRun(start, before) && NameOf(c) != "" ==> SoundRun(start, steps)
      ensures s.tracked.Keys <= old(s).tracked.Keys + (if took then {KeyOf(c)} else {})
      ensures !took ==> KeyOf(c) in old(s).tracked
      ensures took && call != Refused ==> OffOnPanel(s.panel, c)
      ensures before <= steps
      ensures forall e | e != NameOf(c) && Untouched(steps, e) :: SameAt(old(s).panel, s.panel, e)
    {
      steps := OtherThreads(schedule.0, start, before);
      if KeyOf(c) in s.tracked {
        return false, steps;
      }
      ghost var panel0, steps0 := s.panel, steps;
      steps := Take(Claim(KeyOf(c), c), start, steps);
      steps := OtherThreads(schedule.1, start, steps);
      ghost var panel1, steps1 := s.panel, steps;
      var settle := if call == Applied then DisableOk else DisableFailed(call == LostReply);
      DisablingTurnsOff(s, settle);
      steps := Take(settle, start, steps);
      forall e | e != NameOf(c) && Untouched(steps, e) ensures SameAt(old(s).panel, s.panel, e) {
        UntouchedBefore(steps0, steps, e);
        UntouchedBefore(steps1, steps, e);
      }
      return true, steps;
    }

    // The part of a round that is about client i.
    method EnforceOne(ips: map<string, set<string>>, clients: seq<Client>, calls: seq<CallOutcome>, i: nat,
                      schedule: (seq<Step>, seq<Step>), already: set<string>, ghost start: State,
                      ghost before: seq<Step>)
      returns (due: bool, ghost steps: seq<Step>)
      requires i < |clients| == |calls| && KeyOf(clients[i]) != "" && Run(start, before, s) && s.claim.None?
      requires s.tracked.Keys <= already + Due(clients[..i], ips, already)
      requires OffSoFar(s.panel, clients, ips, already, calls, before, i)
      modifies this
      ensures Run(start, steps, s) && s.claim.None?
      ensures SoundRun(start, before) && DueNamed(clients, ips, already) ==> SoundRun(start, steps)
      ensures Due(clients[..i + 1], ips, already) ==
              Due(clients[..i], ips, already) + (if due then {KeyOf(clients[i])} else {})
      ensures s.tracked.Keys <= already + Due(clients[..i + 1], ips, already)
      ensures OffSoFar(s.panel, clients, ips, already, calls, steps, i + 1)
    {
      var c := clients[i];
      ghost var panel := s.panel;
      assert clients[..i + 1][..i] == clients[..i];
      if KeyOf(c) in already || !OverLimit(c, ips) {
        OffOneMore(panel, panel, clients, ips, already, calls, before, before, i);
        return false, before;
      }
      var took;
      took, steps := Enforce(c, calls[i], schedule, start, before);
      if OnlyOne(clients, i) {
        NotDueBefore(clients, ips, already, i);
      }
      OffOneMore(panel, s.panel, clients, ips, already, calls, before, steps, i);
      due := true;
    }

    // One round: every fetched client over its limit and not tracked when the round began
    // is claimed, once, and no other; each claim is settled before the next. The timer
    // threads may run before every lock section and call, in any order. What happens is a
    // run of the protocol, and a sound one when the due clients carry their names. A due
    // client whose call reached the panel is off there at the end, with everything else as
    // fetched, unless meanwhile a timer restored it or someone edited it.
    method CheckAndEnforce(ips: map<string, set<string>>, clients: seq<Client>, calls: seq<CallOutcome>,
                           schedules: seq<(seq<Step>, seq<Step>)>)
      returns (claimed: set<string>, ghost steps: seq<Step>)
      requires s.claim.None? && |calls| == |clients| == |schedules|
      requires forall i | 0 <= i < |clients| :: KeyOf(clients[i]) != ""
      modifies this
      ensures Run(old(s), steps, s) && s.claim.None?
      ensures claimed == Due(clients, ips, old(s).tracked.Keys)
      ensures Good(old(s)) && DueNamed(clients, ips, old(s).tracked.Keys) ==> SoundRun(old(s), steps) && Good(s)
      ensures OffSoFar(s.panel, clients, ips, old(s).tracked.Keys, calls, steps, |clients|)
    {
      var already := s.tracked.Keys;
      claimed, steps := {}, [];
      for i := 0 to |clients|
        invariant Run(old(s), steps, s) && s.claim.None?
        invariant DueNamed(clients, ips, already) ==> SoundRun(old(s), steps)
        invariant claimed == Due(clients[..i], ips, already) && s.tracked.Keys <= already + claimed
        invariant OffSoFar(s.panel, clients, ips, already, calls, steps, i)
      {
        var due;
        due, steps := EnforceOne(ips, clients, calls, i, schedules[i], already, old(s), steps);
        if due {
          claimed := claimed + {KeyOf(clients[i])};
        }
      }
      assert clients[..|clients|] == clients;
      if Good(old(s)) && DueNamed(clients, ips, already) {
        RunKeepsGood(old(s), steps, s);
      }
    }
  }
}
