// Two loops that number a name until it is free: proxy names in a Clash profile and
// e-mails of copied clients. Both stop because the taken names are finitely many and the
// printed numbers are all different.

module Naming {

  import opened Text

  // The k-th name tried: the base itself, then the base with a printed number.
  function Candidate(base: string, sep: char, first: nat, k: nat): string {
    if k == 0 then base else base + [sep] + Decimal(k - 1 + first)
  }

  lemma CandidatesDiffer(base: string, sep: char, first: nat, j: nat, k: nat)
    requires Candidate(base, sep, first, j) == Candidate(base, sep, first, k)
    ensures j == k
  {
    var a, b := Candidate(base, sep, first, j), Candidate(base, sep, first, k);
    if j > 0 && k > 0 {
      assert a[|base| + 1..] == Decimal(j - 1 + first) && b[|base| + 1..] == Decimal(k - 1 + first);
      DecimalInjective(j - 1 + first, k - 1 + first);
    } else {
      assert j == 0 ==> |a| == |base|;
      assert k == 0 ==> |b| == |base|;
    }
  }

  ghost predicate IsAhead(s: string, base: string, sep: char, first: nat, k: nat) {
    exists j: nat :: j >= k && s == Candidate(base, sep, first, j)
  }

  // The taken names that could still be tried from k on.
  ghost function Ahead(taken: set<string>, base: string, sep: char, first: nat, k: nat): set<string> {
    set s | s in taken && IsAhead(s, base, sep, first, k)
  }

  lemma AheadFrom(base: string, sep: char, first: nat, k: nat, j: nat)
    requires j >= k
    ensures IsAhead(Candidate(base, sep, first, j), base, sep, first, k)
  {
  }

  // Each taken candidate that is passed is not met again.
  lemma AheadShrinks(taken: set<string>, base: string, sep: char, first: nat, k: nat)
    requires Candidate(base, sep, first, k) in taken
    ensures Ahead(taken, base, sep, first, k + 1) < Ahead(taken, base, sep, first, k)
  {
    var c := Candidate(base, sep, first, k);
    AheadFrom(base, sep, first, k, k);
    if IsAhead(c, base, sep, first, k + 1) {
      var j: nat :| j >= k + 1 && c == Candidate(base, sep, first, j);
      CandidatesDiffer(base, sep, first, j, k);
    }
    forall s | s in Ahead(taken, base, sep, first, k + 1) ensures s in Ahead(taken, base, sep, first, k) {
      var j: nat :| j >= k + 1 && s == Candidate(base, sep, first, j);
      AheadFrom(base, sep, first, k, j);
    }
    assert c in Ahead(taken, base, sep, first, k) && c !in Ahead(taken, base, sep, first, k + 1);
  }

  // The first number from k on whose candidate is free.
  ghost function FirstFree(taken: set<string>, base: string, sep: char, first: nat, k: nat): (r: nat)
    ensures r >= k && Candidate(base, sep, first, r) !in taken
    ensures forall j | k <= j < r :: Candidate(base, sep, first, j) in taken
    decreases Ahead(taken, base, sep, first, k)
  {
    if Candidate(base, sep, first, k) in taken then
      AheadShrinks(taken, base, sep, first, k);
      FirstFree(taken, base, sep, first, k + 1)
    else k
  }

  // ------------------------------------------------------------------
  // Clash proxy names
  // ------------------------------------------------------------------

  class Proxy {
    var name: string
    const typ: string
    const server: string
    const port: string

    constructor (name: string, typ: string, server: string, port: string) {
      this.name, this.typ, this.server, this.port := name, typ, server, port;
    }

    // Without a type or a server the position, counted from one, makes the name.
    function FallbackName(index: nat): (r: string)
      ensures r != ""
    {
      if typ != "" && server != "" then typ + "-" + server + "-" + port else "proxy-" + Decimal(index + 1)
    }

    function Base(index: nat): (r: string)
      reads this`name
      ensures r != ""
    {
      if name == "" then FallbackName(index) else name
    }
  }

  ghost function Bases(proxies: seq<Proxy>): (r: seq<string>)
    reads proxies
    ensures |r| == |proxies|
    ensures forall i | 0 <= i < |r| :: r[i] == proxies[i].Base(i)
    decreases |proxies|
  {
    if proxies == [] then [] else Bases(proxies[..|proxies| - 1]) + [proxies[|proxies| - 1].Base(|proxies| - 1)]
  }

  // A name that is given is the base; without one the type, server and port make it, or the
  // position, counted from one, when the type or the server is missing.
  lemma BaseSays(proxies: seq<Proxy>, i: nat)
    requires i < |proxies|
    ensures var p, b := proxies[i], Bases(proxies)[i];
            && (p.name != "" ==> b == p.name)
            && (p.name == "" && (p.typ == "" || p.server == "") ==> b == "proxy-" + Decimal(i + 1))
            && (p.name == "" && p.typ != "" && p.server != "" ==> b == p.typ + "-" + p.server + "-" + p.port)
  {
  }

  ghost function Taken(names: seq<string>): set<string> {
    set n | n in names
  }

  ghost function FreeName(base: string, seen: set<string>): string {
    Candidate(base, '-', 2, FirstFree(seen, base, '-', 2, 0))
  }

  // Each base takes its first free name after those before it.
  ghost function Names(bases: seq<string>): (r: seq<string>)
    ensures |r| == |bases|
    decreases |bases|
  {
    if bases == [] then []
    else
      var front, b := Names(bases[..|bases| - 1]), bases[|bases| - 1];
      front + [FreeName(b, Taken(front))]
  }

  predicate AllDifferent(names: seq<string>) {
    forall i, j | 0 <= i < j < |names| :: names[i] != names[j]
  }

  lemma LastName(bases: seq<string>)
    requires bases != []
    ensures var front, b, names := bases[..|bases| - 1], bases[|bases| - 1], Names(bases);
            var last := names[|front|];
            && names == Names(front) + [last] && last == FreeName(b, Taken(Names(front)))
            && last !in Taken(Names(front)) && b <= last
            && (b !in Taken(Names(front)) ==> last == b)
  {
  }

  // The names are pairwise different and none is empty.
  lemma {:induction false} NamesAreUnique(bases: seq<string>)
    requires forall i | 0 <= i < |bases| :: bases[i] != ""
    ensures AllDifferent(Names(bases))
    ensures forall i | 0 <= i < |bases| :: Names(bases)[i] != ""
    decreases |bases|
  {
    if bases != [] {
      NamesAreUnique(bases[..|bases| - 1]);
      LastName(bases);
    }
  }

  // Each name starts with its base, and is the base itself when no earlier proxy has it.
  lemma {:induction false} NamesKeepFreeBases(bases: seq<string>, i: nat)
    requires i < |bases|
    ensures bases[i] <= Names(bases)[i]
    ensures bases[i] !in Taken(Names(bases)[..i]) ==> Names(bases)[i] == bases[i]
    decreases |bases|
  {
    var front := bases[..|bases| - 1];
    LastName(bases);
    if i < |front| {
      NamesKeepFreeBases(front, i);
      assert Names(bases)[..i] == Names(front)[..i];
    } else {
      assert Names(bases)[..i] == Names(front);
    }
  }

  method NumberUntilFree(base: string, seen: set<string>) returns (name: string)
    ensures name == FreeName(base, seen)
  {
    name := base;
    var n := 2;
    while name in seen
      invariant n >= 2 && name == Candidate(base, '-', 2, n - 2)
      invariant FirstFree(seen, base, '-', 2, n - 2) == FirstFree(seen, base, '-', 2, 0)
      decreases Ahead(seen, base, '-', 2, n - 2)
    {
      AheadShrinks(seen, base, '-', 2, n - 2);
      name := base + "-" + Decimal(n);
      n := n + 1;
    }
  }

  method NameProxy(p: Proxy, index: nat, seen: set<string>) returns (name: string)
    modifies p`name
    ensures name == p.name == FreeName(old(p.Base(index)), seen)
  {
    name := NumberUntilFree(p.Base(index), seen);
    p.name := name;
  }

  lemma TakenOneMore(names: seq<string>, i: nat)
    requires i < |names|
    ensures Taken(names[..i + 1]) == Taken(names[..i]) + {names[i]}
  {
    assert names[..i + 1] == names[..i] + [names[i]];
  }

  // The i-th name is made from the names before it.
  ghost predicate Follows(names: seq<string>, base: string, i: nat)
    requires i < |names|
  {
    names[i] == FreeName(base, Taken(names[..i]))
  }

  lemma FollowsMore(names: seq<string>, last: string, base: string, i: nat)
    requires i < |names| && Follows(names, base, i)
    ensures Follows(names + [last], base, i)
  {
    assert (names + [last])[..i] == names[..i];
  }

  lemma LastFollows(names: seq<string>, base: string)
    ensures Follows(names + [FreeName(base, Taken(names))], base, |names|)
  {
    assert (names + [FreeName(base, Taken(names))])[..|names|] == names;
  }

  lemma {:induction false} NextName(bases: seq<string>, i: nat)
    requires i < |bases|
    ensures Follows(Names(bases), bases[i], i)
    decreases |bases|
  {
    var front, b := bases[..|bases| - 1], bases[|bases| - 1];
    var last := FreeName(b, Taken(Names(front)));
    assert Names(bases) == Names(front) + [last];
    if i < |front| {
      NextName(front, i);
      FollowsMore(Names(front), last, bases[i], i);
    } else {
      LastFollows(Names(front), b);
    }
  }

  // Every proxy, an object of its own, gets a non-empty name no other one has.
  method EnsureUniqueProxyNames(proxies: seq<Proxy>)
    requires forall i, j | 0 <= i < j < |proxies| :: proxies[i] != proxies[j]
    modifies proxies
    ensures forall i | 0 <= i < |proxies| :: proxies[i].name == Names(old(Bases(proxies)))[i]
    ensures forall i, j | 0 <= i < j < |proxies| :: proxies[i].name != proxies[j].name
    ensures forall i | 0 <= i < |proxies| :: proxies[i].name != ""
    ensures forall i | 0 <= i < |proxies| :: old(Bases(proxies))[i] <= proxies[i].name
  {
    ghost var bases := Bases(proxies);
    ghost var names := Names(bases);
    NamesAreUnique(bases);
    forall i | 0 <= i < |bases| ensures bases[i] <= names[i] {
      NamesKeepFreeBases(bases, i);
    }
    var seen: set<string> := {};
    for i := 0 to |proxies|
      invariant seen == Taken(names[..i])
      invariant forall j | 0 <= j < i :: proxies[j].name == names[j]
      invariant forall j | i <= j < |proxies| :: proxies[j].name == old(proxies[j].name)
    {
      assert proxies[i].Base(i) == bases[i];
      NextName(bases, i);
      TakenOneMore(names, i);
      var name := NameProxy(proxies[i], i, seen);
      seen := seen + {name};
    }
  }

  // ------------------------------------------------------------------
  // E-mails of copied clients
  // ------------------------------------------------------------------

  lemma LowerCandidate(base: string, k: nat)
    ensures Lower(Candidate(base, '_', 1, k)) == Candidate(Lower(base), '_', 1, k)
  {
    if k > 0 {
      LowerConcat(base + "_", Decimal(k));
      LowerConcat(base, "_");
      LowerDecimal(k);
    }
  }

  ghost function CopiedEmail(original: string, target: nat, occupied: set<string>): string {
    var base := original + "_" + Decimal(target);
    Candidate(base, '_', 1, FirstFree(occupied, Lower(base), '_', 1, 0))
  }

  // Picks the first numbered e-mail that is free ignoring case, and occupies it.
  method NextAvailableCopiedEmail(original: string, target: nat, occupied: set<string>)
    returns (email: string, nowOccupied: set<string>)
    ensures email == CopiedEmail(original, target, occupied)
    ensures Lower(email) !in occupied && nowOccupied == occupied + {Lower(email)}
  {
    var base := original + "_" + Decimal(target);
    email := base;
    var suffix := 0;
    LowerCandidate(base, 0);
    while Lower(email) in occupied
      invariant email == Candidate(base, '_', 1, suffix) && Lower(email) == Candidate(Lower(base), '_', 1, suffix)
      invariant FirstFree(occupied, Lower(base), '_', 1, suffix) == FirstFree(occupied, Lower(base), '_', 1, 0)
      decreases Ahead(occupied, Lower(base), '_', 1, suffix)
    {
      AheadShrinks(occupied, Lower(base), '_', 1, suffix);
      suffix := suffix + 1;
      email := base + "_" + Decimal(suffix);
      LowerCandidate(base, suffix);
    }
    nowOccupied := occupied + {Lower(email)};
  }

  // The e-mails of a whole copy differ, ignoring case, from all e-mails in use and from
  // each other.
  method CopyEmails(originals: seq<string>, target: nat, occupied: set<string>) returns (emails: seq<string>)
    ensures |emails| == |originals|
    ensures forall i | 0 <= i < |emails| :: Lower(emails[i]) !in occupied
    ensures forall i, j | 0 <= i < j < |emails| :: Lower(emails[i]) != Lower(emails[j])
    ensures forall i | 0 <= i < |emails| :: (originals[i] + "_" + Decimal(target)) <= emails[i]
  {
    emails := [];
    var taken := occupied;
    for i := 0 to |originals|
      invariant |emails| == i
      invariant occupied <= taken && forall j | 0 <= j < i :: Lower(emails[j]) in taken
      invariant forall j | 0 <= j < i :: Lower(emails[j]) !in occupied
      invariant forall j, k | 0 <= j < k < i :: Lower(emails[j]) != Lower(emails[k])
      invariant forall j | 0 <= j < i :: (originals[j] + "_" + Decimal(target)) <= emails[j]
    {
      var email;
      email, taken := NextAvailableCopiedEmail(originals[i], target, taken);
      emails := emails + [email];
    }
  }
}
