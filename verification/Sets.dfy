// Small facts about finite sets and sequences.

module Sets {

  lemma HasElement<T>(s: set<T>)
    ensures s == {} || exists x :: x in s
  {
    if !exists x :: x in s {
      assert s == {};
    }
  }

  lemma HasInt(s: set<int>)
    ensures s == {} || exists i :: i in s
  {
    if !exists i :: i in s {
      assert s == {};
    }
  }

  lemma {:induction false} SubsetSize<T>(a: set<T>, b: set<T>)
    requires a <= b
    ensures |a| <= |b|
    ensures |a| == |b| ==> a == b
    decreases |b|
  {
    if a != {} {
      var x :| x in a;
      SubsetSize(a - {x}, b - {x});
      assert a == (a - {x}) + {x} && b == (b - {x}) + {x};
    } else {
      assert |b| == 0 ==> b == {};
    }
  }

  // A sequence has at most as many distinct elements as elements.
  lemma {:induction false} FewerDistinct<T>(s: seq<T>)
    ensures |set e | e in s| <= |s|
  {
    if s != [] {
      var front := s[..|s| - 1];
      FewerDistinct(front);
      assert (set e | e in s) == (set e | e in front) + {s[|s| - 1]};
    }
  }
}
