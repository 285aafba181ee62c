/** Finite sets of naturals. */
module Sets {
  lemma Member<T>(s: set<T>) returns (y: T)
    requires s != {}
    ensures y in s
  {
    y :| y in s;
  }

  lemma {:induction false} FindGreatest(s: set<nat>) returns (m: nat)
    requires s != {}
    ensures m in s && forall x :: x in s ==> x <= m
  {
    var y := Member(s);
    var rest := s - {y};
    m := y;
    if rest != {} {
      var g := FindGreatest(rest);
      m := if y < g then g else y;
    }
    forall x | x in s ensures x <= m {
      assert x == y || x in rest;
    }
  }

  lemma GreatestExists(s: set<nat>)
    requires s != {}
    ensures exists m :: m in s && forall x :: x in s ==> x <= m
  {
    var m := FindGreatest(s);
  }

  function Greatest(s: set<nat>): (m: nat)
    requires s != {}
    ensures m in s && forall x :: x in s ==> x <= m
  {
    GreatestExists(s);
    var m :| m in s && forall x :: x in s ==> x <= m;
    m
  }

  lemma SubsetSize<T>(a: set<T>, b: set<T>)
    requires a <= b
    ensures |a| <= |b|
  {
    assert b == a + (b - a);
  }

  lemma SameSize<T>(a: set<T>, b: set<T>)
    requires a <= b && |b| <= |a|
    ensures a == b
  {
    assert b == a + (b - a);
  }

  lemma {:induction false} FindLeast(s: set<nat>) returns (m: nat)
    requires s != {}
    ensures m in s && forall x :: x in s ==> m <= x
  {
    var y := Member(s);
    var rest := s - {y};
    m := y;
    if rest != {} {
      var g := FindLeast(rest);
      m := if g < y then g else y;
    }
    forall x | x in s ensures m <= x {
      assert x == y || x in rest;
    }
  }

  function Above(s: set<nat>, k: nat): set<nat> {
    set x | x in s && k < x
  }

  // The elements with fewer than `n` above them.
  function Top(s: set<nat>, n: nat): set<nat> {
    set k | k in s && |Above(s, k)| < n
  }

  /** These are `n` elements, or all if there are not so many. */
  lemma {:induction false} TopSize(s: set<nat>, n: nat)
    ensures |Top(s, n)| == if |s| < n then |s| else n
    decreases |s|
  {
    if s == {} {
      assert Top(s, n) == {};
    } else {
      var m := FindLeast(s);
      var rest := s - {m};
      TopSize(rest, n);
      assert Above(s, m) == rest;
      forall k | k in rest ensures Above(s, k) == Above(rest, k) {}
      assert Top(s, n) == Top(rest, n) + (if |rest| < n then {m} else {});
    }
  }
}
