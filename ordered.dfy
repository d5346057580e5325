/** The ascending iteration order of `std::set` and `std::map` over integer
    ids: `begin()` is the smallest element, and a full traversal visits the
    keys in increasing order. */
module Ordered {

  predicate StrictlyIncreasing(s: seq<int>)
  {
    forall i, j :: 0 <= i < j < |s| ==> s[i] < s[j]
  }

  predicate IsMinimum(m: int, s: set<int>)
  {
    m in s && forall y :: y in s ==> m <= y
  }

  /** Every non-empty finite set of ids has a smallest element. */
  lemma {:induction false} MinExists(s: set<int>)
    requires s != {}
    ensures exists m :: IsMinimum(m, s)
  {
    if forall y :: y !in s {
      assert false;
    }
    var x :| x in s;
    if s != {x} {
      MinExists(s - {x});
      var m :| IsMinimum(m, s - {x});
      assert s == (s - {x}) + {x};
      if x < m {
        assert IsMinimum(x, s);
      } else {
        assert IsMinimum(m, s);
      }
    } else {
      assert IsMinimum(x, s);
    }
  }

  /** The element `begin()` designates. */
  ghost function MinOf(s: set<int>): (m: int)
    requires s != {}
    ensures IsMinimum(m, s)
  {
    MinExists(s);
    var m :| IsMinimum(m, s); m
  }

  lemma SubsetCard<T>(a: set<T>, b: set<T>)
    requires a <= b
    ensures |a| <= |b|
    ensures a < b ==> |a| < |b|
  {
    assert b == a + (b - a);
    if a < b {
      assert b - a != {};
    }
  }

  /** The keys of a set or map in the order a traversal visits them. */
  method SortedIds(s: set<int>) returns (r: seq<int>)
    ensures StrictlyIncreasing(r)
    ensures forall x :: x in r <==> x in s
    ensures |r| == |s|
  {
    var rest := s;
    r := [];
    while rest != {}
      invariant rest <= s
      invariant forall x :: x in s <==> x in r || x in rest
      invariant forall x :: x in r ==> x !in rest
      invariant StrictlyIncreasing(r)
      invariant forall i, y :: 0 <= i < |r| && y in rest ==> r[i] < y
      invariant |r| + |rest| == |s|
      decreases |rest|
    {
      MinExists(rest);
      var m :| IsMinimum(m, rest);
      r := r + [m];
      rest := rest - {m};
    }
  }
}
