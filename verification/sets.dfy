/** Facts about finite sets of descriptors used by the registration and dispatch proofs. */
module DescriptorSets {

  /** The descriptors 0 .. n-1. */
  function Range(n: nat): (s: set<int>)
    ensures forall fd :: fd in s <==> 0 <= fd < n
    ensures |s| == n
  {
    if n == 0 then {} else Range(n - 1) + {n - 1}
  }

  /** A subset of a finite set is no larger than it. */
  lemma SubsetNoLarger(a: set<int>, b: set<int>)
    requires a <= b
    ensures |a| <= |b|
  {
    assert b == a + (b - a);
  }

  /** A set of descriptors below `n` has at most `n` members. */
  lemma BoundedSize(s: set<int>, n: nat)
    requires forall x :: x in s ==> 0 <= x < n
    ensures |s| <= n
  {
    SubsetNoLarger(s, Range(n));
  }

  /** A set of `n` descriptors below `n` holds every one of them. */
  lemma BoundedAndFull(s: set<int>, n: nat, fd: int)
    requires forall x :: x in s ==> 0 <= x < n
    requires |s| == n
    requires 0 <= fd < n
    ensures fd in s
  {
    if fd !in s {
      assert s <= Range(n) - {fd};
      SubsetNoLarger(s, Range(n) - {fd});
    }
  }

  /** A set other than the empty one has a member. */
  lemma NonEmptyHasMember(s: set<int>)
    requires s != {}
    ensures exists x :: x in s
  {
    if forall x :: x !in s {
      assert false;
    }
  }

  /** A non-empty finite set of integers has a least member. */
  lemma {:induction false} LeastExists(s: set<int>)
    requires s != {}
    ensures exists m :: m in s && forall x :: x in s ==> m <= x
    decreases |s|
  {
    NonEmptyHasMember(s);
    var x :| x in s;
    var rest := s - {x};
    if rest == {} {
      forall y | y in s
        ensures y == x
      {
        assert y !in rest;
      }
      assert x in s && forall y :: y in s ==> x <= y;
    } else {
      LeastExists(rest);
      var m' :| m' in rest && forall y :: y in rest ==> m' <= y;
      var m := if x < m' then x else m';
      assert forall y :: y in s ==> y == x || y in rest;
      assert m in s && forall y :: y in s ==> m <= y;
    }
  }

  /** The least member of a non-empty set. */
  ghost function Least(s: set<int>): (m: int)
    requires s != {}
    ensures m in s
    ensures forall x :: x in s ==> m <= x
  {
    LeastExists(s);
    var m :| m in s && forall x :: x in s ==> m <= x; m
  }
}
