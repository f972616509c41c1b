/** Sizes of finite sets: intervals, subsets, images and differences. */
module FiniteSets {

  /** Some element of a non-empty set. */
  method Pick<T>(s: set<T>) returns (x: T)
    requires s != {}
    ensures x in s
  {
    x :| x in s;
  }

  /** The same for proofs, which cannot call a method. */
  lemma Member<T>(s: set<T>) returns (x: T)
    requires s != {}
    ensures x in s
  {
    x :| x in s;
  }

  function Interval(lo: int, hi: int): (r: set<int>)
    requires lo <= hi + 1
    ensures forall x :: x in r <==> lo <= x <= hi
    ensures |r| == hi - lo + 1
    decreases hi - lo + 1
  {
    if lo > hi then {} else Interval(lo, hi - 1) + {hi}
  }

  lemma SubsetSize<T>(a: set<T>, b: set<T>)
    requires a <= b
    ensures |a| <= |b|
  {
    if a != {} {
      var x :| x in a;
      SubsetSize(a - {x}, b - {x});
    }
  }

  lemma {:induction false} ImageSize<A, B>(s: set<A>, f: A -> B, t: set<B>)
    requires forall x :: x in s ==> f(x) in t
    requires forall y :: y in t ==> exists x :: x in s && f(x) == y
    requires forall x, y :: x in s && y in s && f(x) == f(y) ==> x == y
    ensures |s| == |t|
    decreases s
  {
    if s == {} {
      assert forall y :: y !in t;
    } else {
      var x :| x in s;
      var s', t' := s - {x}, t - {f(x)};
      forall y | y in t' ensures exists x' :: x' in s' && f(x') == y {
        var x' :| x' in s && f(x') == y;
        assert x' in s';
      }
      ImageSize(s', f, t');
    }
  }

  lemma DifferenceSize<T>(a: set<T>, b: set<T>)
    requires b <= a
    ensures |a - b| == |a| - |b|
  {
    assert a == (a - b) + b;
  }
}
