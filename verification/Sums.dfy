/** Sums of integer sequences and how they behave under reordering. */
module Sums {
  import opened Sorting

  function Sum(s: seq<int>): int {
    if s == [] then 0 else s[0] + Sum(s[1..])
  }

  lemma {:induction false} SumAppend(a: seq<int>, b: seq<int>)
    ensures Sum(a + b) == Sum(a) + Sum(b)
  {
    if a == [] {
      assert a + b == b;
    } else {
      assert (a + b)[1..] == a[1..] + b;
      SumAppend(a[1..], b);
    }
  }

  lemma SumStep(s: seq<int>, i: nat)
    requires i < |s|
    ensures Sum(s[..i + 1]) == Sum(s[..i]) + s[i]
  {
    assert s[..i + 1] == s[..i] + [s[i]];
    SumAppend(s[..i], [s[i]]);
  }

  /** Where the head of one arrangement sits in another arrangement of the same elements. */
  lemma FindHead<T>(a: seq<T>, b: seq<T>) returns (j: nat)
    requires a != [] && multiset(a) == multiset(b)
    ensures j < |b| && b[j] == a[0] && b == b[..j] + [b[j]] + b[j + 1..]
    ensures multiset(a[1..]) == multiset(b[..j] + b[j + 1..])
  {
    j := HeadIndex(a, b);
    Without(b, j);
    DropHead(a);
  }

  lemma HeadIndex<T>(a: seq<T>, b: seq<T>) returns (j: nat)
    requires a != [] && multiset(a) == multiset(b)
    ensures j < |b| && b[j] == a[0]
  {
    assert a[0] in multiset(b);
    j :| 0 <= j < |b| && b[j] == a[0];
  }

  /** Leaving out one position takes one occurrence from the multiset. */
  lemma Without<T>(s: seq<T>, j: nat)
    requires j < |s|
    ensures s == s[..j] + [s[j]] + s[j + 1..]
    ensures multiset(s[..j] + s[j + 1..]) == multiset(s) - multiset{s[j]}
  {
    var front, back := s[..j], s[j + 1..];
    assert s == (front + [s[j]]) + back;
    assert multiset(s) == multiset(front + [s[j]]) + multiset(back);
    assert multiset(front + [s[j]]) == multiset(front) + multiset{s[j]};
  }

  lemma {:induction false} SumPermutation(a: seq<int>, b: seq<int>)
    requires multiset(a) == multiset(b)
    ensures Sum(a) == Sum(b)
    decreases |a|
  {
    if a == [] {
      assert |multiset(b)| == 0;
    } else {
      var j := FindHead(a, b);
      SumPermutation(a[1..], b[..j] + b[j + 1..]);
      SumAppend(b[..j], b[j + 1..]);
      SumAppend(b[..j] + [b[j]], b[j + 1..]);
      SumAppend(b[..j], [b[j]]);
    }
  }

  /** A prefix of non-negative terms never sums to more than a longer prefix. */
  lemma {:induction false} PrefixSumMonotone(s: seq<int>, i: nat, j: nat)
    requires i <= j <= |s|
    requires forall x :: x in s ==> x >= 0
    ensures 0 <= Sum(s[..i]) <= Sum(s[..j])
    decreases j
  {
    if j > 0 {
      SumStep(s, j - 1);
      assert s[j - 1] in s;
      PrefixSumMonotone(s, if i < j then i else j - 1, j - 1);
    }
  }
}
