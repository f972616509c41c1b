/** The share of the N largest validators against every group of at most N validators. */
module TopShare {
  import opened Int64
  import opened Sorting
  import opened Sums
  import opened Nakamoto
  import opened Percentages

  function Min(i: int, j: nat): nat {
    if i <= 0 then 0 else if i < j then i else j
  }

  method Accumulate(s: array<int>, topN: int) returns (total: int64, top: int64)
    ensures total == Wrap64(Sum(s[..])) && top == Wrap64(Sum(s[..][..Min(topN, s.Length)]))
  {
    total, top := 0, 0;
    for i := 0 to s.Length
      invariant total == Wrap64(Sum(s[..][..i]))
      invariant top == Wrap64(Sum(s[..][..Min(topN, i)]))
    {
      SumStep(s[..], i);
      WrapAdd(Sum(s[..][..i]), s[i]);
      total := Wrap64(total + s[i]);
      if i < topN {
        top := Wrap64(top + s[i]);
      }
    }
    assert s[..][..s.Length] == s[..];
  }

  method ComputeTopShare(p: seq<int64>, topN: int) returns (share: real)
    ensures share == ShareOf(p, topN)
    ensures (forall x :: x in p ==> x >= 0) && Sum(p) > 0 ==> (IsLargestShare(p, topN, share) <==> RatioKept(p, topN))
    ensures Representable(p) ==> IsLargestShare(p, topN, share)
  {
    var s := SortedPowers(p, Down);
    SumPermutation(s[..], p);
    var total, top := Accumulate(s, topN);
    share := Percent(top, total);
    ShareMeaning(p, topN);
  }

  lemma ShareMeaning(p: seq<int>, topN: int)
    ensures (forall x :: x in p ==> x >= 0) && Sum(p) > 0 ==>
              (IsLargestShare(p, topN, ShareOf(p, topN)) <==> RatioKept(p, topN))
    ensures Representable(p) ==> IsLargestShare(p, topN, ShareOf(p, topN))
  {
    if (forall x :: x in p ==> x >= 0) && Sum(p) > 0 {
      TopShareIsLargestIff(p, topN);
    }
    if Representable(p) {
      TopShareIsLargest(p, topN);
    }
  }

  /** The power of the `topN` largest validators. */
  function TopPower(p: seq<int>, topN: int): int {
    Sum(SortedCopy(Down, p)[..Min(topN, |p|)])
  }

  function ShareOf(p: seq<int>, topN: int): real {
    Percent(Wrap64(TopPower(p, topN)), Wrap64(Sum(p)))
  }

  /** `share` is reached by some group of at most `topN` validators and beaten by none. */
  ghost predicate IsLargestShare(p: seq<int>, topN: int, share: real) {
    && (exists m: seq<bool> :: GroupOf(p, m, topN) && share == Percent(Power(p, m), Sum(p)))
    && (forall m: seq<bool> :: GroupOf(p, m, topN) ==> Percent(Power(p, m), Sum(p)) <= share)
    && 0.0 <= share <= 100.0
    && (|p| <= topN ==> share == 100.0)
  }

  /** At most `topN` validators; a limit below zero still admits the empty group. */
  ghost predicate GroupOf(p: seq<int>, m: seq<bool>, topN: int) {
    |m| == |p| && Size(m) <= Min(topN, |p|)
  }

  /** Wrapping has kept the ratio of the two accumulators. */
  predicate RatioKept(p: seq<int>, topN: int) {
    var t, w := TopPower(p, topN), Sum(p);
    if Wrap64(w) == 0 then t == 0 else Wrap64(t) * w == t * Wrap64(w)
  }

  /** For all non-negative powers of positive total, wrapping or not: the program's share is the largest of
      any group of at most `topN` validators if and only if wrapping has kept the ratio. */
  lemma TopShareIsLargestIff(p: seq<int>, topN: int)
    requires (forall x :: x in p ==> x >= 0) && Sum(p) > 0
    ensures IsLargestShare(p, topN, ShareOf(p, topN)) <==> RatioKept(p, topN)
  {
    var t, w := TopPower(p, topN), Sum(p);
    LargestShareIs(p, topN, ShareOf(p, topN));
    if Wrap64(w) == 0 {
      SamePercentIff(t, w, 0, 1);
    } else {
      SamePercentIff(Wrap64(t), Wrap64(w), t, w);
    }
  }

  /** On a representable total nothing wraps, so the share is right. */
  lemma TopShareIsLargest(p: seq<int>, topN: int)
    requires Representable(p)
    ensures IsLargestShare(p, topN, ShareOf(p, topN))
  {
    var m := TopIsAttained(p, topN);
    LargestShareIs(p, topN, ShareOf(p, topN));
  }

  /** The largest share is that of the `topN` largest validators, and no other number is. */
  lemma LargestShareIs(p: seq<int>, topN: int, share: real)
    requires (forall x :: x in p ==> x >= 0) && Sum(p) > 0
    ensures IsLargestShare(p, topN, share) <==> share == Percent(TopPower(p, topN), Sum(p))
  {
    var t := TopPower(p, topN);
    var m := TopIsAttained(p, topN);
    TopShareIsBound(p, topN);
    TopShareRange(t, Sum(p));
    assert GroupOf(p, m, topN) && Percent(Power(p, m), Sum(p)) == Percent(t, Sum(p));
  }

  lemma TopShareIsBound(p: seq<int>, topN: int)
    requires (forall x :: x in p ==> x >= 0) && Sum(p) > 0
    ensures forall m: seq<bool> :: GroupOf(p, m, topN) ==>
              Percent(Power(p, m), Sum(p)) <= Percent(TopPower(p, topN), Sum(p))
  {
    forall m: seq<bool> | GroupOf(p, m, topN)
      ensures Percent(Power(p, m), Sum(p)) <= Percent(TopPower(p, topN), Sum(p))
    {
      TopIsBound(p, topN, m);
      PercentMonotone(Power(p, m), TopPower(p, topN), Sum(p));
    }
  }

  lemma TopShareRange(t: int, whole: int)
    requires 0 <= t <= whole && whole > 0
    ensures 0.0 <= Percent(t, whole) <= 100.0
    ensures t == whole ==> Percent(t, whole) == 100.0
  {
    PercentMonotone(0, t, whole);
    PercentMonotone(t, whole, whole);
  }

  lemma SortedNonNegative(p: seq<int>)
    requires forall x :: x in p ==> x >= 0
    ensures forall x :: x in SortedCopy(Down, p) ==> x >= 0
    ensures Sum(SortedCopy(Down, p)) == Sum(p)
  {
    var s := SortedCopy(Down, p);
    SumPermutation(s, p);
    SameElements(s, p);
  }

  lemma TopIsAttained(p: seq<int>, topN: int) returns (m: seq<bool>)
    requires forall x :: x in p ==> x >= 0
    ensures GroupOf(p, m, topN) && Power(p, m) == TopPower(p, topN) && 0 <= TopPower(p, topN) <= Sum(p)
    ensures |p| <= topN ==> TopPower(p, topN) == Sum(p)
  {
    var s, k := SortedCopy(Down, p), Min(topN, |p|);
    SortedNonNegative(p);
    assert s[..|s|] == s;
    PrefixSumMonotone(s, k, |s|);
    LargestPower(s, k);
    m := ReorderGroup(s, p, Largest(|s|, k));
  }

  lemma TopIsBound(p: seq<int>, topN: int, m: seq<bool>)
    requires (forall x :: x in p ==> x >= 0) && GroupOf(p, m, topN)
    ensures Power(p, m) <= TopPower(p, topN)
  {
    var s := SortedCopy(Down, p);
    SortedNonNegative(p);
    var n := ReorderGroup(p, s, m);
    LargestAreBest(s, n);
    PrefixSumMonotone(s, Size(n), Min(topN, |p|));
  }

  /** The total of two validators wraps, and the largest of them gets a negative share. */
  lemma NegativeShareExample()
    ensures ShareOf([MAX64, 1], 1) < 0.0
    ensures !IsLargestShare([MAX64, 1], 1, ShareOf([MAX64, 1], 1))
  {
    WrappedTotal();
    assert [MAX64, 1][..1] == [MAX64];
    assert TopPower([MAX64, 1], 1) == MAX64;
    assert Wrap64(MAX64 + 1) == MIN64;
    NegativePercent(MAX64, MIN64);
  }

  lemma NegativePercent(part: int, whole: int)
    requires part > 0 && whole < 0
    ensures Percent(part, whole) < 0.0
  {
    assert Percent(part, whole) * whole as real == 100.0 * part as real;
  }
}
