/** The Gini coefficient: a weighted sum over the sorted powers against the mean absolute difference. */
module Gini {
  import opened Int64
  import opened Sorting
  import opened Sums
  import opened Percentages

  function Up(x: int): int { x }

  function Abs(x: int): nat { if x < 0 then -x else x }

  /** Sum of |x - y| over y in `q`. */
  function Distance(x: int, q: seq<int>): nat {
    if q == [] then 0 else Abs(x - q[0]) + Distance(x, q[1..])
  }

  /** Sum of |x - y| over all ordered pairs with x in `p` and y in `q`. */
  function PairDistance(p: seq<int>, q: seq<int>): nat {
    if p == [] then 0 else Distance(p[0], q) + PairDistance(p[1..], q)
  }

  function Index(distance: nat, n: nat, sum: int): real
    requires n > 0 && sum > 0
  {
    distance as real / (2.0 * n as real * sum as real)
  }

  /** The Gini index by its definition: mean absolute difference over twice the mean. */
  ghost function GiniIndex(p: seq<int>): real
    requires Sum(p) > 0
  {
    Index(PairDistance(p, p), |p|, Sum(p))
  }

  /** The sum of k*s[k-1] for k = 1..i. */
  function Weighted(s: seq<int>, i: nat): int
    requires i <= |s|
  {
    if i == 0 then 0 else Weighted(s, i - 1) + i * s[i - 1]
  }

  /** The closed form the program evaluates once it has `sum` and `weighted`. */
  function ClosedForm(n: nat, sum: int, weighted: int): real {
    if n == 0 || sum == 0 then 0.0
    else (2.0 * weighted as real) / (n as real * sum as real) - (n + 1) as real / n as real
  }

  method ComputeGini(p: seq<int64>) returns (g: real)
    ensures g == ClosedForm(|p|, Wrap64(Sum(p)), Wrap64(Weighted(SortedCopy<int>(Up, p), |p|)))
    ensures (forall x :: x in p ==> x >= 0) && Sum(p) > 0 && |p| * Sum(p) <= MAX64 ==> g == GiniIndex(p)
  {
    var s := SortedPowers(p, Up);
    var sum, weighted := Accumulate(s);
    SumPermutation(s[..], p);
    g := ClosedForm(s.Length, sum, weighted);
    ClosedFormMeaning(p);
  }

  lemma ClosedFormMeaning(p: seq<int>)
    ensures (forall x :: x in p ==> x >= 0) && Sum(p) > 0 && |p| * Sum(p) <= MAX64 ==>
              ClosedForm(|p|, Wrap64(Sum(p)), Wrap64(Weighted(SortedCopy(Up, p), |p|))) == GiniIndex(p)
  {
    if (forall x :: x in p ==> x >= 0) && Sum(p) > 0 && |p| * Sum(p) <= MAX64 {
      ClosedFormSafe(p);
    }
  }

  method Accumulate(s: array<int>) returns (sum: int64, weighted: int64)
    ensures sum == Wrap64(Sum(s[..])) && weighted == Wrap64(Weighted(s[..], s.Length))
  {
    sum, weighted := 0, 0;
    for i := 0 to s.Length
      invariant sum == Wrap64(Sum(s[..][..i]))
      invariant weighted == Wrap64(Weighted(s[..], i))
    {
      SumStep(s[..], i);
      WrapAdd(Sum(s[..][..i]), s[i]);
      WrapAdd((i + 1) * s[i], weighted);
      WrapAdd(Weighted(s[..], i), (i + 1) * s[i]);
      sum := Wrap64(sum + s[i]);
      weighted := Wrap64(weighted + Wrap64((i + 1) * s[i]));
    }
    assert s[..][..s.Length] == s[..];
  }

  // ----- sums of distances over concatenations and reorderings

  lemma {:induction false} DistanceAppend(x: int, a: seq<int>, b: seq<int>)
    ensures Distance(x, a + b) == Distance(x, a) + Distance(x, b)
  {
    if a == [] {
      assert a + b == b;
    } else {
      assert (a + b)[1..] == a[1..] + b;
      DistanceAppend(x, a[1..], b);
    }
  }

  lemma {:induction false} PairAppendLeft(a: seq<int>, b: seq<int>, q: seq<int>)
    ensures PairDistance(a + b, q) == PairDistance(a, q) + PairDistance(b, q)
  {
    if a == [] {
      assert a + b == b;
    } else {
      assert (a + b)[1..] == a[1..] + b;
      PairAppendLeft(a[1..], b, q);
    }
  }

  lemma {:induction false} PairAppendRight(p: seq<int>, a: seq<int>, b: seq<int>)
    ensures PairDistance(p, a + b) == PairDistance(p, a) + PairDistance(p, b)
  {
    if p != [] {
      DistanceAppend(p[0], a, b);
      PairAppendRight(p[1..], a, b);
    }
  }

  lemma {:induction false} PairOfOne(p: seq<int>, x: int)
    ensures PairDistance(p, [x]) == Distance(x, p) == PairDistance([x], p)
  {
    assert PairDistance([x], p) == Distance(x, p) + PairDistance([], p);
    if p != [] {
      assert Distance(p[0], [x]) == Abs(p[0] - x) + Distance(p[0], []);
      PairOfOne(p[1..], x);
    }
  }

  lemma {:induction false} PairSymmetric(p: seq<int>, q: seq<int>)
    ensures PairDistance(p, q) == PairDistance(q, p)
  {
    if p == [] {
      EmptyRight(q);
    } else {
      assert p == [p[0]] + p[1..];
      PairAppendRight(q, [p[0]], p[1..]);
      PairOfOne(q, p[0]);
      PairSymmetric(p[1..], q);
    }
  }

  lemma {:induction false} EmptyRight(q: seq<int>)
    ensures PairDistance(q, []) == 0
  {
    if q != [] {
      EmptyRight(q[1..]);
    }
  }

  lemma {:induction false} PairPermutationLeft(a: seq<int>, b: seq<int>, q: seq<int>)
    requires multiset(a) == multiset(b)
    ensures PairDistance(a, q) == PairDistance(b, q)
    decreases |a|
  {
    if a == [] {
      assert |multiset(b)| == 0;
    } else {
      var j := FindHead(a, b);
      PairPermutationLeft(a[1..], b[..j] + b[j + 1..], q);
      PairAppendLeft(b[..j], b[j + 1..], q);
      PairAppendLeft(b[..j] + [b[j]], b[j + 1..], q);
      PairAppendLeft(b[..j], [b[j]], q);
      PairOfOne(q, b[j]);
    }
  }

  lemma PairPermutation(a: seq<int>, b: seq<int>)
    requires multiset(a) == multiset(b)
    ensures PairDistance(a, a) == PairDistance(b, b)
  {
    PairPermutationLeft(a, b, a);
    PairSymmetric(b, a);
    PairPermutationLeft(a, b, b);
  }

  /** The index does not depend on the order of the validators. */
  lemma GiniIgnoresOrder(p: seq<int>, q: seq<int>)
    requires multiset(p) == multiset(q) && Sum(p) > 0
    ensures Sum(q) > 0 && GiniIndex(p) == GiniIndex(q)
  {
    SumPermutation(p, q);
    PairPermutation(p, q);
    PermutationLength(p, q);
  }

  // ----- the closed form on sorted powers

  lemma {:induction false} DistanceToLargest(x: int, s: seq<int>)
    requires forall y :: y in s ==> y <= x
    ensures Distance(x, s) == |s| * x - Sum(s)
  {
    if s != [] {
      assert s[0] in s && forall y :: y in s[1..] ==> y in s;
      DistanceToLargest(x, s[1..]);
      OneMore(|s| - 1, x);
    }
  }

  lemma OneMore(n: int, x: int)
    ensures n * x + x == (n + 1) * x
  {}

  /** One pass over the sorted powers replaces the sum over all pairs. */
  lemma {:induction false} SortedPairs(s: seq<int>, i: nat)
    requires SortedBy(Up, s) && i <= |s|
    ensures PairDistance(s[..i], s[..i]) == 2 * (2 * Weighted(s, i) - (i + 1) * Sum(s[..i]))
  {
    if i > 0 {
      var a, x := s[..i - 1], s[i - 1];
      SortedPairs(s, i - 1);
      assert s[..i] == a + [x];
      PairAppendLeft(a, [x], a + [x]);
      PairAppendRight(a, a, [x]);
      PairAppendRight([x], a, [x]);
      PairOfOne(a, x);
      PairOfOne([x], x);
      SumStep(s, i - 1);
      forall y | y in a ensures y <= x {
        var k :| 0 <= k < i - 1 && a[k] == y;
        assert Up(s[k]) <= Up(s[i - 1]);
      }
      DistanceToLargest(x, a);
      SortedPairsStep(i, x, Weighted(s, i - 1), Sum(a));
    }
  }

  lemma SortedPairsStep(i: int, x: int, w: int, t: int)
    ensures 2 * (2 * w - i * t) + 2 * ((i - 1) * x - t) == 2 * (2 * (w + i * x) - (i + 1) * (t + x))
  {}

  /** The accumulator of the loop stays within n times the sum. */
  lemma {:induction false} WeightedBound(s: seq<int>, i: nat)
    requires i <= |s| && forall x :: x in s ==> x >= 0
    ensures 0 <= Weighted(s, i) <= i * Sum(s[..i]) && 0 <= Sum(s[..i])
  {
    if i > 0 {
      WeightedBound(s, i - 1);
      SumStep(s, i - 1);
      assert s[i - 1] in s;
      WeightedStep(i, s[i - 1], Weighted(s, i - 1), Sum(s[..i - 1]));
    }
  }

  lemma WeightedStep(i: int, x: int, w: int, t: int)
    requires i > 0 && x >= 0 && t >= 0 && 0 <= w <= (i - 1) * t
    ensures 0 <= w + i * x <= i * (t + x)
  {
    assert i * (t + x) == (i - 1) * t + t + i * x;
    assert i * x >= 0;
  }

  lemma Quotients(n: real, t: real, w: real, d: real)
    requires n > 0.0 && t > 0.0 && d == 2.0 * (2.0 * w - (n + 1.0) * t)
    ensures (2.0 * w) / (n * t) - (n + 1.0) / n == d / (2.0 * n * t)
  {
    var a, b := (2.0 * w) / (n * t), (n + 1.0) / n;
    assert a * (n * t) == 2.0 * w;
    assert b * n == n + 1.0;
    assert (a - b) * (2.0 * n * t) == 2.0 * (a * (n * t)) - 2.0 * t * (b * n);
    Divide((a - b), 2.0 * n * t, d);
  }

  lemma Divide(q: real, m: real, d: real)
    requires m != 0.0 && q * m == d
    ensures q == d / m
  {}

  lemma ClosedFormOfDistance(n: nat, t: int, w: int, d: nat)
    requires n > 0 && t > 0 && d == 2 * (2 * w - (n + 1) * t)
    ensures ClosedForm(n, t, w) == Index(d, n, t)
  {
    Product(n + 1, t);
    Quotients(n as real, t as real, w as real, d as real);
  }

  lemma SortedFacts(p: seq<int>)
    ensures var s := SortedCopy(Up, p);
            && Sum(s) == Sum(p)
            && PairDistance(p, p) == 2 * (2 * Weighted(s, |s|) - (|s| + 1) * Sum(p))
  {
    FactsOf(p, SortedCopy(Up, p));
  }

  lemma FactsOf(p: seq<int>, s: seq<int>)
    requires SortedBy(Up, s) && multiset(s) == multiset(p)
    ensures Sum(s) == Sum(p)
    ensures PairDistance(p, p) == 2 * (2 * Weighted(s, |s|) - (|s| + 1) * Sum(p))
  {
    SumPermutation(s, p);
    PairPermutation(s, p);
    SortedPairs(s, |s|);
    assert s[..|s|] == s;
  }

  lemma SortedBound(p: seq<int>)
    requires forall x :: x in p ==> x >= 0
    ensures 0 <= Weighted(SortedCopy(Up, p), |p|) <= |p| * Sum(p)
  {
    BoundOf(p, SortedCopy(Up, p));
  }

  lemma BoundOf(p: seq<int>, s: seq<int>)
    requires multiset(s) == multiset(p) && |s| == |p| && forall x :: x in p ==> x >= 0
    ensures 0 <= Weighted(s, |p|) <= |p| * Sum(p)
  {
    SumPermutation(s, p);
    SameElements(s, p);
    WeightedBound(s, |s|);
    assert s[..|s|] == s;
  }

  /** For any powers of positive total, wrapping or not: the program's value is the index if and only if
      wrapping has left the ratio of the two accumulators unchanged. When the sum wraps to zero the
      program answers 0, which is right if and only if all powers are equal. */
  lemma ClosedFormCorrectIff(p: seq<int>)
    requires Sum(p) > 0
    ensures var t, w := Sum(p), Weighted(SortedCopy(Up, p), |p|);
            (ClosedForm(|p|, Wrap64(t), Wrap64(w)) == GiniIndex(p))
            <==> (if Wrap64(t) == 0 then forall x, y :: x in p && y in p ==> x == y else Wrap64(w) * t == w * Wrap64(t))
  {
    var t, w := Sum(p), Weighted(SortedCopy(Up, p), |p|);
    ExactForm(p);
    if Wrap64(t) == 0 {
      GiniZeroIffEqual(p);
    } else {
      SameRatioIff(|p|, t, w, Wrap64(t), Wrap64(w));
    }
  }

  lemma SameRatioIff(n: nat, t: int, w: int, u: int, v: int)
    requires n > 0 && t != 0 && u != 0
    ensures ClosedForm(n, u, v) == ClosedForm(n, t, w) <==> v * t == w * u
  {
    Product(v, t);
    Product(w, u);
    var m := n as real;
    SameQuotientIff(2.0 * v as real, m * u as real, 2.0 * w as real, m * t as real);
    assert 2.0 * v as real * (m * t as real) == (2.0 * m) * (v * t) as real;
    assert 2.0 * w as real * (m * u as real) == (2.0 * m) * (w * u) as real;
  }

  const HUGE: int := 0x4000_0000_0000_0000

  lemma ThreeEqual(x: int)
    ensures Sum([x, x, x]) == 3 * x && Weighted(SortedCopy(Up, [x, x, x]), 3) == 6 * x
  {
    var p := [x, x, x];
    ThreeSum(x);
    SortedUnique(Up, SortedCopy(Up, p), p);
    ThreeWeighted(p, x);
  }

  lemma ThreeSum(x: int)
    ensures Sum([x, x, x]) == 3 * x
  {
    SumAppend([x], [x]);
    SumAppend([x] + [x], [x]);
    assert [x, x, x] == [x] + [x] + [x];
    assert [x][1..] == [] && Sum([x]) == x + Sum([]);
  }

  lemma ThreeWeighted(s: seq<int>, x: int)
    requires s == [x, x, x]
    ensures Weighted(s, 3) == 6 * x
  {
    assert Weighted(s, 0) == 0 && Weighted(s, 1) == x && Weighted(s, 2) == 3 * x;
  }

  /** Three equal powers of 2^62: both accumulators wrap, in the same ratio, and the answer is right. */
  lemma WrappedTotalExample()
    ensures var p := [HUGE, HUGE, HUGE];
            && Sum(p) > MAX64
            && ClosedForm(3, Wrap64(Sum(p)), Wrap64(Weighted(SortedCopy(Up, p), 3))) == GiniIndex(p)
  {
    ThreeEqual(HUGE);
    assert Wrap64(3 * HUGE) == -HUGE && Wrap64(6 * HUGE) == -2 * HUGE;
    ClosedFormCorrectIff([HUGE, HUGE, HUGE]);
  }

  /** With a representable total, that is: if and only if the weighted accumulator stays inside int64. */
  lemma ClosedFormCorrectIffRepresentable(p: seq<int>)
    requires (forall x :: x in p ==> x >= 0) && 0 < Sum(p) <= MAX64
    ensures var w := Weighted(SortedCopy(Up, p), |p|);
            (ClosedForm(|p|, Wrap64(Sum(p)), Wrap64(w)) == GiniIndex(p)) <==> w <= MAX64
  {
    var w := Weighted(SortedCopy(Up, p), |p|);
    SortedBound(p);
    WrappedIff(|p|, Sum(p), w);
    ExactForm(p);
  }

  /** Without overflow the closed form is the index. */
  lemma ExactForm(p: seq<int>)
    requires Sum(p) > 0
    ensures ClosedForm(|p|, Sum(p), Weighted(SortedCopy(Up, p), |p|)) == GiniIndex(p)
  {
    SortedFacts(p);
    ClosedFormOfDistance(|p|, Sum(p), Weighted(SortedCopy(Up, p), |p|), PairDistance(p, p));
  }

  lemma WrappedIff(n: nat, t: int, w: int)
    requires n > 0 && 0 < t <= MAX64 && 0 <= w
    ensures ClosedForm(n, Wrap64(t), Wrap64(w)) == ClosedForm(n, t, w) <==> w <= MAX64
  {
    ClosedFormInjective(n, t, Wrap64(w), w);
  }

  /** Two validators, one of them holding the whole int64 range: the accumulator overflows. */
  lemma OverflowExample()
    ensures Sum([0, MAX64]) == MAX64
    ensures var p := [0, MAX64];
            ClosedForm(2, Wrap64(Sum(p)), Wrap64(Weighted(SortedCopy(Up, p), 2))) != GiniIndex(p)
  {
    var p := [0, MAX64];
    assert p[1..] == [MAX64] && [MAX64][1..] == [];
    assert Sum(p) == 0 + Sum([MAX64]) && Sum([MAX64]) == MAX64 + Sum([]);
    SortedUnique(Up, SortedCopy(Up, p), p);
    assert Weighted(p, 1) == 0 && Weighted(p, 2) == 2 * MAX64;
    ClosedFormCorrectIffRepresentable(p);
  }

  lemma ClosedFormInjective(n: nat, t: int, v: int, w: int)
    requires n > 0 && t > 0
    ensures ClosedForm(n, t, v) == ClosedForm(n, t, w) <==> v == w
  {
    var d := n as real * t as real;
    assert (2.0 * v as real) / d * d == 2.0 * v as real;
    assert (2.0 * w as real) / d * d == 2.0 * w as real;
  }

  lemma ClosedFormSafe(p: seq<int>)
    requires (forall x :: x in p ==> x >= 0) && Sum(p) > 0 && |p| * Sum(p) <= MAX64
    ensures ClosedForm(|p|, Wrap64(Sum(p)), Wrap64(Weighted(SortedCopy(Up, p), |p|))) == GiniIndex(p)
  {
    SortedBound(p);
    assert Sum(p) <= |p| * Sum(p) by { TimesAtLeastOne(|p|, Sum(p)); }
    ClosedFormCorrectIffRepresentable(p);
  }

  lemma TimesAtLeastOne(n: int, t: int)
    requires n >= 1 && t >= 0
    ensures t <= n * t
  {}

  /** The index lies between 0 and (n-1)/n. */
  lemma GiniRange(p: seq<int>)
    requires (forall x :: x in p ==> x >= 0) && Sum(p) > 0
    ensures 0.0 <= GiniIndex(p) <= (|p| - 1) as real / |p| as real
  {
    var n, t, w := |p|, Sum(p), Weighted(SortedCopy(Up, p), |p|);
    SortedFacts(p);
    SortedBound(p);
    RangeStep(n, t, w);
    RatioBound(PairDistance(p, p), n, t);
  }

  lemma RangeStep(n: int, t: int, w: int)
    requires w <= n * t
    ensures 2 * (2 * w - (n + 1) * t) <= 2 * (n - 1) * t
  {}

  lemma RatioBound(d: nat, n: nat, t: nat)
    requires n > 0 && t > 0 && d <= 2 * (n - 1) * t
    ensures 0.0 <= Index(d, n, t) <= (n - 1) as real / n as real
  {
    Product(n - 1, t);
    RatioBoundReal(d as real, n as real, t as real);
  }

  lemma RatioBoundReal(d: real, n: real, t: real)
    requires n > 0.0 && t > 0.0 && 0.0 <= d <= 2.0 * ((n - 1.0) * t)
    ensures 0.0 <= d / (2.0 * n * t) <= (n - 1.0) / n
  {
    var q, r := d / (2.0 * n * t), (n - 1.0) / n;
    assert q * (2.0 * n * t) == d;
    assert r * n == n - 1.0;
    assert r * (2.0 * n * t) == 2.0 * t * (r * n);
    assert (r - q) * (2.0 * n * t) >= 0.0;
    assert 2.0 * n * t > 0.0;
  }

  /** The index is zero exactly when all powers are equal. */
  lemma GiniZeroIffEqual(p: seq<int>)
    requires Sum(p) > 0
    ensures GiniIndex(p) == 0.0 <==> forall x, y :: x in p && y in p ==> x == y
  {
    IndexZeroIff(PairDistance(p, p), |p|, Sum(p));
    DistanceZeroIffEqual(p);
  }

  lemma IndexZeroIff(distance: nat, n: nat, sum: int)
    requires n > 0 && sum > 0
    ensures Index(distance, n, sum) == 0.0 <==> distance == 0
  {
    assert Index(distance, n, sum) * (2.0 * n as real * sum as real) == distance as real;
  }

  lemma DistanceZeroIffEqual(p: seq<int>)
    ensures PairDistance(p, p) == 0 <==> forall x, y :: x in p && y in p ==> x == y
  {
    if forall x, y :: x in p && y in p ==> x == y {
      NoDistance(p, p);
    }
    if PairDistance(p, p) == 0 {
      forall x, y | x in p && y in p ensures x == y {
        SomeDistance(p, p, x, y);
      }
    }
  }

  lemma {:induction false} NoDistance(p: seq<int>, q: seq<int>)
    requires forall x, y :: x in p && y in q ==> x == y
    ensures PairDistance(p, q) == 0
    decreases |p| + |q|
  {
    if p == [] {
    } else if q == [] {
      EmptyRight(p);
    } else {
      assert p == [p[0]] + p[1..] && q == [q[0]] + q[1..];
      PairAppendRight(p, [q[0]], q[1..]);
      PairOfOne(p, q[0]);
      assert q[0] in q && forall y :: y in q[1..] ==> y in q;
      NoDistance(p, q[1..]);
      EqualDistance(q[0], p);
    }
  }

  lemma {:induction false} EqualDistance(x: int, q: seq<int>)
    requires forall y :: y in q ==> x == y
    ensures Distance(x, q) == 0
  {
    if q != [] {
      assert q[0] in q && forall y :: y in q[1..] ==> y in q;
      EqualDistance(x, q[1..]);
    }
  }

  lemma {:induction false} SomeDistance(p: seq<int>, q: seq<int>, x: int, y: int)
    requires x in p && y in q
    ensures Abs(x - y) <= PairDistance(p, q)
  {
    if p[0] == x {
      OneDistance(x, q, y);
    } else {
      assert p == [p[0]] + p[1..];
      SomeDistance(p[1..], q, x, y);
    }
  }

  lemma {:induction false} OneDistance(x: int, q: seq<int>, y: int)
    requires y in q
    ensures Abs(x - y) <= Distance(x, q)
  {
    if q[0] != y {
      assert q == [q[0]] + q[1..];
      OneDistance(x, q[1..], y);
    }
  }

  function Scale(p: seq<int>, k: int): (r: seq<int>)
    ensures |r| == |p|
  {
    if p == [] then [] else [k * p[0]] + Scale(p[1..], k)
  }

  lemma {:induction false} SumScale(p: seq<int>, k: int)
    ensures Sum(Scale(p, k)) == k * Sum(p)
  {
    if p != [] {
      SumScale(p[1..], k);
    }
  }

  lemma {:induction false} DistanceScale(x: int, q: seq<int>, k: int)
    requires k > 0
    ensures Distance(k * x, Scale(q, k)) == k * Distance(x, q)
  {
    if q != [] {
      DistanceScale(x, q[1..], k);
      AbsScale(x, q[0], k);
      assert Distance(k * x, Scale(q, k)) == Abs(k * x - k * q[0]) + Distance(k * x, Scale(q[1..], k));
      Distribute(k, Abs(x - q[0]), Distance(x, q[1..]));
    }
  }

  lemma AbsScale(x: int, y: int, k: int)
    requires k > 0
    ensures Abs(k * x - k * y) == k * Abs(x - y)
  {
    assert k * x - k * y == k * (x - y);
  }

  lemma Distribute(k: int, a: int, b: int)
    ensures k * (a + b) == k * a + k * b
  {}

  lemma {:induction false} PairScale(p: seq<int>, q: seq<int>, k: int)
    requires k > 0
    ensures PairDistance(Scale(p, k), Scale(q, k)) == k * PairDistance(p, q)
  {
    if p != [] {
      DistanceScale(p[0], q, k);
      PairScale(p[1..], q, k);
      Distribute(k, Distance(p[0], q), PairDistance(p[1..], q));
    }
  }

  /** Measuring power in another unit leaves the index unchanged. */
  lemma GiniIgnoresScale(p: seq<int>, k: int)
    requires Sum(p) > 0 && k > 0
    ensures Sum(Scale(p, k)) > 0 && GiniIndex(Scale(p, k)) == GiniIndex(p)
  {
    SumScale(p, k);
    PairScale(p, p, k);
    IndexScale(PairDistance(p, p), |p|, Sum(p), k);
  }

  lemma IndexScale(d: nat, n: nat, t: int, k: nat)
    requires n > 0 && t > 0 && k > 0
    ensures k * d >= 0 && k * t > 0 && Index(k * d, n, k * t) == Index(d, n, t)
  {
    Product(k, d);
    Product(k, t);
    CancelFactor(d as real, 2.0 * n as real * t as real, k as real);
  }

  lemma CancelFactor(d: real, m: real, k: real)
    requires m > 0.0 && k > 0.0
    ensures (k * d) / (k * m) == d / m
  {
    assert (d / m) * (k * m) == k * ((d / m) * m);
  }
}
