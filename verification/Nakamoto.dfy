/** The Nakamoto counts: one sort and one pass against the minimum over every group of validators. */
module Nakamoto {
  import opened Int64
  import opened Sorting
  import opened Sums

  function Down(x: int): int { -x }

  // ----- groups of validators: m[i] says whether validator i belongs to the group

  function Size(m: seq<bool>): nat {
    if m == [] then 0 else (if m[0] then 1 else 0) + Size(m[1..])
  }

  function Power(p: seq<int>, m: seq<bool>): int
    requires |m| == |p|
  {
    if p == [] then 0 else (if m[0] then p[0] else 0) + Power(p[1..], m[1..])
  }

  /** The group holds more than `thirds` thirds of all the power. */
  ghost predicate Controls(p: seq<int>, m: seq<bool>, thirds: int) {
    |m| == |p| && 3 * Power(p, m) > thirds * Sum(p)
  }

  /** `k` is the least number of validators that together hold more than `thirds` thirds. */
  ghost predicate IsNakamoto(p: seq<int>, k: nat, thirds: int) {
    && (exists m: seq<bool> :: Controls(p, m, thirds) && Size(m) == k)
    && (forall m: seq<bool> :: Controls(p, m, thirds) ==> k <= Size(m))
  }

  // ----- the algorithm

  /** The pass over the sorted powers from index `i`, in wrapping int64 arithmetic. */
  function Scan(s: seq<int>, total: int, i: nat, cum: int, n33: nat): (nat, nat)
    requires i <= |s|
    decreases |s| - i
  {
    if i == |s| then (n33, 0)
    else
      var c := Wrap64(cum + s[i]);
      var m := if n33 == 0 && Wrap64(c * 3) > total then i + 1 else n33;
      if Wrap64(c * 3) > Wrap64(total * 2) then (m, i + 1) else Scan(s, total, i + 1, c, m)
  }

  function Counts(p: seq<int>): (nat, nat) {
    Scan(SortedCopy(Down, p), Wrap64(Sum(p)), 0, 0, 0)
  }

  /** The total of the powers, in wrapping int64 arithmetic. */
  method Total(s: array<int>) returns (total: int64)
    ensures total == Wrap64(Sum(s[..]))
  {
    total := 0;
    for i := 0 to s.Length
      invariant total == Wrap64(Sum(s[..i]))
    {
      SumStep(s[..], i);
      assert s[..][..i] == s[..i] && s[..][..i + 1] == s[..i + 1];
      WrapAdd(Sum(s[..i]), s[i]);
      total := Wrap64(total + s[i]);
    }
    assert s[..s.Length] == s[..];
  }

  /** The second loop: stops at the first count that holds more than two thirds. */
  method FindCounts(s: array<int>, total: int64) returns (n33: nat, n66: nat)
    ensures (n33, n66) == Scan(s[..], total, 0, 0, 0)
  {
    n33, n66 := 0, 0;
    var cum: int64 := 0;
    for i := 0 to s.Length
      invariant n66 == 0
      invariant Scan(s[..], total, i, cum, n33) == Scan(s[..], total, 0, 0, 0)
    {
      cum := Wrap64(cum + s[i]);
      if n33 == 0 && Wrap64(cum * 3) > total {
        n33 := i + 1;
      }
      if n66 == 0 && Wrap64(cum * 3) > Wrap64(total * 2) {
        n66 := i + 1;
        break;
      }
    }
  }

  /** Whatever the powers, the loops compute Counts; on powers whose total is far enough from the
      int64 limit these are the minimum group sizes over all groups of validators. */
  method ComputeNakamoto(p: seq<int64>) returns (n33: nat, n66: nat)
    ensures (n33, n66) == Counts(p)
    ensures (forall x :: x in p ==> x >= 0) && 0 < 3 * Sum(p) <= MAX64 ==>
              IsNakamoto(p, n33, 1) && IsNakamoto(p, n66, 2) && 1 <= n33 <= n66 <= |p|
    ensures (forall x :: x in p ==> x == 0) ==> n33 == n66 == 0
  {
    var s := SortedPowers(p, Down);
    SumPermutation(s[..], p);
    var total := Total(s);
    n33, n66 := FindCounts(s, total);
    CountsMeaning(p);
  }

  lemma CountsMeaning(p: seq<int>)
    ensures (forall x :: x in p ==> x >= 0) && 0 < 3 * Sum(p) <= MAX64 ==>
              IsNakamoto(p, Counts(p).0, 1) && IsNakamoto(p, Counts(p).1, 2)
              && 1 <= Counts(p).0 <= Counts(p).1 <= |p|
    ensures (forall x :: x in p ==> x == 0) ==> Counts(p) == (0, 0)
  {
    if (forall x :: x in p ==> x >= 0) && 0 < 3 * Sum(p) <= MAX64 {
      CountsCorrect(p);
    }
    if forall x :: x in p ==> x == 0 {
      SameElements(p, SortedCopy(Down, p));
      ZeroScan(SortedCopy(Down, p), 0);
      SumPermutation(p, SortedCopy(Down, p));
    }
  }

  lemma {:induction false} ZeroScan(s: seq<int>, i: nat)
    requires i <= |s| && forall x :: x in s ==> x == 0
    ensures Sum(s) == 0 && Scan(s, 0, i, 0, 0) == (0, 0)
    decreases |s| - i
  {
    ZeroSum(s);
    if i < |s| {
      assert s[i] in s;
      ZeroScan(s, i + 1);
    }
  }

  lemma {:induction false} ZeroSum(s: seq<int>)
    requires forall x :: x in s ==> x == 0
    ensures Sum(s) == 0
  {
    if s != [] {
      assert s[0] in s && forall x :: x in s[1..] ==> x in s;
      ZeroSum(s[1..]);
    }
  }

  /** The counts do not depend on the order in which validators are listed. */
  lemma CountsIgnoreOrder(p: seq<int>, q: seq<int>)
    requires multiset(p) == multiset(q)
    ensures Counts(p) == Counts(q)
  {
    SortedUnique(Down, SortedCopy(Down, p), SortedCopy(Down, q));
    SumPermutation(p, q);
  }

  // ----- no group beats the largest validators

  lemma {:induction false} NextLargestAreSmaller(s: seq<int>, c: nat)
    requires SortedBy(Down, s) && c < |s|
    ensures Sum(s[1..c + 1]) <= Sum(s[..c])
  {
    if c > 0 {
      NextLargestAreSmaller(s, c - 1);
      SumStep(s, c - 1);
      SumStep(s[1..], c - 1);
      assert s[1..][..c] == s[1..c + 1] && s[1..][..c - 1] == s[1..c];
      assert Down(s[c - 1]) <= Down(s[c]);
    }
  }

  /** Exchange argument: a group of c validators holds at most the power of the c largest. */
  lemma {:induction false} LargestAreBest(s: seq<int>, m: seq<bool>)
    requires SortedBy(Down, s) && |m| == |s|
    ensures Size(m) <= |s| && Power(s, m) <= Sum(s[..Size(m)])
  {
    if s != [] {
      var c := Size(m[1..]);
      LargestAreBest(s[1..], m[1..]);
      if m[0] {
        assert s[..c + 1][1..] == s[1..][..c];
      } else {
        assert s[1..][..c] == s[1..c + 1];
        NextLargestAreSmaller(s, c);
      }
    }
  }

  function Largest(n: nat, k: nat): (m: seq<bool>)
    ensures |m| == n
  {
    seq(n, i => i < k)
  }

  lemma {:induction false} LargestPower(s: seq<int>, k: nat)
    requires k <= |s|
    ensures Size(Largest(|s|, k)) == k
    ensures Power(s, Largest(|s|, k)) == Sum(s[..k])
  {
    if s != [] {
      var k' := if k == 0 then 0 else k - 1;
      assert Largest(|s|, k)[1..] == Largest(|s[1..]|, k');
      LargestPower(s[1..], k');
      if k > 0 {
        assert s[..k][1..] == s[1..][..k - 1];
      }
    }
  }

  // ----- groups survive a reordering of the validators

  lemma {:induction false} GroupAppend(a: seq<int>, m: seq<bool>, b: seq<int>, n: seq<bool>)
    requires |a| == |m| && |b| == |n|
    ensures Power(a + b, m + n) == Power(a, m) + Power(b, n)
    ensures Size(m + n) == Size(m) + Size(n)
  {
    if a == [] {
      assert a + b == b && m + n == n;
    } else {
      assert (a + b)[1..] == a[1..] + b && (m + n)[1..] == m[1..] + n;
      GroupAppend(a[1..], m[1..], b, n);
    }
  }

  lemma {:induction false} ReorderGroup(p: seq<int>, q: seq<int>, m: seq<bool>) returns (n: seq<bool>)
    requires multiset(p) == multiset(q) && |m| == |p|
    ensures |n| == |q| && Power(q, n) == Power(p, m) && Size(n) == Size(m)
    decreases |p|
  {
    if p == [] {
      assert |multiset(q)| == 0;
      n := [];
    } else {
      var j := FindHead(p, q);
      var l, r := q[..j], q[j + 1..];
      var rest := ReorderGroup(p[1..], l + r, m[1..]);
      var a, b := rest[..j], rest[j..];
      assert rest == a + b;
      GroupAppend(l, a, r, b);
      n := a + [m[0]] + b;
      GroupAppend(l + [q[j]], a + [m[0]], r, b);
      GroupAppend(l, a, [q[j]], [m[0]]);
      GroupOfOne(q[j], m[0]);
    }
  }

  lemma GroupOfOne(x: int, b: bool)
    ensures Power([x], [b]) == (if b then x else 0) && Size([b]) == (if b then 1 else 0)
  {
    assert Power([x], [b]) == (if b then x else 0) + Power([], []);
  }

  lemma IsNakamotoReorder(p: seq<int>, q: seq<int>, k: nat, thirds: int)
    requires multiset(p) == multiset(q) && IsNakamoto(p, k, thirds)
    ensures IsNakamoto(q, k, thirds)
  {
    SumPermutation(p, q);
    var m :| Controls(p, m, thirds) && Size(m) == k;
    var n := ReorderGroup(p, q, m);
    assert Controls(q, n, thirds);
    forall n': seq<bool> | Controls(q, n', thirds) ensures k <= Size(n') {
      var m' := ReorderGroup(q, p, n');
      assert Controls(p, m', thirds);
    }
  }

  // ----- the least prefix of the sorted powers

  /** The least k' >= k such that the k' largest validators hold more than `bound`/3. */
  function LeastTop(s: seq<int>, k: nat, bound: int): (r: nat)
    requires k <= |s| && 3 * Sum(s) > bound
    ensures k <= r <= |s| && 3 * Sum(s[..r]) > bound
    ensures forall j :: k <= j < r ==> 3 * Sum(s[..j]) <= bound
    decreases |s| - k
  {
    assert s[..|s|] == s;
    if 3 * Sum(s[..k]) > bound then k else LeastTop(s, k + 1, bound)
  }

  lemma LeastTopIsNakamoto(s: seq<int>, thirds: int)
    requires SortedBy(Down, s) && 0 <= thirds <= 2 && Sum(s) > 0
    ensures IsNakamoto(s, LeastTop(s, 0, thirds * Sum(s)), thirds)
  {
    var k := LeastTop(s, 0, thirds * Sum(s));
    LargestPower(s, k);
    assert Controls(s, Largest(|s|, k), thirds);
    forall m: seq<bool> | Controls(s, m, thirds) ensures k <= Size(m) {
      LargestAreBest(s, m);
    }
  }

  /** The minimum is unique, so IsNakamoto pins the counts down. */
  lemma NakamotoUnique(p: seq<int>, k: nat, l: nat, thirds: int)
    requires IsNakamoto(p, k, thirds) && IsNakamoto(p, l, thirds)
    ensures k == l
  {
    var m :| Controls(p, m, thirds) && Size(m) == k;
    var n :| Controls(p, n, thirds) && Size(n) == l;
  }

  // ----- the pass finds both least prefixes exactly when its int64 comparisons are right

  /** The two comparisons of the loop, on the `j` largest powers. */
  predicate Test33(s: seq<int>, j: nat)
    requires j <= |s|
  {
    Wrap64(3 * Sum(s[..j])) > Wrap64(Sum(s))
  }

  predicate Test66(s: seq<int>, j: nat)
    requires j <= |s|
  {
    Wrap64(3 * Sum(s[..j])) > Wrap64(2 * Sum(s))
  }

  /** The comparison comes out as it would without wrap-around. */
  predicate Exact33(s: seq<int>, j: nat)
    requires j <= |s|
  {
    Test33(s, j) <==> 3 * Sum(s[..j]) > Sum(s)
  }

  predicate Exact66(s: seq<int>, j: nat)
    requires j <= |s|
  {
    Test66(s, j) <==> 3 * Sum(s[..j]) > 2 * Sum(s)
  }

  /** Both comparisons are exact from prefix `i` on, up to the right answers. */
  ghost predicate TestsExact(s: seq<int>, k33: nat, k66: nat, i: nat)
    requires k33 <= k66 <= |s|
  {
    (forall j :: i < j <= k33 ==> Exact33(s, j)) && (forall j :: i < j <= k66 ==> Exact66(s, j))
  }

  /** `k` is the least prefix that holds more than `bound`/3. */
  ghost predicate IsLeastTop(s: seq<int>, k: nat, bound: int) {
    && 0 < k <= |s| && 3 * Sum(s[..k]) > bound
    && forall j :: 0 <= j < k ==> 3 * Sum(s[..j]) <= bound
  }

  /** A count once set stays; a count not yet set is set, if at all, later in the pass. */
  lemma {:induction false} ScanBounds(s: seq<int>, total: int, i: nat, cum: int, n33: nat)
    requires i <= |s|
    ensures var c := Scan(s, total, i, cum, n33);
            && (c.1 == 0 || c.1 > i) && (if n33 != 0 then c.0 == n33 else c.0 == 0 || c.0 > i)
    decreases |s| - i
  {
    if i < |s| {
      var c: int := Wrap64(cum + s[i]);
      var m: nat := if n33 == 0 && Wrap64(c * 3) > total then i + 1 else n33;
      ScanBounds(s, total, i + 1, c, m);
    }
  }

  /** One turn of the loop in terms of the exact prefix sums. */
  lemma ScanTurn(s: seq<int>, i: nat, n33: nat)
    requires i < |s|
    ensures var m := if n33 == 0 && Test33(s, i + 1) then i + 1 else n33;
            Scan(s, Wrap64(Sum(s)), i, Wrap64(Sum(s[..i])), n33)
              == if Test66(s, i + 1) then (m, i + 1) else Scan(s, Wrap64(Sum(s)), i + 1, Wrap64(Sum(s[..i + 1])), m)
  {
    SumStep(s, i);
    WrapAdd(Sum(s[..i]), s[i]);
    WrapScale(3, Sum(s[..i + 1]));
    WrapScale(2, Sum(s));
    ScanUnfolds(s, Wrap64(Sum(s)), i, Wrap64(Sum(s[..i])), n33, Wrap64(Sum(s[..i + 1])),
                Wrap64(3 * Sum(s[..i + 1])), Wrap64(2 * Sum(s)));
  }

  lemma ScanUnfolds(s: seq<int>, total: int, i: nat, cum: int, n33: nat, c: int, triple: int, double: int)
    requires i < |s| && c == Wrap64(cum + s[i]) && triple == Wrap64(3 * c) && double == Wrap64(2 * total)
    ensures var m := if n33 == 0 && triple > total then i + 1 else n33;
            Scan(s, total, i, cum, n33) == if triple > double then (m, i + 1) else Scan(s, total, i + 1, c, m)
  {
    assert c * 3 == 3 * c && total * 2 == 2 * total;
  }

  lemma {:induction false} ScanExactIff(s: seq<int>, k33: nat, k66: nat, i: nat, n33: nat)
    requires k33 <= k66 <= |s| && i < k66 && n33 == (if k33 <= i then k33 else 0)
    requires IsLeastTop(s, k33, Sum(s)) && IsLeastTop(s, k66, 2 * Sum(s))
    ensures Scan(s, Wrap64(Sum(s)), i, Wrap64(Sum(s[..i])), n33) == (k33, k66) <==> TestsExact(s, k33, k66, i)
    decreases k66 - i
  {
    var m: nat := if n33 == 0 && Test33(s, i + 1) then i + 1 else n33;
    var rest := Scan(s, Wrap64(Sum(s)), i + 1, Wrap64(Sum(s[..i + 1])), m);
    ScanTurn(s, i, n33);
    ScanBounds(s, Wrap64(Sum(s)), i + 1, Wrap64(Sum(s[..i + 1])), m);
    TestsStep(s, k33, k66, i);
    StepExact(s, k33, k66, i);
    if i + 1 < k66 && m == (if k33 <= i + 1 then k33 else 0) {
      ScanExactIff(s, k33, k66, i + 1, m);
    }
    TurnDecides(i, k33, k66, n33, Test33(s, i + 1), Test66(s, i + 1), rest, TestsExact(s, k33, k66, i + 1));
  }

  /** One turn ends with the right counts if and only if its tests come out as they should and so do the
      later ones; `rest` are the counts if the pass goes on. */
  lemma TurnDecides(i: nat, k33: nat, k66: nat, n33: nat, test33: bool, test66: bool, rest: (nat, nat), later: bool)
    requires 0 < k33 <= k66 && i < k66 && n33 == (if k33 <= i then k33 else 0)
    requires var m := if n33 == 0 && test33 then i + 1 else n33;
             && (rest.1 == 0 || rest.1 > i + 1) && (if m != 0 then rest.0 == m else rest.0 == 0 || rest.0 > i + 1)
             && (i + 1 < k66 && m == (if k33 <= i + 1 then k33 else 0) ==> (rest == (k33, k66) <==> later))
             && (i + 1 == k66 ==> later)
    ensures var m := if n33 == 0 && test33 then i + 1 else n33;
            ((if test66 then (m, i + 1) else rest) == (k33, k66))
            <==> (later && (i < k33 ==> (test33 <==> i + 1 == k33)) && (test66 <==> i + 1 == k66))
  {}

  /** Up to the answers a test is exact exactly when it comes out true at its answer and nowhere before. */
  lemma StepExact(s: seq<int>, k33: nat, k66: nat, i: nat)
    requires k33 <= k66 <= |s| && i < k66
    requires IsLeastTop(s, k33, Sum(s)) && IsLeastTop(s, k66, 2 * Sum(s))
    ensures i < k33 ==> (Exact33(s, i + 1) <==> (Test33(s, i + 1) <==> i + 1 == k33))
    ensures Exact66(s, i + 1) <==> (Test66(s, i + 1) <==> i + 1 == k66)
  {}

  lemma TestsStep(s: seq<int>, k33: nat, k66: nat, i: nat)
    requires k33 <= k66 <= |s| && i < k66
    ensures TestsExact(s, k33, k66, i)
            <==> TestsExact(s, k33, k66, i + 1) && (i < k33 ==> Exact33(s, i + 1)) && Exact66(s, i + 1)
  {}

  /** The powers a chain can have: non-negative, and with a total that an int64 holds. */
  ghost predicate Representable(p: seq<int>) {
    (forall x :: x in p ==> x >= 0) && 0 < Sum(p) <= MAX64
  }

  /** On representable powers the comparisons are exact up to the answers if and only if tripling the
      smallest two-thirds prefix stays inside int64. */
  lemma TestsExactIff(s: seq<int>, k33: nat, k66: nat)
    requires Representable(s) && k33 <= k66 <= |s|
    requires IsLeastTop(s, k33, Sum(s)) && IsLeastTop(s, k66, 2 * Sum(s))
    ensures TestsExact(s, k33, k66, 0) <==> 3 * Sum(s[..k66]) <= MAX64
  {
    assert s[..|s|] == s;
    if 3 * Sum(s[..k66]) <= MAX64 {
      forall j | 0 < j <= k66 ensures Exact33(s, j) && Exact66(s, j) {
        PrefixSumMonotone(s, j, k66);
      }
    } else {
      PrefixSumMonotone(s, k66, |s|);
      PrefixSumMonotone(s, 1, k66);
      if 2 * Sum(s) <= MAX64 {
        // the right answer's test wraps to a negative number
        assert !Exact66(s, k66);
      } else if 3 * Sum(s[..1]) <= MAX64 {
        // the doubled total wraps to a negative number, so the first test stops the pass too early
        assert !Exact66(s, 1);
      } else {
        // one validator is enough for a third, and its test wraps to at most the total
        assert k33 == 1 && !Exact33(s, 1);
      }
    }
  }

  lemma SortedRepresentable(p: seq<int>)
    requires Representable(p)
    ensures Representable(SortedCopy(Down, p)) && Sum(SortedCopy(Down, p)) == Sum(p)
  {
    var s := SortedCopy(Down, p);
    SumPermutation(s, p);
    SameElements(s, p);
  }

  /** The pair of least prefixes is the pair of true minima, and the only one. */
  lemma MinimaAre(p: seq<int>, c: (nat, nat))
    requires Sum(p) > 0
    ensures var s := SortedCopy(Down, p);
            && Sum(s) == Sum(p)
            && ((IsNakamoto(p, c.0, 1) && IsNakamoto(p, c.1, 2))
                <==> c == (LeastTop(s, 0, Sum(s)), LeastTop(s, 0, 2 * Sum(s))))
  {
    var s := SortedCopy(Down, p);
    SumPermutation(s, p);
    var k33, k66 := LeastTop(s, 0, Sum(s)), LeastTop(s, 0, 2 * Sum(s));
    LeastTopIsNakamoto(s, 1);
    LeastTopIsNakamoto(s, 2);
    IsNakamotoReorder(s, p, k33, 1);
    IsNakamotoReorder(s, p, k66, 2);
    if IsNakamoto(p, c.0, 1) && IsNakamoto(p, c.1, 2) {
      NakamotoUnique(p, c.0, k33, 1);
      NakamotoUnique(p, c.1, k66, 2);
    }
  }

  /** For any powers of positive total, wrapping or not, both counts are the true minima if and only if the
      loop's int64 comparisons come out right on every prefix up to the answers. */
  lemma CountsCorrectIff(p: seq<int>)
    requires Sum(p) > 0
    ensures var s := SortedCopy(Down, p);
            && Sum(s) == Sum(p)
            && LeastTop(s, 0, Sum(s)) <= LeastTop(s, 0, 2 * Sum(s))
            && ((IsNakamoto(p, Counts(p).0, 1) && IsNakamoto(p, Counts(p).1, 2))
                <==> TestsExact(s, LeastTop(s, 0, Sum(s)), LeastTop(s, 0, 2 * Sum(s)), 0))
  {
    var s := SortedCopy(Down, p);
    SumPermutation(s, p);
    var k33, k66 := LeastTop(s, 0, Sum(s)), LeastTop(s, 0, 2 * Sum(s));
    assert s[..0] == [];
    assert IsLeastTop(s, k33, Sum(s)) && IsLeastTop(s, k66, 2 * Sum(s));
    MinimaAre(p, Counts(p));
    ScanExactIff(s, k33, k66, 0, 0);
  }

  /** When the non-negative powers have a representable total, that is: if and only if tripling the power
      of the smallest two-thirds group stays inside int64. */
  lemma CountsCorrectIffRepresentable(p: seq<int>)
    requires Representable(p)
    ensures var s := SortedCopy(Down, p);
            && Sum(s) == Sum(p)
            && ((IsNakamoto(p, Counts(p).0, 1) && IsNakamoto(p, Counts(p).1, 2))
                <==> 3 * Sum(s[..LeastTop(s, 0, 2 * Sum(s))]) <= MAX64)
  {
    var s := SortedCopy(Down, p);
    SortedRepresentable(p);
    CountsCorrectIff(p);
    assert s[..0] == [];
    TestsExactIff(s, LeastTop(s, 0, Sum(s)), LeastTop(s, 0, 2 * Sum(s)));
  }

  /** Without that hypothesis it is still enough, but no longer necessary: see WrappedTotalExample. */
  lemma CountsCorrectIfSmall(p: seq<int>)
    requires (forall x :: x in p ==> x >= 0) && Sum(p) > 0
    ensures var s := SortedCopy(Down, p);
            && Sum(s) == Sum(p)
            && (3 * Sum(s[..LeastTop(s, 0, 2 * Sum(s))]) <= MAX64 ==>
                  IsNakamoto(p, Counts(p).0, 1) && IsNakamoto(p, Counts(p).1, 2))
  {
    SumPermutation(SortedCopy(Down, p), p);
    if Sum(p) <= MAX64 {
      CountsCorrectIffRepresentable(p);
    }
  }

  lemma CountsAreMinima(p: seq<int>)
    requires forall x :: x in p ==> x >= 0
    requires 0 < 3 * Sum(p) <= MAX64
    ensures IsNakamoto(p, Counts(p).0, 1) && IsNakamoto(p, Counts(p).1, 2)
  {
    var s := SortedCopy(Down, p);
    SortedRepresentable(p);
    CountsCorrectIffRepresentable(p);
    PrefixWithinTotal(s, LeastTop(s, 0, 2 * Sum(s)));
  }

  lemma PrefixWithinTotal(s: seq<int>, k: nat)
    requires k <= |s| && forall x :: x in s ==> x >= 0
    ensures Sum(s[..k]) <= Sum(s)
  {
    PrefixSumMonotone(s, k, |s|);
    assert s[..|s|] == s;
  }

  lemma CountsCorrect(p: seq<int>)
    requires forall x :: x in p ==> x >= 0
    requires 0 < 3 * Sum(p) <= MAX64
    ensures IsNakamoto(p, Counts(p).0, 1) && IsNakamoto(p, Counts(p).1, 2)
    ensures 1 <= Counts(p).0 <= Counts(p).1 <= |p|
  {
    CountsAreMinima(p);
    NakamotoOrder(p, Counts(p).0, Counts(p).1);
  }

  lemma NakamotoOrder(p: seq<int>, k33: nat, k66: nat)
    requires Sum(p) > 0 && IsNakamoto(p, k33, 1) && IsNakamoto(p, k66, 2)
    ensures 1 <= k33 <= k66 <= |p|
  {
    var m :| Controls(p, m, 2) && Size(m) == k66;
    assert Controls(p, m, 1);
    var n :| Controls(p, n, 1) && Size(n) == k33;
    EmptyGroup(p, n);
    SizeBound(m);
  }

  lemma {:induction false} EmptyGroup(p: seq<int>, m: seq<bool>)
    requires |m| == |p|
    ensures Size(m) == 0 ==> Power(p, m) == 0
  {
    if p != [] {
      EmptyGroup(p[1..], m[1..]);
    }
  }

  lemma {:induction false} SizeBound(m: seq<bool>)
    ensures Size(m) <= |m|
  {
    if m != [] {
      SizeBound(m[1..]);
    }
  }

  /** A single validator holding the whole int64 range: the pass reports 0 validators for the 1/3
      count, although one validator is needed. */
  lemma OverflowExample()
    ensures Representable([MAX64])
    ensures Counts([MAX64]) == (0, 1)
    ensures IsNakamoto([MAX64], 1, 1)
  {
    var p := [MAX64];
    assert Sum(p) == MAX64 + Sum([]);
    assert SortedCopy(Down, p) == p by {
      assert SortedBy(Down, p);
      SortedUnique(Down, SortedCopy(Down, p), p);
    }
    assert Wrap64(MAX64 * 3) == MAX64 - 2;
    assert Wrap64(MAX64 * 2) == -2;
    assert Counts(p) == (0, 1);
    LeastTopIsNakamoto(p, 1);
    assert p[..1] == p;
    assert p[..0] == [];
  }

  lemma WrappedTotal()
    ensures Sum([MAX64, 1]) == MAX64 + 1 && Sum([MAX64]) == MAX64
    ensures SortedCopy(Down, [MAX64, 1]) == [MAX64, 1]
  {
    SumOfTwo(MAX64, 1);
    SortedUnique(Down, SortedCopy(Down, [MAX64, 1]), [MAX64, 1]);
  }

  lemma SumOfTwo(x: int, y: int)
    ensures Sum([x, y]) == x + y && Sum([x]) == x
  {
    assert [x, y][1..] == [y] && [y][1..] == [] && [x][1..] == [];
    assert Sum([y]) == y + Sum([]);
  }

  /** The total of two validators wraps and the first comparison is made on wrapped values, and yet both
      counts are the true minima. */
  lemma WrappedTotalExample()
    ensures var p := [MAX64, 1];
            && Sum(p) > MAX64 && 3 * Sum([MAX64]) > MAX64
            && Counts(p) == (1, 1) && IsNakamoto(p, 1, 1) && IsNakamoto(p, 1, 2)
  {
    var p := [MAX64, 1];
    WrappedTotal();
    assert p[..1] == [MAX64] && p[..0] == [];
    LeastTopIsNakamoto(p, 1);
    LeastTopIsNakamoto(p, 2);
    WrappedCounts(p);
  }

  lemma WrappedCounts(p: seq<int>)
    requires p == [MAX64, 1] && Sum(p) == MAX64 + 1 && SortedCopy(Down, p) == p
    ensures Counts(p) == (1, 1)
  {
    assert Wrap64(Sum(p)) == MIN64 && Wrap64(0 + MAX64) == MAX64;
    assert Wrap64(MAX64 * 3) == MAX64 - 2 && Wrap64(MIN64 * 2) == 0;
  }
}
