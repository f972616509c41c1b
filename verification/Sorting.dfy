/** What the program relies on from Go's sort.Slice: a permutation, ordered by the comparison. */
module Sorting {

  ghost predicate SortedBy<T(!new)>(rank: T -> int, s: seq<T>) {
    forall i, j :: 0 <= i < j < |s| ==> rank(s[i]) <= rank(s[j])
  }

  ghost predicate Injective<T(!new)>(rank: T -> int) {
    forall x, y :: rank(x) == rank(y) ==> x == y
  }

  /** The elements of `s` in the order of `rank`. */
  function SortedCopy<T(!new)>(rank: T -> int, s: seq<T>): (r: seq<T>)
    ensures SortedBy(rank, r)
    ensures multiset(r) == multiset(s) && |r| == |s|
  {
    if s == [] then []
    else
      assert s == [s[0]] + s[1..];
      InsertSorted(rank, s[0], SortedCopy(rank, s[1..]))
  }

  function InsertSorted<T(!new)>(rank: T -> int, x: T, s: seq<T>): (r: seq<T>)
    decreases |s|, 1
    requires SortedBy(rank, s)
    ensures SortedBy(rank, r)
    ensures multiset(r) == multiset{x} + multiset(s) && |r| == |s| + 1
    ensures r != [] && (r[0] == x || (s != [] && r[0] == s[0]))
  {
    if s == [] || rank(x) <= rank(s[0]) then [x] + s
    else
      assert s == [s[0]] + s[1..];
      [s[0]] + InsertTail(rank, x, s)
  }

  function InsertTail<T(!new)>(rank: T -> int, x: T, s: seq<T>): (r: seq<T>)
    decreases |s|, 0
    requires SortedBy(rank, s) && s != [] && rank(s[0]) < rank(x)
    ensures SortedBy(rank, r) && multiset(r) == multiset{x} + multiset(s[1..]) && |r| == |s|
    ensures forall y :: y in r ==> rank(s[0]) <= rank(y)
  {
    var r := InsertSorted(rank, x, s[1..]);
    assert forall y :: y in r ==> y in multiset(r);
    r
  }

  method Swap<T>(a: array<T>, j: nat)
    requires 0 < j < a.Length
    modifies a
    ensures a[j - 1] == old(a[j]) && a[j] == old(a[j - 1])
    ensures forall x :: 0 <= x < a.Length && x != j - 1 && x != j ==> a[x] == old(a[x])
    ensures multiset(a[..]) == multiset(old(a[..]))
  {
    a[j - 1], a[j] := a[j], a[j - 1];
  }

  /** Orders `a` in place by `rank`; elements of equal rank may end in any order. */
  method SortSlice<T(!new)>(a: array<T>, rank: T -> int)
    modifies a
    ensures SortedBy(rank, a[..])
    ensures multiset(a[..]) == multiset(old(a[..]))
  {
    for i := 0 to a.Length
      invariant forall x, y :: 0 <= x < y < i ==> rank(a[x]) <= rank(a[y])
      invariant multiset(a[..]) == multiset(old(a[..]))
    {
      Insert(a, rank, i);
    }
  }

  /** Moves element `i` down to its place among the ordered elements before it. */
  method Insert<T(!new)>(a: array<T>, rank: T -> int, i: nat)
    requires i < a.Length
    requires forall x, y :: 0 <= x < y < i ==> rank(a[x]) <= rank(a[y])
    modifies a
    ensures forall x, y :: 0 <= x < y <= i ==> rank(a[x]) <= rank(a[y])
    ensures multiset(a[..]) == multiset(old(a[..]))
  {
    var j := i;
    while j > 0 && rank(a[j - 1]) > rank(a[j])
      invariant 0 <= j <= i
      invariant multiset(a[..]) == multiset(old(a[..]))
      invariant forall x, y :: 0 <= x < y <= i && y != j ==> rank(a[x]) <= rank(a[y])
    {
      Swap(a, j);
      j := j - 1;
    }
  }

  /** Two orderings of the same elements by an injective rank are the same sequence. */
  lemma {:induction false} SortedUnique<T(!new)>(rank: T -> int, s: seq<T>, t: seq<T>)
    requires SortedBy(rank, s) && SortedBy(rank, t) && multiset(s) == multiset(t)
    requires Injective(rank)
    ensures s == t
  {
    PermutationLength(s, t);
    if s != [] {
      LeastFirst(rank, s, t);
      LeastFirst(rank, t, s);
      DropHead(s);
      DropHead(t);
      SortedUnique(rank, s[1..], t[1..]);
      SameParts(s, t);
    }
  }

  lemma SameParts<T>(s: seq<T>, t: seq<T>)
    requires s != [] && t != [] && s[0] == t[0] && s[1..] == t[1..]
    ensures s == t
  {
    assert s == [s[0]] + s[1..] && t == [t[0]] + t[1..];
  }

  /** A sorted copy of `p`; `p` itself is left alone. */
  method SortedPowers(p: seq<int>, rank: int -> int) returns (s: array<int>)
    requires Injective(rank)
    ensures fresh(s) && s[..] == SortedCopy(rank, p)
  {
    s := new int[|p|](i requires 0 <= i < |p| => p[i]);
    assert s[..] == p;
    SortSlice(s, rank);
    SortedUnique(rank, s[..], SortedCopy(rank, p));
  }

  lemma LeastFirst<T(!new)>(rank: T -> int, s: seq<T>, t: seq<T>)
    requires SortedBy(rank, s) && multiset(s) == multiset(t) && s != [] && t != []
    ensures rank(s[0]) <= rank(t[0])
  {
    assert t[0] in multiset(s);
  }

  lemma DropHead<T>(s: seq<T>)
    requires s != []
    ensures multiset(s[1..]) == multiset(s) - multiset{s[0]}
  {
    assert s == [s[0]] + s[1..];
  }

  lemma SameElements<T>(s: seq<T>, t: seq<T>)
    requires multiset(s) == multiset(t)
    ensures forall x :: x in s <==> x in t
  {
    assert forall x :: x in s <==> x in multiset(s);
    assert forall x :: x in t <==> x in multiset(t);
  }

  lemma PermutationLength<T>(s: seq<T>, t: seq<T>)
    requires multiset(s) == multiset(t)
    ensures |s| == |t|
  {
    assert |multiset(s)| == |s|;
  }
}
