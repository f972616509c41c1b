/** Capped logs: only the latest entries of everything ever appended are kept. */
module Rings {

  function Latest<T>(s: seq<T>, n: nat): seq<T> {
    if |s| <= n then s else s[|s| - n..]
  }

  /** `r` holds the last entries of `s`, in order: all of them, or `n` if there are more. */
  ghost predicate HoldsLast<T>(r: seq<T>, s: seq<T>, n: nat) {
    && |r| == (if |s| < n then |s| else n)
    && forall k :: 0 <= k < |r| ==> r[k] == s[|s| - |r| + k]
  }

  lemma LatestIs<T>(s: seq<T>, n: nat)
    ensures HoldsLast(Latest(s, n), s, n)
  {}

  /** Truncating at every append keeps the same entries as truncating once at the end. */
  lemma LatestAppend<T>(s: seq<T>, t: seq<T>, n: nat)
    ensures Latest(Latest(s, n) + t, n) == Latest(s + t, n)
  {}
}
