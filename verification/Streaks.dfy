/** Missed-block streaks: the gaps-and-islands query against maximal runs of missed heights. */
module Streaks {
  import opened Text
  import opened Schema
  import opened Participation
  import opened FiniteSets
  import opened Sorting

  // ----- the definition: maximal runs of consecutive stored heights without a vote

  ghost predicate IsRun(stored: set<int>, missed: set<int>, lo: int, hi: int) {
    lo in missed && hi in missed && lo <= hi && forall h :: h in stored && lo <= h <= hi ==> h in missed
  }

  ghost predicate IsMaximalRun(stored: set<int>, missed: set<int>, lo: int, hi: int) {
    && IsRun(stored, missed, lo, hi)
    && forall a, b :: IsRun(stored, missed, a, b) && a <= lo && hi <= b ==> a == lo && b == hi
  }

  function Between(stored: set<int>, lo: int, hi: int): set<int> {
    set h | h in stored && lo <= h <= hi
  }

  // ----- the query

  /** block_sequence: the joined rows ordered by height, rows of one height in any order. */
  ghost predicate BlockSequence(rows: seq<JoinRow>, hs: seq<HeightRow>, votes: seq<VoteRow>, addr: string) {
    && multiset(rows) == multiset(LeftJoin(hs, votes, addr))
    && forall i, j :: 0 <= i < j < |rows| ==> rows[i].height <= rows[j].height
  }

  datatype MissRow = MissRow(height: int, time: Option<int>, rn: int, grp: int)

  /** miss_groups: the rows without a vote; `rn` is their row number in block_sequence, `grp` is `rn`
      minus their row number among the misses. */
  function MissGroups(rows: seq<JoinRow>): seq<MissRow> {
    if rows == [] then []
    else
      var n := |rows|;
      var m, r := MissGroups(rows[..n - 1]), rows[n - 1];
      if r.vote.None? then m + [MissRow(r.height, r.time, n, n - (|m| + 1))] else m
  }

  function InGroup(m: seq<MissRow>, g: int): seq<MissRow> {
    if m == [] then [] else (if m[0].grp == g then [m[0]] else []) + InGroup(m[1..], g)
  }

  function Groups(m: seq<MissRow>): set<int> {
    set k | 0 <= k < |m| :: m[k].grp
  }

  datatype StreakRow = StreakRow(count: nat, startHeight: int, endHeight: int, startTime: Option<int>,
                                 endTime: Option<int>)

  function MinHeight(m: seq<MissRow>): int
    requires m != []
  {
    if |m| == 1 then m[0].height
    else var r := MinHeight(m[1..]); if m[0].height < r then m[0].height else r
  }

  function MaxHeight(m: seq<MissRow>): int
    requires m != []
  {
    if |m| == 1 then m[0].height
    else var r := MaxHeight(m[1..]); if m[0].height > r then m[0].height else r
  }

  /** SQL's MIN: NULLs are ignored, and without any value the result is NULL. */
  function MinTime(m: seq<MissRow>): Option<int> {
    if m == [] then None
    else
      var r := MinTime(m[1..]);
      if m[0].time.Some? && (r.None? || m[0].time.value < r.value) then m[0].time else r
  }

  function MaxTime(m: seq<MissRow>): Option<int> {
    if m == [] then None
    else
      var r := MaxTime(m[1..]);
      if m[0].time.Some? && (r.None? || m[0].time.value > r.value) then m[0].time else r
  }

  function Aggregate(m: seq<MissRow>): StreakRow
    requires m != []
  {
    StreakRow(|m|, MinHeight(m), MaxHeight(m), MinTime(m), MaxTime(m))
  }

  lemma {:induction false} InGroupMembers(m: seq<MissRow>, g: int)
    ensures forall r :: r in InGroup(m, g) <==> r in m && r.grp == g
    ensures g in Groups(m) <==> InGroup(m, g) != []
  {
    if m != [] {
      InGroupMembers(m[1..], g);
      assert m == [m[0]] + m[1..];
    }
    if g in Groups(m) {
      var k :| 0 <= k < |m| && m[k].grp == g;
      assert m[k] in InGroup(m, g);
    }
    if InGroup(m, g) != [] {
      assert InGroup(m, g)[0] in m;
    }
  }

  /** GROUP BY grp ORDER BY consecutive_misses DESC: one row a group, in some order that is descending. */
  ghost predicate IsResult(m: seq<MissRow>, keys: seq<int>, result: seq<StreakRow>) {
    && |result| == |keys|
    && (forall i, j :: 0 <= i < j < |keys| ==> keys[i] != keys[j])
    && (forall g :: g in keys <==> g in Groups(m))
    && (forall i :: 0 <= i < |keys| ==> InGroup(m, keys[i]) != [] && result[i] == Aggregate(InGroup(m, keys[i])))
    && (forall i, j :: 0 <= i < j < |result| ==> result[i].count >= result[j].count)
  }

  // ----- what the proof needs to know about block_sequence

  ghost predicate HasHeight(rows: seq<JoinRow>, h: int) {
    exists i :: 0 <= i < |rows| && rows[i].height == h
  }

  ghost predicate Faithful(rows: seq<JoinRow>, stored: set<int>, missed: set<int>) {
    && (forall i, j :: 0 <= i < j < |rows| ==> rows[i].height <= rows[j].height)
    && (forall i :: 0 <= i < |rows| ==> rows[i].height in stored)
    && (forall i :: 0 <= i < |rows| ==> (rows[i].vote.None? <==> rows[i].height in missed))
    && (forall h {:trigger HasHeight(rows, h)} :: h in stored ==> HasHeight(rows, h))
    && (forall i, j :: 0 <= i < j < |rows| && rows[i].vote.None? && rows[j].vote.None? ==>
          rows[i].height < rows[j].height)
    && missed <= stored
  }

  function Missed(hs: seq<HeightRow>, votes: seq<VoteRow>, addr: string): set<int> {
    HeightsOf(hs) - SignedHeights(hs, votes, addr)
  }

  /** A voteless row is the only row of its height in the join. */
  lemma {:induction false} VotelessOnce(hs: seq<HeightRow>, votes: seq<VoteRow>, addr: string, r: JoinRow)
    requires UniqueHeights(hs) && r.vote.None?
    ensures multiset(LeftJoin(hs, votes, addr))[r] <= 1
  {
    if hs != [] {
      VotelessOnce(hs[1..], votes, addr, r);
      if r in RowsFor(hs[0], votes, addr) {
        RowFacts(hs[0], votes, addr, r);
        MatchingMembers(votes, addr, hs[0].height);
        assert RowsFor(hs[0], votes, addr) == [r];
        if r in LeftJoin(hs[1..], votes, addr) {
          JoinRowFacts(hs[1..], votes, addr, r);
          HeightsCons(hs);
        }
      }
    }
  }

  lemma TwoOccurrences<T>(s: seq<T>, i: nat, j: nat)
    requires i < j < |s| && s[i] == s[j]
    ensures multiset(s)[s[i]] >= 2
  {
    assert s == s[..j] + [s[j]] + s[j + 1..];
    assert s[i] in s[..j];
  }

  lemma BlockSequenceIsFaithful(rows: seq<JoinRow>, hs: seq<HeightRow>, votes: seq<VoteRow>, addr: string)
    requires UniqueHeights(hs) && BlockSequence(rows, hs, votes, addr)
    ensures Faithful(rows, HeightsOf(hs), Missed(hs, votes, addr))
  {
    var joined := LeftJoin(hs, votes, addr);
    forall r ensures r in rows <==> r in joined {
      assert r in rows <==> r in multiset(rows);
      assert r in joined <==> r in multiset(joined);
    }
    forall i | 0 <= i < |rows|
      ensures rows[i].height in HeightsOf(hs) && (rows[i].vote.None? <==> rows[i].height in Missed(hs, votes, addr))
    {
      JoinRowFacts(hs, votes, addr, rows[i]);
    }
    forall h | h in HeightsOf(hs) ensures HasHeight(rows, h) {
      JoinCovers(hs, votes, addr, h);
      var r :| r in joined && r.height == h;
      assert r in rows;
    }
    forall i, j | 0 <= i < j < |rows| && rows[i].vote.None? && rows[j].vote.None?
      ensures rows[i].height < rows[j].height
    {
      if rows[i].height == rows[j].height {
        SameHeightSameTime(hs, votes, addr, rows[i], rows[j]);
        TwoOccurrences(rows, i, j);
        VotelessOnce(hs, votes, addr, rows[i]);
      }
    }
  }

  // ----- row numbers of the misses

  ghost predicate HasNumber(m: seq<MissRow>, n: int) {
    exists k :: 0 <= k < |m| && m[k].rn == n
  }

  ghost predicate Numbered(rows: seq<JoinRow>, m: seq<MissRow>) {
    && (forall k :: 0 <= k < |m| ==>
          && 1 <= m[k].rn <= |rows| && rows[m[k].rn - 1].vote.None?
          && m[k].height == rows[m[k].rn - 1].height && m[k].time == rows[m[k].rn - 1].time
          && m[k].grp == m[k].rn - (k + 1))
    && (forall k, l :: 0 <= k < l < |m| ==> m[k].rn < m[l].rn)
    && (forall n {:trigger HasNumber(m, n)} :: 1 <= n <= |rows| && rows[n - 1].vote.None? ==> HasNumber(m, n))
  }

  lemma {:induction false} MissGroupsNumbered(rows: seq<JoinRow>)
    ensures Numbered(rows, MissGroups(rows))
  {
    if rows != [] {
      var n := |rows| - 1;
      var before, m := MissGroups(rows[..n]), MissGroups(rows);
      MissGroupsNumbered(rows[..n]);
      forall p | 1 <= p <= |rows| && rows[p - 1].vote.None? ensures HasNumber(m, p) {
        if p <= n {
          assert HasNumber(before, p);
          var k :| 0 <= k < |before| && before[k].rn == p;
          assert m[k].rn == p;
        } else {
          assert m[|m| - 1].rn == p;
        }
      }
    }
  }

  /** The group number counts the voted rows passed so far, so it never decreases. */
  lemma {:induction false} GroupsAscend(rows: seq<JoinRow>, m: seq<MissRow>, k: nat, l: nat)
    requires Numbered(rows, m) && k <= l < |m|
    ensures m[k].grp <= m[l].grp
    decreases l - k
  {
    if k < l {
      GroupsAscend(rows, m, k, l - 1);
    }
  }

  /** The misses a..b form one island: one group number, and neighbours in other groups. */
  ghost predicate IsIsland(m: seq<MissRow>, a: nat, b: nat) {
    && a <= b < |m| && (forall k :: a <= k <= b ==> m[k].grp == m[a].grp)
    && (a > 0 ==> m[a - 1].grp < m[a].grp) && (b + 1 < |m| ==> m[a].grp < m[b + 1].grp)
  }

  lemma FindIsland(rows: seq<JoinRow>, m: seq<MissRow>, k: nat) returns (a: nat, b: nat)
    requires Numbered(rows, m) && k < |m|
    ensures IsIsland(m, a, b) && a <= k <= b
  {
    a, b := k, k;
    while a > 0 && m[a - 1].grp == m[k].grp
      invariant a <= k && forall x :: a <= x <= k ==> m[x].grp == m[k].grp
    {
      a := a - 1;
    }
    while b + 1 < |m| && m[b + 1].grp == m[k].grp
      invariant a <= k <= b < |m| && forall x :: a <= x <= b ==> m[x].grp == m[k].grp
      decreases |m| - b
    {
      b := b + 1;
    }
    if a > 0 { GroupsAscend(rows, m, a - 1, a); }
    if b + 1 < |m| { GroupsAscend(rows, m, b, b + 1); }
  }

  lemma {:induction false} NotInGroup(m: seq<MissRow>, g: int)
    requires forall k :: 0 <= k < |m| ==> m[k].grp != g
    ensures InGroup(m, g) == []
  {
    if m != [] {
      NotInGroup(m[1..], g);
    }
  }

  lemma {:induction false} AllInGroup(m: seq<MissRow>, g: int)
    requires forall k :: 0 <= k < |m| ==> m[k].grp == g
    ensures InGroup(m, g) == m
  {
    if m != [] {
      AllInGroup(m[1..], g);
    }
  }

  lemma {:induction false} InGroupAppend(m: seq<MissRow>, n: seq<MissRow>, g: int)
    ensures InGroup(m + n, g) == InGroup(m, g) + InGroup(n, g)
  {
    if m == [] {
      assert m + n == n;
    } else {
      var first := if m[0].grp == g then [m[0]] else [];
      assert (m + n)[1..] == m[1..] + n;
      InGroupAppend(m[1..], n, g);
      assert InGroup(m + n, g) == first + (InGroup(m[1..], g) + InGroup(n, g));
    }
  }

  lemma InGroupOfBlock(m: seq<MissRow>, a: nat, b: nat, g: int)
    requires a <= b < |m| && forall k :: 0 <= k < |m| ==> (m[k].grp == g <==> a <= k <= b)
    ensures InGroup(m, g) == m[a..b + 1]
  {
    assert m == m[..a] + (m[a..b + 1] + m[b + 1..]);
    NotInGroup(m[..a], g);
    AllInGroup(m[a..b + 1], g);
    NotInGroup(m[b + 1..], g);
    InGroupAppend(m[..a], m[a..b + 1] + m[b + 1..], g);
    InGroupAppend(m[a..b + 1], m[b + 1..], g);
  }

  /** GROUP BY gathers exactly one island. */
  lemma GroupIsIsland(rows: seq<JoinRow>, m: seq<MissRow>, a: nat, b: nat)
    requires Numbered(rows, m) && IsIsland(m, a, b)
    ensures InGroup(m, m[a].grp) == m[a..b + 1]
  {
    forall k | 0 <= k < |m| ensures m[k].grp == m[a].grp <==> a <= k <= b {
      if k < a {
        GroupsAscend(rows, m, k, a - 1);
      } else if b < k {
        GroupsAscend(rows, m, b + 1, k);
      }
    }
    InGroupOfBlock(m, a, b, m[a].grp);
  }

  // ----- an island is a maximal run

  ghost predicate Ascending(m: seq<MissRow>) {
    forall k, l :: 0 <= k < l < |m| ==> m[k].height < m[l].height
  }

  lemma MissesAscend(rows: seq<JoinRow>, m: seq<MissRow>, stored: set<int>, missed: set<int>)
    requires Faithful(rows, stored, missed) && Numbered(rows, m)
    ensures Ascending(m)
  {
    forall k, l | 0 <= k < l < |m| ensures m[k].height < m[l].height {
      assert m[k].rn < m[l].rn;
    }
  }

  lemma {:induction false} AscendingEnds(m: seq<MissRow>)
    requires m != [] && Ascending(m)
    ensures MinHeight(m) == m[0].height && MaxHeight(m) == m[|m| - 1].height
  {
    if |m| > 1 {
      AscendingEnds(m[1..]);
    }
  }

  /** Inside an island the row numbers are consecutive, so every row between its ends is a miss. */
  lemma IslandHasNoVotes(rows: seq<JoinRow>, m: seq<MissRow>, a: nat, b: nat, i: nat)
    requires Numbered(rows, m) && IsIsland(m, a, b) && m[a].rn <= i + 1 <= m[b].rn
    ensures a <= i - m[a].grp <= b && m[i - m[a].grp].rn == i + 1 && rows[i].vote.None?
  {
    assert m[b].grp == m[a].grp;
    var k := i - m[a].grp;
    assert m[k].grp == m[a].grp;
  }

  lemma IslandIsRun(rows: seq<JoinRow>, m: seq<MissRow>, stored: set<int>, missed: set<int>, a: nat, b: nat)
    requires Faithful(rows, stored, missed) && Numbered(rows, m) && IsIsland(m, a, b)
    ensures IsRun(stored, missed, m[a].height, m[b].height)
  {
    var lo, hi := m[a].height, m[b].height;
    assert m[a].rn <= m[b].rn;
    forall h | h in stored && lo <= h <= hi ensures h in missed {
      if lo < h < hi {
        assert HasHeight(rows, h);
        var i :| 0 <= i < |rows| && rows[i].height == h;
        assert m[a].rn - 1 < i < m[b].rn - 1;
        IslandHasNoVotes(rows, m, a, b, i);
      }
    }
  }

  lemma NoNumberBetween(rows: seq<JoinRow>, m: seq<MissRow>, k: nat, n: int)
    requires Numbered(rows, m) && k + 1 < |m| && m[k].rn < n < m[k + 1].rn
    ensures !HasNumber(m, n)
  {
    forall l | 0 <= l < |m| ensures m[l].rn != n {
      assert l < k ==> m[l].rn < m[k].rn;
      assert k + 1 < l ==> m[k + 1].rn < m[l].rn;
    }
  }

  /** Between two neighbouring misses of different groups there is a voted height. */
  lemma VoteBetween(rows: seq<JoinRow>, m: seq<MissRow>, stored: set<int>, missed: set<int>, k: nat) returns (v: int)
    requires Faithful(rows, stored, missed) && Numbered(rows, m) && k + 1 < |m| && m[k].grp < m[k + 1].grp
    ensures m[k].height <= v <= m[k + 1].height && v in stored && v !in missed
  {
    var i := m[k].rn;
    NoNumberBetween(rows, m, k, i + 1);
    assert rows[i].vote.Some?;
    v := rows[i].height;
  }

  lemma MissIndex(rows: seq<JoinRow>, m: seq<MissRow>, stored: set<int>, missed: set<int>, h: int) returns (k: nat)
    requires Faithful(rows, stored, missed) && Numbered(rows, m) && h in missed
    ensures k < |m| && m[k].height == h
  {
    assert HasHeight(rows, h);
    var i :| 0 <= i < |rows| && rows[i].height == h;
    assert HasNumber(m, i + 1);
    k :| 0 <= k < |m| && m[k].rn == i + 1;
  }

  lemma MissesAreHeights(rows: seq<JoinRow>, m: seq<MissRow>, stored: set<int>, missed: set<int>)
    requires Faithful(rows, stored, missed) && Numbered(rows, m)
    ensures HeightSet(m) == missed
  {
    forall h | h in missed ensures h in HeightSet(m) {
      var k := MissIndex(rows, m, stored, missed, h);
    }
    forall h | h in HeightSet(m) ensures h in missed {
      var k :| 0 <= k < |m| && m[k].height == h;
    }
  }

  /** A missed height before an island is cut off from it by a voted height, and so is one after it. */
  lemma GapLeft(rows: seq<JoinRow>, m: seq<MissRow>, stored: set<int>, missed: set<int>, a: nat, b: nat, x: int)
    returns (v: int)
    requires Faithful(rows, stored, missed) && Numbered(rows, m) && Ascending(m) && IsIsland(m, a, b)
    requires x in missed && x < m[a].height
    ensures x <= v <= m[a].height && v in stored && v !in missed
  {
    var k := MissIndex(rows, m, stored, missed, x);
    assert k < a;
    v := VoteBetween(rows, m, stored, missed, a - 1);
  }

  lemma GapRight(rows: seq<JoinRow>, m: seq<MissRow>, stored: set<int>, missed: set<int>, a: nat, b: nat, y: int)
    returns (v: int)
    requires Faithful(rows, stored, missed) && Numbered(rows, m) && Ascending(m) && IsIsland(m, a, b)
    requires y in missed && m[b].height < y
    ensures m[b].height <= v <= y && v in stored && v !in missed
  {
    var k := MissIndex(rows, m, stored, missed, y);
    assert b < k;
    assert m[b].grp == m[a].grp;
    v := VoteBetween(rows, m, stored, missed, b);
  }

  lemma IslandIsMaximal(rows: seq<JoinRow>, m: seq<MissRow>, stored: set<int>, missed: set<int>, a: nat, b: nat)
    requires Faithful(rows, stored, missed) && Numbered(rows, m) && Ascending(m) && IsIsland(m, a, b)
    ensures IsMaximalRun(stored, missed, m[a].height, m[b].height)
  {
    IslandIsRun(rows, m, stored, missed, a, b);
    var lo, hi := m[a].height, m[b].height;
    forall x, y | IsRun(stored, missed, x, y) && x <= lo && hi <= y ensures x == lo && y == hi {
      if x < lo {
        var v := GapLeft(rows, m, stored, missed, a, b, x);
      }
      if hi < y {
        var v := GapRight(rows, m, stored, missed, a, b, y);
      }
    }
  }

  // ----- the count of an island is the number of stored heights in the run

  function HeightSet(m: seq<MissRow>): set<int> {
    set k | 0 <= k < |m| :: m[k].height
  }

  lemma {:induction false} HeightSetSize(m: seq<MissRow>)
    requires Ascending(m)
    ensures |HeightSet(m)| == |m|
  {
    if m == [] {
      assert HeightSet(m) == {};
    } else {
      var n := |m| - 1;
      HeightSetSize(m[..n]);
      assert HeightSet(m) == HeightSet(m[..n]) + {m[n].height};
    }
  }

  lemma IslandCount(m: seq<MissRow>, stored: set<int>, missed: set<int>, a: nat, b: nat)
    requires Ascending(m) && HeightSet(m) == missed <= stored && a <= b < |m|
    requires IsRun(stored, missed, m[a].height, m[b].height)
    ensures Ascending(m[a..b + 1]) && |Between(stored, m[a].height, m[b].height)| == b + 1 - a
  {
    var island := m[a..b + 1];
    HeightSetSize(island);
    forall h | h in Between(stored, m[a].height, m[b].height) ensures h in HeightSet(island) {
      var k :| 0 <= k < |m| && m[k].height == h;
      assert island[k - a].height == h;
    }
    forall h | h in HeightSet(island) ensures h in Between(stored, m[a].height, m[b].height) {
      var k :| 0 <= k < |island| && island[k].height == h;
      assert m[a + k].height == h && h in HeightSet(m);
    }
    assert HeightSet(island) == Between(stored, m[a].height, m[b].height);
  }

  /** The group of miss `k` and the run it covers. */
  lemma GroupOfMiss(rows: seq<JoinRow>, m: seq<MissRow>, stored: set<int>, missed: set<int>, k: nat)
    returns (a: nat, b: nat)
    requires Faithful(rows, stored, missed) && Numbered(rows, m) && k < |m|
    ensures a <= k <= b < |m| && InGroup(m, m[k].grp) == m[a..b + 1] && Ascending(m)
    ensures IsMaximalRun(stored, missed, m[a].height, m[b].height)
    ensures |Between(stored, m[a].height, m[b].height)| == b + 1 - a
  {
    MissesAscend(rows, m, stored, missed);
    MissesAreHeights(rows, m, stored, missed);
    a, b := FindIsland(rows, m, k);
    assert m[k].grp == m[a].grp;
    GroupIsIsland(rows, m, a, b);
    IslandIsMaximal(rows, m, stored, missed, a, b);
    IslandCount(m, stored, missed, a, b);
  }

  lemma SliceEnds(m: seq<MissRow>, a: nat, b: nat)
    requires Ascending(m) && a <= b < |m|
    ensures var r := Aggregate(m[a..b + 1]);
            r.startHeight == m[a].height && r.endHeight == m[b].height && r.count == b + 1 - a
  {
    AscendingEnds(m[a..b + 1]);
  }

  /** One output row: the bounds and the size of a maximal run. */
  lemma StreakIsMaximalRun(rows: seq<JoinRow>, stored: set<int>, missed: set<int>, k: nat)
    requires Faithful(rows, stored, missed) && k < |MissGroups(rows)|
    ensures var m := MissGroups(rows);
            var members := InGroup(m, m[k].grp);
            members != [] &&
            var r := Aggregate(members);
            && IsMaximalRun(stored, missed, r.startHeight, r.endHeight)
            && r.count == |Between(stored, r.startHeight, r.endHeight)|
            && r.startHeight <= m[k].height <= r.endHeight
  {
    var m := MissGroups(rows);
    MissGroupsNumbered(rows);
    var a, b := GroupOfMiss(rows, m, stored, missed, k);
    SliceEnds(m, a, b);
  }

  /** Two maximal runs that share a height are the same run. */
  lemma RunsDisjoint(stored: set<int>, missed: set<int>, a: int, b: int, x: int, y: int, h: int)
    requires IsMaximalRun(stored, missed, a, b) && IsMaximalRun(stored, missed, x, y)
    requires a <= h <= b && x <= h <= y
    ensures a == x && b == y
  {
    var lo, hi := if a < x then a else x, if b < y then y else b;
    assert IsRun(stored, missed, lo, hi);
  }

  // ----- the counts add up to the missed heights

  function Total(keys: seq<int>, m: seq<MissRow>): nat {
    if keys == [] then 0 else |InGroup(m, keys[0])| + Total(keys[1..], m)
  }

  function SumCounts(result: seq<StreakRow>): nat {
    if result == [] then 0 else result[0].count + SumCounts(result[1..])
  }

  function Hits(keys: seq<int>, g: int): nat {
    if keys == [] then 0 else (if keys[0] == g then 1 else 0) + Hits(keys[1..], g)
  }

  lemma {:induction false} TotalAppend(keys: seq<int>, m: seq<MissRow>, r: MissRow)
    ensures Total(keys, m + [r]) == Total(keys, m) + Hits(keys, r.grp)
  {
    if keys != [] {
      TotalAppend(keys[1..], m, r);
      InGroupAppend(m, [r], keys[0]);
      assert [r][1..] == [];
      assert InGroup([r], keys[0]) == if r.grp == keys[0] then [r] else [];
    }
  }

  lemma {:induction false} TotalEmpty(keys: seq<int>)
    ensures Total(keys, []) == 0
  {
    if keys != [] {
      TotalEmpty(keys[1..]);
    }
  }

  lemma {:induction false} HitsOnce(keys: seq<int>, g: int)
    requires forall i, j :: 0 <= i < j < |keys| ==> keys[i] != keys[j]
    ensures Hits(keys, g) == if g in keys then 1 else 0
  {
    if keys != [] {
      HitsOnce(keys[1..], g);
    }
  }

  /** Grouping loses and duplicates no row. */
  lemma {:induction false} GroupsPartition(keys: seq<int>, m: seq<MissRow>)
    requires forall i, j :: 0 <= i < j < |keys| ==> keys[i] != keys[j]
    requires forall k :: 0 <= k < |m| ==> m[k].grp in keys
    ensures Total(keys, m) == |m|
  {
    if m == [] {
      TotalEmpty(keys);
    } else {
      var n := |m| - 1;
      GroupsPartition(keys, m[..n]);
      assert m == m[..n] + [m[n]];
      TotalAppend(keys, m[..n], m[n]);
      HitsOnce(keys, m[n].grp);
    }
  }

  lemma {:induction false} SumIsTotal(keys: seq<int>, m: seq<MissRow>, result: seq<StreakRow>)
    requires |result| == |keys|
    requires forall i :: 0 <= i < |keys| ==> InGroup(m, keys[i]) != [] && result[i] == Aggregate(InGroup(m, keys[i]))
    ensures SumCounts(result) == Total(keys, m)
  {
    if keys != [] {
      SumIsTotal(keys[1..], m, result[1..]);
    }
  }

  lemma MissesAreMissed(rows: seq<JoinRow>, stored: set<int>, missed: set<int>)
    requires Faithful(rows, stored, missed)
    ensures |MissGroups(rows)| == |missed|
  {
    var m := MissGroups(rows);
    MissGroupsNumbered(rows);
    MissesAscend(rows, m, stored, missed);
    MissesAreHeights(rows, m, stored, missed);
    HeightSetSize(m);
  }

  // ----- the theorem

  ghost predicate ListsMaximalRuns(result: seq<StreakRow>, stored: set<int>, missed: set<int>) {
    // every row is a maximal run with its size
    && (forall i :: 0 <= i < |result| ==>
          && IsMaximalRun(stored, missed, result[i].startHeight, result[i].endHeight)
          && result[i].count == |Between(stored, result[i].startHeight, result[i].endHeight)|)
    // every maximal run is a row
    && (forall lo, hi :: IsMaximalRun(stored, missed, lo, hi) ==>
          exists i :: 0 <= i < |result| && result[i].startHeight == lo && result[i].endHeight == hi)
    // no run is listed twice
    && (forall i, j :: 0 <= i < j < |result| ==> result[i].startHeight != result[j].startHeight)
  }

  /** For any heights and votes, however the engine breaks ties, the query lists exactly the maximal
      runs of missed heights, and their counts add up to blocks_missed. */
  lemma MissedBlockStreaks(heights: seq<HeightRow>, votes: seq<VoteRow>, addr: string, start: int, end: int,
                           rows: seq<JoinRow>, keys: seq<int>, result: seq<StreakRow>)
    requires UniqueHeights(heights)
    requires BlockSequence(rows, Windowed(heights, start, end), votes, addr)
    requires IsResult(MissGroups(rows), keys, result)
    ensures var hs, stored := Windowed(heights, start, end), HeightsBetween(heights, start, end);
            var missed := MissedBetween(heights, votes, addr, start, end);
            && ListsMaximalRuns(result, stored, missed)
            && SumCounts(result) == |missed|
                == GroupedTotal(LeftJoin(hs, votes, addr)) - GroupedSigned(LeftJoin(hs, votes, addr))
  {
    var hs := Windowed(heights, start, end);
    var m, stored, missed := MissGroups(rows), HeightsOf(hs), Missed(hs, votes, addr);
    WindowedRows(heights, start, end);
    BetweenIsWindowed(heights, votes, addr, start, end);
    BlockSequenceIsFaithful(rows, hs, votes, addr);
    FormulationsAgree(heights, votes, addr, start, end);
    GroupsPartition(keys, m);
    SumIsTotal(keys, m, result);
    MissesAreMissed(rows, stored, missed);
    RowsAreRuns(rows, keys, result, stored, missed);
    RunsAreRows(rows, keys, result, stored, missed);
    RowsDiffer(rows, keys, result, stored, missed);
  }

  lemma RowOfKey(rows: seq<JoinRow>, keys: seq<int>, result: seq<StreakRow>, stored: set<int>, missed: set<int>, i: nat)
    returns (k: nat)
    requires Faithful(rows, stored, missed) && IsResult(MissGroups(rows), keys, result) && i < |keys|
    ensures k < |MissGroups(rows)| && MissGroups(rows)[k].grp == keys[i]
    ensures IsMaximalRun(stored, missed, result[i].startHeight, result[i].endHeight)
    ensures result[i].count == |Between(stored, result[i].startHeight, result[i].endHeight)|
    ensures result[i].startHeight <= MissGroups(rows)[k].height <= result[i].endHeight
  {
    var m := MissGroups(rows);
    assert keys[i] in Groups(m);
    k :| 0 <= k < |m| && m[k].grp == keys[i];
    StreakIsMaximalRun(rows, stored, missed, k);
  }

  lemma RowsAreRuns(rows: seq<JoinRow>, keys: seq<int>, result: seq<StreakRow>, stored: set<int>, missed: set<int>)
    requires Faithful(rows, stored, missed) && IsResult(MissGroups(rows), keys, result)
    ensures forall i :: 0 <= i < |result| ==>
              && IsMaximalRun(stored, missed, result[i].startHeight, result[i].endHeight)
              && result[i].count == |Between(stored, result[i].startHeight, result[i].endHeight)|
  {
    forall i | 0 <= i < |result|
      ensures IsMaximalRun(stored, missed, result[i].startHeight, result[i].endHeight)
      ensures result[i].count == |Between(stored, result[i].startHeight, result[i].endHeight)|
    {
      var k := RowOfKey(rows, keys, result, stored, missed, i);
    }
  }

  lemma RunsAreRows(rows: seq<JoinRow>, keys: seq<int>, result: seq<StreakRow>, stored: set<int>, missed: set<int>)
    requires Faithful(rows, stored, missed) && IsResult(MissGroups(rows), keys, result)
    ensures forall lo, hi :: IsMaximalRun(stored, missed, lo, hi) ==>
              exists i :: 0 <= i < |result| && result[i].startHeight == lo && result[i].endHeight == hi
  {
    var m := MissGroups(rows);
    MissGroupsNumbered(rows);
    forall lo, hi | IsMaximalRun(stored, missed, lo, hi)
      ensures exists i :: 0 <= i < |result| && result[i].startHeight == lo && result[i].endHeight == hi
    {
      var k := MissIndex(rows, m, stored, missed, lo);
      assert m[k].grp in Groups(m);
      var i :| 0 <= i < |keys| && keys[i] == m[k].grp;
      StreakIsMaximalRun(rows, stored, missed, k);
      RunsDisjoint(stored, missed, lo, hi, result[i].startHeight, result[i].endHeight, lo);
    }
  }

  lemma RowsDiffer(rows: seq<JoinRow>, keys: seq<int>, result: seq<StreakRow>, stored: set<int>, missed: set<int>)
    requires Faithful(rows, stored, missed) && IsResult(MissGroups(rows), keys, result)
    ensures forall i, j :: 0 <= i < j < |result| ==> result[i].startHeight != result[j].startHeight
  {
    var m := MissGroups(rows);
    MissGroupsNumbered(rows);
    MissesAscend(rows, m, stored, missed);
    forall i, j | 0 <= i < j < |result| ensures result[i].startHeight != result[j].startHeight {
      var p := StartIsMiss(m, keys[i]);
      var q := StartIsMiss(m, keys[j]);
      assert p < q || q < p;
    }
  }

  lemma StartIsMiss(m: seq<MissRow>, g: int) returns (k: nat)
    requires InGroup(m, g) != []
    ensures k < |m| && m[k].grp == g && m[k].height == MinHeight(InGroup(m, g))
  {
    InGroupMembers(m, g);
    var r := MinIsMember(InGroup(m, g));
    k :| 0 <= k < |m| && m[k] == r;
  }

  lemma {:induction false} MinIsMember(m: seq<MissRow>) returns (r: MissRow)
    requires m != []
    ensures r in m && r.height == MinHeight(m)
  {
    if |m| == 1 {
      r := m[0];
    } else {
      r := MinIsMember(m[1..]);
      if m[0].height < r.height {
        r := m[0];
      }
    }
  }

  // ----- the times of a streak

  lemma {:induction false} TimesAreExtremes(m: seq<MissRow>)
    requires m != [] && forall r :: r in m ==> r.time.Some?
    ensures MinTime(m).Some? && MaxTime(m).Some?
    ensures forall r :: r in m ==> MinTime(m).value <= r.time.value <= MaxTime(m).value
    ensures exists r :: r in m && r.time == MinTime(m)
    ensures exists r :: r in m && r.time == MaxTime(m)
  {
    assert m == [m[0]] + m[1..];
    assert m[0] in m;
    if |m| > 1 {
      TimesAreExtremes(m[1..]);
    } else {
      assert m[1..] == [];
    }
  }

  /** A miss carries the block time of its height. */
  lemma MissTime(hs: seq<HeightRow>, votes: seq<VoteRow>, addr: string, rows: seq<JoinRow>, m: seq<MissRow>, k: nat)
    returns (i: nat)
    requires BlockSequence(rows, hs, votes, addr) && Numbered(rows, m) && k < |m|
    ensures i < |hs| && hs[i].height == m[k].height && hs[i].blockTime == m[k].time
  {
    var r := rows[m[k].rn - 1];
    assert r in multiset(rows) && r in multiset(LeftJoin(hs, votes, addr));
    JoinRowFacts(hs, votes, addr, r);
    i :| 0 <= i < |hs| && hs[i].height == r.height && hs[i].blockTime == r.time;
  }

  /** The start and end times of a streak are the least and the greatest block time of its heights. */
  lemma StreakTimes(hs: seq<HeightRow>, votes: seq<VoteRow>, addr: string, rows: seq<JoinRow>, k: nat)
    requires UniqueHeights(hs) && (forall h :: h in hs ==> h.blockTime.Some?)
    requires BlockSequence(rows, hs, votes, addr) && k < |MissGroups(rows)|
    ensures var m := MissGroups(rows);
            InGroup(m, m[k].grp) != [] &&
            var r := Aggregate(InGroup(m, m[k].grp));
            && r.startTime.Some? && r.endTime.Some?
            && (forall h :: h in hs && r.startHeight <= h.height <= r.endHeight ==>
                  r.startTime.value <= h.blockTime.value <= r.endTime.value)
            && HasHeightTime(hs, r.startHeight, r.endHeight, r.startTime)
            && HasHeightTime(hs, r.startHeight, r.endHeight, r.endTime)
  {
    var m := MissGroups(rows);
    var a, b := GroupTimesMatch(hs, votes, addr, rows, m, k);
    SliceEnds(m, a, b);
    MatchedExtremes(m[a..b + 1], hs, m[a].height, m[b].height);
  }

  lemma GroupTimesMatch(hs: seq<HeightRow>, votes: seq<VoteRow>, addr: string, rows: seq<JoinRow>, m: seq<MissRow>,
                        k: nat)
    returns (a: nat, b: nat)
    requires UniqueHeights(hs) && BlockSequence(rows, hs, votes, addr) && m == MissGroups(rows) && k < |m|
    ensures a <= b < |m| && Ascending(m) && InGroup(m, m[k].grp) == m[a..b + 1]
    ensures TimesMatch(m[a..b + 1], hs, m[a].height, m[b].height)
  {
    var stored, missed := HeightsOf(hs), Missed(hs, votes, addr);
    BlockSequenceIsFaithful(rows, hs, votes, addr);
    MissGroupsNumbered(rows);
    MissesAreHeights(rows, m, stored, missed);
    a, b := GroupOfMiss(rows, m, stored, missed, k);
    SliceTimesMatch(hs, votes, addr, rows, m, a, b);
  }

  /** The misses `s` and the height rows from `lo` to `hi` carry the same block times. */
  ghost predicate TimesMatch(s: seq<MissRow>, hs: seq<HeightRow>, lo: int, hi: int) {
    && (forall r :: r in s ==> HasHeightTime(hs, lo, hi, r.time))
    && (forall h :: h in hs && lo <= h.height <= hi ==> HasMissTime(s, h.blockTime))
  }

  ghost predicate HasHeightTime(hs: seq<HeightRow>, lo: int, hi: int, t: Option<int>) {
    exists h :: h in hs && lo <= h.height <= hi && h.blockTime == t
  }

  ghost predicate HasMissTime(s: seq<MissRow>, t: Option<int>) {
    exists r :: r in s && r.time == t
  }

  lemma SliceTimesMatch(hs: seq<HeightRow>, votes: seq<VoteRow>, addr: string, rows: seq<JoinRow>, m: seq<MissRow>,
                        a: nat, b: nat)
    requires UniqueHeights(hs) && BlockSequence(rows, hs, votes, addr)
    requires Numbered(rows, m) && Ascending(m) && a <= b < |m| && HeightSet(m) == Missed(hs, votes, addr)
    requires IsRun(HeightsOf(hs), Missed(hs, votes, addr), m[a].height, m[b].height)
    ensures TimesMatch(m[a..b + 1], hs, m[a].height, m[b].height)
  {
    MissesAreTimed(hs, votes, addr, rows, m);
    MissesHaveHeightTimes(hs, m, a, b);
    forall h | h in hs && m[a].height <= h.height <= m[b].height ensures HasMissTime(m[a..b + 1], h.blockTime) {
      RunIsMissed(hs, votes, addr, m[a].height, m[b].height, h);
      HeightHasMissTime(hs, votes, addr, rows, m, a, h, b);
    }
  }

  lemma RunIsMissed(hs: seq<HeightRow>, votes: seq<VoteRow>, addr: string, lo: int, hi: int, h: HeightRow)
    requires IsRun(HeightsOf(hs), Missed(hs, votes, addr), lo, hi) && h in hs && lo <= h.height <= hi
    ensures h.height in Missed(hs, votes, addr)
  {
    var x :| 0 <= x < |hs| && hs[x] == h;
    assert hs[x].height in HeightsOf(hs);
  }

  /** Every miss carries the block time of a stored height row of its height. */
  ghost predicate Timed(hs: seq<HeightRow>, m: seq<MissRow>) {
    forall k :: 0 <= k < |m| ==> HasHeightTime(hs, m[k].height, m[k].height, m[k].time)
  }

  lemma MissesAreTimed(hs: seq<HeightRow>, votes: seq<VoteRow>, addr: string, rows: seq<JoinRow>, m: seq<MissRow>)
    requires BlockSequence(rows, hs, votes, addr) && Numbered(rows, m)
    ensures Timed(hs, m)
  {
    forall k | 0 <= k < |m| ensures HasHeightTime(hs, m[k].height, m[k].height, m[k].time) {
      var i := MissTime(hs, votes, addr, rows, m, k);
      HeightTimeIs(hs, i, m[k].height, m[k].height);
    }
  }

  lemma MissesHaveHeightTimes(hs: seq<HeightRow>, m: seq<MissRow>, a: nat, b: nat)
    requires Timed(hs, m) && Ascending(m) && a <= b < |m|
    ensures forall r :: r in m[a..b + 1] ==> HasHeightTime(hs, m[a].height, m[b].height, r.time)
  {
    var s := m[a..b + 1];
    forall r | r in s ensures HasHeightTime(hs, m[a].height, m[b].height, r.time) {
      var x :| 0 <= x < |s| && s[x] == r;
      AscendingBetween(m, a, a + x, b);
      assert HasHeightTime(hs, m[a + x].height, m[a + x].height, m[a + x].time);
    }
  }

  lemma HeightHasMissTime(hs: seq<HeightRow>, votes: seq<VoteRow>, addr: string, rows: seq<JoinRow>, m: seq<MissRow>,
                          a: nat, h: HeightRow, b: nat)
    requires UniqueHeights(hs) && BlockSequence(rows, hs, votes, addr) && Numbered(rows, m) && Ascending(m)
    requires h in hs && HeightSet(m) == Missed(hs, votes, addr) && h.height in Missed(hs, votes, addr)
    requires a <= b < |m| && m[a].height <= h.height <= m[b].height
    ensures HasMissTime(m[a..b + 1], h.blockTime)
  {
    var k := MissOfHeight(hs, votes, addr, rows, m, h);
    AscendingIndex(m, a, k, b);
    assert m[a..b + 1][k - a] in m[a..b + 1];
  }

  lemma AscendingIndex(m: seq<MissRow>, a: nat, k: nat, b: nat)
    requires Ascending(m) && a < |m| && k < |m| && b < |m| && m[a].height <= m[k].height <= m[b].height
    ensures a <= k <= b
  {}

  lemma AscendingBetween(m: seq<MissRow>, a: nat, k: nat, b: nat)
    requires Ascending(m) && a <= k <= b < |m|
    ensures m[a].height <= m[k].height <= m[b].height
  {}

  lemma HeightTimeIs(hs: seq<HeightRow>, i: nat, lo: int, hi: int)
    requires i < |hs| && lo <= hs[i].height <= hi
    ensures HasHeightTime(hs, lo, hi, hs[i].blockTime)
  {
    assert hs[i] in hs;
  }

  lemma MissOfHeight(hs: seq<HeightRow>, votes: seq<VoteRow>, addr: string, rows: seq<JoinRow>, m: seq<MissRow>,
                     h: HeightRow)
    returns (k: nat)
    requires UniqueHeights(hs) && BlockSequence(rows, hs, votes, addr) && Numbered(rows, m)
    requires h in hs && HeightSet(m) == Missed(hs, votes, addr) && h.height in Missed(hs, votes, addr)
    ensures k < |m| && m[k].height == h.height && m[k].time == h.blockTime
  {
    var x :| 0 <= x < |hs| && hs[x] == h;
    assert h.height in HeightsOf(hs);
    k :| 0 <= k < |m| && m[k].height == h.height;
    var i := MissTime(hs, votes, addr, rows, m, k);
    assert !(x < i) && !(i < x);
  }

  lemma MatchedExtremes(s: seq<MissRow>, hs: seq<HeightRow>, lo: int, hi: int)
    requires s != [] && TimesMatch(s, hs, lo, hi) && forall h :: h in hs ==> h.blockTime.Some?
    ensures MinTime(s).Some? && MaxTime(s).Some?
    ensures forall h :: h in hs && lo <= h.height <= hi ==> MinTime(s).value <= h.blockTime.value <= MaxTime(s).value
    ensures HasHeightTime(hs, lo, hi, MinTime(s)) && HasHeightTime(hs, lo, hi, MaxTime(s))
  {
    forall r | r in s ensures r.time.Some? {
      assert HasHeightTime(hs, lo, hi, r.time);
    }
    TimesAreExtremes(s);
  }

  // ----- the longest streak

  /** The first row is the longest of all maximal runs; there is none exactly when nothing was missed. */
  lemma FirstRowIsLongest(rows: seq<JoinRow>, keys: seq<int>, result: seq<StreakRow>, stored: set<int>,
                          missed: set<int>)
    requires Faithful(rows, stored, missed) && IsResult(MissGroups(rows), keys, result)
    ensures result == [] <==> missed == {}
    ensures forall lo, hi :: IsMaximalRun(stored, missed, lo, hi) ==>
              result != [] && |Between(stored, lo, hi)| <= result[0].count
  {
    var m := MissGroups(rows);
    MissGroupsNumbered(rows);
    RowsAreRuns(rows, keys, result, stored, missed);
    RunsAreRows(rows, keys, result, stored, missed);
    MissesAreMissed(rows, stored, missed);
    if m == [] {
      assert forall g :: g !in Groups(m);
    } else {
      assert m[0].grp in Groups(m);
    }
    if result != [] {
      var k := RowOfKey(rows, keys, result, stored, missed, 0);
    }
  }

  /** GetSigningEfficiency: the count of the first row, or 0 without any row. */
  function LongestMissStreak(result: seq<StreakRow>): nat {
    if |result| > 0 then result[0].count else 0
  }

  /** The reported longest streak is the size of some maximal run and of no smaller one than any other;
      it is 0 exactly when no height was missed. */
  lemma LongestStreak(heights: seq<HeightRow>, votes: seq<VoteRow>, addr: string, start: int, end: int,
                      rows: seq<JoinRow>, keys: seq<int>, result: seq<StreakRow>)
    requires UniqueHeights(heights)
    requires BlockSequence(rows, Windowed(heights, start, end), votes, addr)
    requires IsResult(MissGroups(rows), keys, result)
    ensures var stored := HeightsBetween(heights, start, end);
            var missed := MissedBetween(heights, votes, addr, start, end);
            && (forall lo, hi :: IsMaximalRun(stored, missed, lo, hi) ==>
                  |Between(stored, lo, hi)| <= LongestMissStreak(result))
            && (missed != {} ==>
                  exists lo, hi :: IsMaximalRun(stored, missed, lo, hi)
                                   && |Between(stored, lo, hi)| == LongestMissStreak(result))
            && (LongestMissStreak(result) == 0 <==> missed == {})
  {
    var hs := Windowed(heights, start, end);
    var stored, missed := HeightsOf(hs), Missed(hs, votes, addr);
    WindowedRows(heights, start, end);
    BetweenIsWindowed(heights, votes, addr, start, end);
    BlockSequenceIsFaithful(rows, hs, votes, addr);
    FirstRowIsLongest(rows, keys, result, stored, missed);
    if result != [] {
      var k := RowOfKey(rows, keys, result, stored, missed, 0);
      assert result[0].count > 0;
    }
  }

  // ----- the query has a result on every table

  function HeightOfRow(r: JoinRow): int { r.height }

  /** The query itself, with one of the orderings the engine may choose. */
  method RunQuery(hs: seq<HeightRow>, votes: seq<VoteRow>, addr: string)
    returns (rows: seq<JoinRow>, keys: seq<int>, result: seq<StreakRow>)
    ensures BlockSequence(rows, hs, votes, addr) && IsResult(MissGroups(rows), keys, result)
  {
    rows := SortedCopy(HeightOfRow, LeftJoin(hs, votes, addr));
    assert forall i, j :: 0 <= i < j < |rows| ==> HeightOfRow(rows[i]) <= HeightOfRow(rows[j]);
    var m := MissGroups(rows);
    keys := KeysByCount(m, Groups(m));
    forall i | 0 <= i < |keys| ensures InGroup(m, keys[i]) != [] {
      assert keys[i] in keys;
      InGroupMembers(m, keys[i]);
    }
    result := seq(|keys|, i requires 0 <= i < |keys| && InGroup(m, keys[i]) != [] => Aggregate(InGroup(m, keys[i])));
  }

  method KeysByCount(m: seq<MissRow>, s: set<int>) returns (keys: seq<int>)
    ensures forall i, j :: 0 <= i < j < |keys| ==> keys[i] != keys[j] && |InGroup(m, keys[i])| >= |InGroup(m, keys[j])|
    ensures forall g :: g in keys <==> g in s
    decreases |s|
  {
    if s == {} {
      keys := [];
    } else {
      var g := LargestGroup(m, s);
      var rest := KeysByCount(m, s - {g});
      keys := [g] + rest;
      assert forall j :: 0 <= j < |rest| ==> rest[j] in rest;
    }
  }

  method LargestGroup(m: seq<MissRow>, s: set<int>) returns (g: int)
    requires s != {}
    ensures g in s && forall h :: h in s ==> |InGroup(m, g)| >= |InGroup(m, h)|
    decreases |s|
  {
    g := Pick(s);
    if s != {g} {
      assert s - {g} != {};
      var h := LargestGroup(m, s - {g});
      if |InGroup(m, h)| > |InGroup(m, g)| {
        g := h;
      }
    }
  }
}
