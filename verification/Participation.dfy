/** Which stored heights a validator took part in: the joins of the analytics queries against the
    per-height definition. */
module Participation {
  import opened Int64
  import opened Text
  import opened Schema
  import opened FiniteSets
  import opened Upserts

  // ----- the definition the queries are meant to compute

  /** The heights of the window: those with a known block time from `start` to `end`. */
  ghost function HeightsBetween(hs: seq<HeightRow>, start: int, end: int): set<int> {
    set h | h in hs && h.blockTime.Some? && start <= h.blockTime.value <= end :: h.height
  }

  /** Those of them with a vote row of the validator. */
  ghost function SignedBetween(hs: seq<HeightRow>, votes: seq<VoteRow>, addr: string, start: int, end: int): set<int> {
    set h | h in HeightsBetween(hs, start, end) && Voted(votes, addr, h)
  }

  /** Those of them without one. */
  ghost function MissedBetween(hs: seq<HeightRow>, votes: seq<VoteRow>, addr: string, start: int, end: int): set<int> {
    set h | h in HeightsBetween(hs, start, end) && !Voted(votes, addr, h)
  }

  /** WHERE h.block_time >= ? AND h.block_time <= ?: a NULL time never qualifies. */
  function Windowed(hs: seq<HeightRow>, start: int, end: int): seq<HeightRow> {
    if hs == [] then []
    else
      var t := hs[0].blockTime;
      (if t.Some? && t.value >= start && t.value <= end then [hs[0]] else []) + Windowed(hs[1..], start, end)
  }

  /** The validator has some vote row at this height. */
  predicate Voted(votes: seq<VoteRow>, addr: string, height: int) {
    exists v :: v in votes && v.validator == addr && v.height == height
  }

  function SignedHeights(hs: seq<HeightRow>, votes: seq<VoteRow>, addr: string): set<int> {
    set h | h in HeightsOf(hs) && Voted(votes, addr, h)
  }

  // ----- heights LEFT JOIN votes

  datatype JoinRow = JoinRow(height: int64, time: Option<int>, vote: Option<VoteRow>)

  function Matching(votes: seq<VoteRow>, addr: string, height: int): seq<VoteRow> {
    if votes == [] then []
    else
      (if votes[0].validator == addr && votes[0].height == height then [votes[0]] else [])
      + Matching(votes[1..], addr, height)
  }

  /** The joined rows of one height: one for every matching vote, or a single one without a vote. */
  function RowsFor(h: HeightRow, votes: seq<VoteRow>, addr: string): (r: seq<JoinRow>)
    ensures r != []
  {
    var m := Matching(votes, addr, h.height);
    if m == [] then [JoinRow(h.height, h.blockTime, None)]
    else seq(|m|, i requires 0 <= i < |m| => JoinRow(h.height, h.blockTime, Some(m[i])))
  }

  function LeftJoin(hs: seq<HeightRow>, votes: seq<VoteRow>, addr: string): seq<JoinRow> {
    if hs == [] then [] else RowsFor(hs[0], votes, addr) + LeftJoin(hs[1..], votes, addr)
  }

  lemma {:induction false} MatchingMembers(votes: seq<VoteRow>, addr: string, height: int)
    ensures forall v :: v in Matching(votes, addr, height) <==> v in votes && v.validator == addr && v.height == height
    ensures Matching(votes, addr, height) != [] <==> Voted(votes, addr, height)
  {
    if votes != [] {
      MatchingMembers(votes[1..], addr, height);
      assert votes == [votes[0]] + votes[1..];
    }
    var m := Matching(votes, addr, height);
    if m != [] {
      assert m[0] in m;
    }
  }

  /** A row of the join is a row of one of its heights, and says whether that height was voted. */
  lemma {:induction false} JoinMembers(hs: seq<HeightRow>, votes: seq<VoteRow>, addr: string)
    ensures forall r ::
              r in LeftJoin(hs, votes, addr) <==> exists i :: 0 <= i < |hs| && r in RowsFor(hs[i], votes, addr)
  {
    if hs != [] {
      JoinMembers(hs[1..], votes, addr);
      forall r
        ensures r in LeftJoin(hs, votes, addr) <==> exists i :: 0 <= i < |hs| && r in RowsFor(hs[i], votes, addr)
      {
        if r in LeftJoin(hs[1..], votes, addr) {
          var i :| 0 <= i < |hs| - 1 && r in RowsFor(hs[1..][i], votes, addr);
          assert r in RowsFor(hs[i + 1], votes, addr);
        }
        if i :| 0 <= i < |hs| && r in RowsFor(hs[i], votes, addr) {
          if i > 0 {
            assert r in RowsFor(hs[1..][i - 1], votes, addr);
          }
        }
      }
    }
  }

  lemma RowFacts(h: HeightRow, votes: seq<VoteRow>, addr: string, r: JoinRow)
    requires r in RowsFor(h, votes, addr)
    ensures r.height == h.height && r.time == h.blockTime
    ensures r.vote.None? <==> !Voted(votes, addr, h.height)
    ensures r.vote.Some? ==> r.vote.value in votes && r.vote.value.validator == addr && r.vote.value.height == h.height
  {
    MatchingMembers(votes, addr, h.height);
    var i :| 0 <= i < |RowsFor(h, votes, addr)| && RowsFor(h, votes, addr)[i] == r;
  }

  lemma JoinRowFacts(hs: seq<HeightRow>, votes: seq<VoteRow>, addr: string, r: JoinRow)
    requires r in LeftJoin(hs, votes, addr)
    ensures exists i :: 0 <= i < |hs| && hs[i].height == r.height && hs[i].blockTime == r.time
    ensures r.height in HeightsOf(hs)
    ensures r.vote.None? <==> !Voted(votes, addr, r.height)
  {
    JoinMembers(hs, votes, addr);
    var i :| 0 <= i < |hs| && r in RowsFor(hs[i], votes, addr);
    RowFacts(hs[i], votes, addr, r);
  }

  lemma JoinCovers(hs: seq<HeightRow>, votes: seq<VoteRow>, addr: string, h: int)
    requires h in HeightsOf(hs)
    ensures exists r :: r in LeftJoin(hs, votes, addr) && r.height == h
  {
    JoinMembers(hs, votes, addr);
    var i :| 0 <= i < |hs| && hs[i].height == h;
    var r := RowsFor(hs[i], votes, addr)[0];
    assert r in RowsFor(hs[i], votes, addr);
    RowFacts(hs[i], votes, addr, r);
  }

  // ----- GetValidatorSigningEfficiency: GROUP BY height, then COUNT(v.id) > 0

  type Key = (int, Option<int>)

  function GroupKeys(rows: seq<JoinRow>): set<Key> {
    set i | 0 <= i < |rows| :: (rows[i].height, rows[i].time)
  }

  /** COUNT(v.id) over the rows of one group. */
  function VotesCast(rows: seq<JoinRow>, k: Key): nat {
    if rows == [] then 0
    else (if (rows[0].height, rows[0].time) == k && rows[0].vote.Some? then 1 else 0) + VotesCast(rows[1..], k)
  }

  function GroupedTotal(rows: seq<JoinRow>): nat { |GroupKeys(rows)| }

  function GroupedSigned(rows: seq<JoinRow>): nat {
    |set k | k in GroupKeys(rows) && VotesCast(rows, k) > 0|
  }

  // ----- GetValidatorUptime: COUNT(DISTINCT ...) over the ungrouped join

  function DistinctTotal(rows: seq<JoinRow>): nat {
    |set i | 0 <= i < |rows| :: rows[i].height|
  }

  function DistinctSigned(rows: seq<JoinRow>): nat {
    |set i | 0 <= i < |rows| && rows[i].vote.Some? :: rows[i].height|
  }

  // ----- GetAllValidatorsSigningEfficiency: SUM(CASE WHEN EXISTS ...) over the heights themselves

  function ExistsSigned(hs: seq<HeightRow>, votes: seq<VoteRow>, addr: string): nat {
    if hs == [] then 0
    else (if Voted(votes, addr, hs[0].height) then 1 else 0) + ExistsSigned(hs[1..], votes, addr)
  }

  // ----- they all count the same heights

  lemma {:induction false} VotesCastPositive(rows: seq<JoinRow>, k: Key)
    ensures VotesCast(rows, k) > 0 <==> exists r :: r in rows && (r.height, r.time) == k && r.vote.Some?
  {
    if rows != [] {
      VotesCastPositive(rows[1..], k);
      assert rows == [rows[0]] + rows[1..];
    }
  }

  /** The height decides the group: the primary key makes the block time a function of the height. */
  lemma SameHeightSameTime(hs: seq<HeightRow>, votes: seq<VoteRow>, addr: string, r: JoinRow, q: JoinRow)
    requires UniqueHeights(hs) && r in LeftJoin(hs, votes, addr) && q in LeftJoin(hs, votes, addr) &&
             r.height == q.height
    ensures r.time == q.time
  {
    JoinRowFacts(hs, votes, addr, r);
    JoinRowFacts(hs, votes, addr, q);
    var i :| 0 <= i < |hs| && hs[i].height == r.height && hs[i].blockTime == r.time;
    var j :| 0 <= j < |hs| && hs[j].height == q.height && hs[j].blockTime == q.time;
    SameRow(hs, i, j);
  }

  lemma SameRow(hs: seq<HeightRow>, i: nat, j: nat)
    requires UniqueHeights(hs) && i < |hs| && j < |hs| && hs[i].height == hs[j].height
    ensures i == j
  {
    assert !(i < j) && !(j < i);
  }

  lemma GroupedCounts(hs: seq<HeightRow>, votes: seq<VoteRow>, addr: string)
    requires UniqueHeights(hs)
    ensures GroupedTotal(LeftJoin(hs, votes, addr)) == |HeightsOf(hs)|
    ensures GroupedSigned(LeftJoin(hs, votes, addr)) == |SignedHeights(hs, votes, addr)|
  {
    var rows := LeftJoin(hs, votes, addr);
    var first := (k: Key) => k.0;
    forall k | k in GroupKeys(rows)
      ensures k.0 in HeightsOf(hs) && (VotesCast(rows, k) > 0 <==> Voted(votes, addr, k.0))
    {
      GroupFacts(hs, votes, addr, k);
    }
    forall h | h in HeightsOf(hs) ensures exists k :: k in GroupKeys(rows) && first(k) == h {
      JoinCovers(hs, votes, addr, h);
      var r :| r in rows && r.height == h;
      assert (r.height, r.time) in GroupKeys(rows) && first((r.height, r.time)) == h;
    }
    forall k, l | k in GroupKeys(rows) && l in GroupKeys(rows) && first(k) == first(l) ensures k == l {
      var i :| 0 <= i < |rows| && (rows[i].height, rows[i].time) == k;
      var j :| 0 <= j < |rows| && (rows[j].height, rows[j].time) == l;
      SameHeightSameTime(hs, votes, addr, rows[i], rows[j]);
    }
    ImageSize(GroupKeys(rows), first, HeightsOf(hs));
    ImageSize((set k | k in GroupKeys(rows) && VotesCast(rows, k) > 0), first, SignedHeights(hs, votes, addr));
  }

  lemma GroupFacts(hs: seq<HeightRow>, votes: seq<VoteRow>, addr: string, k: Key)
    requires UniqueHeights(hs) && k in GroupKeys(LeftJoin(hs, votes, addr))
    ensures k.0 in HeightsOf(hs) && (VotesCast(LeftJoin(hs, votes, addr), k) > 0 <==> Voted(votes, addr, k.0))
  {
    var rows := LeftJoin(hs, votes, addr);
    var i :| 0 <= i < |rows| && (rows[i].height, rows[i].time) == k;
    JoinRowFacts(hs, votes, addr, rows[i]);
    VotesCastPositive(rows, k);
    if VotesCast(rows, k) > 0 {
      var r :| r in rows && (r.height, r.time) == k && r.vote.Some?;
      JoinRowFacts(hs, votes, addr, r);
    }
  }

  lemma DistinctCounts(hs: seq<HeightRow>, votes: seq<VoteRow>, addr: string)
    ensures DistinctTotal(LeftJoin(hs, votes, addr)) == |HeightsOf(hs)|
    ensures DistinctSigned(LeftJoin(hs, votes, addr)) == |SignedHeights(hs, votes, addr)|
  {
    var rows := LeftJoin(hs, votes, addr);
    var total := set i | 0 <= i < |rows| :: rows[i].height;
    var signed := set i | 0 <= i < |rows| && rows[i].vote.Some? :: rows[i].height;
    forall i | 0 <= i < |rows|
      ensures rows[i].height in HeightsOf(hs) && (rows[i].vote.Some? <==> Voted(votes, addr, rows[i].height))
    {
      JoinRowFacts(hs, votes, addr, rows[i]);
    }
    forall h | h in HeightsOf(hs) ensures h in total && (Voted(votes, addr, h) ==> h in signed) {
      JoinCovers(hs, votes, addr, h);
      var r :| r in rows && r.height == h;
      var i :| 0 <= i < |rows| && rows[i] == r;
    }
    assert total == HeightsOf(hs);
    assert signed == SignedHeights(hs, votes, addr);
  }

  lemma {:induction false} ExistsCounts(hs: seq<HeightRow>, votes: seq<VoteRow>, addr: string)
    requires UniqueHeights(hs)
    ensures ExistsSigned(hs, votes, addr) == |SignedHeights(hs, votes, addr)|
  {
    if hs == [] {
      assert HeightsOf(hs) == {};
      assert SignedHeights(hs, votes, addr) == {};
    } else {
      var h := hs[0].height;
      ExistsCounts(hs[1..], votes, addr);
      HeightsCons(hs);
      SignedCons(hs, votes, addr);
    }
  }

  lemma SignedCons(hs: seq<HeightRow>, votes: seq<VoteRow>, addr: string)
    requires UniqueHeights(hs) && hs != []
    ensures SignedHeights(hs, votes, addr)
         == SignedHeights(hs[1..], votes, addr) + if Voted(votes, addr, hs[0].height) then {hs[0].height} else {}
  {
    HeightsCons(hs);
  }

  lemma WindowedRows(hs: seq<HeightRow>, start: int, end: int)
    ensures forall h ::
              h in Windowed(hs, start, end) <==> h in hs && h.blockTime.Some? && start <= h.blockTime.value <= end
    ensures HeightsOf(Windowed(hs, start, end)) == HeightsBetween(hs, start, end)
    ensures UniqueHeights(hs) ==> UniqueHeights(Windowed(hs, start, end))
  {
    WindowedMembers(hs, start, end);
    HeightsOfRows(Windowed(hs, start, end));
    if UniqueHeights(hs) {
      WindowedUnique(hs, start, end);
    }
  }

  lemma {:induction false} WindowedMembers(hs: seq<HeightRow>, start: int, end: int)
    ensures forall h ::
              h in Windowed(hs, start, end) <==> h in hs && h.blockTime.Some? && start <= h.blockTime.value <= end
  {
    if hs != [] {
      WindowedMembers(hs[1..], start, end);
      assert hs == [hs[0]] + hs[1..];
    }
  }

  lemma {:induction false} WindowedUnique(hs: seq<HeightRow>, start: int, end: int)
    requires UniqueHeights(hs)
    ensures UniqueHeights(Windowed(hs, start, end))
  {
    if hs != [] {
      var w := Windowed(hs[1..], start, end);
      WindowedUnique(hs[1..], start, end);
      WindowedMembers(hs[1..], start, end);
      forall i | 0 <= i < |w| ensures w[i].height != hs[0].height {
        assert w[i] in hs[1..];
      }
    }
  }

  lemma HeightsOfRows(hs: seq<HeightRow>)
    ensures HeightsOf(hs) == set h | h in hs :: h.height
  {
    forall h | h in hs ensures h.height in HeightsOf(hs) {
      var i :| 0 <= i < |hs| && hs[i] == h;
    }
  }

  /** Every formulation gives, for the same window, the same totals: the heights of the window, those with a
      vote row of the validator, and those without one. */
  lemma FormulationsAgree(heights: seq<HeightRow>, votes: seq<VoteRow>, addr: string, start: int, end: int)
    requires UniqueHeights(heights)
    ensures var hs := Windowed(heights, start, end);
            var rows := LeftJoin(hs, votes, addr);
            && GroupedTotal(rows) == DistinctTotal(rows) == |hs| == |HeightsBetween(heights, start, end)|
            && GroupedSigned(rows) == DistinctSigned(rows) == ExistsSigned(hs, votes, addr)
            && GroupedSigned(rows) == |SignedBetween(heights, votes, addr, start, end)|
            && GroupedTotal(rows) - GroupedSigned(rows) == |MissedBetween(heights, votes, addr, start, end)|
  {
    WindowedRows(heights, start, end);
    HeightsCount(Windowed(heights, start, end));
    var hs := Windowed(heights, start, end);
    GroupedCounts(hs, votes, addr);
    DistinctCounts(hs, votes, addr);
    ExistsCounts(hs, votes, addr);
    BetweenIsWindowed(heights, votes, addr, start, end);
    DifferenceSize(HeightsOf(hs), SignedHeights(hs, votes, addr));
  }

  lemma BetweenIsWindowed(heights: seq<HeightRow>, votes: seq<VoteRow>, addr: string, start: int, end: int)
    ensures var hs := Windowed(heights, start, end);
            && SignedBetween(heights, votes, addr, start, end) == SignedHeights(hs, votes, addr)
            && MissedBetween(heights, votes, addr, start, end) == HeightsOf(hs) - SignedHeights(hs, votes, addr)
  {
    WindowedRows(heights, start, end);
  }

  // ----- the ranking queries: a four-way join

  datatype RankRow = RankRow(height: int64, vote: Option<VoteRow>, snapshot: Option<SnapshotRow>)

  function MatchingSnapshots(snapshots: seq<SnapshotRow>, addr: string, height: int64): seq<SnapshotRow> {
    if snapshots == [] then []
    else
      (if snapshots[0].validator == addr && snapshots[0].height == height then [snapshots[0]] else [])
      + MatchingSnapshots(snapshots[1..], addr, height)
  }

  /** LEFT JOIN validator_snapshots: a joined row appears once for every matching snapshot. */
  function WithSnapshots(r: JoinRow, snapshots: seq<SnapshotRow>, addr: string): seq<RankRow> {
    var m := MatchingSnapshots(snapshots, addr, r.height);
    if m == [] then [RankRow(r.height, r.vote, None)]
    else seq(|m|, i requires 0 <= i < |m| => RankRow(r.height, r.vote, Some(m[i])))
  }

  function RankJoin(rows: seq<JoinRow>, snapshots: seq<SnapshotRow>, addr: string): seq<RankRow> {
    if rows == [] then [] else WithSnapshots(rows[0], snapshots, addr) + RankJoin(rows[1..], snapshots, addr)
  }

  /** COUNT(CASE WHEN v.vote_type = t THEN 1 END) */
  function CastOfType(rows: seq<RankRow>, t: int): nat {
    if rows == [] then 0
    else (if rows[0].vote.Some? && rows[0].vote.value.voteType == t then 1 else 0) + CastOfType(rows[1..], t)
  }

  /** The vote rows of the validator of one type at the given heights, counted in the table itself. */
  function VotesOfType(votes: seq<VoteRow>, addr: string, heights: set<int>, t: int): nat {
    if votes == [] then 0
    else
      (if votes[0].validator == addr && votes[0].voteType == t && votes[0].height in heights then 1 else 0)
      + VotesOfType(votes[1..], addr, heights, t)
  }

  function RankTotal(rows: seq<RankRow>): nat {
    |set i | 0 <= i < |rows| :: rows[i].height|
  }

  function RankSigned(rows: seq<RankRow>): nat {
    |set i | 0 <= i < |rows| && rows[i].vote.Some? :: rows[i].height|
  }

  /** UNIQUE(height, validator): the snapshot join never multiplies a row. */
  lemma {:induction false} OneSnapshotAtMost(snapshots: seq<SnapshotRow>, addr: string, height: int64)
    requires UniqueKeys(KeyOfSnapshot, snapshots)
    ensures MatchingSnapshots(snapshots, addr, height) ==
              match Find(KeyOfSnapshot, snapshots, SnapshotKey(height, addr))
              case Some(s) => [s]
              case None => []
  {
    if snapshots != [] {
      var key := KeyOfSnapshot;
      assert forall i :: 0 < i < |snapshots| ==> key(snapshots[0]) != key(snapshots[i]);
      UniqueTail(KeyOfSnapshot, snapshots);
      OneSnapshotAtMost(snapshots[1..], addr, height);
      if snapshots[0].validator == addr && snapshots[0].height == height {
        NoOtherSnapshot(snapshots[1..], addr, height);
      }
    }
  }

  lemma {:induction false} NoOtherSnapshot(snapshots: seq<SnapshotRow>, addr: string, height: int64)
    requires forall i :: 0 <= i < |snapshots| ==> snapshots[i].height != height || snapshots[i].validator != addr
    ensures MatchingSnapshots(snapshots, addr, height) == []
  {
    if snapshots != [] {
      assert forall i :: 0 <= i < |snapshots| - 1 ==> snapshots[1..][i] == snapshots[i + 1];
      NoOtherSnapshot(snapshots[1..], addr, height);
    }
  }

  lemma {:induction false} RankJoinKeepsRows(rows: seq<JoinRow>, snapshots: seq<SnapshotRow>, addr: string)
    requires UniqueKeys(KeyOfSnapshot, snapshots)
    ensures var joined := RankJoin(rows, snapshots, addr);
            && |joined| == |rows|
            && forall i :: 0 <= i < |rows| ==>
                 joined[i] == RankRow(rows[i].height, rows[i].vote,
                                      Find(KeyOfSnapshot, snapshots, SnapshotKey(rows[i].height, addr)))
  {
    if rows != [] {
      OneSnapshotAtMost(snapshots, addr, rows[0].height);
      RankJoinKeepsRows(rows[1..], snapshots, addr);
    }
  }

  // ----- counting vote rows through the join

  function JoinedOfType(rows: seq<JoinRow>, t: int): nat {
    if rows == [] then 0
    else (if rows[0].vote.Some? && rows[0].vote.value.voteType == t then 1 else 0) + JoinedOfType(rows[1..], t)
  }

  lemma {:induction false} SameCast(a: seq<RankRow>, b: seq<JoinRow>, t: int)
    requires |a| == |b| && forall i :: 0 <= i < |b| ==> a[i].vote == b[i].vote
    ensures CastOfType(a, t) == JoinedOfType(b, t)
  {
    if b != [] {
      SameCast(a[1..], b[1..], t);
    }
  }

  lemma {:induction false} JoinedAppend(a: seq<JoinRow>, b: seq<JoinRow>, t: int)
    ensures JoinedOfType(a + b, t) == JoinedOfType(a, t) + JoinedOfType(b, t)
  {
    if a == [] {
      assert a + b == b;
    } else {
      assert (a + b)[1..] == a[1..] + b;
      JoinedAppend(a[1..], b, t);
    }
  }

  function OfType(votes: seq<VoteRow>, t: int): nat {
    if votes == [] then 0 else (if votes[0].voteType == t then 1 else 0) + OfType(votes[1..], t)
  }

  lemma {:induction false} RowsOfType(h: HeightRow, m: seq<VoteRow>, t: int)
    ensures JoinedOfType(seq(|m|, i requires 0 <= i < |m| => JoinRow(h.height, h.blockTime, Some(m[i]))), t)
            == OfType(m, t)
  {
    if m != [] {
      var rows := seq(|m|, i requires 0 <= i < |m| => JoinRow(h.height, h.blockTime, Some(m[i])));
      var rest := seq(|m[1..]|, i requires 0 <= i < |m[1..]| => JoinRow(h.height, h.blockTime, Some(m[1..][i])));
      assert rows[1..] == rest;
      RowsOfType(h, m[1..], t);
    }
  }

  lemma {:induction false} MatchingOfType(votes: seq<VoteRow>, addr: string, height: int, t: int)
    ensures OfType(Matching(votes, addr, height), t) == VotesOfType(votes, addr, {height}, t)
  {
    if votes != [] {
      MatchingOfType(votes[1..], addr, height, t);
      if votes[0].validator == addr && votes[0].height == height {
        assert Matching(votes, addr, height)[1..] == Matching(votes[1..], addr, height);
      } else {
        assert Matching(votes, addr, height) == Matching(votes[1..], addr, height);
      }
    }
  }

  lemma {:induction false} VotesOfTypeUnion(votes: seq<VoteRow>, addr: string, a: set<int>, b: set<int>, t: int)
    requires a !! b
    ensures VotesOfType(votes, addr, a + b, t) == VotesOfType(votes, addr, a, t) + VotesOfType(votes, addr, b, t)
  {
    if votes != [] {
      VotesOfTypeUnion(votes[1..], addr, a, b, t);
    }
  }

  lemma {:induction false} NoVotesAtNoHeight(votes: seq<VoteRow>, addr: string, t: int)
    ensures VotesOfType(votes, addr, {}, t) == 0
  {
    if votes != [] {
      NoVotesAtNoHeight(votes[1..], addr, t);
    }
  }

  lemma {:induction false} JoinedVotes(hs: seq<HeightRow>, votes: seq<VoteRow>, addr: string, t: int)
    requires UniqueHeights(hs)
    ensures JoinedOfType(LeftJoin(hs, votes, addr), t) == VotesOfType(votes, addr, HeightsOf(hs), t)
  {
    if hs == [] {
      assert HeightsOf(hs) == {};
      NoVotesAtNoHeight(votes, addr, t);
    } else {
      var h := hs[0];
      JoinedVotes(hs[1..], votes, addr, t);
      HeightsCons(hs);
      JoinedAppend(RowsFor(h, votes, addr), LeftJoin(hs[1..], votes, addr), t);
      RowsOfType(h, Matching(votes, addr, h.height), t);
      MatchingOfType(votes, addr, h.height, t);
      VotesOfTypeUnion(votes, addr, {h.height}, HeightsOf(hs[1..]), t);
    }
  }

  /** The ranking query: total and signed heights as in the other queries, and exactly one count for
      every vote row of the validator in the window, prevotes and precommits alike. */
  lemma RankingCounts(hs: seq<HeightRow>, votes: seq<VoteRow>, snapshots: seq<SnapshotRow>, addr: string, t: int)
    requires UniqueHeights(hs) && UniqueKeys(KeyOfSnapshot, snapshots)
    ensures var joined := RankJoin(LeftJoin(hs, votes, addr), snapshots, addr);
            && RankTotal(joined) == |HeightsOf(hs)|
            && RankSigned(joined) == |SignedHeights(hs, votes, addr)|
            && CastOfType(joined, t) == VotesOfType(votes, addr, HeightsOf(hs), t)
  {
    var rows := LeftJoin(hs, votes, addr);
    var joined := RankJoin(rows, snapshots, addr);
    RankJoinKeepsRows(rows, snapshots, addr);
    SameCast(joined, rows, t);
    JoinedVotes(hs, votes, addr, t);
    DistinctCounts(hs, votes, addr);
    SameDistinct(joined, rows);
  }

  lemma SameDistinct(joined: seq<RankRow>, rows: seq<JoinRow>)
    requires |joined| == |rows|
    requires forall i :: 0 <= i < |rows| ==> joined[i].height == rows[i].height && joined[i].vote == rows[i].vote
    ensures RankTotal(joined) == DistinctTotal(rows) && RankSigned(joined) == DistinctSigned(rows)
  {
    assert (set i | 0 <= i < |joined| :: joined[i].height) == set i | 0 <= i < |rows| :: rows[i].height;
    assert (set i | 0 <= i < |joined| && joined[i].vote.Some? :: joined[i].height)
        == set i | 0 <= i < |rows| && rows[i].vote.Some? :: rows[i].height;
  }
}
