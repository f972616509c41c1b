/** The vote log: votes and proposers indexed by height and round, against the flat history of adds. */
module RoundData {
  import opened Int64
  import opened Text
  import opened FiniteSets

  datatype BlockID = BlockID(hash: seq<byte>, partsTotal: nat, partsHash: seq<byte>) {
    /** CometBFT's BlockID.IsZero: a vote for nil. */
    predicate IsZero() {
      hash == [] && partsTotal == 0 && partsHash == []
    }
  }

  datatype VoteState = VoteStateNone | VoteStateNil | VoteStateForBlock

  type VotesMap = map<int32, BlockID>

  datatype Round = Round(proposers: set<string>, votes: map<string, VotesMap>)

  const EMPTY_ROUND: Round := Round({}, map[])

  // ----- vote states

  function VoteStateFromCometBFT(voteExists: bool, blockID: BlockID): VoteState {
    if !voteExists then VoteStateNone
    else if blockID.IsZero() then VoteStateNil
    else VoteStateForBlock
  }

  /** A missing entry reads as the zero block ID, as in a Go map. */
  function VoteStateFromVotesMap(votesMap: VotesMap, msgType: int32): VoteState {
    var exists_ := msgType in votesMap;
    VoteStateFromCometBFT(exists_, if exists_ then votesMap[msgType] else BlockID([], 0, []))
  }

  function Classify(vote: Option<BlockID>): VoteState {
    match vote
    case None => VoteStateNone
    case Some(id) => if id.IsZero() then VoteStateNil else VoteStateForBlock
  }

  // ----- the flat history

  datatype Add =
    | AddVote(height: int64, round: int32, validator: string, msgType: int32, blockID: BlockID)
    | AddProposer(height: int64, round: int32, proposer: string)

  /** The block ID of the last vote added for a slot. */
  function LastVote(adds: seq<Add>, height: int64, round: int32, validator: string, msgType: int32): Option<BlockID> {
    if adds == [] then None
    else
      var a := adds[|adds| - 1];
      if a.AddVote? && a.height == height && a.round == round && a.validator == validator && a.msgType == msgType
      then Some(a.blockID)
      else LastVote(adds[..|adds| - 1], height, round, validator, msgType)
  }

  function ProposersOf(adds: seq<Add>, height: int64, round: int32): set<string> {
    set i | 0 <= i < |adds| && adds[i].AddProposer? && adds[i].height == height && adds[i].round == round
      :: adds[i].proposer
  }

  /** Something was added for this height and round. */
  predicate Touched(adds: seq<Add>, height: int64, round: int32) {
    exists i :: 0 <= i < |adds| && adds[i].height == height && adds[i].round == round
  }

  // ----- the nested index

  type Heights = map<int64, map<int32, Round>>

  function RoundsAt(heights: Heights, height: int64): map<int32, Round> {
    if height in heights then heights[height] else map[]
  }

  function RoundAt(heights: Heights, height: int64, round: int32): Round {
    if round in RoundsAt(heights, height) then heights[height][round] else EMPTY_ROUND
  }

  function VotesOf(rd: Round, validator: string): VotesMap {
    if validator in rd.votes then rd.votes[validator] else map[]
  }

  function Stored(heights: Heights, height: int64, round: int32, validator: string, msgType: int32): Option<BlockID> {
    var votes := VotesOf(RoundAt(heights, height, round), validator);
    if msgType in votes then Some(votes[msgType]) else None
  }

  function SetRound(heights: Heights, height: int64, round: int32, rd: Round): Heights {
    heights[height := RoundsAt(heights, height)[round := rd]]
  }

  function ApplyAdd(heights: Heights, a: Add): Heights {
    var rd := RoundAt(heights, a.height, a.round);
    SetRound(heights, a.height, a.round,
             match a
             case AddVote(_, _, v, t, id) => rd.(votes := rd.votes[v := VotesOf(rd, v)[t := id]])
             case AddProposer(_, _, p) => rd.(proposers := rd.proposers + {p}))
  }

  /** The nested maps hold exactly what the history says. */
  ghost predicate Refines(heights: Heights, adds: seq<Add>) {
    && (forall h: int64, r: int32, v: string, t: int32 :: Stored(heights, h, r, v, t) == LastVote(adds, h, r, v, t))
    && (forall h: int64, r: int32 :: RoundAt(heights, h, r).proposers == ProposersOf(adds, h, r))
    && (forall h: int64, r: int32 :: r in RoundsAt(heights, h) <==> Touched(adds, h, r))
  }

  lemma AddRefines(heights: Heights, adds: seq<Add>, a: Add)
    requires Refines(heights, adds)
    ensures Refines(ApplyAdd(heights, a), adds + [a])
  {
    var after, all := ApplyAdd(heights, a), adds + [a];
    assert all[..|all| - 1] == adds;
    forall h: int64, r: int32, v: string, t: int32 ensures Stored(after, h, r, v, t) == LastVote(all, h, r, v, t) {
      assert Stored(heights, h, r, v, t) == LastVote(adds, h, r, v, t);
    }
    forall h: int64, r: int32
      ensures RoundAt(after, h, r).proposers == ProposersOf(all, h, r)
      ensures r in RoundsAt(after, h) <==> Touched(all, h, r)
    {
      ProposersStep(adds, a, h, r);
      TouchedStep(adds, a, h, r);
      assert RoundAt(heights, h, r).proposers == ProposersOf(adds, h, r);
    }
  }

  lemma ProposersStep(adds: seq<Add>, a: Add, h: int64, r: int32)
    ensures ProposersOf(adds + [a], h, r)
         == ProposersOf(adds, h, r) + if a.AddProposer? && a.height == h && a.round == r then {a.proposer} else {}
  {
    var all := adds + [a];
    assert all[|adds|] == a && forall i :: 0 <= i < |adds| ==> all[i] == adds[i];
  }

  lemma TouchedStep(adds: seq<Add>, a: Add, h: int64, r: int32)
    ensures Touched(adds + [a], h, r) <==> Touched(adds, h, r) || (a.height == h && a.round == r)
  {
    var all := adds + [a];
    assert all[|adds|] == a && forall i :: 0 <= i < |adds| ==> all[i] == adds[i];
  }

  lemma SetRoundTwice(heights: Heights, height: int64, round: int32, first: Round, second: Round)
    ensures SetRound(SetRound(heights, height, round, first), height, round, second)
            == SetRound(heights, height, round, second)
  {
    assert RoundsAt(heights, height)[round := first][round := second] == RoundsAt(heights, height)[round := second];
  }

  datatype HeightAndRound = HeightAndRound(height: int64, round: int32)

  class RoundDataMap {
    var heights: Heights
    ghost var adds: seq<Add>

    ghost predicate Valid()
      reads this
    {
      Refines(heights, adds)
    }

    constructor ()
      ensures Valid() && adds == []
    {
      heights, adds := map[], [];
    }

    /** The round's data, created empty when missing. */
    method UpsertRoundData(height: int64, round: int32) returns (rd: Round)
      modifies `heights
      ensures heights == SetRound(old(heights), height, round, RoundAt(old(heights), height, round))
      ensures rd == RoundAt(old(heights), height, round)
    {
      var roundMap: map<int32, Round> := map[];
      if height in heights {
        roundMap := heights[height];
      } else {
        heights := heights[height := roundMap];
      }
      if round in roundMap {
        rd := roundMap[round];
      } else {
        rd := EMPTY_ROUND;
        heights := heights[height := roundMap[round := rd]];
      }
      assert heights[height] == RoundsAt(old(heights), height)[round := rd];
    }

    method AddVote(height: int64, round: int32, validator: string, msgType: int32, blockID: BlockID)
      requires Valid()
      modifies this
      ensures Valid() && adds == old(adds) + [Add.AddVote(height, round, validator, msgType, blockID)]
    {
      ghost var a := Add.AddVote(height, round, validator, msgType, blockID);
      AddRefines(heights, adds, a);
      var rd := UpsertRoundData(height, round);
      var votesMap: VotesMap := map[];
      if validator in rd.votes {
        votesMap := rd.votes[validator];
      }
      votesMap := votesMap[msgType := blockID];
      heights := SetRound(heights, height, round, rd.(votes := rd.votes[validator := votesMap]));
      SetRoundTwice(old(heights), height, round, rd, rd.(votes := rd.votes[validator := votesMap]));
      adds := adds + [a];
    }

    method AddProposer(height: int64, round: int32, proposer: string)
      requires Valid()
      modifies this
      ensures Valid() && adds == old(adds) + [Add.AddProposer(height, round, proposer)]
    {
      ghost var a := Add.AddProposer(height, round, proposer);
      AddRefines(heights, adds, a);
      var rd := UpsertRoundData(height, round);
      heights := SetRound(heights, height, round, rd.(proposers := rd.proposers + {proposer}));
      SetRoundTwice(old(heights), height, round, rd, rd.(proposers := rd.proposers + {proposer}));
      adds := adds + [a];
    }

    /** Classifies the block ID of the last vote added for the slot, whatever else was added. */
    method GetVote(height: int64, round: int32, validator: string, msgType: int32) returns (state: VoteState)
      requires Valid()
      ensures state == Classify(LastVote(adds, height, round, validator, msgType))
      ensures state == VoteStateFromVotesMap(VotesOf(RoundAt(heights, height, round), validator), msgType)
    {
      assert Stored(heights, height, round, validator, msgType) == LastVote(adds, height, round, validator, msgType);
      if height !in heights {
        return VoteStateNone;
      }
      var roundMap := heights[height];
      if round !in roundMap {
        return VoteStateNone;
      }
      var rd := roundMap[round];
      if validator !in rd.votes {
        return VoteStateNone;
      }
      var votesMap := rd.votes[validator];
      if msgType !in votesMap {
        return VoteStateNone;
      } else if votesMap[msgType].IsZero() {
        return VoteStateNil;
      }
      return VoteStateForBlock;
    }

    method GetProposers(height: int64, round: int32) returns (proposers: set<string>)
      requires Valid()
      ensures proposers == ProposersOf(adds, height, round)
    {
      assert RoundAt(heights, height, round).proposers == ProposersOf(adds, height, round);
      if height !in heights {
        return {};
      }
      var roundMap := heights[height];
      if round !in roundMap {
        return {};
      }
      return roundMap[round].proposers;
    }

    /** Visits every height and round once, in ascending order, with its data. A consumer that stops at its
        `stopAt`-th visit (never, for 0) sees all of them up to that visit and none after it. */
    method Iter(stopAt: nat) returns (visits: seq<HeightAndRound>, data: seq<Round>)
      requires Valid()
      ensures Ascending(visits) && DataOf(heights, visits, data) && (stopAt > 0 ==> |visits| <= stopAt)
      ensures forall h: int64, r: int32 ::
                HeightAndRound(h, r) in visits
                <==> Touched(adds, h, r)
                     && (Stopped(visits, stopAt) ==> !Before(visits[|visits| - 1], HeightAndRound(h, r)))
    {
      visits, data := [], [];
      var hs := KeysInOrder(heights.Keys);
      for i := 0 to |hs|
        invariant Ascending(visits) && DataOf(heights, visits, data) && (stopAt > 0 ==> |visits| < stopAt)
        invariant forall p :: p in visits <==> p.height in hs[..i] && p.round in RoundsAt(heights, p.height)
      {
        assert hs[i] in hs;
        var height: int64 := hs[i];
        visits, data := IterRounds(height, visits, data, stopAt);
        if Stopped(visits, stopAt) {
          StoppedAscending(heights, adds, hs, i, height, visits[|visits| - 1].round, visits);
          return;
        }
      }
      forall h: int64, r: int32 ensures HeightAndRound(h, r) in visits <==> Touched(adds, h, r) {
        assert r in RoundsAt(heights, h) <==> Touched(adds, h, r);
      }
    }

    /** The inner loop: the rounds of one height, up to the consumer's last visit. */
    method IterRounds(height: int64, before: seq<HeightAndRound>, seen: seq<Round>, stopAt: nat)
      returns (visits: seq<HeightAndRound>, data: seq<Round>)
      requires height in heights && Ascending(before) && DataOf(heights, before, seen)
      requires (stopAt > 0 ==> |before| < stopAt) && forall p :: p in before ==> p.height < height
      ensures Ascending(visits) && DataOf(heights, visits, data) && (stopAt > 0 ==> |visits| <= stopAt)
      ensures Stopped(visits, stopAt) ==> visits[|visits| - 1].height == height
      ensures forall p :: p in visits
                <==> p in before || (p.height == height && p.round in heights[height]
                                     && (Stopped(visits, stopAt) ==> p.round <= visits[|visits| - 1].round))
    {
      visits, data := before, seen;
      var rs := KeysInOrder(heights[height].Keys);
      for k := 0 to |rs|
        invariant Ascending(visits) && DataOf(heights, visits, data) && (stopAt > 0 ==> |visits| < stopAt)
        invariant forall p :: p in visits <==> p in before || (p.height == height && p.round in rs[..k])
      {
        assert rs[k] in rs;
        var round: int32 := rs[k];
        AppendAscending(visits, HeightAndRound(height, round));
        visits := visits + [HeightAndRound(height, round)];
        data := data + [heights[height][round]];
        if |visits| == stopAt {
          forall r: int32 ensures r in rs[..k + 1] <==> r in heights[height] && r <= rs[k] {
            PrefixBelow(rs, heights[height].Keys, k + 1, r);
          }
          return;
        }
      }
    }

    /** The same visits from the last to the first. */
    method ReverseIter(stopAt: nat) returns (visits: seq<HeightAndRound>, data: seq<Round>)
      requires Valid()
      ensures Descending(visits) && DataOf(heights, visits, data) && (stopAt > 0 ==> |visits| <= stopAt)
      ensures forall h: int64, r: int32 ::
                HeightAndRound(h, r) in visits
                <==> Touched(adds, h, r)
                     && (Stopped(visits, stopAt) ==> !Before(HeightAndRound(h, r), visits[|visits| - 1]))
    {
      visits, data := [], [];
      var hs := KeysInOrder(heights.Keys);
      for i := |hs| downto 0
        invariant Descending(visits) && DataOf(heights, visits, data) && (stopAt > 0 ==> |visits| < stopAt)
        invariant forall p :: p in visits <==> p.height in hs[i..] && p.round in RoundsAt(heights, p.height)
      {
        assert hs[i] in hs;
        SuffixStep(hs, i);
        var height: int64 := hs[i];
        visits, data := ReverseIterRounds(height, visits, data, stopAt);
        if Stopped(visits, stopAt) {
          StoppedDescending(heights, adds, hs, i, height, visits[|visits| - 1].round, visits);
          return;
        }
      }
      forall h: int64, r: int32 ensures HeightAndRound(h, r) in visits <==> Touched(adds, h, r) {
        assert r in RoundsAt(heights, h) <==> Touched(adds, h, r);
      }
    }

    method ReverseIterRounds(height: int64, before: seq<HeightAndRound>, seen: seq<Round>, stopAt: nat)
      returns (visits: seq<HeightAndRound>, data: seq<Round>)
      requires height in heights && Descending(before) && DataOf(heights, before, seen)
      requires (stopAt > 0 ==> |before| < stopAt) && forall p :: p in before ==> p.height > height
      ensures Descending(visits) && DataOf(heights, visits, data) && (stopAt > 0 ==> |visits| <= stopAt)
      ensures Stopped(visits, stopAt) ==> visits[|visits| - 1].height == height
      ensures forall p :: p in visits
                <==> p in before || (p.height == height && p.round in heights[height]
                                     && (Stopped(visits, stopAt) ==> p.round >= visits[|visits| - 1].round))
    {
      visits, data := before, seen;
      var rs := KeysInOrder(heights[height].Keys);
      for k := |rs| downto 0
        invariant Descending(visits) && DataOf(heights, visits, data) && (stopAt > 0 ==> |visits| < stopAt)
        invariant forall p :: p in visits <==> p in before || (p.height == height && p.round in rs[k..])
      {
        assert rs[k] in rs;
        var round: int32 := rs[k];
        DescendStep(rs, k, height, round, before, visits);
        AppendDescending(visits, HeightAndRound(height, round));
        visits := visits + [HeightAndRound(height, round)];
        data := data + [heights[height][round]];
        if |visits| == stopAt {
          forall r: int32 ensures r in rs[k..] <==> r in heights[height] && r >= rs[k] {
            PrefixBelow(rs, heights[height].Keys, k, r);
          }
          return;
        }
      }
    }
  }

  /** Every visit comes with the data of its round. */
  predicate DataOf(heights: Heights, visits: seq<HeightAndRound>, data: seq<Round>) {
    |data| == |visits|
    && forall i :: 0 <= i < |visits| ==> data[i] == RoundAt(heights, visits[i].height, visits[i].round)
  }

  /** The consumer ended the iteration with its latest visit. */
  predicate Stopped(visits: seq<HeightAndRound>, stopAt: nat) {
    |visits| == stopAt > 0
  }

  ghost predicate OrderedKeys(list: seq<int>, keys: set<int>) {
    (forall i, j :: 0 <= i < j < |list| ==> list[i] < list[j]) && forall k :: k in list <==> k in keys
  }

  /** An ascending iteration stopped at round `last` of a height has visited exactly what is not beyond it. */
  lemma StoppedAscending(heights: Heights, adds: seq<Add>, hs: seq<int>, i: nat, height: int64, last: int32,
                         visits: seq<HeightAndRound>)
    requires Refines(heights, adds) && OrderedKeys(hs, heights.Keys)
    requires i < |hs| && hs[i] == height
    requires forall p :: p in visits <==>
               || (p.height in hs[..i] && p.round in RoundsAt(heights, p.height))
               || (p.height == height && p.round in RoundsAt(heights, height) && p.round <= last)
    ensures forall h: int64, r: int32 ::
              HeightAndRound(h, r) in visits <==> Touched(adds, h, r) && !(height < h || (height == h && last < r))
  {
    forall h: int64, r: int32
      ensures HeightAndRound(h, r) in visits <==> Touched(adds, h, r) && !(height < h || (height == h && last < r))
    {
      assert r in RoundsAt(heights, h) <==> Touched(adds, h, r);
      PrefixBelow(hs, heights.Keys, i, h);
    }
  }

  lemma StoppedDescending(heights: Heights, adds: seq<Add>, hs: seq<int>, i: nat, height: int64, last: int32,
                          visits: seq<HeightAndRound>)
    requires Refines(heights, adds) && OrderedKeys(hs, heights.Keys)
    requires i < |hs| && hs[i] == height
    requires forall p :: p in visits <==>
               || (p.height in hs[i + 1..] && p.round in RoundsAt(heights, p.height))
               || (p.height == height && p.round in RoundsAt(heights, height) && p.round >= last)
    ensures forall h: int64, r: int32 ::
              HeightAndRound(h, r) in visits <==> Touched(adds, h, r) && !(h < height || (h == height && r < last))
  {
    forall h: int64, r: int32
      ensures HeightAndRound(h, r) in visits <==> Touched(adds, h, r) && !(h < height || (h == height && r < last))
    {
      assert r in RoundsAt(heights, h) <==> Touched(adds, h, r);
      PrefixBelow(hs, heights.Keys, i + 1, h);
    }
  }

  lemma DescendStep(rs: seq<int>, k: nat, height: int64, round: int32, before: seq<HeightAndRound>,
                    visits: seq<HeightAndRound>)
    requires k < |rs| && rs[k] == round && forall i, j :: 0 <= i < j < |rs| ==> rs[i] < rs[j]
    requires forall p :: p in before ==> p.height > height
    requires forall p :: p in visits <==> p in before || (p.height == height && p.round in rs[k + 1..])
    ensures forall q :: q in visits ==> Before(HeightAndRound(height, round), q)
    ensures forall p :: p in visits + [HeightAndRound(height, round)]
              <==> p in before || (p.height == height && p.round in rs[k..])
  {
    SuffixStep(rs, k);
  }

  lemma SuffixStep(list: seq<int>, n: nat)
    requires n < |list| && forall i, j :: 0 <= i < j < |list| ==> list[i] < list[j]
    ensures forall x :: x in list[n..] <==> x == list[n] || x in list[n + 1..]
    ensures var rest := list[n + 1..]; forall x :: x in rest ==> list[n] < x
  {
    assert list[n..] == [list[n]] + list[n + 1..];
  }

  /** Cutting an ordered list of keys at position `n` splits the keys by value. */
  lemma PrefixBelow(list: seq<int>, keys: set<int>, n: nat, x: int)
    requires OrderedKeys(list, keys) && n <= |list|
    ensures x in list[..n] <==> x in keys && (n < |list| ==> x < list[n])
    ensures x in list[n..] <==> x in keys && (n > 0 ==> list[n - 1] < x)
  {
    if x in keys {
      var i :| 0 <= i < |list| && list[i] == x;
      CutAt(list, n, i);
    } else {
      assert list == list[..n] + list[n..];
    }
  }

  lemma CutAt(list: seq<int>, n: nat, i: nat)
    requires i < |list| && n <= |list| && forall k, l :: 0 <= k < l < |list| ==> list[k] < list[l]
    ensures list[i] in list[..n] <==> i < n
    ensures list[i] in list[n..] <==> i >= n
    ensures i < n <==> (n < |list| ==> list[i] < list[n])
    ensures i >= n <==> (n > 0 ==> list[n - 1] < list[i])
  {
    if i < n {
      assert list[..n][i] == list[i];
    } else {
      assert list[n..][i - n] == list[i];
    }
  }

  // ----- the event stream

  datatype TMEventData =
    | EventDataNewRound(height: int64, round: int32, proposer: string)
    | EventDataVote(height: int64, round: int32, validator: string, msgType: int32, blockID: BlockID)
    | OtherEvent

  function AddsOf(events: seq<TMEventData>): seq<Add> {
    if events == [] then []
    else
      AddsOf(events[..|events| - 1]) + match events[|events| - 1]
                                       case EventDataNewRound(h, r, p) => [Add.AddProposer(h, r, p)]
                                       case EventDataVote(h, r, v, t, id) => [Add.AddVote(h, r, v, t, id)]
                                       case OtherEvent => []
  }

  /** The add says, field by field, what the event says. */
  ghost predicate ComesFrom(a: Add, e: TMEventData) {
    match a
    case AddProposer(h, r, p) => e == EventDataNewRound(h, r, p)
    case AddVote(h, r, v, t, id) => e == EventDataVote(h, r, v, t, id)
  }

  /** Add `j` comes from event `from[j]`, the events are taken in order, and none left out adds anything. */
  ghost predicate Follow(adds: seq<Add>, events: seq<TMEventData>, from: seq<nat>) {
    && |from| == |adds|
    && (forall j :: 0 <= j < |from| ==> from[j] < |events| && ComesFrom(adds[j], events[from[j]]))
    && (forall j, k :: 0 <= j < k < |from| ==> from[j] < from[k])
    && (forall i: nat :: i < |events| && i !in from ==> events[i] == OtherEvent)
  }

  /** The adds are those of the new-round and vote events, one each and in their order. */
  lemma {:induction false} AddsFollowEvents(events: seq<TMEventData>) returns (from: seq<nat>)
    ensures Follow(AddsOf(events), events, from)
    decreases |events|
  {
    from := [];
    if events != [] {
      var n := |events| - 1;
      from := AddsFollowEvents(events[..n]);
      var more := AddsOf(events)[|from|..];
      assert AddsOf(events) == AddsOf(events[..n]) + more;
      assert more == [] <==> events[n] == OtherEvent;
      if more == [] {
        FollowSkip(AddsOf(events[..n]), events, from);
      } else {
        FollowStep(AddsOf(events[..n]), events, from, more[0]);
        from := from + [n];
      }
    }
  }

  lemma FollowSkip(adds: seq<Add>, events: seq<TMEventData>, from: seq<nat>)
    requires events != [] && Follow(adds, events[..|events| - 1], from) && events[|events| - 1] == OtherEvent
    ensures Follow(adds, events, from)
  {
    assert forall i :: 0 <= i < |events| - 1 ==> events[..|events| - 1][i] == events[i];
  }

  lemma FollowStep(adds: seq<Add>, events: seq<TMEventData>, from: seq<nat>, a: Add)
    requires events != [] && Follow(adds, events[..|events| - 1], from) && ComesFrom(a, events[|events| - 1])
    ensures Follow(adds + [a], events, from + [|events| - 1])
  {
    assert forall i :: 0 <= i < |events| - 1 ==> events[..|events| - 1][i] == events[i];
    assert forall i :: i in from + [|events| - 1] <==> i in from || i == |events| - 1;
  }

  /** Votes and proposers are added in the order of the events; everything else is ignored. */
  method AddCometBFTEvents(votesByRound: RoundDataMap, events: seq<TMEventData>)
    requires votesByRound.Valid()
    modifies votesByRound
    ensures votesByRound.Valid() && votesByRound.adds == old(votesByRound.adds) + AddsOf(events)
  {
    for i := 0 to |events|
      invariant votesByRound.Valid() && votesByRound.adds == old(votesByRound.adds) + AddsOf(events[..i])
    {
      assert events[..i + 1][..i] == events[..i];
      match events[i]
      case EventDataNewRound(h, r, p) => votesByRound.AddProposer(h, r, p);
      case EventDataVote(h, r, v, t, id) => votesByRound.AddVote(h, r, v, t, id);
      case OtherEvent =>
    }
    assert events[..|events|] == events;
  }

  // ----- iteration order

  /** Both iterators enumerate the same set, so one order fixes the other: exact reverses. */
  lemma {:induction false} OppositeOrders(a: seq<HeightAndRound>, d: seq<HeightAndRound>)
    requires Ascending(a) && Descending(d) && forall p :: p in a <==> p in d
    ensures |a| == |d| && forall i :: 0 <= i < |d| ==> d[i] == a[|a| - 1 - i]
    decreases |a|
  {
    assert d != [] ==> d[0] in d;
    if a != [] {
      assert a[|a| - 1] in d;
      LastIsFirst(a, d);
      SameRest(a, d);
      OppositeOrders(a[..|a| - 1], d[1..]);
      forall i | 0 < i < |d| ensures d[i] == a[|a| - 1 - i] {
        assert d[i] == d[1..][i - 1];
      }
    }
  }

  /** Without the greatest one both orders enumerate the same set again. */
  lemma SameRest(a: seq<HeightAndRound>, d: seq<HeightAndRound>)
    requires Ascending(a) && Descending(d) && forall p :: p in a <==> p in d
    requires a != [] && d != [] && a[|a| - 1] == d[0]
    ensures forall p :: p in a[..|a| - 1] <==> p in d[1..]
    ensures Ascending(a[..|a| - 1]) && Descending(d[1..])
  {
    var top, a', d' := d[0], a[..|a| - 1], d[1..];
    assert a == a' + [top] && d == [top] + d';
    forall p ensures p in a' <==> p in a && p != top {
      if p in a' {
        var i :| 0 <= i < |a'| && a'[i] == p;
        assert Before(a[i], top);
      }
    }
    forall p ensures p in d' <==> p in d && p != top {
      if p in d' {
        var i :| 0 <= i < |d'| && d'[i] == p;
        assert Before(d[i + 1], top);
      }
    }
  }

  lemma LastIsFirst(a: seq<HeightAndRound>, d: seq<HeightAndRound>)
    requires Ascending(a) && Descending(d) && a != [] && d != [] && forall p :: p in a <==> p in d
    ensures a[|a| - 1] == d[0]
  {
    LastIsGreatest(a);
    FirstIsGreatest(d);
    assert a[|a| - 1] in d && d[0] in a;
  }

  lemma LastIsGreatest(a: seq<HeightAndRound>)
    requires Ascending(a) && a != []
    ensures forall p :: p in a ==> p == a[|a| - 1] || Before(p, a[|a| - 1])
  {}

  lemma FirstIsGreatest(d: seq<HeightAndRound>)
    requires Descending(d) && d != []
    ensures forall p :: p in d ==> p == d[0] || Before(p, d[0])
  {}

  ghost predicate Descending(visits: seq<HeightAndRound>) {
    forall i, j :: 0 <= i < j < |visits| ==> Before(visits[j], visits[i])
  }

  lemma AppendDescending(visits: seq<HeightAndRound>, p: HeightAndRound)
    requires Descending(visits) && forall q :: q in visits ==> Before(p, q)
    ensures Descending(visits + [p])
  {}

  predicate Before(p: HeightAndRound, q: HeightAndRound) {
    p.height < q.height || (p.height == q.height && p.round < q.round)
  }

  ghost predicate Ascending(visits: seq<HeightAndRound>) {
    forall i, j :: 0 <= i < j < |visits| ==> Before(visits[i], visits[j])
  }

  lemma AppendAscending(visits: seq<HeightAndRound>, p: HeightAndRound)
    requires Ascending(visits) && forall q :: q in visits ==> Before(q, p)
    ensures Ascending(visits + [p])
  {}

  /** What the program relies on from the sorted map: its keys in ascending order, each once. */
  method KeysInOrder(keys: set<int>) returns (list: seq<int>)
    ensures forall i, j :: 0 <= i < j < |list| ==> list[i] < list[j]
    ensures forall k :: k in list <==> k in keys
  {
    list := [];
    var todo := keys;
    while todo != {}
      invariant todo <= keys
      invariant forall k :: k in list <==> k in keys && k !in todo
      invariant forall i, j :: 0 <= i < j < |list| ==> list[i] < list[j]
      invariant forall i, k :: 0 <= i < |list| && k in todo ==> list[i] < k
      decreases todo
    {
      var least := Least(todo);
      list := list + [least];
      todo := todo - {least};
    }
  }

  method Least(keys: set<int>) returns (least: int)
    requires keys != {}
    ensures least in keys && forall k :: k in keys ==> least <= k
  {
    least := Pick(keys);
    var rest := keys - {least};
    while rest != {}
      invariant rest <= keys && least in keys && forall x :: x in keys && x !in rest ==> least <= x
      decreases rest
    {
      var k := Pick(rest);
      rest := rest - {k};
      if k < least {
        least := k;
      }
    }
  }
}
