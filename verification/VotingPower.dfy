/** The share of voting power that has voted, over a run of the vote log. */
module VotingPower {
  import opened Int64
  import opened Text
  import opened Percentages
  import opened RoundData

  /** A validator's display address and its CometBFT voting power. */
  datatype TMValidator = TMValidator(address: string, votingPower: int64)

  function TotalPower(validators: seq<TMValidator>): int {
    if validators == [] then 0
    else TotalPower(validators[..|validators| - 1]) + validators[|validators| - 1].votingPower
  }

  predicate Counts(vote: Option<BlockID>, countDisagreeing: bool) {
    Classify(vote) == VoteStateForBlock || (countDisagreeing && Classify(vote) == VoteStateNil)
  }

  /** The power of the validators whose last vote of the slot counts. */
  function VotedPower(validators: seq<TMValidator>, adds: seq<Add>, height: int64, round: int32, msgType: int32,
                      countDisagreeing: bool): int
  {
    if validators == [] then 0
    else
      var v := validators[|validators| - 1];
      VotedPower(validators[..|validators| - 1], adds, height, round, msgType, countDisagreeing)
      + if Counts(LastVote(adds, height, round, v.address, msgType), countDisagreeing) then v.votingPower else 0
  }

  function Share(validators: seq<TMValidator>, adds: seq<Add>, height: int64, round: int32, msgType: int32,
                 countDisagreeing: bool): real
  {
    Percent(VotedPower(validators, adds, height, round, msgType, countDisagreeing), TotalPower(validators))
  }

  // ----- the definition: the power of the validators with such a vote in the log

  predicate IsVoteBy(a: Add, height: int64, round: int32, address: string, msgType: int32) {
    a.AddVote? && a.height == height && a.round == round && a.validator == address && a.msgType == msgType
  }

  ghost predicate SomeVote(adds: seq<Add>, height: int64, round: int32, address: string, msgType: int32) {
    exists k :: 0 <= k < |adds| && IsVoteBy(adds[k], height, round, address, msgType)
  }

  /** The positions of the validators with some vote of this height, round and type in the log. */
  ghost function Voters(validators: seq<TMValidator>, adds: seq<Add>, height: int64, round: int32,
                        msgType: int32): set<nat>
  {
    set i: nat | i < |validators| && SomeVote(adds, height, round, validators[i].address, msgType)
  }

  /** The positions of the validators whose last such vote is for a block. */
  ghost function Agreeing(validators: seq<TMValidator>, adds: seq<Add>, height: int64, round: int32,
                          msgType: int32): set<nat>
  {
    set i: nat | i < |validators| && LastIsForBlock(adds, height, round, validators[i].address, msgType)
  }

  ghost predicate LastIsForBlock(adds: seq<Add>, height: int64, round: int32, address: string, msgType: int32) {
    exists k :: 0 <= k < |adds| && IsLastForBlock(adds, k, height, round, address, msgType)
  }

  /** Add `k` is such a vote, not for nil, and no later add is such a vote. */
  ghost predicate IsLastForBlock(adds: seq<Add>, k: int, height: int64, round: int32, address: string, msgType: int32)
    requires 0 <= k < |adds|
  {
    && IsVoteBy(adds[k], height, round, address, msgType) && adds[k].blockID != BlockID([], 0, [])
    && forall l :: k < l < |adds| ==> !IsVoteBy(adds[l], height, round, address, msgType)
  }

  function PowerOf(validators: seq<TMValidator>, members: set<nat>): int {
    if validators == [] then 0
    else
      var n := |validators| - 1;
      PowerOf(validators[..n], members) + if n in members then validators[n].votingPower else 0
  }

  lemma {:induction false} LastVoteIs(adds: seq<Add>, height: int64, round: int32, address: string, msgType: int32)
    ensures var last := LastVote(adds, height, round, address, msgType);
            && (last.Some? <==> SomeVote(adds, height, round, address, msgType))
            && (last.Some? && last.value != BlockID([], 0, []) <==>
                  LastIsForBlock(adds, height, round, address, msgType))
  {
    if adds != [] {
      var n := |adds| - 1;
      if IsVoteBy(adds[n], height, round, address, msgType) {
        assert adds[n].blockID != BlockID([], 0, []) ==> IsLastForBlock(adds, n, height, round, address, msgType);
        if k :| 0 <= k < |adds| && IsLastForBlock(adds, k, height, round, address, msgType) {
          assert k == n;
        }
      } else {
        LastVoteIs(adds[..n], height, round, address, msgType);
        LastBefore(adds, height, round, address, msgType);
      }
    }
  }

  /** An add that is no such vote changes neither. */
  lemma LastBefore(adds: seq<Add>, height: int64, round: int32, address: string, msgType: int32)
    requires adds != [] && !IsVoteBy(adds[|adds| - 1], height, round, address, msgType)
    ensures SomeVote(adds, height, round, address, msgType)
       <==> SomeVote(adds[..|adds| - 1], height, round, address, msgType)
    ensures LastIsForBlock(adds, height, round, address, msgType)
       <==> LastIsForBlock(adds[..|adds| - 1], height, round, address, msgType)
  {
    var before := adds[..|adds| - 1];
    if k :| 0 <= k < |adds| && IsVoteBy(adds[k], height, round, address, msgType) {
      assert IsVoteBy(before[k], height, round, address, msgType);
    }
    assert forall k :: 0 <= k < |before| ==> before[k] == adds[k];
    forall k | 0 <= k < |before|
      ensures IsLastForBlock(before, k, height, round, address, msgType)
         <==> IsLastForBlock(adds, k, height, round, address, msgType)
    {}
    if k :| 0 <= k < |adds| && IsLastForBlock(adds, k, height, round, address, msgType) {
      assert IsLastForBlock(before, k, height, round, address, msgType);
    }
  }

  /** The power that has voted is that of the validators with some vote in the log, and the agreeing power
      that of those whose last vote is for a block. */
  lemma VotedPowerIs(validators: seq<TMValidator>, adds: seq<Add>, height: int64, round: int32, msgType: int32)
    ensures VotedPower(validators, adds, height, round, msgType, true)
         == PowerOf(validators, Voters(validators, adds, height, round, msgType))
    ensures VotedPower(validators, adds, height, round, msgType, false)
         == PowerOf(validators, Agreeing(validators, adds, height, round, msgType))
  {
    var voters, agreeing := Voters(validators, adds, height, round, msgType),
                            Agreeing(validators, adds, height, round, msgType);
    forall i: nat | i < |validators|
      ensures i in voters <==> Counts(LastVote(adds, height, round, validators[i].address, msgType), true)
      ensures i in agreeing <==> Counts(LastVote(adds, height, round, validators[i].address, msgType), false)
    {
      LastVoteIs(adds, height, round, validators[i].address, msgType);
    }
    PowerOfMembers(validators, adds, height, round, msgType, true, voters);
    PowerOfMembers(validators, adds, height, round, msgType, false, agreeing);
  }

  /** The total is the power of them all. */
  lemma {:induction false} PowerOfAll(validators: seq<TMValidator>, members: set<nat>)
    requires forall i: nat :: i < |validators| ==> i in members
    ensures PowerOf(validators, members) == TotalPower(validators)
  {
    if validators != [] {
      PowerOfAll(validators[..|validators| - 1], members);
    }
  }

  lemma {:induction false} PowerOfMembers(validators: seq<TMValidator>, adds: seq<Add>, height: int64, round: int32,
                                          msgType: int32, countDisagreeing: bool, members: set<nat>)
    requires forall i: nat :: i < |validators| ==>
               (i in members <==>
                Counts(LastVote(adds, height, round, validators[i].address, msgType), countDisagreeing))
    ensures VotedPower(validators, adds, height, round, msgType, countDisagreeing) == PowerOf(validators, members)
  {
    if validators != [] {
      var n := |validators| - 1;
      assert forall i: nat :: i < n ==> validators[..n][i] == validators[i];
      PowerOfMembers(validators[..n], adds, height, round, msgType, countDisagreeing, members);
    }
  }

  // ----- the computation

  method VotingPowerPercent(validators: seq<TMValidator>, votes: RoundDataMap, height: int64, round: int32,
                            msgType: int32, countDisagreeing: bool) returns (percent: real)
    requires votes.Valid()
    ensures percent == Share(validators, votes.adds, height, round, msgType, countDisagreeing)
    ensures percent == Percent(PowerOf(validators, if countDisagreeing
                                                   then Voters(validators, votes.adds, height, round, msgType)
                                                   else Agreeing(validators, votes.adds, height, round, msgType)),
                               TotalPower(validators))
  {
    VotedPowerIs(validators, votes.adds, height, round, msgType);
    if |validators| == 0 {
      return 0.0;
    }
    var voted, totalVP := 0, 0;
    for i := 0 to |validators|
      invariant totalVP == TotalPower(validators[..i])
      invariant voted == VotedPower(validators[..i], votes.adds, height, round, msgType, countDisagreeing)
    {
      assert validators[..i + 1][..i] == validators[..i];
      totalVP := totalVP + validators[i].votingPower;
      var state := votes.GetVote(height, round, validators[i].address, msgType);
      if state == VoteStateForBlock || (countDisagreeing && state == VoteStateNil) {
        voted := voted + validators[i].votingPower;
      }
    }
    assert validators[..|validators|] == validators;
    if totalVP == 0 {
      return 0.0;
    }
    QuotientTimes(voted, totalVP);
    percent := voted as real / totalVP as real * 100.0;
  }

  ghost predicate NonNegative(validators: seq<TMValidator>) {
    forall i :: 0 <= i < |validators| ==> validators[i].votingPower >= 0
  }

  /** A slot that has been voted stays voted, whatever is added later. */
  lemma {:induction false} VoteStays(adds: seq<Add>, more: seq<Add>, height: int64, round: int32, validator: string,
                                     msgType: int32)
    ensures LastVote(adds, height, round, validator, msgType).Some? ==>
              LastVote(adds + more, height, round, validator, msgType).Some?
    decreases |more|
  {
    if more == [] {
      assert adds + more == adds;
    } else {
      var n := |more| - 1;
      assert (adds + more)[..|adds + more| - 1] == adds + more[..n];
      VoteStays(adds, more[..n], height, round, validator, msgType);
    }
  }

  /** Power that has voted at all only grows, never exceeds the total, and covers the agreeing power. */
  lemma {:induction false} VotedPowerBounds(validators: seq<TMValidator>, adds: seq<Add>, more: seq<Add>,
                                            height: int64, round: int32, msgType: int32)
    requires NonNegative(validators)
    ensures var agreeing, voted, later := VotedPower(validators, adds, height, round, msgType, false),
                                          VotedPower(validators, adds, height, round, msgType, true),
                                          VotedPower(validators, adds + more, height, round, msgType, true);
            0 <= agreeing <= voted <= later <= TotalPower(validators)
  {
    if validators != [] {
      var n := |validators| - 1;
      VotedPowerBounds(validators[..n], adds, more, height, round, msgType);
      VoteStays(adds, more, height, round, validators[n].address, msgType);
    }
  }

  /** For a fixed height, round and validator set, over any run: the share that has voted never
      decreases, stays within 0 and 100, and is at least the agreeing share. */
  lemma ShareMonotone(validators: seq<TMValidator>, adds: seq<Add>, more: seq<Add>, height: int64, round: int32,
                      msgType: int32)
    requires NonNegative(validators)
    ensures Share(validators, adds, height, round, msgType, true)
         <= Share(validators, adds + more, height, round, msgType, true)
    ensures 0.0 <= Share(validators, adds, height, round, msgType, false)
                <= Share(validators, adds, height, round, msgType, true) <= 100.0
  {
    VotedPowerBounds(validators, adds, more, height, round, msgType);
    var total := TotalPower(validators);
    if total > 0 {
      PercentMonotone(VotedPower(validators, adds, height, round, msgType, true),
                      VotedPower(validators, adds + more, height, round, msgType, true), total);
      PercentMonotone(0, VotedPower(validators, adds, height, round, msgType, false), total);
      PercentMonotone(VotedPower(validators, adds, height, round, msgType, true), total, total);
      PercentMonotone(VotedPower(validators, adds, height, round, msgType, false),
                      VotedPower(validators, adds, height, round, msgType, true), total);
    }
  }

  // ----- when the agreeing share falls

  /** The add is a nil vote of this slot type that overwrites a vote for a block of a listed validator
      with power. */
  predicate Unvotes(validators: seq<TMValidator>, adds: seq<Add>, a: Add, height: int64, round: int32, msgType: int32) {
    Retracts(adds, a, height, round, msgType) && HasPower(validators, a.validator)
  }

  predicate Retracts(adds: seq<Add>, a: Add, height: int64, round: int32, msgType: int32) {
    && a.AddVote? && a.height == height && a.round == round && a.msgType == msgType && a.blockID.IsZero()
    && Classify(LastVote(adds, height, round, a.validator, msgType)) == VoteStateForBlock
  }

  predicate HasPower(validators: seq<TMValidator>, address: string) {
    exists i :: 0 <= i < |validators| && validators[i].address == address && validators[i].votingPower > 0
  }

  /** One add lowers the agreeing power, and with it the agreeing share, if and only if it unvotes. */
  lemma AgreeingShareFallsIff(validators: seq<TMValidator>, adds: seq<Add>, a: Add, height: int64, round: int32,
                              msgType: int32)
    requires NonNegative(validators)
    ensures VotedPower(validators, adds + [a], height, round, msgType, false)
              < VotedPower(validators, adds, height, round, msgType, false)
            <==> Unvotes(validators, adds, a, height, round, msgType)
    ensures Share(validators, adds + [a], height, round, msgType, false)
              < Share(validators, adds, height, round, msgType, false)
            <==> Unvotes(validators, adds, a, height, round, msgType)
  {
    PowerAfterAdd(validators, adds, a, height, round, msgType);
    VotedPowerBounds(validators, adds, [], height, round, msgType);
    VotedPowerBounds(validators, adds + [a], [], height, round, msgType);
    assert adds + [] == adds;
    var before, after := VotedPower(validators, adds, height, round, msgType, false),
                         VotedPower(validators, adds + [a], height, round, msgType, false);
    if TotalPower(validators) > 0 {
      PercentMonotone(before, after, TotalPower(validators));
    }
  }

  lemma {:induction false} PowerAfterAdd(validators: seq<TMValidator>, adds: seq<Add>, a: Add, height: int64,
                                         round: int32, msgType: int32)
    requires NonNegative(validators)
    ensures var before, after := VotedPower(validators, adds, height, round, msgType, false),
                                 VotedPower(validators, adds + [a], height, round, msgType, false);
            && (if Unvotes(validators, adds, a, height, round, msgType) then after < before else before <= after)
            && (Retracts(adds, a, height, round, msgType) ==> after <= before)
  {
    if validators != [] {
      var n := |validators| - 1;
      PowerAfterAdd(validators[..n], adds, a, height, round, msgType);
      VoteAfterAdd(adds, a, height, round, validators[n].address, msgType);
      if Retracts(adds, a, height, round, msgType) {
        HasPowerStep(validators, a.validator);
      }
    }
  }

  /** Only a retracting add stops a validator's vote from counting, and it starts no other. */
  lemma VoteAfterAdd(adds: seq<Add>, a: Add, height: int64, round: int32, validator: string, msgType: int32)
    ensures var before, after := Counts(LastVote(adds, height, round, validator, msgType), false),
                                 Counts(LastVote(adds + [a], height, round, validator, msgType), false);
            && ((before && !after) <==> (Retracts(adds, a, height, round, msgType) && a.validator == validator))
            && (Retracts(adds, a, height, round, msgType) && !before ==> !after)
  {
    assert (adds + [a])[..|adds|] == adds;
  }

  lemma HasPowerStep(validators: seq<TMValidator>, address: string)
    requires validators != []
    ensures var n := |validators| - 1;
            HasPower(validators, address) <==>
            HasPower(validators[..n], address) || (validators[n].address == address && validators[n].votingPower > 0)
  {
    var n := |validators| - 1;
    if HasPower(validators[..n], address) {
      var i :| 0 <= i < n && validators[..n][i].address == address && validators[..n][i].votingPower > 0;
      assert validators[i].address == address;
    }
  }

  /** Over a whole run the agreeing power never falls if and only if no add of the run unvotes. */
  lemma AgreeingMonotoneIff(validators: seq<TMValidator>, adds: seq<Add>, more: seq<Add>, height: int64, round: int32,
                            msgType: int32)
    requires NonNegative(validators)
    ensures (forall i, j :: 0 <= i <= j <= |more| ==>
               VotedPower(validators, adds + more[..i], height, round, msgType, false)
                 <= VotedPower(validators, adds + more[..j], height, round, msgType, false))
            <==> (forall k :: 0 <= k < |more| ==>
                    !Unvotes(validators, adds + more[..k], more[k], height, round, msgType))
  {
    forall k | 0 <= k < |more|
      ensures VotedPower(validators, adds + more[..k + 1], height, round, msgType, false)
                < VotedPower(validators, adds + more[..k], height, round, msgType, false)
              <==> Unvotes(validators, adds + more[..k], more[k], height, round, msgType)
    {
      assert adds + more[..k + 1] == (adds + more[..k]) + [more[k]];
      AgreeingShareFallsIff(validators, adds + more[..k], more[k], height, round, msgType);
    }
    if k :| 0 <= k < |more| && Unvotes(validators, adds + more[..k], more[k], height, round, msgType) {
      assert VotedPower(validators, adds + more[..k + 1], height, round, msgType, false)
               < VotedPower(validators, adds + more[..k], height, round, msgType, false);
    } else {
      forall i, j | 0 <= i <= j <= |more|
        ensures VotedPower(validators, adds + more[..i], height, round, msgType, false)
                  <= VotedPower(validators, adds + more[..j], height, round, msgType, false)
      {
        AgreeingClimbs(validators, adds, more, height, round, msgType, i, j);
      }
    }
  }

  lemma {:induction false} AgreeingClimbs(validators: seq<TMValidator>, adds: seq<Add>, more: seq<Add>,
                                          height: int64, round: int32, msgType: int32, i: nat, j: nat)
    requires i <= j <= |more|
    requires forall k :: 0 <= k < |more| ==>
               VotedPower(validators, adds + more[..k + 1], height, round, msgType, false)
                 >= VotedPower(validators, adds + more[..k], height, round, msgType, false)
    ensures VotedPower(validators, adds + more[..i], height, round, msgType, false)
              <= VotedPower(validators, adds + more[..j], height, round, msgType, false)
  {
    if i < j {
      AgreeingClimbs(validators, adds, more, height, round, msgType, i, j - 1);
    }
  }

  /** The agreeing share alone can fall: a vote for a block overwritten by a nil vote. */
  lemma AgreeingShareCanFall(id: BlockID)
    requires !id.IsZero()
    ensures var before := [Add.AddVote(5, 0, "A", 1, id)];
            var after := before + [Add.AddVote(5, 0, "A", 1, BlockID([], 0, []))];
            VotedPower([TMValidator("A", 10)], before, 5, 0, 1, false) == 10
            && VotedPower([TMValidator("A", 10)], after, 5, 0, 1, false) == 0
  {
    var v := TMValidator("A", 10);
    assert [v][..0] == [];
    assert VotedPower([], [Add.AddVote(5, 0, "A", 1, id)], 5, 0, 1, false) == 0;
  }
}
