/** The voting power the database reports for a round against the power the vote log reports. */
module StoredPower {
  import opened Int64
  import opened Text
  import opened Schema
  import opened Upserts
  import opened Retention
  import opened Percentages
  import opened RoundData
  import opened VotingPower
  import opened ConsensusStore
  import Participation

  // ----- storing the validators of a height

  function KeyOfValidator(v: ValidatorRow): string { v.hexAddress }

  /** The height upsert: block time and proposer become NULL, and the creation time of an existing row stays. */
  function HeightUpserted(heights: seq<HeightRow>, height: int64, now: int): seq<HeightRow> {
    var existing := Find(HeightOfHeight, heights, height);
    Upsert(HeightOfHeight, heights,
           HeightRow(height, None, None, if existing.Some? then existing.value.createdAt else now))
  }

  function ValidatorsUpserted(rows: seq<ValidatorRow>, validators: seq<TMValidator>): seq<ValidatorRow> {
    if validators == [] then rows
    else
      var v := validators[|validators| - 1];
      Upsert(KeyOfValidator, ValidatorsUpserted(rows, validators[..|validators| - 1]),
             ValidatorRow(v.address, v.votingPower))
  }

  function SnapshotsUpserted(rows: seq<SnapshotRow>, height: int64, validators: seq<TMValidator>): seq<SnapshotRow> {
    if validators == [] then rows
    else
      var v := validators[|validators| - 1];
      Upsert(KeyOfSnapshot, SnapshotsUpserted(rows, height, validators[..|validators| - 1]),
             SnapshotRow(height, v.address, v.votingPower))
  }

  /** The validators at the positions outside `refused`. */
  function Accepted(validators: seq<TMValidator>, refused: set<nat>): seq<TMValidator> {
    if validators == [] then []
    else
      var n := |validators| - 1;
      Accepted(validators[..n], refused) + if n in refused then [] else [validators[n]]
  }

  /** The tables once the rows of `stored` and the snapshots of `snapped` are in. */
  function ValidatorsStored(t: Tables, height: int64, stored: seq<TMValidator>, snapped: seq<TMValidator>,
                            now: int): Tables
  {
    t.(heights := HeightUpserted(t.heights, height, now),
       validators := ValidatorsUpserted(t.validators, stored),
       snapshots := SnapshotsUpserted(t.snapshots, height, snapped))
  }

  /** A refused height row rolls everything back. A refused validator row (at the positions `noRow`) is
      logged and skipped together with its snapshot; a refused snapshot (`noSnapshot`) is only logged. */
  method StoreValidators(store: Store, height: int64, validators: seq<TMValidator>, now: int,
                         heightRefused: bool, noRow: set<nat>, noSnapshot: set<nat>) returns (err: Option<Error>)
    modifies store
    ensures err == if heightRefused then Some(IOError) else None
    ensures store.tables == if heightRefused then old(store.tables)
                            else ValidatorsStored(old(store.tables), height, Accepted(validators, noRow),
                                                  Accepted(validators, noRow + noSnapshot), now)
  {
    if heightRefused {
      return Some(IOError);
    }
    ghost var before, stored, snapped := store.tables, [], [];
    var t := store.tables;
    t := t.(heights := HeightUpserted(t.heights, height, now));
    for i := 0 to |validators|
      invariant stored == Accepted(validators[..i], noRow) && snapped == Accepted(validators[..i], noRow + noSnapshot)
      invariant t == ValidatorsStored(before, height, stored, snapped, now)
    {
      assert validators[..i + 1][..i] == validators[..i];
      var v := validators[i];
      if i in noRow {
        continue;
      }
      t := t.(validators := Upsert(KeyOfValidator, t.validators, ValidatorRow(v.address, v.votingPower)));
      assert (stored + [v])[..|stored|] == stored;
      stored := stored + [v];
      if i !in noSnapshot {
        t := t.(snapshots := Upsert(KeyOfSnapshot, t.snapshots, SnapshotRow(height, v.address, v.votingPower)));
        assert (snapped + [v])[..|snapped|] == snapped;
        snapped := snapped + [v];
      }
    }
    assert validators[..|validators|] == validators;
    store.tables := t;
    err := None;
  }

  /** The accepted validators are those at the positions that are not refused. */
  lemma {:induction false} AcceptedAre(validators: seq<TMValidator>, refused: set<nat>, v: TMValidator)
    ensures v in Accepted(validators, refused) <==>
              exists i: nat :: i < |validators| && i !in refused && validators[i] == v
    decreases |validators|
  {
    if validators != [] {
      var n := |validators| - 1;
      AcceptedAre(validators[..n], refused, v);
      assert forall i :: 0 <= i < n ==> validators[..n][i] == validators[i];
      if i: nat :| i < |validators| && i !in refused && validators[i] == v {
        assert i < n ==> validators[..n][i] == v;
      }
    }
  }

  /** Entry `i` is the last one of its address. */
  ghost predicate IsLastOf(validators: seq<TMValidator>, i: nat, a: string) {
    && i < |validators| && validators[i].address == a
    && forall j :: i < j < |validators| ==> validators[j].address != a
  }

  lemma LastOfStep(validators: seq<TMValidator>, i: nat, a: string)
    requires validators != []
    ensures var n := |validators| - 1;
            IsLastOf(validators, i, a) <==>
              if validators[n].address == a then i == n else IsLastOf(validators[..n], i, a)
  {
    var n := |validators| - 1;
    assert forall j :: 0 <= j < n ==> validators[..n][j] == validators[j];
  }

  /** The stored height keeps the creation time of an existing row; every other height row stays. */
  lemma StoredHeightRows(t: Tables, height: int64, stored: seq<TMValidator>, snapped: seq<TMValidator>, now: int)
    ensures var before, after := t.heights, ValidatorsStored(t, height, stored, snapped, now).heights;
            && (forall h: int :: h != height ==> Find(HeightOfHeight, after, h) == Find(HeightOfHeight, before, h))
            && (forall r :: Find(HeightOfHeight, before, height) == Some(r) ==>
                  Find(HeightOfHeight, after, height) == Some(HeightRow(height, None, None, r.createdAt)))
            && (Find(HeightOfHeight, before, height) == None ==>
                  Find(HeightOfHeight, after, height) == Some(HeightRow(height, None, None, now)))
  {
    var existing := Find(HeightOfHeight, t.heights, height);
    var row := HeightRow(height, None, None, if existing.Some? then existing.value.createdAt else now);
    forall h: int
      ensures Find(HeightOfHeight, HeightUpserted(t.heights, height, now), h)
           == if h == height then Some(row) else Find(HeightOfHeight, t.heights, h)
    {
      FindUpsert(HeightOfHeight, t.heights, row, h);
    }
  }

  /** The last listed validator of an address decides its validator row; a row of another address stays. */
  lemma {:induction false} StoredValidatorRows(rows: seq<ValidatorRow>, validators: seq<TMValidator>, a: string,
                                               i: nat)
    ensures IsLastOf(validators, i, a) ==>
              Find(KeyOfValidator, ValidatorsUpserted(rows, validators), a)
              == Some(ValidatorRow(a, validators[i].votingPower))
    ensures !Listed(validators, a) ==>
              Find(KeyOfValidator, ValidatorsUpserted(rows, validators), a) == Find(KeyOfValidator, rows, a)
    decreases |validators|
  {
    if validators != [] {
      var n := |validators| - 1;
      var v := validators[n];
      StoredValidatorRows(rows, validators[..n], a, i);
      FindUpsert(KeyOfValidator, ValidatorsUpserted(rows, validators[..n]), ValidatorRow(v.address, v.votingPower), a);
      LastOfStep(validators, i, a);
      ListedStep(validators, a);
    }
  }

  /** The same for the snapshots of the height; the snapshots of other heights stay. */
  lemma {:induction false} StoredSnapshotRows(rows: seq<SnapshotRow>, height: int64, validators: seq<TMValidator>,
                                              k: SnapshotKey, i: nat)
    ensures k.height == height && IsLastOf(validators, i, k.validator) ==>
              Find(KeyOfSnapshot, SnapshotsUpserted(rows, height, validators), k)
              == Some(SnapshotRow(height, k.validator, validators[i].votingPower))
    ensures k.height != height || !Listed(validators, k.validator) ==>
              Find(KeyOfSnapshot, SnapshotsUpserted(rows, height, validators), k) == Find(KeyOfSnapshot, rows, k)
    decreases |validators|
  {
    if validators != [] {
      var n := |validators| - 1;
      var v := validators[n];
      StoredSnapshotRows(rows, height, validators[..n], k, i);
      FindUpsert(KeyOfSnapshot, SnapshotsUpserted(rows, height, validators[..n]),
                 SnapshotRow(height, v.address, v.votingPower), k);
      LastOfStep(validators, i, k.validator);
      ListedStep(validators, k.validator);
    }
  }

  /** Refusing more keeps fewer validators; refusing none keeps the list. */
  lemma {:induction false} AcceptedShrinks(validators: seq<TMValidator>, fewer: set<nat>, more: set<nat>)
    requires fewer <= more
    ensures forall v :: v in Accepted(validators, more) ==> v in Accepted(validators, fewer)
    ensures fewer == {} ==> Accepted(validators, fewer) == validators
    decreases |validators|
  {
    if validators != [] {
      AcceptedShrinks(validators[..|validators| - 1], fewer, more);
    }
  }

  // ----- GetVotingPowerForRound

  /** The power a joined vote row contributes: that of every matching snapshot. */
  function SnapshotPower(snapshots: seq<SnapshotRow>, height: int64, address: string): int {
    if snapshots == [] then 0
    else
      (if snapshots[0].height == height && snapshots[0].validator == address then snapshots[0].votingPower else 0)
      + SnapshotPower(snapshots[1..], height, address)
  }

  predicate Qualifies(v: VoteRow, height: int64, round: int64, voteType: int64) {
    v.height == height && v.roundNumber == round && v.voteType == voteType && v.blockHash.Some?
  }

  /** SUM(CASE WHEN v.vote_type = ? AND v.block_hash IS NOT NULL THEN vs.voting_power ELSE 0 END) over the
      join of votes and snapshots; an empty sum reads as 0. */
  function PowerOfRound(votes: seq<VoteRow>, snapshots: seq<SnapshotRow>, height: int64, round: int64,
                        voteType: int64): int
  {
    if votes == [] then 0
    else
      (if Qualifies(votes[0], height, round, voteType) then SnapshotPower(snapshots, height, votes[0].validator) else 0)
      + PowerOfRound(votes[1..], snapshots, height, round, voteType)
  }

  /** The subquery: COALESCE(SUM(vs2.voting_power), 0) at the height. */
  function TotalAtHeight(snapshots: seq<SnapshotRow>, height: int64): int {
    if snapshots == [] then 0
    else (if snapshots[0].height == height then snapshots[0].votingPower else 0) + TotalAtHeight(snapshots[1..], height)
  }

  // ----- the power of an address in a validator list

  function ListPower(validators: seq<TMValidator>, address: string): int {
    if validators == [] then 0
    else
      var v := validators[|validators| - 1];
      ListPower(validators[..|validators| - 1], address) + if v.address == address then v.votingPower else 0
  }

  ghost predicate DistinctAddresses(validators: seq<TMValidator>) {
    forall i, j :: 0 <= i < j < |validators| ==> validators[i].address != validators[j].address
  }

  predicate Listed(validators: seq<TMValidator>, address: string) {
    exists i :: 0 <= i < |validators| && validators[i].address == address
  }

  /** The snapshots of the height are exactly the listed validators with their powers. */
  ghost predicate Mirrors(snapshots: seq<SnapshotRow>, height: int64, validators: seq<TMValidator>) {
    && UniqueKeys(KeyOfSnapshot, snapshots)
    && forall a: string {:trigger Listed(validators, a)} ::
         SnapshotMatches(Find(KeyOfSnapshot, snapshots, SnapshotKey(height, a)), validators, a)
  }

  ghost predicate SnapshotMatches(s: Option<SnapshotRow>, validators: seq<TMValidator>, a: string) {
    (s.Some? <==> Listed(validators, a)) && (s.Some? ==> s.value.votingPower == ListPower(validators, a))
  }

  lemma ListedStep(validators: seq<TMValidator>, a: string)
    requires validators != []
    ensures var n := |validators| - 1;
            Listed(validators, a) <==> Listed(validators[..n], a) || validators[n].address == a
  {
    var n := |validators| - 1;
    if Listed(validators[..n], a) {
      var i :| 0 <= i < n && validators[..n][i].address == a;
      assert validators[i].address == a;
    }
    if Listed(validators, a) && validators[n].address != a {
      var i :| 0 <= i < |validators| && validators[i].address == a;
      assert validators[..n][i].address == a;
    }
  }

  lemma {:induction false} UnlistedPower(validators: seq<TMValidator>, a: string)
    ensures !Listed(validators, a) ==> ListPower(validators, a) == 0
  {
    if validators != [] {
      ListedStep(validators, a);
      UnlistedPower(validators[..|validators| - 1], a);
    }
  }

  lemma {:induction false} SnapshotsFind(rows: seq<SnapshotRow>, height: int64, validators: seq<TMValidator>,
                                         k: SnapshotKey)
    requires DistinctAddresses(validators)
    ensures var s := Find(KeyOfSnapshot, SnapshotsUpserted(rows, height, validators), k);
            if k.height == height && Listed(validators, k.validator)
            then s.Some? && s.value.votingPower == ListPower(validators, k.validator)
            else s == Find(KeyOfSnapshot, rows, k)
    ensures UniqueKeys(KeyOfSnapshot, rows) ==> UniqueKeys(KeyOfSnapshot, SnapshotsUpserted(rows, height, validators))
  {
    if validators != [] {
      var n := |validators| - 1;
      var v := validators[n];
      var before := SnapshotsUpserted(rows, height, validators[..n]);
      var row := SnapshotRow(height, v.address, v.votingPower);
      SnapshotsFind(rows, height, validators[..n], k);
      ListedStep(validators, k.validator);
      FindUpsert(KeyOfSnapshot, before, row, k);
      if UniqueKeys(KeyOfSnapshot, before) {
        UpsertUnique(KeyOfSnapshot, before, row);
      }
      if v.address == k.validator {
        assert !Listed(validators[..n], k.validator);
        UnlistedPower(validators[..n], k.validator);
      }
    }
  }

  /** With distinct addresses and no stale snapshot of an unlisted validator, the snapshots of the height
      mirror the validators whose snapshots were stored. */
  lemma StoredValidatorsMirror(t: Tables, height: int64, stored: seq<TMValidator>, snapped: seq<TMValidator>, now: int)
    requires DistinctAddresses(snapped) && UniqueKeys(KeyOfSnapshot, t.snapshots)
    requires forall a: string :: Find(KeyOfSnapshot, t.snapshots, SnapshotKey(height, a)).Some? ==> Listed(snapped, a)
    ensures Mirrors(ValidatorsStored(t, height, stored, snapped, now).snapshots, height, snapped)
  {
    var after := SnapshotsUpserted(t.snapshots, height, snapped);
    SnapshotsFind(t.snapshots, height, snapped, SnapshotKey(height, ""));
    forall a: string ensures SnapshotMatches(Find(KeyOfSnapshot, after, SnapshotKey(height, a)), snapped, a) {
      SnapshotsFind(t.snapshots, height, snapped, SnapshotKey(height, a));
    }
  }

  // ----- one snapshot an address

  lemma {:induction false} SnapshotPowerFound(snapshots: seq<SnapshotRow>, height: int64, a: string)
    requires UniqueKeys(KeyOfSnapshot, snapshots)
    ensures var s := Find(KeyOfSnapshot, snapshots, SnapshotKey(height, a));
            SnapshotPower(snapshots, height, a) == if s.Some? then s.value.votingPower else 0
  {
    if snapshots != [] {
      UniqueTail(KeyOfSnapshot, snapshots);
      SnapshotPowerFound(snapshots[1..], height, a);
    }
  }

  lemma MirrorPower(snapshots: seq<SnapshotRow>, height: int64, validators: seq<TMValidator>, a: string)
    requires Mirrors(snapshots, height, validators)
    ensures SnapshotPower(snapshots, height, a) == ListPower(validators, a)
  {
    SnapshotPowerFound(snapshots, height, a);
    UnlistedPower(validators, a);
    assert Listed(validators, a) ==>
             SnapshotMatches(Find(KeyOfSnapshot, snapshots, SnapshotKey(height, a)), validators, a);
  }

  // ----- summing over votes is summing over validators

  /** The power of the listed validators that have a qualifying row. */
  function QualifiedPower(validators: seq<TMValidator>, votes: seq<VoteRow>, height: int64, round: int64,
                          voteType: int64): int
  {
    if validators == [] then 0
    else
      var v := validators[|validators| - 1];
      QualifiedPower(validators[..|validators| - 1], votes, height, round, voteType)
      + if HasQualifying(votes, height, round, voteType, v.address) then v.votingPower else 0
  }

  predicate HasQualifying(votes: seq<VoteRow>, height: int64, round: int64, voteType: int64, a: string) {
    exists i :: 0 <= i < |votes| && Qualifies(votes[i], height, round, voteType) && votes[i].validator == a
  }

  lemma QualifyingCons(votes: seq<VoteRow>, height: int64, round: int64, voteType: int64, a: string)
    requires votes != []
    ensures HasQualifying(votes, height, round, voteType, a) <==>
            HasQualifying(votes[1..], height, round, voteType, a)
            || (Qualifies(votes[0], height, round, voteType) && votes[0].validator == a)
  {
    if HasQualifying(votes[1..], height, round, voteType, a) {
      var i :| 0 <= i < |votes| - 1 && Qualifies(votes[1..][i], height, round, voteType) &&
               votes[1..][i].validator == a;
      assert votes[i + 1] == votes[1..][i];
    }
    if HasQualifying(votes, height, round, voteType, a) {
      var i :| 0 <= i < |votes| && Qualifies(votes[i], height, round, voteType) && votes[i].validator == a;
      if i > 0 {
        assert votes[1..][i - 1] == votes[i];
      }
    }
  }

  /** One more vote row adds its validator's power once, because no other row of the key exists. */
  lemma {:induction false} QualifiedCons(validators: seq<TMValidator>, votes: seq<VoteRow>, height: int64,
                                         round: int64, voteType: int64)
    requires votes != [] && UniqueKeys(KeyOfVote, votes)
    ensures QualifiedPower(validators, votes, height, round, voteType)
         == QualifiedPower(validators, votes[1..], height, round, voteType)
            + if Qualifies(votes[0], height, round, voteType) then ListPower(validators, votes[0].validator) else 0
  {
    if validators != [] {
      var n := |validators| - 1;
      QualifiedCons(validators[..n], votes, height, round, voteType);
      QualifyingCons(votes, height, round, voteType, validators[n].address);
      if Qualifies(votes[0], height, round, voteType) && validators[n].address == votes[0].validator {
        NoOtherQualifies(votes, height, round, voteType);
      }
    }
  }

  lemma NoOtherQualifies(votes: seq<VoteRow>, height: int64, round: int64, voteType: int64)
    requires votes != [] && UniqueKeys(KeyOfVote, votes) && Qualifies(votes[0], height, round, voteType)
    ensures !HasQualifying(votes[1..], height, round, voteType, votes[0].validator)
  {
    var key := KeyOfVote;
    forall i | 0 <= i < |votes| - 1 && Qualifies(votes[1..][i], height, round, voteType)
      ensures votes[1..][i].validator != votes[0].validator
    {
      assert key(votes[0]) != key(votes[i + 1]);
    }
  }

  lemma {:induction false} NoVotesNoPower(validators: seq<TMValidator>, height: int64, round: int64, voteType: int64)
    ensures QualifiedPower(validators, [], height, round, voteType) == 0
  {
    if validators != [] {
      NoVotesNoPower(validators[..|validators| - 1], height, round, voteType);
    }
  }

  lemma {:induction false} PowerIsQualified(votes: seq<VoteRow>, snapshots: seq<SnapshotRow>, height: int64,
                                            round: int64, voteType: int64,
                                            validators: seq<TMValidator>)
    requires UniqueKeys(KeyOfVote, votes) && Mirrors(snapshots, height, validators)
    ensures PowerOfRound(votes, snapshots, height, round, voteType)
            == QualifiedPower(validators, votes, height, round, voteType)
    decreases |votes|
  {
    if votes == [] {
      NoVotesNoPower(validators, height, round, voteType);
    } else {
      UniqueTail(KeyOfVote, votes);
      PowerIsQualified(votes[1..], snapshots, height, round, voteType, validators);
      QualifiedCons(validators, votes, height, round, voteType);
      MirrorPower(snapshots, height, validators, votes[0].validator);
    }
  }

  // ----- the vote log and the vote rows say the same

  /** For the listed validators, a row with a hash is there exactly when the log has a vote for a block. */
  ghost predicate RowsMatchLog(votes: seq<VoteRow>, adds: seq<Add>, height: int64, round: int32, voteType: int32,
                               validators: seq<TMValidator>)
  {
    forall i :: 0 <= i < |validators| ==>
      (HasQualifying(votes, height, round, voteType, validators[i].address)
       <==> Classify(LastVote(adds, height, round, validators[i].address, voteType)) == VoteStateForBlock)
  }

  lemma {:induction false} QualifiedIsVoted(validators: seq<TMValidator>, votes: seq<VoteRow>, adds: seq<Add>,
                                            height: int64, round: int32, voteType: int32)
    requires RowsMatchLog(votes, adds, height, round, voteType, validators)
    ensures QualifiedPower(validators, votes, height, round, voteType)
            == VotedPower(validators, adds, height, round, voteType, false)
  {
    if validators != [] {
      var n := |validators| - 1;
      assert validators[n].address == validators[n].address;
      QualifiedIsVoted(validators[..n], votes, adds, height, round, voteType);
    }
  }

  /** The log and the round data handed to the store agree on every vote of this type. */
  ghost predicate RoundOfLog(rd: Round, adds: seq<Add>, height: int64, round: int32, voteType: int32) {
    forall a: string :: LastVote(adds, height, round, a, voteType) ==
      if HasVote(rd, a, voteType) then Some(rd.votes[a][voteType]) else None
  }

  /** The round data the vote log hands out is the one its history describes. */
  lemma LogHandsOutItsRound(heights: Heights, adds: seq<Add>, height: int64, round: int32, voteType: int32)
    requires Refines(heights, adds)
    ensures RoundOfLog(RoundAt(heights, height, round), adds, height, round, voteType)
  {
    forall a: string
      ensures LastVote(adds, height, round, a, voteType) == Stored(heights, height, round, a, voteType)
    {}
  }

  lemma QualifyingIsFound(votes: seq<VoteRow>, height: int64, round: int64, voteType: int64, a: string)
    requires UniqueKeys(KeyOfVote, votes)
    ensures var r := Find(KeyOfVote, votes, VoteKey(height, round, a, voteType));
            HasQualifying(votes, height, round, voteType, a) <==> r.Some? && r.value.blockHash.Some?
  {
    var k := VoteKey(height, round, a, voteType);
    FindMember(KeyOfVote, votes, k);
    var r := Find(KeyOfVote, votes, k);
    if r.Some? && r.value.blockHash.Some? {
      var i :| 0 <= i < |votes| && votes[i] == r.value;
      assert Qualifies(votes[i], height, round, voteType);
    }
    if HasQualifying(votes, height, round, voteType, a) {
      var i :| 0 <= i < |votes| && Qualifies(votes[i], height, round, voteType) && votes[i].validator == a;
      MemberFind(KeyOfVote, votes, votes[i]);
    }
  }

  lemma StoredRowsMatchLog(before: Tables, after: Tables, height: int64, round: int32, rd: Round,
                           refused: set<VoteKey>, adds: seq<Add>, voteType: int32, validators: seq<TMValidator>)
    requires StoredRound(before, after, height, round, rd, refused) && UniqueKeys(KeyOfVote, before.votes)
    requires RoundOfLog(rd, adds, height, round, voteType)
    requires forall i :: 0 <= i < |validators| ==>
               && HasValidator(before.validators, validators[i].address)
               && VoteKey(height, round, validators[i].address, voteType) !in refused
    requires forall a: string :: Find(KeyOfVote, before.votes, VoteKey(height, round, a, voteType)).Some? ==>
               HasVote(rd, a, voteType)
    ensures RowsMatchLog(after.votes, adds, height, round, voteType, validators)
  {
    var p :| StoredWith(before, after, height, round, rd, refused, p);
    forall i | 0 <= i < |validators|
      ensures HasQualifying(after.votes, height, round, voteType, validators[i].address)
              <==> Classify(LastVote(adds, height, round, validators[i].address, voteType)) == VoteStateForBlock
    {
      var a := validators[i].address;
      QualifyingIsFound(after.votes, height, round, voteType, a);
      assert Find(KeyOfVote, after.votes, VoteKey(height, round, a, voteType))
          == Expected(before, height, round, rd, refused, VoteKey(height, round, a, voteType));
    }
  }

  // ----- the totals

  lemma {:induction false} TotalOfSnapshots(snapshots: seq<SnapshotRow>, height: int64, validators: seq<TMValidator>)
    requires Mirrors(snapshots, height, validators) && DistinctAddresses(validators)
    ensures TotalAtHeight(snapshots, height) == TotalPower(validators)
  {
    forall i | 0 <= i < |snapshots| && snapshots[i].height == height
      ensures Listed(validators, snapshots[i].validator)
    {
      var a := snapshots[i].validator;
      MemberFind(KeyOfSnapshot, snapshots, snapshots[i]);
      assert SnapshotMatches(Find(KeyOfSnapshot, snapshots, SnapshotKey(height, a)), validators, a) by {
        assert Listed(validators, a) || !Listed(validators, a);
      }
    }
    SumByAddress(snapshots, height, validators);
    forall i | 0 <= i < |validators|
      ensures SnapshotPower(snapshots, height, validators[i].address) == validators[i].votingPower
    {
      MirrorPower(snapshots, height, validators, validators[i].address);
      ListedPower(validators, i);
    }
    PowersEqual(validators, snapshots, height);
  }

  lemma {:induction false} ListedPower(validators: seq<TMValidator>, i: nat)
    requires DistinctAddresses(validators) && i < |validators|
    ensures ListPower(validators, validators[i].address) == validators[i].votingPower
  {
    var n := |validators| - 1;
    if i < n {
      ListedPower(validators[..n], i);
    } else {
      UnlistedPower(validators[..n], validators[n].address);
    }
  }

  function SumOfSnapshotPower(validators: seq<TMValidator>, snapshots: seq<SnapshotRow>, height: int64): int {
    if validators == [] then 0
    else SumOfSnapshotPower(validators[..|validators| - 1], snapshots, height)
         + SnapshotPower(snapshots, height, validators[|validators| - 1].address)
  }

  lemma {:induction false} PowersEqual(validators: seq<TMValidator>, snapshots: seq<SnapshotRow>, height: int64)
    requires forall i :: 0 <= i < |validators| ==>
               SnapshotPower(snapshots, height, validators[i].address) == validators[i].votingPower
    ensures SumOfSnapshotPower(validators, snapshots, height) == TotalPower(validators)
  {
    if validators != [] {
      assert SnapshotPower(snapshots, height, validators[|validators| - 1].address)
             == validators[|validators| - 1].votingPower;
      PowersEqual(validators[..|validators| - 1], snapshots, height);
    }
  }

  function Occurrences(validators: seq<TMValidator>, a: string): nat {
    if validators == [] then 0
    else Occurrences(validators[..|validators| - 1], a) + if validators[|validators| - 1].address == a then 1 else 0
  }

  lemma {:induction false} OccursOnce(validators: seq<TMValidator>, a: string)
    requires DistinctAddresses(validators)
    ensures Occurrences(validators, a) == if Listed(validators, a) then 1 else 0
  {
    if validators != [] {
      ListedStep(validators, a);
      OccursOnce(validators[..|validators| - 1], a);
    }
  }

  lemma {:induction false} SumCons(validators: seq<TMValidator>, snapshots: seq<SnapshotRow>, height: int64)
    requires snapshots != []
    ensures SumOfSnapshotPower(validators, snapshots, height)
         == SumOfSnapshotPower(validators, snapshots[1..], height)
            + if snapshots[0].height == height
              then Occurrences(validators, snapshots[0].validator) * snapshots[0].votingPower else 0
  {
    if validators != [] {
      SumCons(validators[..|validators| - 1], snapshots, height);
    }
  }

  lemma {:induction false} NoSnapshotsNoPower(validators: seq<TMValidator>, height: int64)
    ensures SumOfSnapshotPower(validators, [], height) == 0
  {
    if validators != [] {
      NoSnapshotsNoPower(validators[..|validators| - 1], height);
    }
  }

  /** Every snapshot of the height belongs to exactly one listed validator. */
  lemma {:induction false} SumByAddress(snapshots: seq<SnapshotRow>, height: int64, validators: seq<TMValidator>)
    requires DistinctAddresses(validators)
    requires forall i :: 0 <= i < |snapshots| && snapshots[i].height == height ==>
               Listed(validators, snapshots[i].validator)
    ensures SumOfSnapshotPower(validators, snapshots, height) == TotalAtHeight(snapshots, height)
  {
    if snapshots == [] {
      NoSnapshotsNoPower(validators, height);
    } else {
      assert forall i :: 0 <= i < |snapshots| - 1 ==> snapshots[1..][i] == snapshots[i + 1];
      SumByAddress(snapshots[1..], height, validators);
      SumCons(validators, snapshots, height);
      if snapshots[0].height == height {
        OccursOnce(validators, snapshots[0].validator);
      }
    }
  }

  // ----- the theorem

  /** After the validators and the round have been stored, the database's prevote (or precommit) power
      and total are those of the vote log over the validators with a stored snapshot, so both report the
      same share; no validator counts twice. Without refused rows these are all the validators. */
  lemma DatabaseAgreesWithLog(t: Tables, height: int64, stored: seq<TMValidator>, snapped: seq<TMValidator>, now: int,
                              after: Tables, round: int32, rd: Round, refused: set<VoteKey>, adds: seq<Add>,
                              voteType: int32)
    requires DistinctAddresses(snapped) && forall v :: v in snapped ==> v in stored
    requires UniqueKeys(KeyOfSnapshot, t.snapshots) && UniqueKeys(KeyOfVote, t.votes)
    requires forall a: string :: Find(KeyOfSnapshot, t.snapshots, SnapshotKey(height, a)).Some? ==> Listed(snapped, a)
    requires forall a: string :: Find(KeyOfVote, t.votes, VoteKey(height, round, a, voteType)).Some? ==>
               HasVote(rd, a, voteType)
    requires StoredRound(ValidatorsStored(t, height, stored, snapped, now), after, height, round, rd, refused)
    requires forall v :: v in snapped ==> VoteKey(height, round, v.address, voteType) !in refused
    requires RoundOfLog(rd, adds, height, round, voteType)
    ensures PowerOfRound(after.votes, after.snapshots, height, round, voteType)
         == VotedPower(snapped, adds, height, round, voteType, false)
    ensures TotalAtHeight(after.snapshots, height) == TotalPower(snapped)
    ensures Percent(PowerOfRound(after.votes, after.snapshots, height, round, voteType),
                    TotalAtHeight(after.snapshots, height))
         == Share(snapped, adds, height, round, voteType, false)
    ensures NonNegative(snapped) ==>
              0 <= PowerOfRound(after.votes, after.snapshots, height, round, voteType)
                <= TotalAtHeight(after.snapshots, height)
  {
    var before := ValidatorsStored(t, height, stored, snapped, now);
    StoredValidatorsMirror(t, height, stored, snapped, now);
    forall i | 0 <= i < |snapped| ensures HasValidator(before.validators, snapped[i].address) {
      assert snapped[i] in snapped;
      var j :| 0 <= j < |stored| && stored[j] == snapped[i];
      ValidatorsKnown(t.validators, stored, j);
    }
    StoredRowsMatchLog(before, after, height, round, rd, refused, adds, voteType, snapped);
    PowerIsQualified(after.votes, after.snapshots, height, round, voteType, snapped);
    QualifiedIsVoted(snapped, after.votes, adds, height, round, voteType);
    TotalOfSnapshots(after.snapshots, height, snapped);
    if NonNegative(snapped) {
      VotedPowerBounds(snapped, adds, [], height, round, voteType);
    }
  }

  lemma {:induction false} ValidatorsKnown(rows: seq<ValidatorRow>, validators: seq<TMValidator>, i: nat)
    requires i < |validators|
    ensures HasValidator(ValidatorsUpserted(rows, validators), validators[i].address)
  {
    var n := |validators| - 1;
    var v := validators[n];
    var before := ValidatorsUpserted(rows, validators[..n]);
    if i < n {
      ValidatorsKnown(rows, validators[..n], i);
    }
    var a := validators[i].address;
    FindUpsert(KeyOfValidator, before, ValidatorRow(v.address, v.votingPower), a);
    if i < n {
      var j :| 0 <= j < |before| && before[j].hexAddress == a;
      FindMember(KeyOfValidator, before, a);
      assert KeyOfValidator(before[j]) == a;
      var key := KeyOfValidator;
      assert before[j] in before && key(before[j]) == a;
    }
    FoundIsKnown(ValidatorsUpserted(rows, validators), a);
  }

  lemma FoundIsKnown(rows: seq<ValidatorRow>, a: string)
    requires Find(KeyOfValidator, rows, a).Some?
    ensures HasValidator(rows, a)
  {
    FindMember(KeyOfValidator, rows, a);
    var r := Find(KeyOfValidator, rows, a).value;
    var i :| 0 <= i < |rows| && rows[i] == r;
  }

  // ----- stored heights and the time windows of the analytics

  /** StoreValidators leaves the block time of its height NULL, so no time-window query sees the height. */
  lemma StoredHeightOutsideWindows(t: Tables, height: int64, stored: seq<TMValidator>, snapped: seq<TMValidator>,
                                   now: int,
                                   start: int, end: int)
    requires UniqueHeights(t.heights)
    ensures var after := ValidatorsStored(t, height, stored, snapped, now);
            height !in Participation.HeightsBetween(after.heights, start, end)
  {
    var existing := Find(HeightOfHeight, t.heights, height);
    var row := HeightRow(height, None, None, if existing.Some? then existing.value.createdAt else now);
    var after := Upsert(HeightOfHeight, t.heights, row);
    var windowed := Participation.Windowed(after, start, end);
    Participation.WindowedRows(after, start, end);
    UpsertUnique(HeightOfHeight, t.heights, row);
    FindUpsert(HeightOfHeight, t.heights, row, height);
    forall i | 0 <= i < |windowed| ensures windowed[i].height != height {
      assert windowed[i] in windowed;
      MemberFind(HeightOfHeight, after, windowed[i]);
    }
  }
}
