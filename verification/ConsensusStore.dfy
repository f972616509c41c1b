/** Persisting the vote log and loading it back: upserts by unique key, and the hex form of a hash. */
module ConsensusStore {
  import opened Int64
  import opened Text
  import opened Schema
  import opened Upserts
  import opened Retention
  import opened RoundData
  import opened FiniteSets

  datatype VoteKey = VoteKey(height: int64, roundNumber: int64, validator: string, voteType: int64)
  datatype RoundKey = RoundKey(height: int64, roundNumber: int64)

  function KeyOfVote(v: VoteRow): VoteKey { VoteKey(v.height, v.roundNumber, v.validator, v.voteType) }
  function KeyOfRound(r: RoundRow): RoundKey { RoundKey(r.height, r.roundNumber) }

  /** The block_hash column: NULL for a nil vote, otherwise the hash in upper-case hex. */
  function StoredHash(id: BlockID): Option<string> {
    if id.IsZero() then None else Some(Hex(id.hash))
  }

  /** The block ID rebuilt from the column; a text that is not hex counts as a nil vote. */
  function LoadedID(column: Option<string>): BlockID {
    if column.None? then BlockID([], 0, [])
    else
      var hash := DecodeHex(column.value);
      if hash.None? then BlockID([], 0, []) else BlockID(hash.value, 0, [])
  }

  /** The part set header is lost; the hash always comes back, and the vote state exactly when the vote
      is nil or has a hash. */
  lemma LoadStored(id: BlockID)
    ensures LoadedID(StoredHash(id)).hash == id.hash
    ensures Classify(Some(LoadedID(StoredHash(id)))) == Classify(Some(id))
       <==> id == BlockID([], 0, []) || id.hash != []
  {
    HexRoundTrip(id.hash);
  }

  /** NULL, and a text that is not hex, load as a vote for nil; no loaded vote has a part set header. */
  lemma LoadedIs(column: Option<string>)
    ensures LoadedID(column) == BlockID(LoadedID(column).hash, 0, [])
    ensures column.None? || DecodeHex(column.value).None? ==> Classify(Some(LoadedID(column))) == VoteStateNil
  {}

  // ----- storing a round

  predicate HasVote(rd: Round, validator: string, voteType: int32) {
    validator in rd.votes && voteType in rd.votes[validator]
  }

  function RowOf(height: int64, round: int32, rd: Round, validator: string, voteType: int32): VoteRow
    requires HasVote(rd, validator, voteType)
  {
    VoteRow(height, round, validator, voteType, StoredHash(rd.votes[validator][voteType]))
  }

  /** What a key finds after the round is stored: the round's own vote if it has one by a known validator
      that the storage does not refuse, otherwise what was there before. */
  ghost function Expected(before: Tables, height: int64, round: int32, rd: Round, refused: set<VoteKey>, k: VoteKey)
    : Option<VoteRow>
  {
    if k !in refused && k.height == height && k.roundNumber == round && -0x8000_0000 <= k.voteType <= 0x7FFF_FFFF
       && HasVote(rd, k.validator, k.voteType) && HasValidator(before.validators, k.validator)
    then Some(RowOf(height, round, rd, k.validator, k.voteType))
    else Find(KeyOfVote, before.votes, k)
  }

  /** Any member of the set may be picked as the proposer; none if there is none. */
  predicate PickedFrom(proposer: Option<string>, proposers: set<string>) {
    if proposers == {} then proposer.None? else proposer.Some? && proposer.value in proposers
  }

  /** The tables after a successful store that picked `p` as the proposer. */
  ghost predicate StoredWith(before: Tables, after: Tables, height: int64, round: int32, rd: Round,
                             refused: set<VoteKey>, p: Option<string>)
  {
    && after == before.(rounds := after.rounds, votes := after.votes)
    && HasHeight(before.heights, height)
    && PickedFrom(p, rd.proposers) && (p.Some? ==> HasValidator(before.validators, p.value))
    && after.rounds == Upsert(KeyOfRound, before.rounds, RoundRow(height, round, p))
    && (forall k :: Find(KeyOfVote, after.votes, k) == Expected(before, height, round, rd, refused, k))
    && (UniqueKeys(KeyOfVote, before.votes) ==> UniqueKeys(KeyOfVote, after.votes))
  }

  ghost predicate StoredRound(before: Tables, after: Tables, height: int64, round: int32, rd: Round,
                              refused: set<VoteKey>)
  {
    exists p :: StoredWith(before, after, height, round, rd, refused, p)
  }

  class Store {
    var tables: Tables

    constructor (tables: Tables)
      ensures this.tables == tables
    {
      this.tables := tables;
    }

    /** A failing round upsert rolls the transaction back; a failing vote upsert is logged and skipped. Apart
        from missing references the storage may refuse the round row, and the vote rows of the keys in
        `refused`. */
    method StoreRoundData(height: int64, round: int32, rd: Round, roundRefused: bool, refused: set<VoteKey>)
      returns (err: Option<Error>)
      modifies this
      ensures err.None? ==> StoredRound(old(tables), tables, height, round, rd, refused)
      ensures err.Some? ==> tables == old(tables)
      ensures err == Some(IOError) <==> roundRefused
      ensures err == Some(ForeignKeyError) ==>
                || !HasHeight(tables.heights, height)
                || exists p :: p in rd.proposers && !HasValidator(tables.validators, p)
      ensures !HasHeight(old(tables).heights, height) ==> err.Some?
    {
      if roundRefused {
        return Some(IOError);
      }
      var proposer: Option<string> := None;
      if rd.proposers != {} {
        var p :| p in rd.proposers;
        proposer := Some(p);
      }
      if !HasHeight(tables.heights, height) || (proposer.Some? && !HasValidator(tables.validators, proposer.value)) {
        return Some(ForeignKeyError);
      }
      ghost var before := tables;
      tables := tables.(rounds := Upsert(KeyOfRound, tables.rounds, RoundRow(height, round, proposer)));
      StoreVotes(height, round, rd, refused);
      err := None;
      assert StoredWith(before, tables, height, round, rd, refused, proposer);
    }

    /** The double loop over validators and vote types, in any order. */
    method StoreVotes(height: int64, round: int32, rd: Round, refused: set<VoteKey>)
      modifies this
      ensures tables == old(tables).(votes := tables.votes)
      ensures forall k :: Find(KeyOfVote, tables.votes, k) == Expected(old(tables), height, round, rd, refused, k)
      ensures UniqueKeys(KeyOfVote, old(tables).votes) ==> UniqueKeys(KeyOfVote, tables.votes)
    {
      ghost var before := tables;
      var todo := rd.votes.Keys;
      while todo != {}
        invariant todo <= rd.votes.Keys && tables == before.(votes := tables.votes)
        invariant UniqueKeys(KeyOfVote, before.votes) ==> UniqueKeys(KeyOfVote, tables.votes)
        invariant forall k :: Find(KeyOfVote, tables.votes, k) ==
                    if k.validator in todo then Find(KeyOfVote, before.votes, k)
                    else Expected(before, height, round, rd, refused, k)
        decreases todo
      {
        var validator :| validator in todo;
        StoreVotesOf(height, round, rd, validator, refused);
        todo := todo - {validator};
      }
    }

    method StoreVotesOf(height: int64, round: int32, rd: Round, validator: string, refused: set<VoteKey>)
      requires validator in rd.votes
      modifies this
      ensures tables == old(tables).(votes := tables.votes)
      ensures UniqueKeys(KeyOfVote, old(tables).votes) ==> UniqueKeys(KeyOfVote, tables.votes)
      ensures forall k :: Find(KeyOfVote, tables.votes, k) ==
                if k.validator == validator then Expected(old(tables), height, round, rd, refused, k)
                else Find(KeyOfVote, old(tables).votes, k)
    {
      ghost var before := tables;
      var voteMap := rd.votes[validator];
      var todo := voteMap.Keys;
      while todo != {}
        invariant todo <= voteMap.Keys && tables == before.(votes := tables.votes)
        invariant UniqueKeys(KeyOfVote, before.votes) ==> UniqueKeys(KeyOfVote, tables.votes)
        invariant forall k :: Find(KeyOfVote, tables.votes, k) ==
                    if k.validator == validator && k.voteType !in todo
                    then Expected(before, height, round, rd, refused, k)
                    else Find(KeyOfVote, before.votes, k)
        decreases todo
      {
        var voteType :| voteType in todo;
        todo := todo - {voteType};
        var row := VoteRow(height, round, validator, voteType, StoredHash(voteMap[voteType]));
        if HasValidator(tables.validators, validator) && KeyOfVote(row) !in refused {
          ghost var votes := tables.votes;
          tables := tables.(votes := Upsert(KeyOfVote, tables.votes, row));
          if UniqueKeys(KeyOfVote, votes) {
            UpsertUnique(KeyOfVote, votes, row);
          }
          forall k
            ensures Find(KeyOfVote, tables.votes, k)
                 == if k == KeyOfVote(row) then Some(row) else Find(KeyOfVote, votes, k)
          {
            FindUpsert(KeyOfVote, votes, row, k);
          }
        }
      }
    }
  }

  // ----- loading

  /** The votes of one stored round, in table order: under UNIQUE the order has no effect. */
  function VoteAdds(votes: seq<VoteRow>, height: int64, roundNumber: int64): seq<Add> {
    if votes == [] then []
    else
      var v := votes[|votes| - 1];
      VoteAdds(votes[..|votes| - 1], height, roundNumber)
      + if v.height == height && v.roundNumber == roundNumber
        then [Add.AddVote(height, ToInt32(roundNumber), v.validator, ToInt32(v.voteType), LoadedID(v.blockHash))]
        else []
  }

  function ProposerAdds(r: RoundRow): seq<Add> {
    if r.proposerAddress.None? then []
    else [Add.AddProposer(r.height, ToInt32(r.roundNumber), r.proposerAddress.value)]
  }

  /** The round is in the height range and the database can read its votes. */
  predicate IsLoaded(height: int64, roundNumber: int64, unreadable: set<RoundKey>, fromHeight: int64, toHeight: int64) {
    fromHeight <= height <= toHeight && RoundKey(height, roundNumber) !in unreadable
  }

  function LoadAdds(rounds: seq<RoundRow>, votes: seq<VoteRow>, unreadable: set<RoundKey>, fromHeight: int64,
                    toHeight: int64): seq<Add>
  {
    if rounds == [] then []
    else
      var r := rounds[|rounds| - 1];
      LoadAdds(rounds[..|rounds| - 1], votes, unreadable, fromHeight, toHeight)
      + if IsLoaded(r.height, r.roundNumber, unreadable, fromHeight, toHeight)
        then ProposerAdds(r) + VoteAdds(votes, r.height, r.roundNumber) else []
  }

  function Loads(t: Tables, unreadable: set<RoundKey>, fromHeight: int64, toHeight: int64): seq<Add> {
    LoadAdds(t.rounds, t.votes, unreadable, fromHeight, toHeight)
  }

  /** Rebuilds the vote log from the stored rounds of a height range. Without the list of rounds there is
      no log; a round whose votes cannot be read is logged and skipped, its proposer included. */
  method LoadRoundDataMap(t: Tables, fromHeight: int64, toHeight: int64, roundsFail: bool, unreadable: set<RoundKey>)
    returns (loaded: RoundDataMap?)
    ensures loaded == null <==> roundsFail
    ensures loaded != null ==>
              fresh(loaded) && loaded.Valid() && loaded.adds == Loads(t, unreadable, fromHeight, toHeight)
  {
    if roundsFail {
      return null;
    }
    var log := new RoundDataMap();
    for i := 0 to |t.rounds|
      invariant fresh(log) && log.Valid()
      invariant log.adds == LoadAdds(t.rounds[..i], t.votes, unreadable, fromHeight, toHeight)
    {
      assert t.rounds[..i + 1][..i] == t.rounds[..i];
      var r := t.rounds[i];
      if fromHeight <= r.height <= toHeight {
        if RoundKey(r.height, r.roundNumber) in unreadable {
          continue;
        }
        LoadRound(log, r, t.votes);
      }
    }
    assert t.rounds[..|t.rounds|] == t.rounds;
    loaded := log;
  }

  method LoadRound(loaded: RoundDataMap, r: RoundRow, votes: seq<VoteRow>)
    requires loaded.Valid()
    modifies loaded
    ensures loaded.Valid()
    ensures loaded.adds == old(loaded.adds) + (ProposerAdds(r) + VoteAdds(votes, r.height, r.roundNumber))
  {
    var roundNum := ToInt32(r.roundNumber);
    if r.proposerAddress.Some? {
      loaded.AddProposer(r.height, roundNum, r.proposerAddress.value);
    }
    ghost var base := loaded.adds;
    for i := 0 to |votes|
      invariant loaded.Valid() && loaded.adds == base + VoteAdds(votes[..i], r.height, r.roundNumber)
    {
      assert votes[..i + 1][..i] == votes[..i];
      var v := votes[i];
      if v.height == r.height && v.roundNumber == r.roundNumber {
        loaded.AddVote(r.height, roundNum, v.validator, ToInt32(v.voteType), LoadedID(v.blockHash));
      }
    }
    assert votes[..|votes|] == votes;
  }

  // ----- what a load finds

  lemma {:induction false} LastVoteAppend(a: seq<Add>, b: seq<Add>, h: int64, r: int32, v: string, t: int32)
    ensures LastVote(a + b, h, r, v, t)
            == if LastVote(b, h, r, v, t).Some? then LastVote(b, h, r, v, t) else LastVote(a, h, r, v, t)
    decreases |b|
  {
    if b == [] {
      assert a + b == a;
    } else {
      assert (a + b)[..|a + b| - 1] == a + b[..|b| - 1];
      LastVoteAppend(a, b[..|b| - 1], h, r, v, t);
    }
  }

  ghost predicate Int32Tables(rounds: seq<RoundRow>, votes: seq<VoteRow>) {
    && (forall i :: 0 <= i < |rounds| ==> FitsInt32(rounds[i].roundNumber))
    && (forall i :: 0 <= i < |votes| ==> FitsInt32(votes[i].voteType) && FitsInt32(votes[i].roundNumber))
  }

  /** The vote of a key, as loading its round sees it. */
  function FoundVote(votes: seq<VoteRow>, k: VoteKey): Option<BlockID> {
    var row := Find(KeyOfVote, votes, k);
    if row.Some? then Some(LoadedID(row.value.blockHash)) else None
  }

  lemma LastVoteStep(adds: seq<Add>, last: Add, h: int64, r: int32, v: string, t: int32)
    requires last.AddVote?
    ensures LastVote(adds + [last], h, r, v, t)
         == if last.height == h && last.round == r && last.validator == v && last.msgType == t then Some(last.blockID)
            else LastVote(adds, h, r, v, t)
  {
    assert (adds + [last])[..|adds|] == adds;
  }

  lemma {:induction false} VoteAddsFind(votes: seq<VoteRow>, height: int64, roundNumber: int64, h: int64, r: int32,
                                        v: string, t: int32)
    requires UniqueKeys(KeyOfVote, votes) && FitsInt32(roundNumber)
    requires forall i :: 0 <= i < |votes| ==> FitsInt32(votes[i].voteType)
    ensures LastVote(VoteAdds(votes, height, roundNumber), h, r, v, t)
         == if h == height && r == roundNumber then FoundVote(votes, VoteKey(h, r, v, t)) else None
    decreases |votes|
  {
    if votes != [] {
      var n := |votes| - 1;
      var x := votes[n];
      var before := VoteAdds(votes[..n], height, roundNumber);
      VoteAddsFind(votes[..n], height, roundNumber, h, r, v, t);
      FindLast(KeyOfVote, votes, VoteKey(h, r, v, t));
      if x.height == height && x.roundNumber == roundNumber {
        var last := Add.AddVote(height, ToInt32(roundNumber), x.validator, ToInt32(x.voteType), LoadedID(x.blockHash));
        assert VoteAdds(votes, height, roundNumber) == before + [last];
        LastVoteStep(before, last, h, r, v, t);
      } else {
        assert VoteAdds(votes, height, roundNumber) == before;
      }
    }
  }

  lemma RoundAddsFind(row: RoundRow, votes: seq<VoteRow>, h: int64, r: int32, v: string, t: int32)
    requires UniqueKeys(KeyOfVote, votes) && FitsInt32(row.roundNumber)
    requires forall i :: 0 <= i < |votes| ==> FitsInt32(votes[i].voteType)
    ensures LastVote(ProposerAdds(row) + VoteAdds(votes, row.height, row.roundNumber), h, r, v, t)
         == if h == row.height && r == row.roundNumber then FoundVote(votes, VoteKey(h, r, v, t)) else None
  {
    VoteAddsFind(votes, row.height, row.roundNumber, h, r, v, t);
    LastVoteAppend(ProposerAdds(row), VoteAdds(votes, row.height, row.roundNumber), h, r, v, t);
    if row.proposerAddress.Some? {
      assert ProposerAdds(row)[..0] == [];
    }
  }

  ghost predicate HasRound(rounds: seq<RoundRow>, h: int64, r: int64) {
    exists i :: 0 <= i < |rounds| && rounds[i].height == h && rounds[i].roundNumber == r
  }

  /** Every slot of a loaded map holds the vote row of its key, if its round is stored, readable and in range. */
  lemma LoadFinds(rounds: seq<RoundRow>, votes: seq<VoteRow>, unreadable: set<RoundKey>, fromHeight: int64,
                  toHeight: int64, h: int64, r: int32, v: string, t: int32)
    requires UniqueKeys(KeyOfVote, votes) && Int32Tables(rounds, votes)
    ensures LastVote(LoadAdds(rounds, votes, unreadable, fromHeight, toHeight), h, r, v, t)
         == if fromHeight <= h <= toHeight && RoundKey(h, r) !in unreadable && HasRound(rounds, h, r)
            then FoundVote(votes, VoteKey(h, r, v, t)) else None
  {
    LoadedFinds(rounds, votes, unreadable, fromHeight, toHeight, h, r, v, t);
  }

  lemma {:induction false} LoadedFinds(rounds: seq<RoundRow>, votes: seq<VoteRow>, unreadable: set<RoundKey>,
                                       fromHeight: int64, toHeight: int64, h: int64, r: int32, v: string, t: int32)
    requires UniqueKeys(KeyOfVote, votes) && Int32Tables(rounds, votes)
    ensures LastVote(LoadAdds(rounds, votes, unreadable, fromHeight, toHeight), h, r, v, t)
         == if IsLoaded(h, r, unreadable, fromHeight, toHeight) && HasRound(rounds, h, r)
            then FoundVote(votes, VoteKey(h, r, v, t)) else None
    decreases |rounds|
  {
    if rounds != [] {
      var n := |rounds| - 1;
      var row := rounds[n];
      var before := LoadAdds(rounds[..n], votes, unreadable, fromHeight, toHeight);
      LoadedFinds(rounds[..n], votes, unreadable, fromHeight, toHeight, h, r, v, t);
      HasRoundStep(rounds, h, r);
      if IsLoaded(row.height, row.roundNumber, unreadable, fromHeight, toHeight) {
        RoundAddsFind(row, votes, h, r, v, t);
        LastVoteAppend(before, ProposerAdds(row) + VoteAdds(votes, row.height, row.roundNumber), h, r, v, t);
      } else {
        assert LoadAdds(rounds, votes, unreadable, fromHeight, toHeight) == before;
      }
    }
  }

  lemma HasRoundStep(rounds: seq<RoundRow>, h: int64, r: int64)
    requires rounds != []
    ensures var n := |rounds| - 1;
            HasRound(rounds, h, r)
            <==> HasRound(rounds[..n], h, r) || (rounds[n].height == h && rounds[n].roundNumber == r)
  {
    var n := |rounds| - 1;
    if HasRound(rounds[..n], h, r) {
      var i :| 0 <= i < n && rounds[..n][i].height == h && rounds[..n][i].roundNumber == r;
      assert rounds[i].height == h && rounds[i].roundNumber == r;
    }
    if HasRound(rounds, h, r) && !(rounds[n].height == h && rounds[n].roundNumber == r) {
      var i :| 0 <= i < |rounds| && rounds[i].height == h && rounds[i].roundNumber == r;
      assert rounds[..n][i] == rounds[i];
    }
  }

  // ----- the round trip

  ghost predicate GoodTables(t: Tables) {
    UniqueKeys(KeyOfVote, t.votes) && UniqueKeys(KeyOfRound, t.rounds) && Int32Tables(t.rounds, t.votes)
  }

  lemma GoodTablesKept(before: Tables, after: Tables, height: int64, round: int32, rd: Round, refused: set<VoteKey>)
    requires StoredRound(before, after, height, round, rd, refused) && GoodTables(before)
    ensures GoodTables(after)
  {
    var p :| StoredWith(before, after, height, round, rd, refused, p);
    VotesFit(before, after, height, round, rd, refused, p);
    UpsertUnique(KeyOfRound, before.rounds, RoundRow(height, round, p));
    UpsertMembers(KeyOfRound, before.rounds, RoundRow(height, round, p));
    assert forall i :: 0 <= i < |after.rounds| ==> after.rounds[i] in after.rounds;
  }

  lemma VotesFit(before: Tables, after: Tables, height: int64, round: int32, rd: Round, refused: set<VoteKey>,
                 p: Option<string>)
    requires StoredWith(before, after, height, round, rd, refused, p) && GoodTables(before)
    ensures forall i :: 0 <= i < |after.votes| ==>
              FitsInt32(after.votes[i].voteType) && FitsInt32(after.votes[i].roundNumber)
  {
    forall i | 0 <= i < |after.votes|
      ensures FitsInt32(after.votes[i].voteType) && FitsInt32(after.votes[i].roundNumber)
    {
      var x := after.votes[i];
      MemberFind(KeyOfVote, after.votes, x);
      assert Find(KeyOfVote, after.votes, KeyOfVote(x)) == Expected(before, height, round, rd, refused, KeyOfVote(x));
      FindMember(KeyOfVote, before.votes, KeyOfVote(x));
    }
  }

  lemma StoredRoundIsThere(before: Tables, after: Tables, height: int64, round: int32, rd: Round, refused: set<VoteKey>)
    requires StoredRound(before, after, height, round, rd, refused)
    ensures HasRound(after.rounds, height, round)
  {
    var p :| StoredWith(before, after, height, round, rd, refused, p);
    UpsertMembers(KeyOfRound, before.rounds, RoundRow(height, round, p));
    var i :| 0 <= i < |after.rounds| && after.rounds[i] == RoundRow(height, round, p);
  }

  /** Storing a round and loading it back gives every accepted vote of a known validator its hash again, and its
      state exactly when the vote is nil or carries a hash. */
  lemma RoundTrip(before: Tables, after: Tables, height: int64, round: int32, rd: Round, refused: set<VoteKey>,
                  unreadable: set<RoundKey>, fromHeight: int64, toHeight: int64, v: string, t: int32)
    requires StoredRound(before, after, height, round, rd, refused) && GoodTables(before)
    requires fromHeight <= height <= toHeight && RoundKey(height, round) !in unreadable
    requires HasVote(rd, v, t) && HasValidator(before.validators, v) && VoteKey(height, round, v, t) !in refused
    ensures var adds, id := Loads(after, unreadable, fromHeight, toHeight), rd.votes[v][t];
            var loaded := LastVote(adds, height, round, v, t);
            && loaded.Some? && loaded.value.hash == id.hash
            && (Classify(loaded) == Classify(Some(id)) <==> id == BlockID([], 0, []) || id.hash != [])
  {
    GoodTablesKept(before, after, height, round, rd, refused);
    StoredRoundIsThere(before, after, height, round, rd, refused);
    LoadFinds(after.rounds, after.votes, unreadable, fromHeight, toHeight, height, round, v, t);
    var p :| StoredWith(before, after, height, round, rd, refused, p);
    assert Find(KeyOfVote, after.votes, VoteKey(height, round, v, t))
           == Expected(before, height, round, rd, refused, VoteKey(height, round, v, t));
    LoadStored(rd.votes[v][t]);
  }

  /** A validator without a vote in the round, and without an earlier row, has no vote after loading. */
  lemma NothingInvented(before: Tables, after: Tables, height: int64, round: int32, rd: Round, refused: set<VoteKey>,
                        unreadable: set<RoundKey>, fromHeight: int64, toHeight: int64, v: string, t: int32)
    requires StoredRound(before, after, height, round, rd, refused) && GoodTables(before)
    requires !HasVote(rd, v, t) && Find(KeyOfVote, before.votes, VoteKey(height, round, v, t)).None?
    ensures LastVote(Loads(after, unreadable, fromHeight, toHeight), height, round, v, t) == None
  {
    GoodTablesKept(before, after, height, round, rd, refused);
    LoadFinds(after.rounds, after.votes, unreadable, fromHeight, toHeight, height, round, v, t);
    var p :| StoredWith(before, after, height, round, rd, refused, p);
    assert Find(KeyOfVote, after.votes, VoteKey(height, round, v, t))
           == Expected(before, height, round, rd, refused, VoteKey(height, round, v, t));
  }

  /** The row of an accepted vote: a nil vote leaves NULL, any other the hex form of its hash. */
  lemma StoredVoteIs(before: Tables, after: Tables, height: int64, round: int32, rd: Round, refused: set<VoteKey>,
                     v: string, t: int32)
    requires StoredRound(before, after, height, round, rd, refused)
    requires HasVote(rd, v, t) && HasValidator(before.validators, v) && VoteKey(height, round, v, t) !in refused
    ensures var id := rd.votes[v][t];
            Find(KeyOfVote, after.votes, VoteKey(height, round, v, t)) ==
              Some(VoteRow(height, round, v, t, if id == BlockID([], 0, []) then None else Some(Hex(id.hash))))
  {
    var p :| StoredWith(before, after, height, round, rd, refused, p);
    var k := VoteKey(height, round, v, t);
    assert Find(KeyOfVote, after.votes, k) == Expected(before, height, round, rd, refused, k);
  }

  /** Rows of other rounds and of unknown validators or refused keys stay as they were. */
  lemma OtherRowsStay(before: Tables, after: Tables, height: int64, round: int32, rd: Round, refused: set<VoteKey>,
                      k: VoteKey)
    requires StoredRound(before, after, height, round, rd, refused)
    requires k.height != height || k.roundNumber != round || k in refused ||
             !HasValidator(before.validators, k.validator)
    ensures Find(KeyOfVote, after.votes, k) == Find(KeyOfVote, before.votes, k)
  {
    var p :| StoredWith(before, after, height, round, rd, refused, p);
    assert Find(KeyOfVote, after.votes, k) == Expected(before, height, round, rd, refused, k);
  }

  // ----- storing a round again

  /** Storing a later version of a round over an earlier one leaves, for the round row and for every vote
      the storage accepts, what storing the later version alone (with its pick `q` of the proposer) would
      leave; where it refuses a vote, the earlier version stays. */
  lemma LaterVersionWins(t0: Tables, t1: Tables, t2: Tables, height: int64, round: int32, earlier: Round, later: Round,
                         refused: set<VoteKey>, refusedLater: set<VoteKey>, p: Option<string>, q: Option<string>)
    requires StoredWith(t0, t1, height, round, earlier, refused, p)
    requires StoredWith(t1, t2, height, round, later, refusedLater, q)
    requires forall v, t :: HasVote(earlier, v, t) ==> HasVote(later, v, t)
    ensures forall k :: Find(KeyOfVote, t2.votes, k) ==
              if k in refusedLater then Find(KeyOfVote, t1.votes, k) else Expected(t0, height, round, later, {}, k)
    ensures t2.rounds == Upsert(KeyOfRound, t0.rounds, RoundRow(height, round, q))
  {
    forall k ensures Find(KeyOfVote, t2.votes, k) ==
      if k in refusedLater then Find(KeyOfVote, t1.votes, k) else Expected(t0, height, round, later, {}, k)
    {
      assert Find(KeyOfVote, t2.votes, k) == Expected(t1, height, round, later, refusedLater, k);
      assert Find(KeyOfVote, t1.votes, k) == Expected(t0, height, round, earlier, refused, k);
    }
    UpsertTwice(KeyOfRound, t0.rounds, RoundRow(height, round, p), RoundRow(height, round, q));
  }

  /** Storing the same version again changes no vote but those refused at first, and changes the rounds if
      and only if another proposer is picked; with at most one proposer it never is. */
  lemma SecondStoreIff(t0: Tables, t1: Tables, t2: Tables, height: int64, round: int32, rd: Round,
                       refused: set<VoteKey>, refusedAgain: set<VoteKey>, p: Option<string>, q: Option<string>)
    requires StoredWith(t0, t1, height, round, rd, refused, p)
    requires StoredWith(t1, t2, height, round, rd, refusedAgain, q)
    ensures forall k :: k !in refused || k in refusedAgain ==>
              Find(KeyOfVote, t2.votes, k) == Find(KeyOfVote, t1.votes, k)
    ensures t2.rounds == t1.rounds <==> p == q
    ensures |rd.proposers| <= 1 ==> p == q
  {
    LaterVersionWins(t0, t1, t2, height, round, rd, rd, refused, refusedAgain, p, q);
    assert forall k :: Find(KeyOfVote, t1.votes, k) == Expected(t0, height, round, rd, refused, k);
    FindUpsert(KeyOfRound, t0.rounds, RoundRow(height, round, p), RoundKey(height, round));
    FindUpsert(KeyOfRound, t0.rounds, RoundRow(height, round, q), RoundKey(height, round));
    if p != q {
      assert {p.value, q.value} <= rd.proposers;
      SubsetSize({p.value, q.value}, rd.proposers);
    }
  }

  // ----- the proposer

  function ProposerAt(row: Option<RoundRow>): set<string> {
    if row.Some? && row.value.proposerAddress.Some? then {row.value.proposerAddress.value} else {}
  }

  lemma ProposersAppend(a: seq<Add>, b: seq<Add>, h: int64, r: int32)
    ensures ProposersOf(a + b, h, r) == ProposersOf(a, h, r) + ProposersOf(b, h, r)
  {
    var c := a + b;
    forall x | x in ProposersOf(b, h, r) ensures x in ProposersOf(c, h, r) {
      var i :| 0 <= i < |b| && b[i].AddProposer? && b[i].height == h && b[i].round == r && b[i].proposer == x;
      assert c[|a| + i] == b[i];
    }
    forall x | x in ProposersOf(a, h, r) ensures x in ProposersOf(c, h, r) {
      var i :| 0 <= i < |a| && a[i].AddProposer? && a[i].height == h && a[i].round == r && a[i].proposer == x;
      assert c[i] == a[i];
    }
  }

  lemma {:induction false} VotesProposeNothing(votes: seq<VoteRow>, height: int64, roundNumber: int64, h: int64,
                                               r: int32)
    ensures ProposersOf(VoteAdds(votes, height, roundNumber), h, r) == {}
    decreases |votes|
  {
    if votes != [] {
      VotesProposeNothing(votes[..|votes| - 1], height, roundNumber, h, r);
    }
  }

  lemma RoundProposes(row: RoundRow, votes: seq<VoteRow>, h: int64, r: int32)
    requires FitsInt32(row.roundNumber)
    ensures ProposersOf(ProposerAdds(row) + VoteAdds(votes, row.height, row.roundNumber), h, r)
         == if KeyOfRound(row) == RoundKey(h, r) then ProposerAt(Some(row)) else {}
  {
    ProposersAppend(ProposerAdds(row), VoteAdds(votes, row.height, row.roundNumber), h, r);
    VotesProposeNothing(votes, row.height, row.roundNumber, h, r);
    if row.proposerAddress.Some? {
      assert ProposerAdds(row)[0] == Add.AddProposer(row.height, ToInt32(row.roundNumber), row.proposerAddress.value);
    }
  }

  lemma {:induction false} LoadProposers(rounds: seq<RoundRow>, votes: seq<VoteRow>, unreadable: set<RoundKey>,
                                         fromHeight: int64, toHeight: int64, h: int64, r: int32)
    requires UniqueKeys(KeyOfRound, rounds) && forall i :: 0 <= i < |rounds| ==> FitsInt32(rounds[i].roundNumber)
    ensures ProposersOf(LoadAdds(rounds, votes, unreadable, fromHeight, toHeight), h, r)
         == if fromHeight <= h <= toHeight && RoundKey(h, r) !in unreadable
            then ProposerAt(Find(KeyOfRound, rounds, RoundKey(h, r))) else {}
    decreases |rounds|
  {
    if rounds != [] {
      var n, key := |rounds| - 1, KeyOfRound;
      var row, before := rounds[n], LoadAdds(rounds[..n], votes, unreadable, fromHeight, toHeight);
      LoadProposers(rounds[..n], votes, unreadable, fromHeight, toHeight, h, r);
      FindLast(KeyOfRound, rounds, RoundKey(h, r));
      KeyIsNew(rounds);
      assert key(row) == RoundKey(row.height, row.roundNumber);
      if IsLoaded(row.height, row.roundNumber, unreadable, fromHeight, toHeight) {
        RoundProposes(row, votes, h, r);
        ProposersAppend(before, ProposerAdds(row) + VoteAdds(votes, row.height, row.roundNumber), h, r);
      } else {
        assert LoadAdds(rounds, votes, unreadable, fromHeight, toHeight) == before;
      }
    }
  }

  lemma KeyIsNew(rounds: seq<RoundRow>)
    requires rounds != [] && UniqueKeys(KeyOfRound, rounds)
    ensures var n := |rounds| - 1; Find(KeyOfRound, rounds[..n], KeyOfRound(rounds[n])).None?
  {
    var n, key := |rounds| - 1, KeyOfRound;
    forall i | 0 <= i < n ensures key(rounds[..n][i]) != key(rounds[n]) {
      assert key(rounds[i]) != key(rounds[n]);
    }
    NotFound(KeyOfRound, rounds[..n], KeyOfRound(rounds[n]));
  }

  /** Storing a round and loading it back gives exactly the proposer the store picked: a member of the
      stored set, and none if and only if the set is empty. */
  lemma ProposerRoundTrip(before: Tables, after: Tables, height: int64, round: int32, rd: Round, refused: set<VoteKey>,
                          p: Option<string>, unreadable: set<RoundKey>, fromHeight: int64, toHeight: int64)
    requires StoredWith(before, after, height, round, rd, refused, p) && GoodTables(before)
    requires fromHeight <= height <= toHeight && RoundKey(height, round) !in unreadable
    ensures var loaded := ProposersOf(Loads(after, unreadable, fromHeight, toHeight), height, round);
            && loaded == (if p.Some? then {p.value} else {})
            && loaded <= rd.proposers && (loaded == {} <==> rd.proposers == {})
  {
    GoodTablesKept(before, after, height, round, rd, refused);
    LoadProposers(after.rounds, after.votes, unreadable, fromHeight, toHeight, height, round);
    UpsertMembers(KeyOfRound, before.rounds, RoundRow(height, round, p));
    MemberFind(KeyOfRound, after.rounds, RoundRow(height, round, p));
  }

  /** Storing never writes a dangling reference. */
  lemma StoreKeepsForeignKeys(before: Tables, after: Tables, height: int64, round: int32, rd: Round,
                              refused: set<VoteKey>)
    requires StoredRound(before, after, height, round, rd, refused) && ForeignKeys(before)
    requires UniqueKeys(KeyOfVote, before.votes)
    ensures ForeignKeys(after)
  {
    var p :| StoredWith(before, after, height, round, rd, refused, p);
    RoundsKeepForeignKeys(before, after, height, round, rd, refused, p);
    forall i | 0 <= i < |after.votes|
      ensures HasHeight(after.heights, HeightOfVote(after.votes[i])) &&
              HasValidator(after.validators, after.votes[i].validator)
    {
      var x := after.votes[i];
      MemberFind(KeyOfVote, after.votes, x);
      assert Find(KeyOfVote, after.votes, KeyOfVote(x)) == Expected(before, height, round, rd, refused, KeyOfVote(x));
      FindMember(KeyOfVote, before.votes, KeyOfVote(x));
      if x in before.votes {
        var j :| 0 <= j < |before.votes| && before.votes[j] == x;
        var heightOf, voter := HeightOfVote, VoterOf;
        assert HasHeight(before.heights, heightOf(before.votes[j])) &&
               HasValidator(before.validators, voter(before.votes[j]).value);
      }
    }
    var heightOf, voter := HeightOfVote, VoterOf;
    assert forall i :: 0 <= i < |after.votes| ==> heightOf(after.votes[i]) == after.votes[i].height;
    assert forall i :: 0 <= i < |after.votes| ==> voter(after.votes[i]) == Some(after.votes[i].validator);
  }

  lemma RoundsKeepForeignKeys(before: Tables, after: Tables, height: int64, round: int32, rd: Round,
                              refused: set<VoteKey>, p: Option<string>)
    requires StoredWith(before, after, height, round, rd, refused, p) && ForeignKeys(before)
    ensures HeightsExist(HeightOfRound, after.rounds, after.heights) &&
            ValidatorsExist(ProposerOfRound, after.rounds, after.validators)
  {
    var row := RoundRow(height, round, p);
    var heightOf, proposer := HeightOfRound, ProposerOfRound;
    UpsertMembers(KeyOfRound, before.rounds, row);
    forall i | 0 <= i < |after.rounds|
      ensures HasHeight(after.heights, heightOf(after.rounds[i]))
      ensures proposer(after.rounds[i]).Some? ==> HasValidator(after.validators, proposer(after.rounds[i]).value)
    {
      var x := after.rounds[i];
      assert x in after.rounds;
      if x != row {
        var j :| 0 <= j < |before.rounds| && before.rounds[j] == x;
        assert HasHeight(before.heights, heightOf(before.rounds[j]));
      }
    }
  }
}
