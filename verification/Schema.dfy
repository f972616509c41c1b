/** The tables of the database, as sequences of rows, and the constraints the schema declares. */
module Schema {
  import opened Int64
  import opened Text
  import opened Upserts

  datatype ValidatorRow = ValidatorRow(hexAddress: string, votingPower: int64)

  /** `blockTime` and `createdAt` are instants; a NULL block time is None. */
  datatype HeightRow = HeightRow(height: int64, blockTime: Option<int>, proposerAddress: Option<string>, createdAt: int)

  datatype RoundRow = RoundRow(height: int64, roundNumber: int64, proposerAddress: Option<string>)

  datatype VoteRow = VoteRow(height: int64, roundNumber: int64, validator: string, voteType: int64,
                             blockHash: Option<string>)

  datatype EventRow = EventRow(height: int64, roundNumber: int64, eventType: string)

  datatype SnapshotRow = SnapshotRow(height: int64, validator: string, votingPower: int64)

  ghost predicate UniqueHeights(hs: seq<HeightRow>) {
    forall i, j :: 0 <= i < j < |hs| ==> hs[i].height != hs[j].height
  }

  // UNIQUE(height, validator_hex_address) on snapshots is UniqueKeys(KeyOfSnapshot, ...)
  datatype SnapshotKey = SnapshotKey(height: int64, validator: string)

  function KeyOfSnapshot(s: SnapshotRow): SnapshotKey { SnapshotKey(s.height, s.validator) }

  function HeightsOf(hs: seq<HeightRow>): set<int> {
    set i | 0 <= i < |hs| :: hs[i].height
  }

  /** Under the primary key there are as many rows as heights. */
  lemma {:induction false} HeightsCount(hs: seq<HeightRow>)
    requires UniqueHeights(hs)
    ensures |HeightsOf(hs)| == |hs|
  {
    if hs == [] {
      assert HeightsOf(hs) == {};
    } else {
      HeightsCount(hs[1..]);
      HeightsCons(hs);
    }
  }

  lemma HeightsCons(hs: seq<HeightRow>)
    requires UniqueHeights(hs) && hs != []
    ensures HeightsOf(hs) == {hs[0].height} + HeightsOf(hs[1..]) && hs[0].height !in HeightsOf(hs[1..])
  {
    assert forall i :: 0 <= i < |hs| - 1 ==> hs[1..][i] == hs[i + 1];
    forall h | h in HeightsOf(hs) ensures h == hs[0].height || h in HeightsOf(hs[1..]) {
      var i :| 0 <= i < |hs| && hs[i].height == h;
      if i > 0 {
        assert hs[1..][i - 1].height == h;
      }
    }
}
}
