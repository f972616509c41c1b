/** Retention: the cutoff height, and the five deletes in the order the foreign keys demand. */
module Retention {
  import opened Int64
  import opened Text
  import opened Schema
  import opened FiniteSets

  datatype Tables = Tables(
    validators: seq<ValidatorRow>, heights: seq<HeightRow>, rounds: seq<RoundRow>,
    votes: seq<VoteRow>, snapshots: seq<SnapshotRow>, events: seq<EventRow>)

  // ----- foreign keys

  predicate HasHeight(hs: seq<HeightRow>, h: int) {
    exists i :: 0 <= i < |hs| && hs[i].height == h
  }

  predicate HasValidator(vs: seq<ValidatorRow>, a: string) {
    exists i :: 0 <= i < |vs| && vs[i].hexAddress == a
  }

  function HeightOfHeight(r: HeightRow): int { r.height }
  function HeightOfRound(r: RoundRow): int { r.height }
  function HeightOfVote(r: VoteRow): int { r.height }
  function HeightOfSnapshot(r: SnapshotRow): int { r.height }
  function HeightOfEvent(r: EventRow): int { r.height }

  function ProposerOfHeight(r: HeightRow): Option<string> { r.proposerAddress }
  function ProposerOfRound(r: RoundRow): Option<string> { r.proposerAddress }
  function VoterOf(r: VoteRow): Option<string> { Some(r.validator) }
  function ValidatorOf(r: SnapshotRow): Option<string> { Some(r.validator) }

  /** FOREIGN KEY (height) REFERENCES heights(height) */
  ghost predicate HeightsExist<T>(height: T -> int, rows: seq<T>, hs: seq<HeightRow>) {
    forall i :: 0 <= i < |rows| ==> HasHeight(hs, height(rows[i]))
  }

  /** FOREIGN KEY (...) REFERENCES validators(hex_address); a NULL reference is always valid. */
  ghost predicate ValidatorsExist<T>(ref: T -> Option<string>, rows: seq<T>, vs: seq<ValidatorRow>) {
    forall i :: 0 <= i < |rows| && ref(rows[i]).Some? ==> HasValidator(vs, ref(rows[i]).value)
  }

  ghost predicate ForeignKeys(t: Tables) {
    && ValidatorsExist(ProposerOfHeight, t.heights, t.validators)
    && HeightsExist(HeightOfRound, t.rounds, t.heights) && ValidatorsExist(ProposerOfRound, t.rounds, t.validators)
    && HeightsExist(HeightOfVote, t.votes, t.heights) && ValidatorsExist(VoterOf, t.votes, t.validators)
    && HeightsExist(HeightOfSnapshot, t.snapshots, t.heights) && ValidatorsExist(ValidatorOf, t.snapshots, t.validators)
    && HeightsExist(HeightOfEvent, t.events, t.heights)
  }

  // ----- the deletes

  /** DELETE ... WHERE height < cutoff, on any table whose rows have a height. */
  function Keep<T>(height: T -> int, rows: seq<T>, cutoff: int): seq<T> {
    if rows == [] then []
    else (if height(rows[0]) >= cutoff then [rows[0]] else []) + Keep(height, rows[1..], cutoff)
  }

  /** The tables after the first `n` of the five deletes. */
  function Stage(t: Tables, cutoff: int, n: nat): Tables {
    t.(events := if n >= 1 then Keep(HeightOfEvent, t.events, cutoff) else t.events,
       votes := if n >= 2 then Keep(HeightOfVote, t.votes, cutoff) else t.votes,
       snapshots := if n >= 3 then Keep(HeightOfSnapshot, t.snapshots, cutoff) else t.snapshots,
       rounds := if n >= 4 then Keep(HeightOfRound, t.rounds, cutoff) else t.rounds,
       heights := if n >= 5 then Keep(HeightOfHeight, t.heights, cutoff) else t.heights)
  }

  datatype Error = IOError | ForeignKeyError

  datatype Config = Config(maxRetainDays: int, maxRetainBlocks: int64)

  predicate AllAbove<T>(height: T -> int, rows: seq<T>, cutoff: int) {
    forall i :: 0 <= i < |rows| ==> height(rows[i]) >= cutoff
  }

  /** No child row refers to a height below the cutoff. */
  predicate NoChildBelow(t: Tables, cutoff: int) {
    && AllAbove(HeightOfRound, t.rounds, cutoff) && AllAbove(HeightOfVote, t.votes, cutoff)
    && AllAbove(HeightOfSnapshot, t.snapshots, cutoff) && AllAbove(HeightOfEvent, t.events, cutoff)
  }

  class Database {
    var tables: Tables

    constructor (tables: Tables)
      ensures this.tables == tables
    {
      this.tables := tables;
    }

    /** Each delete either fails and changes nothing, or removes every row below the cutoff. */
    method DeleteConsensusEventsOlderThan(cutoff: int64, ioFails: bool) returns (err: Option<Error>)
      modifies this
      ensures err == (if ioFails then Some(IOError) else None)
      ensures tables == if err.Some? then old(tables)
                        else old(tables).(events := Keep(HeightOfEvent, old(tables).events, cutoff))
    {
      if ioFails { return Some(IOError); }
      tables := tables.(events := Keep(HeightOfEvent, tables.events, cutoff));
      err := None;
    }

    method DeleteVotesOlderThan(cutoff: int64, ioFails: bool) returns (err: Option<Error>)
      modifies this
      ensures err == (if ioFails then Some(IOError) else None)
      ensures tables == if err.Some? then old(tables)
                        else old(tables).(votes := Keep(HeightOfVote, old(tables).votes, cutoff))
    {
      if ioFails { return Some(IOError); }
      tables := tables.(votes := Keep(HeightOfVote, tables.votes, cutoff));
      err := None;
    }

    method DeleteValidatorSnapshotsOlderThan(cutoff: int64, ioFails: bool) returns (err: Option<Error>)
      modifies this
      ensures err == (if ioFails then Some(IOError) else None)
      ensures tables == if err.Some? then old(tables)
                        else old(tables).(snapshots := Keep(HeightOfSnapshot, old(tables).snapshots, cutoff))
    {
      if ioFails { return Some(IOError); }
      tables := tables.(snapshots := Keep(HeightOfSnapshot, tables.snapshots, cutoff));
      err := None;
    }

    method DeleteRoundsOlderThan(cutoff: int64, ioFails: bool) returns (err: Option<Error>)
      modifies this
      ensures err == (if ioFails then Some(IOError) else None)
      ensures tables == if err.Some? then old(tables)
                        else old(tables).(rounds := Keep(HeightOfRound, old(tables).rounds, cutoff))
    {
      if ioFails { return Some(IOError); }
      tables := tables.(rounds := Keep(HeightOfRound, tables.rounds, cutoff));
      err := None;
    }

    /** The only delete on a referenced table: the engine refuses it while a child row needs a height. */
    method DeleteHeightsOlderThan(cutoff: int64, ioFails: bool) returns (err: Option<Error>)
      modifies this
      ensures err == (if ioFails then Some(IOError) else if NoChildBelow(old(tables), cutoff) then None
                      else Some(ForeignKeyError))
      ensures tables == if err.Some? then old(tables)
                        else old(tables).(heights := Keep(HeightOfHeight, old(tables).heights, cutoff))
    {
      if ioFails { return Some(IOError); }
      if !NoChildBelow(tables, cutoff) { return Some(ForeignKeyError); }
      tables := tables.(heights := Keep(HeightOfHeight, tables.heights, cutoff));
      err := None;
    }

    /** The five deletes in order, up to the first that the storage fails. */
    method RunDeletes(cutoff: int64, faults: set<nat>) returns (err: Option<Error>, ghost done: nat)
      modifies this
      ensures done <= 5 && tables == Stage(old(tables), cutoff, done)
      ensures err == (if done == 5 then None else Some(IOError))
      ensures done < 5 ==> done + 1 in faults
      ensures forall k :: 1 <= k <= done ==> k !in faults
    {
      ghost var before := tables;
      done := 0;
      err := DeleteConsensusEventsOlderThan(cutoff, 1 in faults);
      if err.Some? { return; }
      done := 1;
      assert tables == Stage(before, cutoff, 1);
      err := DeleteVotesOlderThan(cutoff, 2 in faults);
      if err.Some? { return; }
      done := 2;
      assert tables == Stage(before, cutoff, 2);
      err := DeleteValidatorSnapshotsOlderThan(cutoff, 3 in faults);
      if err.Some? { return; }
      done := 3;
      assert tables == Stage(before, cutoff, 3);
      err := DeleteRoundsOlderThan(cutoff, 4 in faults);
      if err.Some? { return; }
      done := 4;
      assert tables == Stage(before, cutoff, 4);
      NoChildLeft(before, cutoff);
      err := DeleteHeightsOlderThan(cutoff, 5 in faults);
      if err.Some? { return; }
      done := 5;
    }

    /** `faults` are the deletes (1 to 5) that the storage fails; `cutoffTime` is the clock reading minus
        the retention days. Wherever it stops, the tables are one of the stages and no foreign key
        dangles; the deletes never run into a foreign key error. */
    method CleanupOldData(config: Config, cutoffTime: int, faults: set<nat>)
      returns (err: Option<Error>, ghost done: nat)
      requires ForeignKeys(tables)
      modifies this
      ensures done <= 5 && ForeignKeys(tables)
      ensures err != Some(ForeignKeyError)
      ensures var cutoff := CutoffOf(old(tables).heights, config, cutoffTime);
              && tables == Stage(old(tables), cutoff, done)
              && (cutoff <= 0 ==> err == None && done == 0)
              && (cutoff > 0 ==>
                    err == (if done == 5 then None else Some(IOError)) && (done < 5 ==> done + 1 in faults))
    {
      var cutoffHeight := ComputeCutoffHeight(tables.heights, config, cutoffTime);
      if cutoffHeight <= 0 {
        return None, 0;
      }
      err, done := RunDeletes(cutoffHeight, faults);
      StageKeepsForeignKeys(old(tables), cutoffHeight, done);
    }
  }

  // ----- the cutoff

  /** ORDER BY height DESC LIMIT 1 */
  function LatestHeight(hs: seq<HeightRow>): Option<int64> {
    if hs == [] then None
    else
      var r := LatestHeight(hs[1..]);
      if r.Some? && r.value > hs[0].height then r else Some(hs[0].height)
  }

  /** MIN(height) ... WHERE created_at >= cutoffTime */
  function MinHeightAfter(hs: seq<HeightRow>, cutoffTime: int): Option<int64> {
    if hs == [] then None
    else
      var r := MinHeightAfter(hs[1..], cutoffTime);
      if hs[0].createdAt >= cutoffTime && (r.None? || hs[0].height < r.value) then Some(hs[0].height) else r
  }

  function BlockCutoff(hs: seq<HeightRow>, config: Config): int64
    requires hs != []
  {
    Wrap64(LatestHeight(hs).value - config.maxRetainBlocks)
  }

  function DayCutoff(hs: seq<HeightRow>, config: Config, cutoffTime: int): Option<int64> {
    var h := MinHeightAfter(hs, cutoffTime);
    if config.maxRetainDays > 0 && h.Some? && h.value > 0 then Some(h.value - 1) else None
  }

  function CutoffOf(hs: seq<HeightRow>, config: Config, cutoffTime: int): int64 {
    var day := DayCutoff(hs, config, cutoffTime);
    if config.maxRetainBlocks > 0 then
      if hs == [] then 0
      else if day.Some? && day.value > BlockCutoff(hs, config) then day.value else BlockCutoff(hs, config)
    else if day.Some? then day.value else 0
  }

  method ComputeCutoffHeight(hs: seq<HeightRow>, config: Config, cutoffTime: int) returns (cutoff: int64)
    ensures cutoff == CutoffOf(hs, config, cutoffTime)
  {
    var cutoffs: seq<int64> := [];
    if config.maxRetainBlocks > 0 {
      var latest := LatestHeight(hs);
      if latest.None? {
        return 0;
      }
      cutoffs := cutoffs + [Wrap64(latest.value - config.maxRetainBlocks)];
    }
    if config.maxRetainDays > 0 {
      var raw := MinHeightAfter(hs, cutoffTime);
      if raw.Some? && raw.value > 0 {
        cutoffs := cutoffs + [raw.value - 1];
      }
    }
    if |cutoffs| == 0 {
      return 0;
    }
    cutoff := cutoffs[0];
    for i := 1 to |cutoffs|
      invariant cutoff in cutoffs[..i] && forall j :: 0 <= j < i ==> cutoffs[j] <= cutoff
    {
      if cutoffs[i] > cutoff {
        cutoff := cutoffs[i];
      }
    }
    assert |cutoffs| == 2 ==> cutoff == cutoffs[0] || cutoff == cutoffs[1];
  }

  /** Without a limit, or without a height, there is no cutoff; a limit of blocks alone counts down from the
      latest height. */
  lemma CutoffIs(hs: seq<HeightRow>, config: Config, cutoffTime: int)
    ensures hs == [] || (config.maxRetainBlocks <= 0 && config.maxRetainDays <= 0) ==>
              CutoffOf(hs, config, cutoffTime) == 0
    ensures hs != [] && config.maxRetainBlocks > 0 && config.maxRetainDays <= 0 ==>
              exists i :: && 0 <= i < |hs| && (forall j :: 0 <= j < |hs| ==> hs[j].height <= hs[i].height)
                          && CutoffOf(hs, config, cutoffTime) == Wrap64(hs[i].height - config.maxRetainBlocks)
  {
    if hs != [] {
      LatestIsGreatest(hs);
      var i :| 0 <= i < |hs| && hs[i].height == LatestHeight(hs).value;
    }
  }

  // ----- what a delete keeps

  lemma {:induction false} KeepMembers<T(!new)>(height: T -> int, rows: seq<T>, cutoff: int)
    ensures forall r :: r in Keep(height, rows, cutoff) <==> r in rows && height(r) >= cutoff
  {
    if rows != [] {
      KeepMembers(height, rows[1..], cutoff);
      assert rows == [rows[0]] + rows[1..];
    }
  }

  lemma {:induction false} KeepIdempotent<T(!new)>(height: T -> int, rows: seq<T>, cutoff: int)
    ensures Keep(height, Keep(height, rows, cutoff), cutoff) == Keep(height, rows, cutoff)
  {
    if rows != [] {
      KeepIdempotent(height, rows[1..], cutoff);
      if height(rows[0]) >= cutoff {
        assert Keep(height, rows, cutoff)[1..] == Keep(height, rows[1..], cutoff);
      } else {
        assert Keep(height, rows, cutoff) == Keep(height, rows[1..], cutoff);
      }
    }
  }

  lemma KeepHasHeight(hs: seq<HeightRow>, cutoff: int, h: int)
    requires HasHeight(hs, h) && h >= cutoff
    ensures HasHeight(Keep(HeightOfHeight, hs, cutoff), h)
  {
    KeepMembers(HeightOfHeight, hs, cutoff);
    var i :| 0 <= i < |hs| && hs[i].height == h;
    assert hs[i] in Keep(HeightOfHeight, hs, cutoff);
  }

  lemma HeightsKept<T(!new)>(height: T -> int, rows: seq<T>, hs: seq<HeightRow>, cutoff: int)
    requires HeightsExist(height, rows, hs)
    ensures HeightsExist(height, Keep(height, rows, cutoff), hs)
    ensures HeightsExist(height, Keep(height, rows, cutoff), Keep(HeightOfHeight, hs, cutoff))
  {
    var kept := Keep(height, rows, cutoff);
    AllKept(height, rows, cutoff);
    forall i | 0 <= i < |kept|
      ensures HasHeight(hs, height(kept[i])) && HasHeight(Keep(HeightOfHeight, hs, cutoff), height(kept[i]))
    {
      var j :| 0 <= j < |rows| && rows[j] == kept[i];
      KeepHasHeight(hs, cutoff, height(kept[i]));
    }
  }

  lemma ValidatorsKept<T(!new)>(height: T -> int, ref: T -> Option<string>, rows: seq<T>, vs: seq<ValidatorRow>,
                         cutoff: int)
    requires ValidatorsExist(ref, rows, vs)
    ensures ValidatorsExist(ref, Keep(height, rows, cutoff), vs)
  {
    var kept := Keep(height, rows, cutoff);
    AllKept(height, rows, cutoff);
    forall i | 0 <= i < |kept| && ref(kept[i]).Some? ensures HasValidator(vs, ref(kept[i]).value) {
      var j :| 0 <= j < |rows| && rows[j] == kept[i];
    }
  }

  lemma AllKept<T(!new)>(height: T -> int, rows: seq<T>, cutoff: int)
    ensures var kept := Keep(height, rows, cutoff);
            AllAbove(height, kept, cutoff) && forall i :: 0 <= i < |kept| ==> kept[i] in rows
  {
    KeepMembers(height, rows, cutoff);
    var kept := Keep(height, rows, cutoff);
    assert forall i :: 0 <= i < |kept| ==> kept[i] in kept;
  }

  /** When the heights' turn comes, no child is left below the cutoff. */
  lemma NoChildLeft(t: Tables, cutoff: int)
    ensures NoChildBelow(Stage(t, cutoff, 4), cutoff)
  {
    AllKept(HeightOfEvent, t.events, cutoff);
    AllKept(HeightOfVote, t.votes, cutoff);
    AllKept(HeightOfSnapshot, t.snapshots, cutoff);
    AllKept(HeightOfRound, t.rounds, cutoff);
  }

  /** Children go before parents: no stage leaves a dangling reference. */
  lemma StageKeepsForeignKeys(t: Tables, cutoff: int, n: nat)
    requires ForeignKeys(t) && n <= 5
    ensures ForeignKeys(Stage(t, cutoff, n))
  {
    HeightsKept(HeightOfEvent, t.events, t.heights, cutoff);
    HeightsKept(HeightOfVote, t.votes, t.heights, cutoff);
    HeightsKept(HeightOfSnapshot, t.snapshots, t.heights, cutoff);
    HeightsKept(HeightOfRound, t.rounds, t.heights, cutoff);
    ValidatorsKept(HeightOfVote, VoterOf, t.votes, t.validators, cutoff);
    ValidatorsKept(HeightOfSnapshot, ValidatorOf, t.snapshots, t.validators, cutoff);
    ValidatorsKept(HeightOfRound, ProposerOfRound, t.rounds, t.validators, cutoff);
    ValidatorsKept(HeightOfHeight, ProposerOfHeight, t.heights, t.validators, cutoff);
  }

  // ----- what a completed cleanup leaves

  lemma {:induction false} LatestIsGreatest(hs: seq<HeightRow>)
    requires hs != []
    ensures LatestHeight(hs).Some? && HasHeight(hs, LatestHeight(hs).value)
    ensures forall i :: 0 <= i < |hs| ==> hs[i].height <= LatestHeight(hs).value
  {
    if |hs| > 1 {
      LatestIsGreatest(hs[1..]);
      var j :| 0 <= j < |hs| - 1 && hs[1..][j].height == LatestHeight(hs[1..]).value;
      assert hs[j + 1].height == LatestHeight(hs[1..]).value;
      assert forall i :: 1 <= i < |hs| ==> hs[i] == hs[1..][i - 1];
    } else {
      assert hs[1..] == [];
    }
    assert hs[0].height == LatestHeight(hs).value ==> HasHeight(hs, LatestHeight(hs).value);
  }

  lemma {:induction false} MinAfterIsLeast(hs: seq<HeightRow>, cutoffTime: int)
    ensures var r := MinHeightAfter(hs, cutoffTime);
            && (r.Some? ==> exists i :: 0 <= i < |hs| && hs[i].height == r.value && hs[i].createdAt >= cutoffTime)
            && (forall i :: 0 <= i < |hs| && hs[i].createdAt >= cutoffTime ==> r.Some? && r.value <= hs[i].height)
  {
    if hs != [] {
      MinAfterIsLeast(hs[1..], cutoffTime);
      assert forall i :: 1 <= i < |hs| ==> hs[i] == hs[1..][i - 1];
      var r := MinHeightAfter(hs[1..], cutoffTime);
      if r.Some? {
        var j :| 0 <= j < |hs| - 1 && hs[1..][j].height == r.value && hs[1..][j].createdAt >= cutoffTime;
        assert hs[j + 1].height == r.value && hs[j + 1].createdAt >= cutoffTime;
      }
    }
  }

  /** The tables after a cleanup that the storage does not interrupt. */
  function AfterCleanup(t: Tables, config: Config, cutoffTime: int): Tables {
    var cutoff := CutoffOf(t.heights, config, cutoffTime);
    Stage(t, cutoff, if cutoff > 0 then 5 else 0)
  }

  lemma RowSurvivesIff(t: Tables, config: Config, cutoffTime: int, r: HeightRow)
    requires r in t.heights
    ensures var cutoff := CutoffOf(t.heights, config, cutoffTime);
            r in AfterCleanup(t, config, cutoffTime).heights <==> cutoff <= 0 || cutoff <= r.height
  {
    KeepMembers(HeightOfHeight, t.heights, CutoffOf(t.heights, config, cutoffTime));
    assert HeightOfHeight(r) == r.height;
  }

  lemma CutoffBelowLatestIff(hs: seq<HeightRow>, config: Config, cutoffTime: int)
    requires hs != []
    ensures LatestHeight(hs).Some?
    ensures (CutoffOf(hs, config, cutoffTime) <= 0 || CutoffOf(hs, config, cutoffTime) <= LatestHeight(hs).value)
              <==> config.maxRetainBlocks <= 0 || LatestHeight(hs).value - config.maxRetainBlocks >= MIN64
  {
    LatestIsGreatest(hs);
    MinAfterIsLeast(hs, cutoffTime);
  }

  /** The latest height survives exactly when subtracting the retained blocks does not leave int64. */
  lemma LatestSurvivesIff(t: Tables, config: Config, cutoffTime: int)
    requires t.heights != []
    ensures LatestHeight(t.heights).Some?
    ensures (HasHeight(AfterCleanup(t, config, cutoffTime).heights, LatestHeight(t.heights).value))
              <==> config.maxRetainBlocks <= 0 || LatestHeight(t.heights).value - config.maxRetainBlocks >= MIN64
  {
    LatestIsGreatest(t.heights);
    CutoffBelowLatestIff(t.heights, config, cutoffTime);
    var latest, left := LatestHeight(t.heights).value, AfterCleanup(t, config, cutoffTime).heights;
    var i :| 0 <= i < |t.heights| && t.heights[i].height == latest;
    RowSurvivesIff(t, config, cutoffTime, t.heights[i]);
    if HasHeight(left, latest) {
      var j :| 0 <= j < |left| && left[j].height == latest;
      KeepMembers(HeightOfHeight, t.heights, CutoffOf(t.heights, config, cutoffTime));
      assert left[j] in left;
      RowSurvivesIff(t, config, cutoffTime, left[j]);
    }
  }

  ghost predicate Recent(t: Tables, cutoffTime: int, q: HeightRow) {
    q in t.heights && q.createdAt >= cutoffTime
  }

  /** A limit of days alone removes a height row exactly when some row is recent and every recent one is
      more than one height above it (and above height 1); so every recent row stays. */
  lemma DaysRemoveIff(t: Tables, config: Config, cutoffTime: int, r: HeightRow)
    requires config.maxRetainDays > 0 && config.maxRetainBlocks <= 0 && r in t.heights
    ensures (r !in AfterCleanup(t, config, cutoffTime).heights)
              <==> ((exists q :: Recent(t, cutoffTime, q))
                    && forall q :: Recent(t, cutoffTime, q) ==> q.height > r.height + 1 && q.height > 1)
  {
    RowSurvivesIff(t, config, cutoffTime, r);
    MinAfterIsLeast(t.heights, cutoffTime);
    var m := MinHeightAfter(t.heights, cutoffTime);
    if m.Some? {
      var i :| 0 <= i < |t.heights| && t.heights[i].height == m.value && t.heights[i].createdAt >= cutoffTime;
      assert Recent(t, cutoffTime, t.heights[i]);
      forall q | Recent(t, cutoffTime, q) ensures m.value <= q.height {
        var j :| 0 <= j < |t.heights| && t.heights[j] == q;
      }
    } else {
      forall q ensures !Recent(t, cutoffTime, q) {
        assert q in t.heights ==> exists j :: 0 <= j < |t.heights| && t.heights[j] == q;
      }
    }
  }

  /** Both limits together keep exactly the height rows that each limit alone would keep. */
  lemma LimitsCombine(t: Tables, config: Config, cutoffTime: int, r: HeightRow)
    requires r in t.heights
    ensures (r in AfterCleanup(t, config, cutoffTime).heights)
              <==> (r in AfterCleanup(t, config.(maxRetainDays := 0), cutoffTime).heights
                    && r in AfterCleanup(t, config.(maxRetainBlocks := 0), cutoffTime).heights)
  {
    RowSurvivesIff(t, config, cutoffTime, r);
    RowSurvivesIff(t, config.(maxRetainDays := 0), cutoffTime, r);
    RowSurvivesIff(t, config.(maxRetainBlocks := 0), cutoffTime, r);
  }

  /** With positive heights and a limit of N blocks, what is left lies in the last N+1 heights, and it
      includes the latest one. */
  lemma AtMostRetained(t: Tables, config: Config, cutoffTime: int, left: Tables)
    requires t.heights != [] && config.maxRetainBlocks > 0
    requires forall i :: 0 <= i < |t.heights| ==> t.heights[i].height > 0
    requires left == AfterCleanup(t, config, cutoffTime)
    ensures LatestHeight(t.heights).Some? && HasHeight(left.heights, LatestHeight(t.heights).value)
    ensures forall i :: 0 <= i < |left.heights| ==>
              LatestHeight(t.heights).value - config.maxRetainBlocks
                <= left.heights[i].height <= LatestHeight(t.heights).value
  {
    var cutoff := CutoffOf(t.heights, config, cutoffTime);
    LatestIsGreatest(t.heights);
    CutoffBelowLatestIff(t.heights, config, cutoffTime);
    if cutoff > 0 {
      KeepHasHeight(t.heights, cutoff, LatestHeight(t.heights).value);
      KeepMembers(HeightOfHeight, t.heights, cutoff);
      forall i | 0 <= i < |left.heights|
        ensures LatestHeight(t.heights).value - config.maxRetainBlocks
                  <= left.heights[i].height <= LatestHeight(t.heights).value
      {
        assert left.heights[i] in left.heights;
        assert HeightOfHeight(left.heights[i]) == left.heights[i].height;
        var j :| 0 <= j < |t.heights| && t.heights[j] == left.heights[i];
      }
    }
  }

  lemma {:induction false} KeepUnique(hs: seq<HeightRow>, cutoff: int)
    requires UniqueHeights(hs)
    ensures UniqueHeights(Keep(HeightOfHeight, hs, cutoff))
  {
    if hs != [] {
      KeepUnique(hs[1..], cutoff);
      var rest := Keep(HeightOfHeight, hs[1..], cutoff);
      KeepMembers(HeightOfHeight, hs[1..], cutoff);
      forall i | 0 <= i < |rest| ensures rest[i].height != hs[0].height {
        assert rest[i] in rest;
        var j :| 0 <= j < |hs| - 1 && hs[1..][j] == rest[i];
        assert hs[j + 1] == rest[i];
      }
    }
  }

  /** A cleanup with a limit of N blocks leaves at most N+1 rows in the heights table. */
  lemma AtMostOneMoreThanLimit(t: Tables, config: Config, cutoffTime: int, left: Tables)
    requires t.heights != [] && config.maxRetainBlocks > 0 && UniqueHeights(t.heights)
    requires forall i :: 0 <= i < |t.heights| ==> t.heights[i].height > 0
    requires left == AfterCleanup(t, config, cutoffTime)
    ensures |left.heights| <= config.maxRetainBlocks + 1
  {
    var latest := LatestHeight(t.heights).value;
    var cutoff := CutoffOf(t.heights, config, cutoffTime);
    AtMostRetained(t, config, cutoffTime, left);
    if cutoff > 0 {
      KeepUnique(t.heights, cutoff);
    }
    HeightsCount(left.heights);
    SubsetSize(HeightsOf(left.heights), Interval(latest - config.maxRetainBlocks, latest));
  }

  /** With a limit of N blocks the heights table exceeds N rows after a cleanup (by one row) if and only
      if all of the last N+1 heights are stored and the limit of days does not cut into them. */
  lemma WithinLimitIff(t: Tables, config: Config, cutoffTime: int, left: Tables)
    requires t.heights != [] && config.maxRetainBlocks > 0 && UniqueHeights(t.heights)
    requires forall i :: 0 <= i < |t.heights| ==> t.heights[i].height > 0
    requires left == AfterCleanup(t, config, cutoffTime)
    ensures LatestHeight(t.heights).Some?
    ensures var oldest, latest := LatestHeight(t.heights).value - config.maxRetainBlocks, LatestHeight(t.heights).value;
            var day := DayCutoff(t.heights, config, cutoffTime);
            (|left.heights| <= config.maxRetainBlocks)
              <==> ((exists h :: oldest <= h <= latest && !HasHeight(t.heights, h)) ||
                    (day.Some? && day.value > oldest))
  {
    LatestIsGreatest(t.heights);
    var latest := LatestHeight(t.heights).value;
    var oldest := latest - config.maxRetainBlocks;
    var day := DayCutoff(t.heights, config, cutoffTime);
    LeftHeights(t, config, cutoffTime, left);
    if h :| oldest <= h <= latest && !HasHeight(t.heights, h) {
      HeightsWithout(left.heights, oldest, latest, h);
    } else if day.Some? && day.value > oldest {
      HeightsWithout(left.heights, oldest, latest, oldest);
    } else {
      assert HasHeight(t.heights, oldest);
      forall h | oldest <= h <= latest ensures h in HeightsOf(left.heights) {
        HeightSurvives(t, config, cutoffTime, h);
      }
      SubsetSize(Interval(oldest, latest), HeightsOf(left.heights));
    }
  }

  /** After a cleanup the heights are distinct heights of the table, none older than the last N+1 nor
      below the cutoff of the days. */
  lemma LeftHeights(t: Tables, config: Config, cutoffTime: int, left: Tables)
    requires t.heights != [] && config.maxRetainBlocks > 0 && UniqueHeights(t.heights)
    requires forall i :: 0 <= i < |t.heights| ==> t.heights[i].height > 0
    requires left == AfterCleanup(t, config, cutoffTime)
    ensures LatestHeight(t.heights).Some? && |left.heights| == |HeightsOf(left.heights)|
    ensures var latest, day := LatestHeight(t.heights).value, DayCutoff(t.heights, config, cutoffTime);
            forall h :: h in HeightsOf(left.heights) ==>
              && latest - config.maxRetainBlocks <= h <= latest && HasHeight(t.heights, h)
              && (day.Some? ==> day.value <= h)
  {
    var cutoff := CutoffOf(t.heights, config, cutoffTime);
    AtMostRetained(t, config, cutoffTime, left);
    KeepMembers(HeightOfHeight, t.heights, cutoff);
    if cutoff > 0 {
      KeepUnique(t.heights, cutoff);
    }
    HeightsCount(left.heights);
    forall i | 0 <= i < |left.heights|
      ensures HasHeight(t.heights, left.heights[i].height) && (cutoff > 0 ==> cutoff <= left.heights[i].height)
      ensures left.heights[i].height > 0
    {
      assert left.heights[i] in left.heights && HeightOfHeight(left.heights[i]) == left.heights[i].height;
      var j :| 0 <= j < |t.heights| && t.heights[j] == left.heights[i];
    }
  }

  lemma HeightsWithout(hs: seq<HeightRow>, lo: int, hi: int, gap: int)
    requires lo <= gap <= hi && |hs| == |HeightsOf(hs)|
    requires forall h :: h in HeightsOf(hs) ==> lo <= h <= hi && h != gap
    ensures |hs| <= hi - lo
  {
    var all: set<int> := Interval(lo, hi);
    SubsetSize(HeightsOf(hs), all - {gap});
  }

  lemma HeightSurvives(t: Tables, config: Config, cutoffTime: int, h: int)
    requires HasHeight(t.heights, h)
    requires CutoffOf(t.heights, config, cutoffTime) <= h || CutoffOf(t.heights, config, cutoffTime) <= 0
    ensures h in HeightsOf(AfterCleanup(t, config, cutoffTime).heights)
  {
    var cutoff, left := CutoffOf(t.heights, config, cutoffTime), AfterCleanup(t, config, cutoffTime).heights;
    if cutoff > 0 {
      KeepHasHeight(t.heights, cutoff, h);
    }
    assert HasHeight(left, h);
  }

  /** The heights 1 to n, one row each. */
  function Chain(n: nat): (hs: seq<HeightRow>)
    requires n <= MAX64
    ensures |hs| == n && forall i :: 0 <= i < n ==> hs[i] == HeightRow(i + 1, None, None, 0)
  {
    if n == 0 then [] else Chain(n - 1) + [HeightRow(n, None, None, 0)]
  }

  /** A gapless chain longer than the limit is cut to N+1 heights, one more than MaxRetainBlocks. */
  lemma KeepsOneMoreThanLimit(n: nat, config: Config, left: Tables)
    requires 0 < config.maxRetainBlocks < n <= MAX64 && config.maxRetainDays <= 0
    requires left == AfterCleanup(Tables([], Chain(n), [], [], [], []), config, 0)
    ensures |left.heights| == config.maxRetainBlocks + 1
  {
    var t := Tables([], Chain(n), [], [], [], []);
    LatestIsGreatest(t.heights);
    var latest := LatestHeight(t.heights).value;
    var i :| 0 <= i < n && t.heights[i].height == latest;
    assert t.heights[n - 1].height == n <= latest;
    AtMostOneMoreThanLimit(t, config, 0, left);
    WithinLimitIff(t, config, 0, left);
    forall h | latest - config.maxRetainBlocks <= h <= latest ensures HasHeight(t.heights, h) {
      assert t.heights[h - 1].height == h;
    }
  }

  /** Repeating a completed cleanup with the same cutoff changes nothing. */
  lemma CleanupIdempotent(t: Tables, cutoff: int)
    ensures Stage(Stage(t, cutoff, 5), cutoff, 5) == Stage(t, cutoff, 5)
  {
    var s := Stage(t, cutoff, 5);
    KeepIdempotent(HeightOfEvent, t.events, cutoff);
    KeepIdempotent(HeightOfVote, t.votes, cutoff);
    KeepIdempotent(HeightOfSnapshot, t.snapshots, cutoff);
    KeepIdempotent(HeightOfRound, t.rounds, cutoff);
    KeepIdempotent(HeightOfHeight, t.heights, cutoff);
  }

  // ----- repeating a cleanup with the cutoff computed anew

  /** Some row is recent, and every recent one is more than one height above `r` (and above height 1). */
  ghost predicate Stale(t: Tables, cutoffTime: int, r: HeightRow) {
    && (exists q :: Recent(t, cutoffTime, q))
    && (forall q :: Recent(t, cutoffTime, q) ==> q.height > r.height + 1 && q.height > 1)
  }

  /** Repeating a completed cleanup at the same clock reading changes something if and only if there is a
      limit of days and a stale height row survived: the first run may remove the recent row below it. */
  lemma RepeatChangesIff(t: Tables, config: Config, cutoffTime: int, left: Tables)
    requires ForeignKeys(t) && left == AfterCleanup(t, config, cutoffTime)
    ensures (AfterCleanup(left, config, cutoffTime) != left)
              <==> (config.maxRetainDays > 0 && exists r :: r in left.heights && Stale(left, cutoffTime, r))
  {
    var again := AfterCleanup(left, config, cutoffTime);
    forall r | r in left.heights
      ensures r !in again.heights <==> config.maxRetainDays > 0 && Stale(left, cutoffTime, r)
    {
      LimitsCombine(left, config, cutoffTime, r);
      BlocksKeepAll(t, config, cutoffTime, left, r);
      DaysAloneRemove(left, config.(maxRetainBlocks := 0), cutoffTime, r);
    }
    if forall r :: r in left.heights ==> r in again.heights {
      StageKeepsForeignKeys(t, CutoffOf(t.heights, config, cutoffTime), 5);
      NothingLeftToDelete(left, config, cutoffTime);
    }
  }

  lemma DaysAloneRemove(t: Tables, config: Config, cutoffTime: int, r: HeightRow)
    requires config.maxRetainBlocks <= 0 && r in t.heights
    ensures r !in AfterCleanup(t, config, cutoffTime).heights <==> config.maxRetainDays > 0 && Stale(t, cutoffTime, r)
  {
    if config.maxRetainDays > 0 {
      DaysRemoveIff(t, config, cutoffTime, r);
    } else {
      RowSurvivesIff(t, config, cutoffTime, r);
    }
  }

  /** The limit of blocks computed anew removes nothing: the latest height is still the same. */
  lemma BlocksKeepAll(t: Tables, config: Config, cutoffTime: int, left: Tables, r: HeightRow)
    requires left == AfterCleanup(t, config, cutoffTime) && r in left.heights
    ensures r in AfterCleanup(left, config.(maxRetainDays := 0), cutoffTime).heights
  {
    KeepMembers(HeightOfHeight, t.heights, CutoffOf(t.heights, config, cutoffTime));
    RowSurvivesIff(t, config, cutoffTime, r);
    RowSurvivesIff(left, config.(maxRetainDays := 0), cutoffTime, r);
    LatestKept(t, config, cutoffTime, left);
  }

  lemma LatestKept(t: Tables, config: Config, cutoffTime: int, left: Tables)
    requires left == AfterCleanup(t, config, cutoffTime) && left.heights != []
    ensures LatestHeight(left.heights) == LatestHeight(t.heights)
  {
    if CutoffOf(t.heights, config, cutoffTime) > 0 {
      LatestOfKept(t.heights, CutoffOf(t.heights, config, cutoffTime));
    }
  }

  lemma LatestOfKept(hs: seq<HeightRow>, cutoff: int)
    requires Keep(HeightOfHeight, hs, cutoff) != []
    ensures LatestHeight(Keep(HeightOfHeight, hs, cutoff)) == LatestHeight(hs)
  {
    var left := Keep(HeightOfHeight, hs, cutoff);
    LatestIsGreatest(left);
    LatestIsGreatest(hs);
    var latest := LatestHeight(hs).value;
    KeptHeights(hs, cutoff, LatestHeight(left).value);
    KeepHasHeight(hs, cutoff, latest);
    var i :| 0 <= i < |left| && left[i].height == latest;
  }

  /** A height that is left is a stored height from the cutoff on; so the latest one is, too. */
  lemma KeptHeights(hs: seq<HeightRow>, cutoff: int, h: int)
    requires HasHeight(Keep(HeightOfHeight, hs, cutoff), h)
    ensures HasHeight(hs, h) && LatestHeight(hs).Some? && cutoff <= h <= LatestHeight(hs).value
  {
    var left, height := Keep(HeightOfHeight, hs, cutoff), HeightOfHeight;
    KeepMembers(HeightOfHeight, hs, cutoff);
    var i :| 0 <= i < |left| && left[i].height == h;
    assert left[i] in left && height(left[i]) == h;
    var j :| 0 <= j < |hs| && hs[j] == left[i];
    LatestIsGreatest(hs);
  }

  /** With every height kept, the foreign keys leave no child row below the cutoff. */
  lemma NothingLeftToDelete(t: Tables, config: Config, cutoffTime: int)
    requires ForeignKeys(t) && forall r :: r in t.heights ==> r in AfterCleanup(t, config, cutoffTime).heights
    ensures AfterCleanup(t, config, cutoffTime) == t
  {
    var cutoff := CutoffOf(t.heights, config, cutoffTime);
    if cutoff > 0 {
      forall i | 0 <= i < |t.heights| ensures t.heights[i].height >= cutoff {
        RowSurvivesIff(t, config, cutoffTime, t.heights[i]);
      }
      KeepAll(HeightOfHeight, t.heights, cutoff);
      KeepChildren(HeightOfRound, t.rounds, t.heights, cutoff);
      KeepChildren(HeightOfVote, t.votes, t.heights, cutoff);
      KeepChildren(HeightOfSnapshot, t.snapshots, t.heights, cutoff);
      KeepChildren(HeightOfEvent, t.events, t.heights, cutoff);
    }
  }

  lemma {:induction false} KeepAll<T(!new)>(height: T -> int, rows: seq<T>, cutoff: int)
    requires AllAbove(height, rows, cutoff)
    ensures Keep(height, rows, cutoff) == rows
  {
    if rows != [] {
      KeepAll(height, rows[1..], cutoff);
    }
  }

  lemma KeepChildren<T(!new)>(height: T -> int, rows: seq<T>, hs: seq<HeightRow>, cutoff: int)
    requires HeightsExist(height, rows, hs) && forall i :: 0 <= i < |hs| ==> hs[i].height >= cutoff
    ensures Keep(height, rows, cutoff) == rows
  {
    KeepAll(height, rows, cutoff);
  }

  /** Heights were inserted in ascending order. */
  ghost predicate InsertedInOrder(hs: seq<HeightRow>) {
    forall i, j :: 0 <= i < |hs| && 0 <= j < |hs| && hs[i].height <= hs[j].height ==> hs[i].createdAt <= hs[j].createdAt
  }

  /** When heights were inserted in order, repeating a cleanup at the same clock reading changes nothing. */
  lemma RepeatIdempotent(t: Tables, config: Config, cutoffTime: int)
    requires ForeignKeys(t) && InsertedInOrder(t.heights)
    ensures var left := AfterCleanup(t, config, cutoffTime); AfterCleanup(left, config, cutoffTime) == left
  {
    var left := AfterCleanup(t, config, cutoffTime);
    RepeatChangesIff(t, config, cutoffTime, left);
    if config.maxRetainDays > 0 {
      forall r | r in left.heights ensures !Stale(left, cutoffTime, r) {
        NoneStale(t, config, cutoffTime, left, r);
      }
    }
  }

  lemma NoneStale(t: Tables, config: Config, cutoffTime: int, left: Tables, r: HeightRow)
    requires InsertedInOrder(t.heights) && config.maxRetainDays > 0
    requires left == AfterCleanup(t, config, cutoffTime) && r in left.heights
    ensures !Stale(left, cutoffTime, r)
  {
    KeepMembers(HeightOfHeight, t.heights, CutoffOf(t.heights, config, cutoffTime));
    RowSurvivesIff(t, config, cutoffTime, r);
    if r.createdAt >= cutoffTime {
      assert Recent(left, cutoffTime, r);
    } else if MinHeightAfter(t.heights, cutoffTime).Some? {
      NotRecentNotStale(t, config, cutoffTime, left, r);
    } else {
      MinAfterIsLeast(t.heights, cutoffTime);
      forall q ensures !Recent(left, cutoffTime, q) {
        assert q in t.heights ==> exists j :: 0 <= j < |t.heights| && t.heights[j] == q;
      }
    }
  }

  /** The least recent row lies above a row that is not recent; it survives with it, at most one higher. */
  lemma NotRecentNotStale(t: Tables, config: Config, cutoffTime: int, left: Tables, r: HeightRow)
    requires InsertedInOrder(t.heights) && config.maxRetainDays > 0 && MinHeightAfter(t.heights, cutoffTime).Some?
    requires left == AfterCleanup(t, config, cutoffTime) && r in t.heights && r.createdAt < cutoffTime
    requires CutoffOf(t.heights, config, cutoffTime) <= 0 || CutoffOf(t.heights, config, cutoffTime) <= r.height
    ensures !Stale(left, cutoffTime, r)
  {
    var least := LeastRecent(t, cutoffTime);
    LowerIsOlder(t.heights, least, r);
    RowSurvivesIff(t, config, cutoffTime, least);
    assert Recent(left, cutoffTime, least);
  }

  lemma LeastRecent(t: Tables, cutoffTime: int) returns (least: HeightRow)
    requires MinHeightAfter(t.heights, cutoffTime).Some?
    ensures Recent(t, cutoffTime, least) && least.height == MinHeightAfter(t.heights, cutoffTime).value
  {
    MinAfterIsLeast(t.heights, cutoffTime);
    var m := MinHeightAfter(t.heights, cutoffTime).value;
    var i :| 0 <= i < |t.heights| && t.heights[i].height == m && t.heights[i].createdAt >= cutoffTime;
    least := t.heights[i];
  }

  lemma LowerIsOlder(hs: seq<HeightRow>, p: HeightRow, q: HeightRow)
    requires InsertedInOrder(hs) && p in hs && q in hs
    ensures p.height <= q.height ==> p.createdAt <= q.createdAt
  {
    var i :| 0 <= i < |hs| && hs[i] == p;
    var j :| 0 <= j < |hs| && hs[j] == q;
  }

  const BACKFILLED: seq<HeightRow> :=
    [HeightRow(5, None, None, 100), HeightRow(92, None, None, 0), HeightRow(100, None, None, 100)]

  lemma BackfilledCutoff()
    ensures CutoffOf(BACKFILLED, Config(1, 10), 50) == 90
  {
    var b, c := HeightRow(92, None, None, 0), HeightRow(100, None, None, 100);
    assert BACKFILLED[1..] == [b, c] && [b, c][1..] == [c] && [c][1..] == [];
    assert LatestHeight([c]) == Some(100) && LatestHeight([b, c]) == Some(100);
    assert MinHeightAfter([c], 50) == Some(100) && MinHeightAfter([b, c], 50) == Some(100);
  }

  /** Backfilled heights break it: the first cleanup removes the recent row 5, so that the second takes
      row 92 as well. */
  lemma RepeatCanRemoveMore()
    ensures var t := Tables([], BACKFILLED, [], [], [], []);
            var left := AfterCleanup(t, Config(1, 10), 50);
            ForeignKeys(t) && AfterCleanup(left, Config(1, 10), 50) != left
  {
    var t, config := Tables([], BACKFILLED, [], [], [], []), Config(1, 10);
    var left := AfterCleanup(t, config, 50);
    BackfilledLeavesStale(t, left);
    RepeatRemovesStale(t, config, 50, left, BACKFILLED[1]);
  }

  lemma RepeatRemovesStale(t: Tables, config: Config, cutoffTime: int, left: Tables, r: HeightRow)
    requires ForeignKeys(t) && left == AfterCleanup(t, config, cutoffTime) && config.maxRetainDays > 0
    requires r in left.heights && Stale(left, cutoffTime, r)
    ensures AfterCleanup(left, config, cutoffTime) != left
  {
    RepeatChangesIff(t, config, cutoffTime, left);
  }

  lemma BackfilledLeavesStale(t: Tables, left: Tables)
    requires t.heights == BACKFILLED && left == AfterCleanup(t, Config(1, 10), 50)
    ensures BACKFILLED[1] in left.heights && Stale(left, 50, BACKFILLED[1])
  {
    BackfilledCutoff();
    RowSurvivesIff(t, Config(1, 10), 50, BACKFILLED[1]);
    RowSurvivesIff(t, Config(1, 10), 50, BACKFILLED[2]);
    BackfilledLeft(left.heights);
    BackfilledStale(left);
  }

  lemma BackfilledStale(left: Tables)
    requires BACKFILLED[2] in left.heights
    requires forall r :: r in left.heights ==> r == BACKFILLED[1] || r == BACKFILLED[2]
    ensures Stale(left, 50, BACKFILLED[1])
  {
    assert Recent(left, 50, BACKFILLED[2]);
  }

  lemma BackfilledLeft(left: seq<HeightRow>)
    requires left == Keep(HeightOfHeight, BACKFILLED, 90)
    ensures forall r :: r in left ==> r == BACKFILLED[1] || r == BACKFILLED[2]
  {
    KeepMembers(HeightOfHeight, BACKFILLED, 90);
    forall r | r in left ensures r == BACKFILLED[1] || r == BACKFILLED[2] {
      assert r in BACKFILLED && HeightOfHeight(r) >= 90;
    }
  }

  /** After `n` deletes exactly the rows below the cutoff are gone, from the first `n` of events, votes,
      snapshots, rounds and heights; the validators stay. A completed cleanup has made all five. */
  lemma CleanupRemovesExactly(t: Tables, cutoff: int, n: nat)
    ensures var s := Stage(t, cutoff, n);
            && s.validators == t.validators
            && (forall r :: r in s.events <==> r in t.events && (n < 1 || r.height >= cutoff))
            && (forall r :: r in s.votes <==> r in t.votes && (n < 2 || r.height >= cutoff))
            && (forall r :: r in s.snapshots <==> r in t.snapshots && (n < 3 || r.height >= cutoff))
            && (forall r :: r in s.rounds <==> r in t.rounds && (n < 4 || r.height >= cutoff))
            && (forall r :: r in s.heights <==> r in t.heights && (n < 5 || r.height >= cutoff))
  {
    KeepMembers(HeightOfEvent, t.events, cutoff);
    KeepMembers(HeightOfVote, t.votes, cutoff);
    KeepMembers(HeightOfSnapshot, t.snapshots, cutoff);
    KeepMembers(HeightOfRound, t.rounds, cutoff);
    KeepMembers(HeightOfHeight, t.heights, cutoff);
  }
}
