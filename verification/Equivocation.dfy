/** The equivocation detector: a windowed first-vote index fed by the event stream. */
module Equivocation {
  import opened Int64
  import opened Rings
  import opened Text
  import opened FiniteSets

  const MAX_EQUIV_EVENTS: nat := 256
  const DEFAULT_EVICTION_WINDOW: int64 := 500
  const PRECOMMIT_TYPE: int32 := 2

  datatype Vote = Vote(address: seq<byte>, height: int64, round: int32, voteType: int32, hash: seq<byte>)

  /** The event stream carries other events too, and vote events whose vote is missing. */
  datatype TMEventData = EventDataVote(vote: Option<Vote>) | OtherEvent

  datatype EquivocationEvent = EquivocationEvent(
    validatorAddress: string, height: int64, round: int32, voteType: string,
    blockIDA: string, blockIDB: string, detectedAt: int)

  /** One call of the observer, with the clock reading it would log. */
  datatype Observation = Observation(event: TMEventData, now: int) {
    /** A vote for a block: the only kind of event that is evidence. */
    predicate ForBlock() {
      event.EventDataVote? && event.vote.Some? && event.vote.value.hash != []
    }

    function Ballot(): Vote
      requires ForBlock()
    {
      event.vote.value
    }
  }

  type Seen = map<int64, map<string, string>>

  function SlotKey(address: seq<byte>, round: int32, voteType: int32): string {
    Hex(address) + ['|'] + (Decimal(round) + ['|'] + Decimal(voteType))
  }

  function VoteTypeName(t: int32): string {
    if t == PRECOMMIT_TYPE then "precommit" else "prevote"
  }

  function Window(windowBlocks: int64): int64 {
    if windowBlocks <= 0 then DEFAULT_EVICTION_WINDOW else windowBlocks
  }

  /** Heights below this bound are evicted after a vote at height `h`; the subtraction is int64. */
  function Cutoff(h: int64, windowBlocks: int64): int64 {
    Wrap64(h - Window(windowBlocks))
  }

  /** Short of int64 overflow: the configured window below the vote, or 500 heights without one. */
  lemma CutoffIs(h: int64, windowBlocks: int64)
    ensures windowBlocks > 0 && h - windowBlocks >= MIN64 ==> Cutoff(h, windowBlocks) == h - windowBlocks
    ensures windowBlocks <= 0 && h - 500 >= MIN64 ==> Cutoff(h, windowBlocks) == h - 500
  {}

  // ----- one observation, and a run of them

  /** The detector after a run: the index, and every event ever emitted. */
  datatype Log = Log(seen: Seen, emitted: seq<EquivocationEvent>)

  function Bucket(seen: Seen, h: int64): map<string, string> {
    if h in seen then seen[h] else map[]
  }

  function Record(seen: Seen, v: Vote): Seen {
    var b, k := Bucket(seen, v.height), SlotKey(v.address, v.round, v.voteType);
    seen[v.height := if k in b then b else b[k := Hex(v.hash)]]
  }

  function Detected(seen: Seen, v: Vote, now: int): seq<EquivocationEvent> {
    var b, k := Bucket(seen, v.height), SlotKey(v.address, v.round, v.voteType);
    if k in b && b[k] != Hex(v.hash) then
      [EquivocationEvent(Hex(v.address), v.height, v.round, VoteTypeName(v.voteType), b[k], Hex(v.hash), now)]
    else []
  }

  function Evict(seen: Seen, cutoff: int64): Seen {
    map h | h in seen && h >= cutoff :: seen[h]
  }

  function Step(log: Log, o: Observation, windowBlocks: int64): Log {
    if !o.ForBlock() then log
    else
      var v := o.Ballot();
      Log(Evict(Record(log.seen, v), Cutoff(v.height, windowBlocks)),
          log.emitted + Detected(log.seen, v, o.now))
  }

  function Run(history: seq<Observation>, windowBlocks: int64): Log {
    if history == [] then Log(map[], [])
    else Step(Run(history[..|history| - 1], windowBlocks), history[|history| - 1], windowBlocks)
  }

  /** What one more observation does to the index and to the capped log. */
  lemma LogAfter(history: seq<Observation>, o: Observation, windowBlocks: int64)
    ensures var log, after := Run(history, windowBlocks), Run(history + [o], windowBlocks);
            if !o.ForBlock() then after == log
            else
              var detected := Detected(log.seen, o.Ballot(), o.now);
              && after.seen == Evict(Record(log.seen, o.Ballot()), Cutoff(o.Ballot().height, windowBlocks))
              && Latest(after.emitted, MAX_EQUIV_EVENTS)
                 == if detected == [] then Latest(log.emitted, MAX_EQUIV_EVENTS)
                    else Latest(Latest(log.emitted, MAX_EQUIV_EVENTS) + detected, MAX_EQUIV_EVENTS)
  {
    var log := Run(history, windowBlocks);
    assert (history + [o])[..|history|] == history;
    if o.ForBlock() {
      LatestAppend(log.emitted, Detected(log.seen, o.Ballot(), o.now), MAX_EQUIV_EVENTS);
    }
  }

  // ----- the detector

  class Detector {
    const windowBlocks: int64
    var seen: Seen
    var events: seq<EquivocationEvent>
    ghost var history: seq<Observation>

    /** The index is that of the whole run; the log keeps the latest 256 of all events emitted. */
    ghost predicate Valid()
      reads this
    {
      && seen == Run(history, windowBlocks).seen
      && events == Latest(Run(history, windowBlocks).emitted, MAX_EQUIV_EVENTS)
    }

    constructor (windowBlocks: int64)
      ensures Valid() && history == [] && this.windowBlocks == windowBlocks
    {
      this.windowBlocks := windowBlocks;
      seen, events, history := map[], [], [];
    }

    method Observe(e: TMEventData, now: int)
      requires Valid()
      modifies this
      ensures Valid() && history == old(history) + [Observation(e, now)]
    {
      LogAfter(history, Observation(e, now), windowBlocks);
      history := history + [Observation(e, now)];
      if !e.EventDataVote? || e.vote.None? {
        return;
      }
      var v := e.vote.value;
      if |v.hash| == 0 {
        return;
      }
      Index(v, now);
      EvictBelow(Wrap64(v.height - Window(windowBlocks)));
    }

    /** The first vote of a slot is remembered; a later one that disagrees is logged. */
    method Index(v: Vote, now: int)
      modifies `seen, `events
      ensures seen == Record(old(seen), v)
      ensures events == if Detected(old(seen), v, now) == [] then old(events)
                        else Latest(old(events) + Detected(old(seen), v, now), MAX_EQUIV_EVENTS)
    {
      var blockIDHex := Hex(v.hash);
      var sk := SlotKey(v.address, v.round, v.voteType);
      if v.height !in seen {
        seen := seen[v.height := map[]];
      }
      if sk !in seen[v.height] {
        seen := seen[v.height := seen[v.height][sk := blockIDHex]];
      } else if seen[v.height][sk] != blockIDHex {
        var ev := EquivocationEvent(Hex(v.address), v.height, v.round, VoteTypeName(v.voteType),
                                    seen[v.height][sk], blockIDHex, now);
        events := events + [ev];
        if |events| > MAX_EQUIV_EVENTS {
          events := events[|events| - MAX_EQUIV_EVENTS..];
        }
      }
    }

    method EvictBelow(cutoff: int64)
      modifies this`seen
      ensures seen == Evict(old(seen), cutoff)
    {
      var todo := seen.Keys;
      while todo != {}
        invariant todo <= old(seen).Keys
        invariant seen == map h | h in old(seen) && (h in todo || h >= cutoff) :: old(seen)[h]
        decreases todo
      {
        var h :| h in todo;
        todo := todo - {h};
        if h < cutoff {
          seen := seen - {h};
        }
      }
    }
  }

  // ----- slots

  datatype Slot = Slot(address: seq<byte>, height: int64, round: int32, voteType: int32)

  function SlotOf(v: Vote): Slot {
    Slot(v.address, v.height, v.round, v.voteType)
  }

  /** A vote event for this slot that names a block. */
  predicate InSlot(o: Observation, slot: Slot) {
    && o.event.EventDataVote? && o.event.vote.Some? && o.event.vote.value.hash != []
    && var v := o.event.vote.value;
       v.address == slot.address && v.height == slot.height && v.round == slot.round && v.voteType == slot.voteType
  }

  function Lookup(seen: Seen, slot: Slot): Option<string> {
    var b, k := Bucket(seen, slot.height), SlotKey(slot.address, slot.round, slot.voteType);
    if k in b then Some(b[k]) else None
  }

  /** Two slots at one height never share a key: neither a hex address nor a number contains '|'. */
  lemma SlotKeyInjective(a: seq<byte>, r: int32, t: int32, b: seq<byte>, s: int32, u: int32)
    ensures SlotKey(a, r, t) == SlotKey(b, s, u) <==> a == b && r == s && t == u
  {
    if SlotKey(a, r, t) == SlotKey(b, s, u) {
      SplitAt(Hex(a), Decimal(r) + ['|'] + Decimal(t), Hex(b), Decimal(s) + ['|'] + Decimal(u), '|');
      SplitAt(Decimal(r), Decimal(t), Decimal(s), Decimal(u), '|');
      HexInjective(a, b);
      DecimalRoundTrip(r);
      DecimalRoundTrip(s);
      DecimalRoundTrip(t);
      DecimalRoundTrip(u);
    }
  }

  /** What the latest observation does to the entry of any slot. */
  lemma LookupStep(history: seq<Observation>, windowBlocks: int64, slot: Slot)
    requires history != []
    ensures var n := |history| - 1;
            var o, before := history[n], Lookup(Run(history[..n], windowBlocks).seen, slot);
            Lookup(Run(history, windowBlocks).seen, slot) ==
              if !o.ForBlock() then before
              else if Cutoff(o.Ballot().height, windowBlocks) > slot.height then None
              else if before.None? && SlotOf(o.Ballot()) == slot then Some(Hex(o.Ballot().hash))
              else before
  {
    var o := history[|history| - 1];
    if o.ForBlock() {
      var v := o.Ballot();
      SlotKeyInjective(v.address, v.round, v.voteType, slot.address, slot.round, slot.voteType);
    }
  }

  // ----- which vote the index retains

  /** No vote from position `i` on evicts height `h`. */
  ghost predicate Survives(history: seq<Observation>, windowBlocks: int64, i: nat, h: int64) {
    forall k :: i <= k < |history| && history[k].ForBlock() ==>
      Cutoff(history[k].Ballot().height, windowBlocks) <= h
  }

  /** Vote `i` is the first vote of its slot since the slot's height was last evicted. */
  ghost predicate IsRetained(history: seq<Observation>, windowBlocks: int64, i: nat, slot: Slot) {
    && i < |history| && InSlot(history[i], slot)
    && Survives(history, windowBlocks, i, slot.height)
    && forall j :: 0 <= j < i && InSlot(history[j], slot) ==> !Survives(history, windowBlocks, j, slot.height)
  }

  lemma {:induction false} SurvivorIsIndexed(history: seq<Observation>, windowBlocks: int64, i: nat, slot: Slot)
    requires i < |history| && InSlot(history[i], slot) && Survives(history, windowBlocks, i, slot.height)
    ensures Lookup(Run(history, windowBlocks).seen, slot).Some?
    decreases |history|
  {
    LookupStep(history, windowBlocks, slot);
    if i < |history| - 1 {
      SurvivorIsIndexed(history[..|history| - 1], windowBlocks, i, slot);
    }
  }

  lemma {:induction false} IndexedIsRetained(history: seq<Observation>, windowBlocks: int64, slot: Slot)
    returns (i: nat)
    requires Lookup(Run(history, windowBlocks).seen, slot).Some?
    ensures IsRetained(history, windowBlocks, i, slot)
    ensures Lookup(Run(history, windowBlocks).seen, slot) == Some(Hex(history[i].Ballot().hash))
    decreases |history|
  {
    var n := |history| - 1;
    LookupStep(history, windowBlocks, slot);
    assert Survives(history, windowBlocks, n, slot.height);
    if Lookup(Run(history[..n], windowBlocks).seen, slot).Some? {
      i := IndexedIsRetained(history[..n], windowBlocks, slot);
      assert history[..n][i] == history[i];
      RetainedExtends(history, windowBlocks, i, slot);
    } else {
      i := n;
      FirstOfSlot(history, windowBlocks, slot);
    }
  }

  lemma RetainedExtends(history: seq<Observation>, windowBlocks: int64, i: nat, slot: Slot)
    requires history != [] && IsRetained(history[..|history| - 1], windowBlocks, i, slot)
    requires Survives(history, windowBlocks, |history| - 1, slot.height)
    ensures IsRetained(history, windowBlocks, i, slot)
  {
    var before := history[..|history| - 1];
    forall j | 0 <= j < i && InSlot(history[j], slot) ensures !Survives(history, windowBlocks, j, slot.height) {
      assert InSlot(before[j], slot);
      var k :| j <= k < |before| && before[k].ForBlock() &&
               Cutoff(before[k].Ballot().height, windowBlocks) > slot.height;
      assert history[k] == before[k];
    }
  }

  lemma FirstOfSlot(history: seq<Observation>, windowBlocks: int64, slot: Slot)
    requires history != [] && InSlot(history[|history| - 1], slot)
    requires Survives(history, windowBlocks, |history| - 1, slot.height)
    requires Lookup(Run(history[..|history| - 1], windowBlocks).seen, slot).None?
    ensures IsRetained(history, windowBlocks, |history| - 1, slot)
  {
    var before := history[..|history| - 1];
    forall j | 0 <= j < |before| && InSlot(history[j], slot) ensures !Survives(history, windowBlocks, j, slot.height) {
      if Survives(before, windowBlocks, j, slot.height) {
        SurvivorIsIndexed(before, windowBlocks, j, slot);
      } else {
        var k :| j <= k < |before| && before[k].ForBlock() &&
                 Cutoff(before[k].Ballot().height, windowBlocks) > slot.height;
        assert history[k] == before[k];
      }
    }
  }

  lemma RetainedUnique(history: seq<Observation>, windowBlocks: int64, i: nat, j: nat, slot: Slot)
    requires IsRetained(history, windowBlocks, i, slot) && IsRetained(history, windowBlocks, j, slot)
    ensures i == j
  {}

  // ----- what is emitted

  /** A vote is logged as an equivocation exactly when it names another block than the retained
      vote of its slot. */
  lemma EmitsIff(history: seq<Observation>, o: Observation, windowBlocks: int64)
    ensures (Run(history + [o], windowBlocks).emitted != Run(history, windowBlocks).emitted)
              <==> (o.ForBlock() && exists i: nat :: IsRetained(history, windowBlocks, i, SlotOf(o.Ballot()))
                                              && history[i].Ballot().hash != o.Ballot().hash)
  {
    var log := Run(history, windowBlocks);
    assert (history + [o])[..|history|] == history;
    if o.ForBlock() {
      var v := o.Ballot();
      var slot := SlotOf(v);
      assert Detected(log.seen, v, o.now) != []
             <==> Lookup(log.seen, slot).Some? && Lookup(log.seen, slot) != Some(Hex(v.hash));
      if Lookup(log.seen, slot).Some? {
        var i := IndexedIsRetained(history, windowBlocks, slot);
        HexInjective(history[i].Ballot().hash, v.hash);
        forall j: nat | IsRetained(history, windowBlocks, j, slot) ensures j == i {
          RetainedUnique(history, windowBlocks, i, j, slot);
        }
      } else {
        forall j: nat | IsRetained(history, windowBlocks, j, slot) ensures false {
          SurvivorIsIndexed(history, windowBlocks, j, slot);
        }
      }
    }
  }

  /** `e` reports observations `i` and `j` of the run: the same slot, different blocks. */
  ghost predicate Reports(history: seq<Observation>, e: EquivocationEvent, i: nat, j: nat) {
    && i < j < |history|
    && history[i].event.EventDataVote? && history[i].event.vote.Some?
    && history[j].event.EventDataVote? && history[j].event.vote.Some?
    && var a, b := history[i].event.vote.value, history[j].event.vote.value;
       && SlotOf(a) == SlotOf(b) && a.hash != [] && b.hash != [] && a.hash != b.hash
       && e == EquivocationEvent(Hex(a.address), a.height, a.round, if a.voteType == 2 then "precommit" else "prevote",
                                 Hex(a.hash), Hex(b.hash), history[j].now)
  }

  /** `e` reports two votes of this very slot. */
  ghost predicate ReportsSlot(history: seq<Observation>, e: EquivocationEvent, slot: Slot) {
    exists i: nat, j: nat :: Reports(history, e, i, j) && InSlot(history[i], slot)
  }

  ghost predicate SlotReported(history: seq<Observation>, emitted: seq<EquivocationEvent>, slot: Slot) {
    exists e :: e in emitted && ReportsSlot(history, e, slot)
  }

  /** No false accusation: every event ever emitted is backed by two conflicting votes. */
  lemma {:induction false} EveryEventIsBacked(history: seq<Observation>, windowBlocks: int64, e: EquivocationEvent)
    requires e in Run(history, windowBlocks).emitted
    ensures exists i: nat, j: nat :: Reports(history, e, i, j)
    decreases |history|
  {
    var n := |history| - 1;
    var before, o := history[..n], history[n];
    var log := Run(before, windowBlocks);
    if e in log.emitted {
      EveryEventIsBacked(before, windowBlocks, e);
      var i: nat, j: nat :| Reports(before, e, i, j);
      assert Reports(history, e, i, j);
    } else {
      var v := o.Ballot();
      var i := IndexedIsRetained(before, windowBlocks, SlotOf(v));
      HexInjective(before[i].Ballot().hash, v.hash);
      assert Reports(history, e, i, n);
    }
  }

  /** No missed conflict inside the window: two conflicting votes of a slot, with no eviction of its
      height between them, leave an event that reports two votes of that slot in the log of everything
      emitted. */
  lemma ConflictIsEmitted(history: seq<Observation>, windowBlocks: int64, i: nat, j: nat, slot: Slot)
    requires i < j < |history| && InSlot(history[i], slot) && InSlot(history[j], slot)
    requires history[i].event.vote.value.hash != history[j].event.vote.value.hash
    requires forall k :: i <= k < j && history[k].ForBlock() ==>
               Cutoff(history[k].Ballot().height, windowBlocks) <= slot.height
    ensures SlotReported(history, Run(history[..j + 1], windowBlocks).emitted, slot)
  {
    var r := RetainedBy(history, windowBlocks, i, j, slot);
    ReportedFrom(history, windowBlocks, r, i, j, slot);
  }

  lemma ReportedFrom(history: seq<Observation>, windowBlocks: int64, r: nat, i: nat, j: nat, slot: Slot)
    requires r <= i < j < |history| && IsRetained(history[..j], windowBlocks, r, slot)
    requires InSlot(history[i], slot) && InSlot(history[j], slot)
    requires history[i].Ballot().hash != history[j].Ballot().hash
    ensures SlotReported(history, Run(history[..j + 1], windowBlocks).emitted, slot)
  {
    if history[r].Ballot().hash != history[j].Ballot().hash {
      DisagreementEmits(history, windowBlocks, r, j, slot);
    } else {
      // the retained vote agrees with vote j, so it is earlier than vote i and disagrees with it
      RetainedEarlier(history, windowBlocks, r, i, j, slot);
      EarlierReported(history, windowBlocks, r, i, j, slot);
    }
  }

  lemma EarlierReported(history: seq<Observation>, windowBlocks: int64, r: nat, i: nat, j: nat, slot: Slot)
    requires r < i < j < |history| && IsRetained(history[..i], windowBlocks, r, slot)
    requires InSlot(history[i], slot) && history[r].Ballot().hash != history[i].Ballot().hash
    ensures SlotReported(history, Run(history[..j + 1], windowBlocks).emitted, slot)
  {
    DisagreementEmits(history, windowBlocks, r, i, slot);
    StillReported(history, windowBlocks, i + 1, j + 1, slot);
  }

  /** A vote that survives up to `j` is retained there, or an earlier vote of its slot is. */
  lemma RetainedBy(history: seq<Observation>, windowBlocks: int64, i: nat, j: nat, slot: Slot) returns (r: nat)
    requires i < j <= |history| && InSlot(history[i], slot)
    requires forall k :: i <= k < j && history[k].ForBlock() ==>
               Cutoff(history[k].Ballot().height, windowBlocks) <= slot.height
    ensures IsRetained(history[..j], windowBlocks, r, slot) && r <= i
  {
    var before := history[..j];
    assert before[i] == history[i];
    assert Survives(before, windowBlocks, i, slot.height);
    SurvivorIsIndexed(before, windowBlocks, i, slot);
    r := IndexedIsRetained(before, windowBlocks, slot);
  }

  lemma StillReported(history: seq<Observation>, windowBlocks: int64, a: nat, b: nat, slot: Slot)
    requires a <= b <= |history| && SlotReported(history, Run(history[..a], windowBlocks).emitted, slot)
    ensures SlotReported(history, Run(history[..b], windowBlocks).emitted, slot)
  {
    EmittedGrowsTo(history, windowBlocks, a, b);
    ReportedLater(history, Run(history[..a], windowBlocks).emitted, Run(history[..b], windowBlocks).emitted, slot);
  }

  lemma EmittedGrowsTo(history: seq<Observation>, windowBlocks: int64, a: nat, b: nat)
    requires a <= b <= |history|
    ensures Run(history[..a], windowBlocks).emitted <= Run(history[..b], windowBlocks).emitted
  {
    assert history[..b][..a] == history[..a];
    EmittedGrows(history[..b], windowBlocks, a);
  }

  lemma ReportedLater(history: seq<Observation>, log: seq<EquivocationEvent>, later: seq<EquivocationEvent>, slot: Slot)
    requires SlotReported(history, log, slot) && log <= later
    ensures SlotReported(history, later, slot)
  {
    var e :| e in log && ReportsSlot(history, e, slot);
    assert e in later;
  }

  lemma DisagreementEmits(history: seq<Observation>, windowBlocks: int64, r: nat, j: nat, slot: Slot)
    requires j < |history| && IsRetained(history[..j], windowBlocks, r, slot) && InSlot(history[j], slot)
    requires history[r].Ballot().hash != history[j].Ballot().hash
    ensures SlotReported(history, Run(history[..j + 1], windowBlocks).emitted, slot)
  {
    var v, seen := history[j].Ballot(), Run(history[..j], windowBlocks).seen;
    RetainedIsIndexed(history[..j], windowBlocks, r, slot);
    DetectedFor(seen, v, history[j].now, history[r].Ballot().hash);
    EmittedStep(history, windowBlocks, j);
    var e := Detected(seen, v, history[j].now)[0];
    assert e in Run(history[..j + 1], windowBlocks).emitted;
    assert Reports(history, e, r, j);
    assert ReportsSlot(history, e, slot);
  }

  /** With the hash `first` retained for its slot, a vote is logged exactly when it names another block. */
  lemma DetectedFor(seen: Seen, v: Vote, now: int, first: seq<byte>)
    requires Lookup(seen, SlotOf(v)) == Some(Hex(first))
    ensures Detected(seen, v, now) ==
              if first == v.hash then []
              else [EquivocationEvent(Hex(v.address), v.height, v.round, VoteTypeName(v.voteType),
                                      Hex(first), Hex(v.hash), now)]
  {
    HexInjective(first, v.hash);
  }

  lemma EmittedStep(history: seq<Observation>, windowBlocks: int64, j: nat)
    requires j < |history| && history[j].ForBlock()
    ensures Run(history[..j + 1], windowBlocks).emitted
         == Run(history[..j], windowBlocks).emitted
            + Detected(Run(history[..j], windowBlocks).seen, history[j].Ballot(), history[j].now)
  {
    assert history[..j + 1][..j] == history[..j];
  }

  lemma RetainedIsIndexed(history: seq<Observation>, windowBlocks: int64, r: nat, slot: Slot)
    requires IsRetained(history, windowBlocks, r, slot)
    ensures Lookup(Run(history, windowBlocks).seen, slot) == Some(Hex(history[r].Ballot().hash))
  {
    SurvivorIsIndexed(history, windowBlocks, r, slot);
    var r' := IndexedIsRetained(history, windowBlocks, slot);
    RetainedUnique(history, windowBlocks, r, r', slot);
  }

  lemma RetainedEarlier(history: seq<Observation>, windowBlocks: int64, r: nat, i: nat, j: nat, slot: Slot)
    requires r < i <= j <= |history| && IsRetained(history[..j], windowBlocks, r, slot)
    ensures IsRetained(history[..i], windowBlocks, r, slot)
  {
    assert history[..j][..i] == history[..i];
    RetainedPrefix(history[..j], windowBlocks, r, i, slot);
  }

  lemma RetainedPrefix(history: seq<Observation>, windowBlocks: int64, r: nat, i: nat, slot: Slot)
    requires r < i <= |history| && IsRetained(history, windowBlocks, r, slot)
    ensures IsRetained(history[..i], windowBlocks, r, slot)
  {
    var a := history[..i];
    assert forall k :: 0 <= k < i ==> a[k] == history[k];
    forall q | 0 <= q < r && InSlot(a[q], slot) ensures !Survives(a, windowBlocks, q, slot.height) {
      assert InSlot(history[q], slot);
      var k :| q <= k < |history| && history[k].ForBlock() &&
               Cutoff(history[k].Ballot().height, windowBlocks) > slot.height;
      assert k < r;
      assert a[k] == history[k];
    }
  }

  /** The log of everything emitted only ever gains entries at its end. */
  lemma {:induction false} EmittedGrows(history: seq<Observation>, windowBlocks: int64, n: nat)
    requires n <= |history|
    ensures Run(history[..n], windowBlocks).emitted <= Run(history, windowBlocks).emitted
    decreases |history|
  {
    if n < |history| {
      assert history[..|history| - 1][..n] == history[..n];
      EmittedGrows(history[..|history| - 1], windowBlocks, n);
    } else {
      assert history[..n] == history;
    }
  }

  /** The log of the detector holds the last 256 of all events ever emitted, in order, or all of them. */
  lemma LogHoldsLatest(detector: Detector)
    requires detector.Valid()
    ensures HoldsLast(detector.events, Run(detector.history, detector.windowBlocks).emitted, 256)
  {
    LatestIs(Run(detector.history, detector.windowBlocks).emitted, 256);
  }

  // ----- one event per disagreeing vote, not one per slot

  /** Events emitted at votes of `slot`. */
  function SlotEvents(history: seq<Observation>, windowBlocks: int64, slot: Slot): nat {
    if history == [] then 0
    else
      var n := |history| - 1;
      var o := history[n];
      SlotEvents(history[..n], windowBlocks, slot)
      + (if InSlot(o, slot) then |Detected(Run(history[..n], windowBlocks).seen, o.Ballot(), o.now)| else 0)
  }

  /** Vote `j` is a vote of `slot` that names another block than the vote retained when it arrives. */
  ghost predicate Disagrees(history: seq<Observation>, windowBlocks: int64, slot: Slot, j: nat) {
    && j < |history| && InSlot(history[j], slot)
    && exists i: nat :: IsRetained(history[..j], windowBlocks, i, slot)
                        && history[i].Ballot().hash != history[j].Ballot().hash
  }

  ghost function DisagreeingVotes(history: seq<Observation>, windowBlocks: int64, slot: Slot): set<nat> {
    set j: nat | j < |history| && Disagrees(history, windowBlocks, slot, j)
  }

  /** Over every run, evictions included, a slot gets one event for each vote that disagrees with the one
      retained when it arrives, and no other. */
  lemma {:induction false} SlotEventsAreDisagreements(history: seq<Observation>, windowBlocks: int64, slot: Slot)
    ensures SlotEvents(history, windowBlocks, slot) == |DisagreeingVotes(history, windowBlocks, slot)|
    decreases |history|
  {
    if history != [] {
      var n := |history| - 1;
      SlotEventsAreDisagreements(history[..n], windowBlocks, slot);
      DisagreeingStep(history, windowBlocks, slot);
      DisagreementIsOneEvent(history, windowBlocks, slot);
    }
  }

  lemma DisagreeingStep(history: seq<Observation>, windowBlocks: int64, slot: Slot)
    requires history != []
    ensures var n := |history| - 1;
            var before := DisagreeingVotes(history[..n], windowBlocks, slot);
            && n !in before
            && DisagreeingVotes(history, windowBlocks, slot)
               == if Disagrees(history, windowBlocks, slot, n) then before + {n} else before
  {
    var n := |history| - 1;
    forall j: nat | j < n
      ensures Disagrees(history[..n], windowBlocks, slot, j) <==> Disagrees(history, windowBlocks, slot, j)
    {
      assert history[..n][..j] == history[..j];
    }
  }

  lemma DisagreementIsOneEvent(history: seq<Observation>, windowBlocks: int64, slot: Slot)
    requires history != []
    ensures var n := |history| - 1;
            var seen := Run(history[..n], windowBlocks).seen;
            InSlot(history[n], slot) ==>
              |Detected(seen, history[n].Ballot(), history[n].now)|
                == if Disagrees(history, windowBlocks, slot, n) then 1 else 0
  {
    var n := |history| - 1;
    if i: nat :| IsRetained(history[..n], windowBlocks, i, slot) {
      if InSlot(history[n], slot) {
        EmitsOnDisagreement(history[..n], windowBlocks, i, slot, history[n]);
        OnlyRetained(history[..n], windowBlocks, i, slot);
      }
    } else {
      if Lookup(Run(history[..n], windowBlocks).seen, slot).Some? {
        var i := IndexedIsRetained(history[..n], windowBlocks, slot);
      }
    }
  }

  lemma OnlyRetained(history: seq<Observation>, windowBlocks: int64, i: nat, slot: Slot)
    requires IsRetained(history, windowBlocks, i, slot)
    ensures forall j: nat :: IsRetained(history, windowBlocks, j, slot) ==> j == i
  {
    forall j: nat | IsRetained(history, windowBlocks, j, slot) ensures j == i {
      RetainedUnique(history, windowBlocks, i, j, slot);
    }
  }

  /** A slot gets exactly one event if and only if exactly one vote disagrees. */
  lemma OneEventIff(history: seq<Observation>, windowBlocks: int64, slot: Slot)
    ensures SlotEvents(history, windowBlocks, slot) == 1
       <==> exists j: nat :: Disagrees(history, windowBlocks, slot, j)
                             && forall k: nat :: Disagrees(history, windowBlocks, slot, k) ==> k == j
  {
    var votes := DisagreeingVotes(history, windowBlocks, slot);
    SlotEventsAreDisagreements(history, windowBlocks, slot);
    if |votes| == 1 {
      var j :| j in votes;
      SubsetSize({j}, votes);
      DifferenceSize(votes, {j});
      assert votes - {j} == {};
      assert Disagrees(history, windowBlocks, slot, j);
      forall k: nat | Disagrees(history, windowBlocks, slot, k) ensures k == j {
        assert k in votes;
      }
    }
    if j: nat :| Disagrees(history, windowBlocks, slot, j) &&
                 forall k: nat :: Disagrees(history, windowBlocks, slot, k) ==> k == j
    {
      assert votes == {j};
    }
  }

  /** Votes of `slot` after position `f` that name another block than vote `f`. */
  ghost function LaterDisagreements(history: seq<Observation>, f: nat, slot: Slot): set<nat>
    requires f < |history| && history[f].ForBlock()
  {
    set j: nat | f < j < |history| && InSlot(history[j], slot) && history[j].Ballot().hash != history[f].Ballot().hash
  }

  /** While the height is not evicted: every later vote that disagrees with the retained one is logged. */
  lemma OneEventPerDisagreement(history: seq<Observation>, windowBlocks: int64, f: nat, slot: Slot)
    requires IsRetained(history, windowBlocks, f, slot)
    ensures SlotEvents(history, windowBlocks, slot)
         == SlotEvents(history[..f + 1], windowBlocks, slot) + |LaterDisagreements(history, f, slot)|
  {
    SlotEventsAreDisagreements(history, windowBlocks, slot);
    SlotEventsAreDisagreements(history[..f + 1], windowBlocks, slot);
    DisagreementsSplit(history, windowBlocks, f, slot);
  }

  lemma DisagreementsSplit(history: seq<Observation>, windowBlocks: int64, f: nat, slot: Slot)
    requires IsRetained(history, windowBlocks, f, slot)
    ensures |DisagreeingVotes(history, windowBlocks, slot)|
         == |DisagreeingVotes(history[..f + 1], windowBlocks, slot)| + |LaterDisagreements(history, f, slot)|
  {
    var early, late := DisagreeingVotes(history[..f + 1], windowBlocks, slot), LaterDisagreements(history, f, slot);
    forall j: nat ensures Disagrees(history, windowBlocks, slot, j) <==> j in early || j in late {
      if j <= f {
        assert history[..f + 1][..j] == history[..j];
      } else if j < |history| {
        RetainedAgainst(history, windowBlocks, f, slot, j);
      }
    }
    assert DisagreeingVotes(history, windowBlocks, slot) == early + late && early * late == {};
  }

  lemma RetainedAgainst(history: seq<Observation>, windowBlocks: int64, f: nat, slot: Slot, j: nat)
    requires f < j < |history| && IsRetained(history, windowBlocks, f, slot)
    ensures Disagrees(history, windowBlocks, slot, j)
       <==> InSlot(history[j], slot) && history[j].Ballot().hash != history[f].Ballot().hash
  {
    RetainedPrefix(history, windowBlocks, f, j, slot);
    OnlyRetained(history[..j], windowBlocks, f, slot);
  }

  lemma EmitsOnDisagreement(history: seq<Observation>, windowBlocks: int64, f: nat, slot: Slot, o: Observation)
    requires IsRetained(history, windowBlocks, f, slot) && InSlot(o, slot)
    ensures |Detected(Run(history, windowBlocks).seen, o.Ballot(), o.now)|
         == if history[f].Ballot().hash != o.Ballot().hash then 1 else 0
  {
    RetainedIsIndexed(history, windowBlocks, f, slot);
    DetectedFor(Run(history, windowBlocks).seen, o.Ballot(), o.now, history[f].Ballot().hash);
  }

  /** Three votes of one slot, for blocks A, B and B again: two events, although the source's comment
      says exactly one. */
  lemma RepeatedConflictIsLoggedTwice(a: Vote, b: Vote, windowBlocks: int64)
    requires SlotOf(a) == SlotOf(b) && a.hash != b.hash && a.hash != [] && b.hash != []
    requires Cutoff(a.height, windowBlocks) <= a.height
    ensures var history := [Observation(EventDataVote(Some(a)), 0), Observation(EventDataVote(Some(b)), 1),
                            Observation(EventDataVote(Some(b)), 2)];
            SlotEvents(history, windowBlocks, SlotOf(a)) == 2
  {
    var history := [Observation(EventDataVote(Some(a)), 0), Observation(EventDataVote(Some(b)), 1),
                    Observation(EventDataVote(Some(b)), 2)];
    assert IsRetained(history, windowBlocks, 0, SlotOf(a));
    assert LaterDisagreements(history, 0, SlotOf(a)) == {1, 2};
    FirstIsRetained(history, windowBlocks, SlotOf(a));
  }

  /** When the first vote of the run stays retained, the events are those of the later votes. */
  lemma FirstIsRetained(history: seq<Observation>, windowBlocks: int64, slot: Slot)
    requires IsRetained(history, windowBlocks, 0, slot)
    ensures SlotEvents(history, windowBlocks, slot) == |LaterDisagreements(history, 0, slot)|
  {
    OneEventPerDisagreement(history, windowBlocks, 0, slot);
    FirstVoteIsSilent(history[0], windowBlocks, slot);
    assert history[..1] == [history[0]];
  }

  lemma FirstVoteIsSilent(x: Observation, windowBlocks: int64, slot: Slot)
    ensures SlotEvents([x], windowBlocks, slot) == 0
  {
    assert [x][..0] == [];
    assert Run([], windowBlocks).seen == map[];
  }

  // ----- the index stays small

  /** No vote arrives more than `d` heights behind one seen before it. */
  ghost predicate LateByAtMost(history: seq<Observation>, d: nat) {
    forall i, j :: 0 <= i <= j < |history| && history[i].ForBlock() && history[j].ForBlock() ==>
      history[j].Ballot().height >= history[i].Ballot().height - d
  }

  ghost predicate IsHighest(history: seq<Observation>, top: int) {
    && (exists i :: 0 <= i < |history| && history[i].ForBlock() && history[i].Ballot().height == top)
    && (forall i :: 0 <= i < |history| && history[i].ForBlock() ==> history[i].Ballot().height <= top)
  }

  lemma {:induction false} BucketsAreRecent(history: seq<Observation>, windowBlocks: int64, d: nat, top: int)
    requires LateByAtMost(history, d) && IsHighest(history, top)
    ensures forall h :: h in Run(history, windowBlocks).seen ==> top - d - Window(windowBlocks) <= h <= top
    decreases |history|
  {
    var n := |history| - 1;
    BucketsWereVoted(history, windowBlocks);
    if !history[n].ForBlock() {
      HighestBefore(history, top);
      BucketsAreRecent(history[..n], windowBlocks, d, top);
    } else {
      assert history[n].Ballot().height >= top - d;
    }
  }

  lemma HighestBefore(history: seq<Observation>, top: int)
    requires IsHighest(history, top) && !history[|history| - 1].ForBlock()
    ensures IsHighest(history[..|history| - 1], top)
  {
    var i :| 0 <= i < |history| && history[i].ForBlock() && history[i].Ballot().height == top;
    assert history[..|history| - 1][i] == history[i];
  }

  lemma {:induction false} BucketsWereVoted(history: seq<Observation>, windowBlocks: int64)
    ensures forall h :: h in Run(history, windowBlocks).seen ==>
              exists i :: 0 <= i < |history| && history[i].ForBlock() && history[i].Ballot().height == h
    decreases |history|
  {
    if history != [] {
      var n := |history| - 1;
      BucketsWereVoted(history[..n], windowBlocks);
      forall h | h in Run(history, windowBlocks).seen
        ensures exists i :: 0 <= i < |history| && history[i].ForBlock() && history[i].Ballot().height == h
      {
        if h in Run(history[..n], windowBlocks).seen {
          var i :| 0 <= i < n && history[..n][i].ForBlock() && history[..n][i].Ballot().height == h;
          assert history[i].ForBlock() && history[i].Ballot().height == h;
        }
      }
    }
  }

  /** Memory bound: with votes at most `d` heights late, at most window + d + 1 heights are indexed. */
  lemma IndexIsBounded(history: seq<Observation>, windowBlocks: int64, d: nat, top: int)
    requires LateByAtMost(history, d) && IsHighest(history, top)
    ensures |Run(history, windowBlocks).seen| <= Window(windowBlocks) + d + 1
  {
    BucketsAreRecent(history, windowBlocks, d, top);
    KeysInInterval(Run(history, windowBlocks).seen, top - d - Window(windowBlocks), top);
  }

  lemma KeysInInterval(seen: Seen, lo: int, hi: int)
    requires lo <= hi + 1 && forall h :: h in seen ==> lo <= h <= hi
    ensures |seen| <= hi - lo + 1
  {
    var keys: set<int> := seen.Keys;
    assert |keys| == |seen.Keys|;
    SubsetSize(keys, Interval(lo, hi));
  }

  // ----- flags on the health rows

  datatype HealthRow = HealthRow(address: string, equivocated: bool)

  /** Every address named by a retained event belongs to a validator seen voting for two blocks. */
  lemma FlagsAreBacked(history: seq<Observation>, windowBlocks: int64, e: EquivocationEvent)
    requires e in Latest(Run(history, windowBlocks).emitted, MAX_EQUIV_EVENTS)
    ensures exists i: nat, j: nat :: Reports(history, e, i, j) && Hex(history[i].Ballot().address) == e.validatorAddress
  {
    EveryEventIsBacked(history, windowBlocks, e);
    var i: nat, j: nat :| Reports(history, e, i, j);
    assert Hex(history[i].Ballot().address) == e.validatorAddress;
  }

  /** Marks the rows of validators named by the retained events, in place. */
  method FlagRows(rows: array<HealthRow>, detector: Detector)
    modifies rows
    ensures forall i :: 0 <= i < rows.Length ==>
              && rows[i].address == old(rows[i].address)
              && rows[i].equivocated == (old(rows[i].equivocated)
                   || exists e :: e in detector.events && e.validatorAddress == rows[i].address)
  {
    if |detector.events| == 0 {
      return;
    }
    var flagged: set<string> := {};
    for k := 0 to |detector.events|
      invariant forall a :: a in flagged <==> exists j :: 0 <= j < k && detector.events[j].validatorAddress == a
    {
      flagged := flagged + {detector.events[k].validatorAddress};
    }
    for i := 0 to rows.Length
      invariant forall j :: i <= j < rows.Length ==> rows[j] == old(rows[j])
      invariant forall j :: 0 <= j < i ==>
        rows[j] == old(rows[j]).(equivocated := old(rows[j]).equivocated || old(rows[j]).address in flagged)
    {
      if rows[i].address in flagged {
        rows[i] := rows[i].(equivocated := true);
      }
    }
  }
}
