/** Block intervals and terminal rounds, recorded when the observed height moves on. */
module BlockTiming {
  import opened Int64
  import opened Durations
  import opened Rings
  import opened Sums

  const RING_CAPACITY: nat := 200

  /** One call of observe: the consensus height and round, and the clock. */
  datatype Observation = Observation(height: int64, round: int32, now: Time)

  /** The timing state after a run, with the complete logs the rings are cut from. */
  datatype Timing = Timing(lastHeight: int64, lastHeightChangeAt: Time, curHeightMaxRound: int32,
                           intervals: seq<int64>, maxRounds: seq<int32>)

  const START: Timing := Timing(0, ZERO_TIME, 0, [], [])

  function Step(t: Timing, o: Observation): Timing {
    if o.height == t.lastHeight then
      if o.round > t.curHeightMaxRound then t.(curHeightMaxRound := o.round) else t
    else
      var ascended := t.lastHeight != 0 && o.height > t.lastHeight;
      Timing(o.height, o.now, o.round,
             if ascended && t.lastHeightChangeAt != ZERO_TIME
             then t.intervals + [Sub(o.now, t.lastHeightChangeAt)] else t.intervals,
             if ascended then t.maxRounds + [t.curHeightMaxRound] else t.maxRounds)
  }

  function Run(history: seq<Observation>): Timing {
    if history == [] then START else Step(Run(history[..|history| - 1]), history[|history| - 1])
  }

  class Builder {
    var lastHeight: int64
    var lastHeightChangeAt: Time
    var blockIntervals: seq<int64>
    var maxRoundPerHeight: seq<int32>
    var curHeightMaxRound: int32
    ghost var history: seq<Observation>

    /** The rings are the latest 200 entries of everything ever appended. */
    ghost predicate Valid()
      reads this
    {
      var t := Run(history);
      && lastHeight == t.lastHeight && lastHeightChangeAt == t.lastHeightChangeAt
      && curHeightMaxRound == t.curHeightMaxRound
      && blockIntervals == Latest(t.intervals, RING_CAPACITY) && maxRoundPerHeight == Latest(t.maxRounds, RING_CAPACITY)
    }

    constructor ()
      ensures Valid() && history == []
    {
      lastHeight, lastHeightChangeAt, curHeightMaxRound := 0, ZERO_TIME, 0;
      blockIntervals, maxRoundPerHeight, history := [], [], [];
    }

    method Observe(height: int64, stateRound: int64, now: Time)
      requires Valid()
      modifies this
      ensures Valid() && history == old(history) + [Observation(height, ToInt32(stateRound), now)]
    {
      var round := ToInt32(stateRound);
      RunAppend(history, Observation(height, round, now));
      history := history + [Observation(height, round, now)];
      if height == lastHeight {
        if round > curHeightMaxRound {
          curHeightMaxRound := round;
        }
        return;
      }
      if lastHeight != 0 && height > lastHeight {
        RecordHeight(now, old(Run(history)));
      }
      lastHeight := height;
      lastHeightChangeAt := now;
      curHeightMaxRound := round;
    }

    /** Records the height that is being left. */
    method RecordHeight(now: Time, ghost t: Timing)
      requires blockIntervals == Latest(t.intervals, RING_CAPACITY) &&
               maxRoundPerHeight == Latest(t.maxRounds, RING_CAPACITY)
      modifies `blockIntervals, `maxRoundPerHeight
      ensures blockIntervals
              == Latest(if lastHeightChangeAt != ZERO_TIME then t.intervals + [Sub(now, lastHeightChangeAt)]
                                       else t.intervals, RING_CAPACITY)
      ensures maxRoundPerHeight == Latest(t.maxRounds + [curHeightMaxRound], RING_CAPACITY)
    {
      if lastHeightChangeAt != ZERO_TIME {
        LatestAppend(t.intervals, [Sub(now, lastHeightChangeAt)], RING_CAPACITY);
        blockIntervals := AppendRing(blockIntervals, Sub(now, lastHeightChangeAt));
      }
      LatestAppend(t.maxRounds, [curHeightMaxRound], RING_CAPACITY);
      maxRoundPerHeight := AppendRing(maxRoundPerHeight, curHeightMaxRound);
    }
  }

  lemma RunAppend(history: seq<Observation>, o: Observation)
    ensures Run(history + [o]) == Step(Run(history), o)
  {
    assert (history + [o])[..|history|] == history;
  }

  method AppendRing<T>(s: seq<T>, v: T) returns (r: seq<T>)
    ensures r == Latest(s + [v], RING_CAPACITY)
  {
    r := s + [v];
    if |r| > RING_CAPACITY {
      r := r[|r| - RING_CAPACITY..];
    }
  }

  // ----- stays: maximal stretches of observations at one height

  /** The first observation of the stay that observation `i` belongs to. */
  function StayStart(history: seq<Observation>, i: nat): (s: nat)
    requires i < |history|
    ensures s <= i && forall k :: s <= k <= i ==> history[k].height == history[i].height
    ensures s == 0 || history[s - 1].height != history[i].height
  {
    if i == 0 || history[i - 1].height != history[i].height then i else StayStart(history, i - 1)
  }

  /** `m` is the greatest round seen from `s` to `i`. */
  ghost predicate IsMaxRound(history: seq<Observation>, s: nat, i: nat, m: int32)
    requires s <= i < |history|
  {
    && (exists k :: s <= k <= i && history[k].round == m)
    && (forall k :: s <= k <= i ==> history[k].round <= m)
  }

  ghost predicate ClockRuns(history: seq<Observation>) {
    forall i :: 0 <= i < |history| ==> history[i].now != ZERO_TIME
  }

  /** During a stay at a real height, the state holds its start time and its greatest round so far. */
  lemma {:induction false} StateOfStay(history: seq<Observation>)
    requires history != [] && history[|history| - 1].height != 0
    ensures var n, t := |history| - 1, Run(history);
            var s := StayStart(history, n);
            && t.lastHeight == history[n].height && t.lastHeightChangeAt == history[s].now
            && IsMaxRound(history, s, n, t.curHeightMaxRound)
  {
    var n := |history| - 1;
    var before := history[..n];
    LastHeightIs(before);
    assert Run(history) == Step(Run(before), history[n]);
    if n > 0 && history[n - 1].height == history[n].height {
      StateOfStay(before);
      StayStartPrefix(history, n - 1);
      var s := StayStart(before, n - 1);
      assert s == StayStart(history, n) && before[s] == history[s];
      MaxRoundStep(history, s, Run(before).curHeightMaxRound);
    } else {
      assert StayStart(history, n) == n;
      assert IsMaxRound(history, n, n, history[n].round);
    }
  }

  lemma MaxRoundStep(history: seq<Observation>, s: nat, m: int32)
    requires s < |history| - 1 && IsMaxRound(history[..|history| - 1], s, |history| - 2, m)
    ensures var n := |history| - 1;
            IsMaxRound(history, s, n, if history[n].round > m then history[n].round else m)
  {
    var n := |history| - 1;
    var before := history[..n];
    var k :| s <= k <= n - 1 && before[k].round == m;
    assert history[k].round == m;
    assert forall j :: s <= j <= n - 1 ==> before[j].round == history[j].round;
  }

  lemma {:induction false} StayStartPrefix(history: seq<Observation>, i: nat)
    requires i + 1 < |history|
    ensures StayStart(history[..|history| - 1], i) == StayStart(history, i)
  {
    if i > 0 && history[i - 1].height == history[i].height {
      StayStartPrefix(history, i - 1);
    }
  }

  lemma {:induction false} LastHeightIs(history: seq<Observation>)
    ensures Run(history).lastHeight == if history == [] then 0 else history[|history| - 1].height
  {
    if history != [] {
      LastHeightIs(history[..|history| - 1]);
    }
  }

  /** Observation `i` is the first one at a height above a real height. */
  predicate IsAscent(history: seq<Observation>, i: nat)
    requires i < |history|
  {
    i > 0 && history[i - 1].height != 0 && history[i].height > history[i - 1].height
  }

  /** The positions of all ascents, in order (AscentsAre). */
  function Ascents(history: seq<Observation>): seq<nat> {
    if history == [] then []
    else
      var n := |history| - 1;
      Ascents(history[..n]) + if IsAscent(history, n) then [n] else []
  }

  lemma {:induction false} AscentsAre(history: seq<Observation>)
    ensures forall k :: 0 <= k < |Ascents(history)| ==>
              var i := Ascents(history)[k];
              0 < i < |history| && history[i - 1].height != 0 && history[i].height > history[i - 1].height
    ensures forall k, l :: 0 <= k < l < |Ascents(history)| ==> Ascents(history)[k] < Ascents(history)[l]
    ensures forall i: nat :: i < |history| && IsAscent(history, i) ==> i in Ascents(history)
  {
    if history != [] {
      var n := |history| - 1;
      AscentsAre(history[..n]);
      forall i: nat | i < n && IsAscent(history, i) ensures i in Ascents(history[..n]) {
        assert IsAscent(history[..n], i);
      }
    }
  }

  /** Entry `k` of both logs describes the stay that ascent `k` ended. */
  ghost predicate DescribesStay(history: seq<Observation>, i: nat, interval: int64, maxRound: int32) {
    && 0 < i < |history|
    && var s := StayStart(history, i - 1);
       interval == Sub(history[i].now, history[s].now) && IsMaxRound(history, s, i - 1, maxRound)
  }

  lemma DescribesLater(history: seq<Observation>, i: nat, interval: int64, maxRound: int32)
    requires history != [] && DescribesStay(history[..|history| - 1], i, interval, maxRound)
    ensures DescribesStay(history, i, interval, maxRound)
  {
    var before := history[..|history| - 1];
    StayStartPrefix(history, i - 1);
    var s := StayStart(before, i - 1);
    var k :| s <= k <= i - 1 && before[k].round == maxRound;
    assert history[k].round == maxRound;
  }

  /** One entry an ascent, and each describes the stay its ascent ended. */
  ghost predicate DescribeAll(history: seq<Observation>, a: seq<nat>, intervals: seq<int64>, maxRounds: seq<int32>) {
    && |intervals| == |maxRounds| == |a|
    && forall k :: 0 <= k < |a| ==> DescribesStay(history, a[k], intervals[k], maxRounds[k])
  }

  lemma EarlierStays(history: seq<Observation>, a: seq<nat>, intervals: seq<int64>, maxRounds: seq<int32>)
    requires history != [] && DescribeAll(history[..|history| - 1], a, intervals, maxRounds)
    ensures DescribeAll(history, a, intervals, maxRounds)
  {
    forall k | 0 <= k < |a| ensures DescribesStay(history, a[k], intervals[k], maxRounds[k]) {
      DescribesLater(history, a[k], intervals[k], maxRounds[k]);
    }
  }

  /** Over every run with a running clock, both logs have one entry an ascent, in order: the time from
      the first observation of the height that was left to the ascent, and its greatest round. */
  lemma {:induction false} LogsDescribeStays(history: seq<Observation>)
    requires ClockRuns(history)
    ensures DescribeAll(history, Ascents(history), Run(history).intervals, Run(history).maxRounds)
  {
    if history != [] {
      var n := |history| - 1;
      var before := history[..n];
      var t, a := Run(before), Ascents(before);
      LogsDescribeStays(before);
      EarlierStays(history, a, t.intervals, t.maxRounds);
      LastHeightIs(before);
      if IsAscent(history, n) {
        AscentEntry(history);
      }
    }
  }

  lemma AscentEntry(history: seq<Observation>)
    requires ClockRuns(history) && history != [] && IsAscent(history, |history| - 1)
    ensures var n := |history| - 1;
            var t := Run(history[..n]);
            && t.lastHeightChangeAt != ZERO_TIME
            && DescribesStay(history, n, Sub(history[n].now, t.lastHeightChangeAt), t.curHeightMaxRound)
  {
    var n := |history| - 1;
    var before := history[..n];
    StateOfStay(before);
    StayStartPrefix(history, n - 1);
    var s, m := StayStart(before, n - 1), Run(before).curHeightMaxRound;
    var k :| s <= k <= n - 1 && before[k].round == m;
    assert history[k].round == m && history[s].now == before[s].now;
  }

  /** One entry for each of the last 200 of the ascents `a`, in order, that describes the stay it ended. */
  ghost predicate DescribeLast(history: seq<Observation>, a: seq<nat>, intervals: seq<int64>, maxRounds: seq<int32>) {
    var n := |intervals|;
    && n == |maxRounds| == (if |a| < 200 then |a| else 200)
    && forall k :: 0 <= k < n ==> DescribesStay(history, a[|a| - n + k], intervals[k], maxRounds[k])
  }

  /** Over every run with a running clock both rings describe the stays that the last 200 ascents ended. */
  lemma RingsDescribeLastStays(b: Builder)
    requires b.Valid() && ClockRuns(b.history)
    ensures DescribeLast(b.history, Ascents(b.history), b.blockIntervals, b.maxRoundPerHeight)
  {
    var t := Run(b.history);
    LogsDescribeStays(b.history);
    LatestIs(t.intervals, 200);
    LatestIs(t.maxRounds, 200);
    LastEntries(b.history, Ascents(b.history), t.intervals, t.maxRounds, b.blockIntervals, b.maxRoundPerHeight);
  }

  lemma LastEntries(history: seq<Observation>, a: seq<nat>, intervals: seq<int64>, maxRounds: seq<int32>,
                    lastIntervals: seq<int64>, lastRounds: seq<int32>)
    requires DescribeAll(history, a, intervals, maxRounds)
    requires HoldsLast(lastIntervals, intervals, 200) && HoldsLast(lastRounds, maxRounds, 200)
    ensures DescribeLast(history, a, lastIntervals, lastRounds)
  {
    forall k | 0 <= k < |lastIntervals|
      ensures DescribesStay(history, a[|a| - |lastIntervals| + k], lastIntervals[k], lastRounds[k])
    {
      LastEntry(intervals, lastIntervals, k);
      LastEntry(maxRounds, lastRounds, k);
      EntryDescribes(history, a, intervals, maxRounds, |a| - |lastIntervals| + k);
    }
  }

  lemma LastEntry<T>(s: seq<T>, last: seq<T>, k: nat)
    requires HoldsLast(last, s, 200) && k < |last|
    ensures last[k] == s[|s| - |last| + k]
  {}

  lemma EntryDescribes(history: seq<Observation>, a: seq<nat>, intervals: seq<int64>, maxRounds: seq<int32>, i: nat)
    requires DescribeAll(history, a, intervals, maxRounds) && i < |a|
    ensures DescribesStay(history, a[i], intervals[i], maxRounds[i])
  {}

  // ----- the intervals telescope

  ghost predicate HeightsRise(history: seq<Observation>) {
    forall i, j :: 0 <= i <= j < |history| ==> history[i].height <= history[j].height
  }

  /** No time between observations is longer than a duration can hold. */
  ghost predicate GapsFit(history: seq<Observation>) {
    forall i, j :: 0 <= i <= j < |history| ==> MIN64 <= history[j].now - history[i].now <= MAX64
  }

  /** The first observation at a height other than zero. */
  function FirstReal(history: seq<Observation>): nat {
    if history == [] || history[0].height != 0 then 0 else 1 + FirstReal(history[1..])
  }

  lemma {:induction false} FirstRealIs(history: seq<Observation>)
    ensures FirstReal(history) <= |history|
    ensures forall i :: 0 <= i < FirstReal(history) ==> history[i].height == 0
    ensures FirstReal(history) < |history| ==> history[FirstReal(history)].height != 0
  {
    if history != [] && history[0].height == 0 {
      FirstRealIs(history[1..]);
    }
  }

  /** One more observation adds to the sum exactly what it adds to the time of the latest change. */
  lemma IntervalStep(before: Timing, o: Observation)
    requires before.lastHeight > 0 && before.lastHeightChangeAt != ZERO_TIME && o.height >= before.lastHeight
    requires MIN64 <= o.now - before.lastHeightChangeAt <= MAX64
    ensures Sum(Step(before, o).intervals)
         == Sum(before.intervals) + (Step(before, o).lastHeightChangeAt - before.lastHeightChangeAt)
  {
    if o.height > before.lastHeight {
      var d := Sub(o.now, before.lastHeightChangeAt);
      SumAppend(before.intervals, [d]);
      assert Sum([d]) == d + Sum([]);
    }
  }

  lemma {:induction false} FirstRealPrefix(history: seq<Observation>)
    requires history != [] && FirstReal(history) < |history| - 1
    ensures FirstReal(history[..|history| - 1]) == FirstReal(history)
  {
    if history[0].height == 0 {
      assert history[..|history| - 1][1..] == history[1..][..|history| - 2];
      FirstRealPrefix(history[1..]);
    }
  }

  /** While heights never fall, all the intervals ever recorded add up to the time from the first real
      height to the latest change of height. */
  lemma {:induction false} IntervalsTelescope(history: seq<Observation>)
    requires ClockRuns(history) && HeightsRise(history) && GapsFit(history)
    requires history != [] && history[|history| - 1].height > 0 && history[0].height >= 0
    ensures FirstReal(history) < |history|
    ensures Sum(Run(history).intervals) == Run(history).lastHeightChangeAt - history[FirstReal(history)].now
  {
    var n := |history| - 1;
    var before := history[..n];
    FirstRealIs(history);
    if n > 0 && history[n - 1].height > 0 {
      FirstRealPrefix(history);
      IntervalsTelescope(before);
      StateOfStay(before);
      assert history[n - 1].height <= history[n].height;
      assert before[StayStart(before, n - 1)] == history[StayStart(before, n - 1)];
      IntervalStep(Run(before), history[n]);
    } else {
      NoRealHeightYet(before);
      LastHeightIs(before);
    }
  }

  lemma {:induction false} NoRealHeightYet(history: seq<Observation>)
    requires forall i :: 0 <= i < |history| ==> history[i].height == 0
    ensures Run(history).intervals == []
  {
    if history != [] {
      NoRealHeightYet(history[..|history| - 1]);
      LastHeightIs(history[..|history| - 1]);
    }
  }
}
