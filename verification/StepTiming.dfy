/** Wall-clock time spent in each consensus step, accumulated from the step events. */
module StepTiming {
  import opened Int64
  import opened Durations

  const PROPOSE_STEPS: set<string> := {"RoundStepPropose"}
  const PREVOTE_STEPS: set<string> := {"RoundStepPrevote", "RoundStepPrevoteWait"}
  const PRECOMMIT_STEPS: set<string> := {"RoundStepPrecommit", "RoundStepPrecommitWait"}

  datatype DurSamples = DurSamples(total: int64, count: nat) {
    function Add(v: int64): DurSamples {
      DurSamples(Wrap64(total + v), count + 1)
    }

    function Avg(): int {
      if count == 0 then 0 else TruncatedDiv(total, count)
    }
  }

  datatype TMEventData = EventDataRoundState(step: string) | OtherEvent

  /** A step event and the clock reading at its arrival. */
  datatype StepEvent = StepEvent(step: string, at: Time)

  // ----- the definition: time between successive events, by the earlier step

  /** The time from event `i` to the next one is measured for these steps; after an event without a clock
      reading nothing is. */
  predicate IsTimed(events: seq<StepEvent>, i: nat, steps: set<string>)
    requires i < |events|
  {
    events[i].step in steps && events[i].at != ZERO_TIME
  }

  /** The time between events of which the earlier is a timed event of these steps. */
  function TimeIn(events: seq<StepEvent>, steps: set<string>): int {
    if |events| <= 1 then 0
    else
      var n := |events| - 1;
      TimeIn(events[..n], steps)
      + if IsTimed(events, n - 1, steps) then Sub(events[n].at, events[n - 1].at) else 0
  }

  /** The time between events of which the earlier is not. */
  function TimeOutside(events: seq<StepEvent>, steps: set<string>): int {
    if |events| <= 1 then 0
    else
      var n := |events| - 1;
      TimeOutside(events[..n], steps)
      + if IsTimed(events, n - 1, steps) then 0 else Sub(events[n].at, events[n - 1].at)
  }

  function SamplesIn(events: seq<StepEvent>, steps: set<string>): nat {
    if |events| <= 1 then 0
    else
      var n := |events| - 1;
      SamplesIn(events[..n], steps) + if IsTimed(events, n - 1, steps) then 1 else 0
  }

  function Expected(events: seq<StepEvent>, steps: set<string>): DurSamples {
    DurSamples(Wrap64(TimeIn(events, steps)), SamplesIn(events, steps))
  }

  class StepAccumulator {
    var lastStep: string
    var lastAt: Time
    var propose: DurSamples
    var prevote: DurSamples
    var precommit: DurSamples
    ghost var events: seq<StepEvent>

    /** Each bucket holds exactly the time, modulo 2^64, and the number of samples of its steps. */
    ghost predicate Valid()
      reads this
    {
      && (events == [] ==> lastStep == "" && lastAt == ZERO_TIME)
      && (events != [] ==> lastStep == events[|events| - 1].step && lastAt == events[|events| - 1].at)
      && propose == Expected(events, PROPOSE_STEPS)
      && prevote == Expected(events, PREVOTE_STEPS)
      && precommit == Expected(events, PRECOMMIT_STEPS)
    }

    constructor ()
      ensures Valid() && events == []
    {
      lastStep, lastAt := "", ZERO_TIME;
      propose, prevote, precommit := DurSamples(0, 0), DurSamples(0, 0), DurSamples(0, 0);
      events := [];
    }

    /** Only round-state events count; the time since the one before goes to that one's step. */
    method ObserveForStepTiming(e: TMEventData, now: Time)
      requires Valid()
      modifies this
      ensures Valid() && events == old(events) + if e.EventDataRoundState? then [StepEvent(e.step, now)] else []
    {
      if !e.EventDataRoundState? {
        return;
      }
      ExpectedStep(events, StepEvent(e.step, now));
      if lastStep != "" && lastAt != ZERO_TIME {
        AddSample(Sub(now, lastAt));
      }
      events := events + [StepEvent(e.step, now)];
      lastStep := e.step;
      lastAt := now;
    }

    /** The switch over the step that has just ended. */
    method AddSample(dur: int64)
      modifies `propose, `prevote, `precommit
      ensures propose == if lastStep in PROPOSE_STEPS then old(propose).Add(dur) else old(propose)
      ensures prevote == if lastStep in PREVOTE_STEPS then old(prevote).Add(dur) else old(prevote)
      ensures precommit == if lastStep in PRECOMMIT_STEPS then old(precommit).Add(dur) else old(precommit)
    {
      if lastStep == "RoundStepPropose" {
        propose := propose.Add(dur);
      } else if lastStep == "RoundStepPrevote" || lastStep == "RoundStepPrevoteWait" {
        prevote := prevote.Add(dur);
      } else if lastStep == "RoundStepPrecommit" || lastStep == "RoundStepPrecommitWait" {
        precommit := precommit.Add(dur);
      }
    }
  }

  /** The accumulators over a run: for each kind of step, by its names, the time between events of which the
      earlier is such a step with a clock reading, modulo 2^64, and the number of these intervals. */
  lemma AccumulatorsAre(a: StepAccumulator)
    requires a.Valid()
    ensures a.propose == Expected(a.events, {"RoundStepPropose"})
    ensures a.prevote == Expected(a.events, {"RoundStepPrevote", "RoundStepPrevoteWait"})
    ensures a.precommit == Expected(a.events, {"RoundStepPrecommit", "RoundStepPrecommitWait"})
  {}

  /** The positions below `n` of the events of these steps that have a clock reading. */
  function TimedBefore(events: seq<StepEvent>, n: int, steps: set<string>): set<int>
    requires n <= |events|
  {
    set i | 0 <= i < n && events[i].step in steps && events[i].at != 0
  }

  /** One sample for each event of these steps that has a clock reading and a successor. */
  lemma {:induction false} SamplesAre(events: seq<StepEvent>, steps: set<string>)
    ensures SamplesIn(events, steps)
         == if events == [] then 0 else |TimedBefore(events, |events| - 1, steps)|
  {
    if |events| <= 1 {
      assert TimedBefore(events, 0, steps) == {};
      assert TimedBefore(events, |events| - 1, steps) == {};
    } else {
      var n := |events| - 1;
      SamplesAre(events[..n], steps);
      TimedPrefix(events, steps);
    }
  }

  lemma TimedPrefix(events: seq<StepEvent>, steps: set<string>)
    requires |events| > 1
    ensures var n := |events| - 1;
            && TimedBefore(events[..n], n - 1, steps) == TimedBefore(events, n - 1, steps)
            && TimedBefore(events, n, steps)
               == TimedBefore(events, n - 1, steps) + (if IsTimed(events, n - 1, steps) then {n - 1} else {})
  {}

  lemma ExpectedStep(events: seq<StepEvent>, e: StepEvent)
    ensures forall steps :: Expected(events + [e], steps) ==
              if events != [] && IsTimed(events, |events| - 1, steps)
              then Expected(events, steps).Add(Sub(e.at, events[|events| - 1].at)) else Expected(events, steps)
  {
    var all := events + [e];
    assert all[..|all| - 1] == events;
    forall steps ensures Expected(all, steps) ==
      if events != [] && IsTimed(events, |events| - 1, steps)
      then Expected(events, steps).Add(Sub(e.at, events[|events| - 1].at)) else Expected(events, steps)
    {
      if events != [] {
        assert all[|all| - 2] == events[|events| - 1];
        WrapAdd(TimeIn(events, steps), Sub(e.at, events[|events| - 1].at));
      }
    }
  }

  // ----- conservation

  ghost predicate MonotoneClock(events: seq<StepEvent>) {
    forall i, j :: 0 <= i <= j < |events| ==> events[i].at <= events[j].at
  }

  /** With a monotone clock and a span that fits a duration, the time in any steps and the time outside them
      share out exactly the time from the first event to the last, and both are non-negative. */
  lemma {:induction false} TimeSplits(events: seq<StepEvent>, steps: set<string>)
    requires MonotoneClock(events) && events != []
    requires events[|events| - 1].at - events[0].at <= MAX64
    ensures TimeIn(events, steps) + TimeOutside(events, steps) == events[|events| - 1].at - events[0].at
    ensures 0 <= TimeIn(events, steps) && 0 <= TimeOutside(events, steps)
  {
    var n := |events| - 1;
    if n > 0 {
      var before := events[..n];
      assert before[n - 1] == events[n - 1] && before[0] == events[0];
      TimeSplits(before, steps);
    }
  }

  /** The time in two disjoint kinds of steps is the time in either. */
  lemma {:induction false} TimeInUnion(events: seq<StepEvent>, a: set<string>, b: set<string>)
    requires a !! b
    ensures TimeIn(events, a + b) == TimeIn(events, a) + TimeIn(events, b)
  {
    if |events| > 1 {
      TimeInUnion(events[..|events| - 1], a, b);
    }
  }

  /** With a monotone clock and a span that fits a duration, the three kinds of step and everything else share
      out exactly the time from the first event to the last, and every share is non-negative. */
  lemma TimeIsConserved(events: seq<StepEvent>)
    requires MonotoneClock(events) && events != []
    requires events[|events| - 1].at - events[0].at <= MAX64
    ensures var propose := {"RoundStepPropose"};
            var prevote := {"RoundStepPrevote", "RoundStepPrevoteWait"};
            var precommit := {"RoundStepPrecommit", "RoundStepPrecommitWait"};
            && TimeIn(events, propose) + TimeIn(events, prevote) + TimeIn(events, precommit)
               + TimeOutside(events, propose + prevote + precommit) == events[|events| - 1].at - events[0].at
            && 0 <= TimeIn(events, propose) && 0 <= TimeIn(events, prevote) && 0 <= TimeIn(events, precommit)
            && 0 <= TimeOutside(events, propose + prevote + precommit)
  {
    var propose := {"RoundStepPropose"};
    var prevote := {"RoundStepPrevote", "RoundStepPrevoteWait"};
    var precommit := {"RoundStepPrecommit", "RoundStepPrecommitWait"};
    StepNamesDiffer();
    TimeInUnion(events, propose, prevote);
    TimeInUnion(events, propose + prevote, precommit);
    TimeSplits(events, propose);
    TimeSplits(events, prevote);
    TimeSplits(events, precommit);
    TimeSplits(events, propose + prevote + precommit);
  }

  lemma StepNamesDiffer()
    ensures {"RoundStepPropose"} !! {"RoundStepPrevote", "RoundStepPrevoteWait"}
    ensures {"RoundStepPropose"} + {"RoundStepPrevote", "RoundStepPrevoteWait"}
            !! {"RoundStepPrecommit", "RoundStepPrecommitWait"}
  {
    assert |"RoundStepPrevoteWait"| == |"RoundStepPrecommit"| + 2;
    assert "RoundStepPropose"[11] == 'o' && "RoundStepPrevote"[11] == 'e';
  }

  /** Under the same conditions no accumulator wraps: each holds its true time. */
  lemma NoTotalWraps(events: seq<StepEvent>, steps: set<string>)
    requires MonotoneClock(events) && events != []
    requires events[|events| - 1].at - events[0].at <= MAX64
    ensures Expected(events, steps).total == TimeIn(events, steps) <= events[|events| - 1].at - events[0].at
  {
    TimeSplits(events, steps);
  }

  /** The average is the total over the count, truncated toward zero; without a sample it is 0. */
  lemma AverageBrackets(d: DurSamples)
    ensures d.count == 0 ==> d.Avg() == 0
    ensures d.count > 0 && d.total >= 0 ==> d.Avg() * d.count <= d.total < (d.Avg() + 1) * d.count
    ensures d.count > 0 && d.total < 0 ==> (d.Avg() - 1) * d.count < d.total <= d.Avg() * d.count
  {
    if d.count > 0 {
      var size: int := if d.total < 0 then 0 - d.total as int else d.total;
      var q := size / d.count;
      QuotientBrackets(size, d.count);
      assert (-q) * d.count == -(q * d.count) && (-q - 1) * d.count == -((q + 1) * d.count);
    }
  }

  lemma QuotientBrackets(a: nat, b: nat)
    requires b > 0
    ensures a / b * b <= a < (a / b + 1) * b
  {
    assert a == a / b * b + a % b;
    assert (a / b + 1) * b == a / b * b + b;
  }
}
