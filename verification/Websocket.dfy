/** The websocket resubscription protocol: any number of Subscribe calls, one reader that redials,
    one Close, one write mutex. Every action below is one atomic step; runs interleave them freely. */
module Websocket {
  import opened Text
  import opened SubscribeQuery
  import opened FiniteSets

  /** Who holds muWrite. */
  datatype Holder = Free | ByManager | ByCall(call: nat)

  /** Where the connectionManager goroutine stands. */
  datatype ManagerAt =
    | CheckStop                          // readConnection: select at the top of the read loop
    | Reading                            // readConnection: in ReadJSON
    | AfterRead                          // connectionManager: select after readConnection
    | ResetLocking                       // resetConnection: waiting for muWrite
    | ResetClosing                       // resetConnection: closing the old connection
    | Dialing                            // resetConnection: dialling
    | DialFailed                         // resetConnection: select between chStop and the timer
    | Resubscribing(pending: set<int>,   // resetConnection: replay loop, the IDs it still has to visit
                    visited: set<int>)   //   and those it has visited
    | TermLocking                        // terminateConnection: waiting for muWrite
    | Terminating                        // terminateConnection: closing for good
    | Done

  /** Where one Subscribe call stands. */
  datatype CallAt = GotID | Registered | Locked | Written | Returned

  datatype Call = Call(at: CallAt, id: int, events: seq<string>) {
    predicate InMap() { !at.GotID? }
    predicate HoldsLock() { at.Locked? || at.Written? }
    predicate Sent() { at.Written? || at.Returned? }
  }

  /** Which of the two callers of writeSubscribeLocked wrote a frame; not part of the message. */
  datatype Writer = ReplayLoop | OwnCall

  /** A subscribe frame handed to WriteJSON on one connection, and whether the write succeeded. */
  datatype Frame = Frame(conn: nat, id: int, query: string, accepted: bool, writer: Writer) {
    /** The frame is the one writeSubscribeLocked builds for this call. */
    predicate MadeFor(call: Call) { id == call.id && query == Query(call.events) }

    /** Read as a query, the frame asks for exactly the events of this call, under its ID. */
    ghost predicate Subscribes(call: Call) { id == call.id && AsksFor(query, call.events) }
  }

  datatype State = State(
    conn: Option<nat>,               // the current connection, numbered in dialling order
    dialled: nat,                    // connections dialled so far
    holder: Holder,
    manager: ManagerAt,
    stopped: bool,                   // chStop is closed
    nonce: int,
    subs: map<int, seq<string>>,     // the registered subscriptions: ID to events
    calls: map<nat, Call>,           // every Subscribe call started so far
    frames: seq<Frame>)              // every frame handed to WriteJSON, in order

  /** The constructor dials before anyone else can see the object. */
  const INIT: State := State(Some(0), 1, Free, CheckStop, false, 0, map[], map[], [])

  datatype Action =
    | BeginSubscribe(call: nat, events: seq<string>)
    | Register(call: nat)
    | LockForCall(call: nat)
    | WriteForCall(call: nat, ok: bool)
    | UnlockForCall(call: nat)
    | Close
    | TestStop
    | ReadMessage
    | ReadFails
    | SelectAfterRead
    | LockForReset
    | CloseOld
    | DialSucceeds
    | DialFails
    | RetryDial
    | GiveUpDial
    | Replay(id: int, ok: bool)
    | EndReplay
    | LockForTerm
    | Terminate

  predicate CallIs(s: State, call: nat, at: CallAt) {
    call in s.calls && s.calls[call].at == at
  }

  /** The replay loop visits no ID twice, every ID registered when it starts, and any later one or not. */
  predicate Enabled(s: State, a: Action) {
    match a
    case BeginSubscribe(c, _) => c !in s.calls
    case Register(c) => CallIs(s, c, GotID)
    case LockForCall(c) => CallIs(s, c, Registered) && s.holder.Free?
    case WriteForCall(c, _) => CallIs(s, c, Locked)
    case UnlockForCall(c) => CallIs(s, c, Written)
    case Close => true
    case TestStop => s.manager.CheckStop?
    case ReadMessage => s.manager.Reading?
    case ReadFails => s.manager.Reading?
    case SelectAfterRead => s.manager.AfterRead?
    case LockForReset => s.manager.ResetLocking? && s.holder.Free?
    case CloseOld => s.manager.ResetClosing?
    case DialSucceeds => s.manager.Dialing?
    case DialFails => s.manager.Dialing?
    case RetryDial => s.manager.DialFailed?
    case GiveUpDial => s.manager.DialFailed? && s.stopped
    case Replay(id, _) => s.manager.Resubscribing? && id in s.subs && id !in s.manager.visited
    case EndReplay => s.manager.Resubscribing? && s.manager.pending == {}
    case LockForTerm => s.manager.TermLocking? && s.holder.Free?
    case Terminate => s.manager.Terminating?
  }

  /** writeSubscribeLocked: nothing without a connection, otherwise one frame, whose error is only logged. */
  function WriteSubscribe(s: State, id: int, events: seq<string>, ok: bool, writer: Writer): State {
    if s.conn.None? then s
    else s.(frames := s.frames + [Frame(s.conn.value, id, Query(events), ok, writer)])
  }

  function Move(s: State, call: nat, at: CallAt): State
    requires call in s.calls
  {
    s.(calls := s.calls[call := s.calls[call].(at := at)])
  }

  function Apply(s: State, a: Action): State
    requires Enabled(s, a)
  {
    match a
    case BeginSubscribe(c, events) => s.(nonce := s.nonce + 1, calls := s.calls[c := Call(GotID, s.nonce + 1, events)])
    case Register(c) => Move(s, c, Registered).(subs := s.subs[s.calls[c].id := s.calls[c].events])
    case LockForCall(c) => Move(s, c, Locked).(holder := ByCall(c))
    case WriteForCall(c, ok) => WriteSubscribe(Move(s, c, Written), s.calls[c].id, s.calls[c].events, ok, OwnCall)
    case UnlockForCall(c) => Move(s, c, Returned).(holder := Free)
    case Close => s.(stopped := true)
    case TestStop => s.(manager := if s.stopped then AfterRead else Reading)
    case ReadMessage => s.(manager := CheckStop)
    case ReadFails => s.(manager := AfterRead)
    case SelectAfterRead => s.(manager := if s.stopped then TermLocking else ResetLocking)
    case LockForReset => s.(manager := ResetClosing, holder := ByManager)
    case CloseOld => s.(manager := Dialing, conn := None)
    case DialSucceeds =>
      s.(manager := Resubscribing(s.subs.Keys, {}), conn := Some(s.dialled), dialled := s.dialled + 1)
    case DialFails => s.(manager := DialFailed)
    case RetryDial => s.(manager := Dialing)
    case GiveUpDial => s.(manager := CheckStop, holder := Free)
    case Replay(id, ok) =>
      WriteSubscribe(s, id, s.subs[id], ok, ReplayLoop)
        .(manager := Resubscribing(s.manager.pending - {id}, s.manager.visited + {id}))
    case EndReplay => s.(manager := CheckStop, holder := Free)
    case LockForTerm => s.(manager := Terminating, holder := ByManager)
    case Terminate => s.(manager := Done, conn := None, holder := Free)
  }

  /** `states` is a run: it starts after construction and every step is some enabled action. */
  ghost predicate IsRun(states: seq<State>) {
    && states != [] && states[0] == INIT
    && forall i :: 0 <= i < |states| - 1 ==> Next(states[i], states[i + 1])
  }

  ghost predicate Next(s: State, t: State) {
    exists a :: Enabled(s, a) && t == Apply(s, a)
  }

  // ----- the inductive invariant

  /** The mutex field and the two kinds of program counter agree: mutual exclusion. */
  ghost predicate LockAgrees(s: State) {
    && (s.holder == ByManager <==>
          s.manager.ResetClosing? || s.manager.Dialing? || s.manager.DialFailed? || s.manager.Resubscribing? ||
          s.manager.Terminating?)
    && (forall c :: c in s.calls ==> (s.calls[c].HoldsLock() <==> s.holder == ByCall(c)))
    && (s.holder.ByCall? ==> s.holder.call in s.calls)
  }

  ghost predicate IDsUnique(s: State) {
    && 0 <= s.nonce
    && (forall c :: c in s.calls ==> 0 < s.calls[c].id <= s.nonce)
    && (forall c, d :: c in s.calls && d in s.calls && c != d ==> s.calls[c].id != s.calls[d].id)
  }

  /** Past registration, a call's subscription is in the map, under its ID and with its events. */
  ghost predicate SubsRegistered(s: State) {
    forall c :: c in s.calls && s.calls[c].InMap() ==>
      s.calls[c].id in s.subs && s.subs[s.calls[c].id] == s.calls[c].events
  }

  /** Without a connection the manager is between closing and dialling, or the client is stopping. */
  ghost predicate ConnPresent(s: State) {
    && (s.conn.None? ==> s.stopped || s.manager.Dialing? || s.manager.DialFailed?)
    && (s.manager.Reading? || s.manager.Resubscribing? ==> s.conn.Some?)
    && (s.manager.Dialing? || s.manager.DialFailed? || s.manager.Done? ==> s.conn.None?)
    && (s.manager.TermLocking? || s.manager.Terminating? || s.manager.Done? ==> s.stopped)
  }

  /** Connections are numbered afresh: a new one has no frame yet. */
  ghost predicate ConnsFresh(s: State) {
    && (s.conn.Some? ==> s.conn.value < s.dialled)
    && (forall f :: f in s.frames ==> f.conn < s.dialled)
  }

  ghost predicate FrameOnCurrent(s: State, call: Call) {
    s.conn.Some? && exists f :: f in s.frames && f.conn == s.conn.value && f.MadeFor(call)
  }

  /** Every call past its write has its frame on the current connection, or the replay still owes it. */
  ghost predicate NoneLost(s: State) {
    s.conn.Some? ==>
      forall c :: c in s.calls && s.calls[c].Sent() ==> SentOrOwed(s, s.calls[c])
  }

  ghost predicate SentOrOwed(s: State, call: Call) {
    FrameOnCurrent(s, call) || (s.manager.Resubscribing? && call.id in s.manager.pending)
  }

  ghost predicate Inv(s: State) {
    LockAgrees(s) && IDsUnique(s) && SubsRegistered(s) && ConnPresent(s) && ConnsFresh(s) && NoneLost(s)
  }

  // ----- what every reachable state promises

  ghost predicate SubscribedOn(s: State, call: Call) {
    s.conn.Some? && exists f :: f in s.frames && f.conn == s.conn.value && f.Subscribes(call)
  }

  ghost predicate Safe(s: State) {
    // with the mutex free and no stop requested, every returned subscription is on the live connection
    && (s.holder.Free? && !s.stopped ==>
          s.conn.Some? && forall c :: c in s.calls && s.calls[c].at.Returned? ==> SubscribedOn(s, s.calls[c]))
    // the reader never reads from a missing connection
    && (s.manager.Reading? ==> s.conn.Some?)
    // no two calls share a subscription ID
    && (forall c, d :: c in s.calls && d in s.calls && c != d ==> s.calls[c].id != s.calls[d].id)
    // one writer at a time
    && (forall c, d :: c in s.calls && d in s.calls && s.calls[c].HoldsLock() && s.calls[d].HoldsLock() ==> c == d)
    && (forall c :: c in s.calls && s.calls[c].HoldsLock() ==> s.holder != ByManager)
  }

  lemma InvImpliesSafe(s: State)
    requires Inv(s)
    ensures Safe(s)
  {
    if s.holder.Free? && !s.stopped {
      forall c | c in s.calls && s.calls[c].at.Returned? ensures SubscribedOn(s, s.calls[c]) {
        assert SentOrOwed(s, s.calls[c]);
        MadeIsSubscribed(s, s.calls[c]);
      }
    }
  }

  lemma MadeIsSubscribed(s: State, call: Call)
    requires FrameOnCurrent(s, call)
    ensures SubscribedOn(s, call)
  {
    var f :| f in s.frames && f.conn == s.conn.value && f.MadeFor(call);
    AskedIff(call.events);
    assert f.Subscribes(call);
  }

  lemma WriteKeepsFrames(s: State, id: int, events: seq<string>, ok: bool, writer: Writer)
    ensures var t := WriteSubscribe(s, id, events, ok, writer);
            && (forall f :: f in s.frames ==> f in t.frames)
            && (s.conn.Some? ==> Frame(s.conn.value, id, Query(events), ok, writer) in t.frames)
  {}

  // ----- each invariant is kept by every action, given the invariants it rests on

  lemma LockAgreesKept(s: State, a: Action)
    requires LockAgrees(s) && Enabled(s, a)
    ensures LockAgrees(Apply(s, a))
  {
    if !IsCallStep(a) {
      ManagerKeepsCalls(s, a);
    }
  }

  predicate IsCallStep(a: Action) {
    a.BeginSubscribe? || a.Register? || a.LockForCall? || a.WriteForCall? || a.UnlockForCall?
  }

  lemma ManagerKeepsCalls(s: State, a: Action)
    requires Enabled(s, a) && !IsCallStep(a)
    ensures Apply(s, a).calls == s.calls
  {}

  lemma IDsUniqueKept(s: State, a: Action)
    requires IDsUnique(s) && Enabled(s, a)
    ensures IDsUnique(Apply(s, a))
  {
    if !a.BeginSubscribe? {
      SameIDs(s, a);
    }
  }

  lemma SameIDs(s: State, a: Action)
    requires Enabled(s, a) && !a.BeginSubscribe?
    ensures var t := Apply(s, a);
            && t.nonce == s.nonce && t.calls.Keys == s.calls.Keys
            && forall c :: c in s.calls ==> t.calls[c].id == s.calls[c].id
  {}

  lemma SubsRegisteredKept(s: State, a: Action)
    requires IDsUnique(s) && SubsRegistered(s) && Enabled(s, a)
    ensures SubsRegistered(Apply(s, a))
  {
    if !a.BeginSubscribe? && !a.Register? {
      OthersRegisterNothing(s, a);
    }
  }

  lemma OthersRegisterNothing(s: State, a: Action)
    requires Enabled(s, a) && !a.BeginSubscribe? && !a.Register?
    ensures var t := Apply(s, a);
            && t.subs == s.subs && t.calls.Keys == s.calls.Keys
            && forall c :: c in s.calls ==>
                 && t.calls[c].id == s.calls[c].id && t.calls[c].events == s.calls[c].events
                 && (t.calls[c].InMap() ==> s.calls[c].InMap())
  {}

  lemma ConnPresentKept(s: State, a: Action)
    requires ConnPresent(s) && Enabled(s, a)
    ensures ConnPresent(Apply(s, a))
  {}

  lemma ConnsFreshKept(s: State, a: Action)
    requires ConnsFresh(s) && Enabled(s, a)
    ensures ConnsFresh(Apply(s, a))
  {}

  lemma WriteLosesNone(s: State, a: Action)
    requires LockAgrees(s) && NoneLost(s) && Enabled(s, a) && a.WriteForCall?
    ensures NoneLost(Apply(s, a))
  {
    var c, t := s.calls[a.call], Apply(s, a);
    WriteKeepsFrames(Move(s, a.call, Written), c.id, c.events, a.ok, OwnCall);
    if s.conn.Some? {
      forall d | d in t.calls && t.calls[d].Sent() ensures SentOrOwed(t, t.calls[d]) {
        if d == a.call {
          assert FrameOnCurrent(t, t.calls[d]);
        } else {
          assert s.calls[d] == t.calls[d] && SentOrOwed(s, s.calls[d]);
        }
      }
    }
  }

  lemma ReplayLosesNone(s: State, a: Action)
    requires SubsRegistered(s) && NoneLost(s) && Enabled(s, a) && a.Replay?
    ensures NoneLost(Apply(s, a))
  {
    var t := Apply(s, a);
    WriteKeepsFrames(s, a.id, s.subs[a.id], a.ok, ReplayLoop);
    if s.conn.Some? {
      forall d | d in t.calls && t.calls[d].Sent() ensures SentOrOwed(t, t.calls[d]) {
        assert SentOrOwed(s, s.calls[d]);
        if t.calls[d].id == a.id {
          assert FrameOnCurrent(t, t.calls[d]);
        }
      }
    }
  }

  /** A redial owes a frame to every registered subscription; every other step keeps what was sent. */
  lemma OthersLoseNone(s: State, a: Action)
    requires SubsRegistered(s) && NoneLost(s) && Enabled(s, a) && !a.WriteForCall? && !a.Replay?
    ensures NoneLost(Apply(s, a))
  {
    var t := Apply(s, a);
    if t.conn.Some? {
      forall d | d in t.calls && t.calls[d].Sent() ensures SentOrOwed(t, t.calls[d]) {
        assert d in s.calls && s.calls[d].InMap() && s.calls[d].id == t.calls[d].id;
        if !a.DialSucceeds? {
          assert s.conn == t.conn;
          assert s.calls[d].Sent() && SentOrOwed(s, s.calls[d]);
        }
      }
    }
  }

  lemma StepKeepsInv(s: State, a: Action)
    requires Inv(s) && Enabled(s, a)
    ensures Inv(Apply(s, a))
  {
    LockAgreesKept(s, a);
    IDsUniqueKept(s, a);
    SubsRegisteredKept(s, a);
    ConnPresentKept(s, a);
    ConnsFreshKept(s, a);
    if a.WriteForCall? {
      WriteLosesNone(s, a);
    } else if a.Replay? {
      ReplayLosesNone(s, a);
    } else {
      OthersLoseNone(s, a);
    }
  }

  lemma {:induction false} RunKeepsInv(states: seq<State>, i: nat)
    requires IsRun(states) && i < |states|
    ensures Inv(states[i])
  {
    if i > 0 {
      RunKeepsInv(states, i - 1);
      assert Next(states[i - 1], states[i]);
      var a :| Enabled(states[i - 1], a) && states[i] == Apply(states[i - 1], a);
      StepKeepsInv(states[i - 1], a);
    }
  }

  /** In every interleaving, no subscription is lost across reconnects. */
  lemma RunsAreSafe(states: seq<State>)
    requires IsRun(states)
    ensures forall i :: 0 <= i < |states| ==> Safe(states[i])
  {
    forall i | 0 <= i < |states| ensures Safe(states[i]) {
      RunKeepsInv(states, i);
      InvImpliesSafe(states[i]);
    }
  }

  /** Where every write on the live connection succeeded, every returned subscription was accepted. */
  lemma AcceptedUnlessBroken(states: seq<State>, i: nat, call: nat)
    requires IsRun(states) && i < |states| && states[i].holder.Free? && !states[i].stopped
    requires CallIs(states[i], call, Returned)
    requires forall f :: f in states[i].frames && states[i].conn == Some(f.conn) ==> f.accepted
    ensures states[i].conn.Some?
    ensures exists f :: f in states[i].frames && f.conn == states[i].conn.value
                        && f.Subscribes(states[i].calls[call]) && f.accepted
  {
    RunsAreSafe(states);
    assert SubscribedOn(states[i], states[i].calls[call]);
    var f :| f in states[i].frames && f.conn == states[i].conn.value && f.Subscribes(states[i].calls[call]);
    assert f.accepted;
  }

  lemma DoneIsFinal(states: seq<State>, j: nat)
    requires IsRun(states) && j < |states| && states[j].manager.Done?
    ensures states[j].conn.None?
    ensures j + 1 < |states| ==> states[j + 1].manager.Done? && states[j + 1].frames == states[j].frames
  {
    RunKeepsInv(states, j);
    if j + 1 < |states| {
      assert Next(states[j], states[j + 1]);
      DoneStep(states[j], states[j + 1]);
    }
  }

  lemma DoneStep(s: State, t: State)
    requires ConnPresent(s) && s.manager.Done? && Next(s, t)
    ensures t.manager.Done? && t.frames == s.frames
  {
    var a :| Enabled(s, a) && t == Apply(s, a);
    if a.WriteForCall? {
      assert s.conn.None?;
    } else if !a.Replay? {
      OthersSendNothing(s, a);
    }
  }

  /** Once the manager has terminated, the connection is gone for good and nothing more is written. */
  lemma {:induction false} NothingSentAfterDone(states: seq<State>, i: nat, j: nat)
    requires IsRun(states) && i <= j < |states| && states[i].manager.Done?
    ensures states[j].manager.Done? && states[j].conn.None? && states[j].frames == states[i].frames
  {
    if i < j {
      NothingSentAfterDone(states, i, j - 1);
      DoneIsFinal(states, j - 1);
    }
    DoneIsFinal(states, j);
  }

  lemma Extend(states: seq<State>, a: Action, t: State) returns (longer: seq<State>)
    requires IsRun(states) && Enabled(states[|states| - 1], a) && t == Apply(states[|states| - 1], a)
    ensures IsRun(longer) && longer == states + [t]
  {
    longer := states + [t];
    assert Next(states[|states| - 1], t);
  }

  // ----- closing: the manager can always reach its end

  /** The replay still owes only registered IDs that it has not visited. */
  ghost predicate PendingOpen(s: State) {
    s.manager.Resubscribing? ==> s.manager.pending <= s.subs.Keys - s.manager.visited
  }

  lemma PendingOpenKept(s: State, a: Action)
    requires PendingOpen(s) && Enabled(s, a)
    ensures PendingOpen(Apply(s, a))
  {}

  lemma {:induction false} RunKeepsPending(states: seq<State>, i: nat)
    requires IsRun(states) && i < |states|
    ensures PendingOpen(states[i])
  {
    if i > 0 {
      RunKeepsPending(states, i - 1);
      assert Next(states[i - 1], states[i]);
      var a :| Enabled(states[i - 1], a) && states[i] == Apply(states[i - 1], a);
      PendingOpenKept(states[i - 1], a);
    }
  }

  /** How far the manager of a stopped client is from its end. */
  function StopDistance(s: State): nat {
    match s.manager
    case Done => 0
    case Terminating => 1
    case TermLocking => 2
    case AfterRead => 3
    case CheckStop => 4
    case Reading => 5
    case DialFailed => 5
    case Resubscribing(_, visited) => 6 + |s.subs.Keys - visited|
    case Dialing => 7 + |s.subs|
    case ResetClosing => 8 + |s.subs|
    case ResetLocking => 9 + |s.subs|
  }

  predicate IsManagerStep(a: Action) {
    !IsCallStep(a) && !a.Close?
  }

  /** Once stop is requested, every step of the manager except a repeated dial brings it closer to its end. */
  lemma StopShortens(s: State, a: Action)
    requires s.stopped && Enabled(s, a) && IsManagerStep(a) && !a.RetryDial?
    ensures Apply(s, a).stopped && StopDistance(Apply(s, a)) < StopDistance(s)
  {
    match a
    case Replay(id, ok) => ReplayShortens(s, id, ok);
    case DialSucceeds => assert s.subs.Keys - {} == s.subs.Keys;
    case _ =>
  }

  lemma ReplayShortens(s: State, id: int, ok: bool)
    requires Enabled(s, Replay(id, ok))
    ensures var t := Apply(s, Replay(id, ok));
            t.stopped == s.stopped && StopDistance(t) < StopDistance(s)
  {
    OpenShrinks(s.subs.Keys, s.manager.visited, id);
  }

  lemma OpenShrinks(ids: set<int>, visited: set<int>, id: int)
    requires id in ids && id !in visited
    ensures |ids - (visited + {id})| < |ids - visited|
  {
    assert ids - (visited + {id}) == (ids - visited) - {id};
  }

  /** No deadlock: the manager can step until its end, unless it waits for a call that holds the mutex; and
      such a call can step. */
  lemma ManagerCanStep(s: State) returns (a: Action)
    requires LockAgrees(s) && PendingOpen(s) && s.stopped && !s.manager.Done? && !s.holder.ByCall?
    ensures IsManagerStep(a) && !a.RetryDial? && Enabled(s, a)
  {
    match s.manager
    case CheckStop => a := TestStop;
    case Reading => a := ReadMessage;
    case AfterRead => a := SelectAfterRead;
    case ResetLocking => a := LockForReset;
    case ResetClosing => a := CloseOld;
    case Dialing => a := DialFails;
    case DialFailed => a := GiveUpDial;
    case Resubscribing(_, _) =>
      a := ReplayOrEnd(s, s.manager.pending);
    case TermLocking => a := LockForTerm;
    case Terminating => a := Terminate;
  }

  lemma ReplayOrEnd(s: State, pending: set<int>) returns (a: Action)
    requires PendingOpen(s) && s.manager.Resubscribing? && pending == s.manager.pending
    ensures IsManagerStep(a) && !a.RetryDial? && Enabled(s, a)
  {
    if pending == {} {
      a := EndReplay;
    } else {
      var id := Member(pending);
      a := Replay(id, true);
    }
  }

  lemma HolderCanStep(s: State) returns (a: Action)
    requires LockAgrees(s) && s.holder.ByCall?
    ensures IsCallStep(a) && Enabled(s, a)
    ensures var t := Apply(s, a);
            && t.manager == s.manager && t.subs == s.subs && t.stopped == s.stopped
            && HolderDistance(t) < HolderDistance(s)
  {
    var c := s.holder.call;
    assert s.calls[c].HoldsLock();
    a := if s.calls[c].at.Locked? then WriteForCall(c, true) else UnlockForCall(c);
  }

  /** How many steps the call that holds the mutex still needs to release it. */
  function HolderDistance(s: State): nat {
    if !s.holder.ByCall? || s.holder.call !in s.calls then 0
    else if s.calls[s.holder.call].at.Locked? then 2 else 1
  }

  /** From every reachable state, whatever any call or the manager is doing, Close can run to completion: some
      continuation of the run terminates the manager. */
  lemma CloseCanFinish(states: seq<State>) returns (longer: seq<State>)
    requires IsRun(states)
    ensures IsRun(longer) && |longer| > |states| && longer[..|states|] == states
    ensures longer[|states|] == Apply(states[|states| - 1], Close)
    ensures longer[|longer| - 1].manager.Done? && longer[|longer| - 1].conn.None?
  {
    var closed := states + [Apply(states[|states| - 1], Close)];
    assert Next(states[|states| - 1], closed[|states|]) by {
      assert Enabled(states[|states| - 1], Close);
    }
    longer := RunToEnd(closed);
    assert longer[..|states|] == longer[..|closed|][..|states|] == states;
    assert longer[|states|] == longer[..|closed|][|states|];
    RunKeepsInv(longer, |longer| - 1);
  }

  lemma StepToEnd(s: State) returns (a: Action)
    requires LockAgrees(s) && PendingOpen(s) && s.stopped && !s.manager.Done?
    ensures Enabled(s, a)
    ensures var t := Apply(s, a);
            && t.stopped
            && (StopDistance(t) < StopDistance(s) ||
                (StopDistance(t) == StopDistance(s) && HolderDistance(t) < HolderDistance(s)))
  {
    if s.holder.ByCall? {
      a := HolderCanStep(s);
    } else {
      a := ManagerCanStep(s);
      StopShortens(s, a);
    }
  }

  lemma {:induction false} RunToEnd(states: seq<State>) returns (longer: seq<State>)
    requires IsRun(states) && states[|states| - 1].stopped
    ensures IsRun(longer) && |states| <= |longer| && longer[..|states|] == states
    ensures longer[|longer| - 1].manager.Done?
    decreases StopDistance(states[|states| - 1]), HolderDistance(states[|states| - 1])
  {
    var s := states[|states| - 1];
    if s.manager.Done? {
      return states;
    }
    RunKeepsInv(states, |states| - 1);
    RunKeepsPending(states, |states| - 1);
    var a := StepToEnd(s);
    var next := Extend(states, a, Apply(s, a));
    longer := RunToEnd(next);
    assert longer[..|states|] == longer[..|next|][..|states|] == states;
  }

  // ----- how often a subscription is sent on one connection

  function Copies(frames: seq<Frame>, conn: nat, id: int, writer: Writer): nat {
    if frames == [] then 0
    else
      var f := frames[|frames| - 1];
      Copies(frames[..|frames| - 1], conn, id, writer)
      + if f.conn == conn && f.id == id && f.writer == writer then 1 else 0
  }

  /** The number of frames for an ID on a connection, whoever wrote them. */
  function TimesSent(frames: seq<Frame>, conn: nat, id: int): nat {
    if frames == [] then 0
    else
      var f := frames[|frames| - 1];
      TimesSent(frames[..|frames| - 1], conn, id) + if f.conn == conn && f.id == id then 1 else 0
  }

  ghost predicate SentBy(frames: seq<Frame>, conn: nat, id: int, writer: Writer) {
    exists f :: f in frames && f.conn == conn && f.id == id && f.writer == writer
  }

  lemma {:induction false} CopiesFacts(frames: seq<Frame>, conn: nat, id: int)
    ensures TimesSent(frames, conn, id) == Copies(frames, conn, id, ReplayLoop) + Copies(frames, conn, id, OwnCall)
    ensures forall w :: Copies(frames, conn, id, w) > 0 <==> SentBy(frames, conn, id, w)
  {
    if frames != [] {
      var n := |frames| - 1;
      CopiesFacts(frames[..n], conn, id);
      assert frames == frames[..n] + [frames[n]];
      forall w ensures Copies(frames, conn, id, w) > 0 <==> SentBy(frames, conn, id, w) {
        assert Copies(frames[..n], conn, id, w) > 0 <==> SentBy(frames[..n], conn, id, w);
        SentByAppend(frames[..n], frames[n], conn, id, w);
      }
    }
  }

  lemma SentByAppend(frames: seq<Frame>, f: Frame, conn: nat, id: int, writer: Writer)
    ensures SentBy(frames + [f], conn, id, writer)
       <==> SentBy(frames, conn, id, writer) || (f.conn == conn && f.id == id && f.writer == writer)
  {
    if f.conn == conn && f.id == id && f.writer == writer {
      assert f in frames + [f];
    }
  }

  /** No writer sends an ID twice on one connection. */
  ghost predicate OncePerWriter(s: State) {
    forall conn, id, w :: Copies(s.frames, conn, id, w) <= 1
  }

  /** The replay loop has visited exactly the IDs it has sent on its connection. */
  ghost predicate VisitedAreSent(s: State) {
    s.manager.Resubscribing? && s.conn.Some? ==>
      forall id :: id in s.manager.visited <==> SentBy(s.frames, s.conn.value, id, ReplayLoop)
  }

  /** A call sends its frame itself only with its one write. */
  ghost predicate OwnAfterWrite(s: State) {
    && (forall f :: f in s.frames && f.writer.OwnCall? ==> f.id <= s.nonce)
    && (forall c, f :: c in s.calls && !s.calls[c].Sent() && f in s.frames && f.id == s.calls[c].id ==>
          f.writer.ReplayLoop?)
  }

  ghost predicate CountInv(s: State) {
    OncePerWriter(s) && VisitedAreSent(s) && OwnAfterWrite(s)
  }

  lemma OthersSendNothing(s: State, a: Action)
    requires Enabled(s, a) && !a.WriteForCall? && !a.Replay?
    ensures Apply(s, a).frames == s.frames
  {}

  lemma OncePerWriterKept(s: State, a: Action)
    requires Inv(s) && CountInv(s) && Enabled(s, a)
    ensures OncePerWriter(Apply(s, a))
  {
    if a.WriteForCall? && s.conn.Some? {
      var c := s.calls[a.call];
      NewFrameOnce(s, Frame(s.conn.value, c.id, Query(c.events), a.ok, OwnCall));
    } else if a.Replay? {
      NewFrameOnce(s, Frame(s.conn.value, a.id, Query(s.subs[a.id]), a.ok, ReplayLoop));
    } else if !a.WriteForCall? {
      OthersSendNothing(s, a);
    }
  }

  lemma NewFrameOnce(s: State, f: Frame)
    requires OncePerWriter(s) && !SentBy(s.frames, f.conn, f.id, f.writer)
    ensures forall conn, id, w :: Copies(s.frames + [f], conn, id, w) <= 1
  {
    CopiesFacts(s.frames, f.conn, f.id);
    assert (s.frames + [f])[..|s.frames|] == s.frames;
  }

  lemma VisitedAreSentKept(s: State, a: Action)
    requires Inv(s) && CountInv(s) && Enabled(s, a)
    ensures VisitedAreSent(Apply(s, a))
  {
    var t := Apply(s, a);
    if t.manager.Resubscribing? {
      forall id ensures id in t.manager.visited <==> SentBy(t.frames, t.conn.value, id, ReplayLoop) {
        if a.WriteForCall? {
          var c := s.calls[a.call];
          SentByAppend(s.frames, Frame(s.conn.value, c.id, Query(c.events), a.ok, OwnCall), t.conn.value, id,
                       ReplayLoop);
        } else if a.Replay? {
          SentByAppend(s.frames, Frame(s.conn.value, a.id, Query(s.subs[a.id]), a.ok, ReplayLoop), t.conn.value, id,
                       ReplayLoop);
        } else {
          OthersSendNothing(s, a);
        }
      }
    }
  }

  lemma OwnAfterWriteKept(s: State, a: Action)
    requires Inv(s) && CountInv(s) && Enabled(s, a)
    ensures OwnAfterWrite(Apply(s, a))
  {
    if a.BeginSubscribe? {
      assert forall f :: f in s.frames && f.id == s.nonce + 1 ==> f.writer.ReplayLoop?;
    } else if a.WriteForCall? {
      WriteKeepsOwn(s, a);
    } else if a.Replay? {
      SameIDs(s, a);
    } else {
      OthersKeepOwn(s, a);
    }
  }

  lemma WriteKeepsOwn(s: State, a: Action)
    requires IDsUnique(s) && OwnAfterWrite(s) && Enabled(s, a) && a.WriteForCall?
    ensures OwnAfterWrite(Apply(s, a))
  {
    SameIDs(s, a);
  }

  lemma OthersKeepOwn(s: State, a: Action)
    requires OwnAfterWrite(s) && Enabled(s, a) && !a.BeginSubscribe? && !a.WriteForCall? && !a.Replay?
    ensures OwnAfterWrite(Apply(s, a))
  {
    OthersSendNothing(s, a);
    SameIDs(s, a);
    StillUnsent(s, a);
  }

  lemma StillUnsent(s: State, a: Action)
    requires Enabled(s, a) && !a.BeginSubscribe?
    ensures forall c :: c in s.calls && !Apply(s, a).calls[c].Sent() ==> !s.calls[c].Sent()
  {
    SameIDs(s, a);
  }

  lemma {:induction false} RunKeepsCounts(states: seq<State>, i: nat)
    requires IsRun(states) && i < |states|
    ensures CountInv(states[i])
  {
    if i > 0 {
      RunKeepsCounts(states, i - 1);
      RunKeepsInv(states, i - 1);
      assert Next(states[i - 1], states[i]);
      var a :| Enabled(states[i - 1], a) && states[i] == Apply(states[i - 1], a);
      OncePerWriterKept(states[i - 1], a);
      VisitedAreSentKept(states[i - 1], a);
      OwnAfterWriteKept(states[i - 1], a);
    }
  }

  /** By state `i` the replay loop of connection `conn` has visited `id`. */
  ghost predicate VisitedOn(states: seq<State>, i: nat, conn: nat, id: int)
    requires i < |states|
  {
    exists k :: 0 <= k <= i && Visits(states[k], conn, id)
  }

  predicate Visits(s: State, conn: nat, id: int) {
    s.conn == Some(conn) && s.manager.Resubscribing? && id in s.manager.visited
  }

  /** By state `i` the call with this ID has made its own write while `conn` was the connection. */
  ghost predicate WroteOn(states: seq<State>, i: nat, conn: nat, id: int)
    requires i < |states|
  {
    exists k: nat :: k < i && WritesAt(states, k, conn, id)
  }

  ghost predicate WritesAt(states: seq<State>, k: nat, conn: nat, id: int)
    requires k + 1 < |states|
  {
    OwnWrite(states[k], states[k + 1], conn, id)
  }

  ghost predicate OwnWrite(s: State, t: State, conn: nat, id: int) {
    exists c :: Writes(s, t, c, conn, id)
  }

  predicate Writes(s: State, t: State, call: nat, conn: nat, id: int) {
    CallIs(s, call, Locked) && s.calls[call].id == id && s.conn == Some(conn) && CallIs(t, call, Written)
  }

  lemma {:induction false} ReplayFramesIff(states: seq<State>, i: nat, conn: nat, id: int)
    requires IsRun(states) && i < |states|
    ensures SentBy(states[i].frames, conn, id, ReplayLoop) <==> VisitedOn(states, i, conn, id)
  {
    RunKeepsInv(states, i);
    RunKeepsCounts(states, i);
    if i > 0 {
      var s, t := states[i - 1], states[i];
      ReplayFramesIff(states, i - 1, conn, id);
      assert Next(s, t);
      var a :| Enabled(s, a) && t == Apply(s, a);
      NewReplayFrame(s, a, conn, id);
      if VisitedOn(states, i - 1, conn, id) {
        var k :| 0 <= k <= i - 1 && Visits(states[k], conn, id);
        assert Visits(states[k], conn, id);
      }
    }
  }

  lemma NewReplayFrame(s: State, a: Action, conn: nat, id: int)
    requires Enabled(s, a)
    ensures SentBy(s.frames, conn, id, ReplayLoop) ==> SentBy(Apply(s, a).frames, conn, id, ReplayLoop)
    ensures SentBy(Apply(s, a).frames, conn, id, ReplayLoop) ==>
              SentBy(s.frames, conn, id, ReplayLoop) || Visits(Apply(s, a), conn, id)
  {
    if s.conn.Some? && a.WriteForCall? {
      var c := s.calls[a.call];
      SentByAppend(s.frames, Frame(s.conn.value, c.id, Query(c.events), a.ok, OwnCall), conn, id, ReplayLoop);
    } else if s.conn.Some? && a.Replay? {
      SentByAppend(s.frames, Frame(s.conn.value, a.id, Query(s.subs[a.id]), a.ok, ReplayLoop), conn, id, ReplayLoop);
    } else if !a.WriteForCall? && !a.Replay? {
      OthersSendNothing(s, a);
    }
  }

  lemma {:induction false} OwnFramesIff(states: seq<State>, i: nat, conn: nat, id: int)
    requires IsRun(states) && i < |states|
    ensures SentBy(states[i].frames, conn, id, OwnCall) <==> WroteOn(states, i, conn, id)
  {
    if i > 0 {
      OwnFramesIff(states, i - 1, conn, id);
      assert Next(states[i - 1], states[i]);
      OwnFrameStep(states[i - 1], states[i], conn, id);
      WroteStep(states, i, conn, id);
    }
  }

  lemma WroteStep(states: seq<State>, i: nat, conn: nat, id: int)
    requires 0 < i < |states|
    ensures WroteOn(states, i, conn, id)
            <==> WroteOn(states, i - 1, conn, id) || OwnWrite(states[i - 1], states[i], conn, id)
  {
    assert WritesAt(states, i - 1, conn, id) <==> OwnWrite(states[i - 1], states[i], conn, id);
  }

  lemma OwnFrameStep(s: State, t: State, conn: nat, id: int)
    requires Next(s, t)
    ensures SentBy(t.frames, conn, id, OwnCall) <==> SentBy(s.frames, conn, id, OwnCall) || OwnWrite(s, t, conn, id)
  {
    var a :| Enabled(s, a) && t == Apply(s, a);
    NewOwnFrame(s, a, conn, id);
  }

  lemma NewOwnFrame(s: State, a: Action, conn: nat, id: int)
    requires Enabled(s, a)
    ensures SentBy(Apply(s, a).frames, conn, id, OwnCall)
       <==> SentBy(s.frames, conn, id, OwnCall) || OwnWrite(s, Apply(s, a), conn, id)
  {
    var t := Apply(s, a);
    if a.WriteForCall? {
      var c := s.calls[a.call];
      if s.conn.Some? {
        SentByAppend(s.frames, Frame(s.conn.value, c.id, Query(c.events), a.ok, OwnCall), conn, id, OwnCall);
      }
      assert Writes(s, t, a.call, conn, id) <==> s.conn == Some(conn) && c.id == id;
    } else if a.Replay? {
      if s.conn.Some? {
        SentByAppend(s.frames, Frame(s.conn.value, a.id, Query(s.subs[a.id]), a.ok, ReplayLoop), conn, id, OwnCall);
      }
    } else {
      OthersSendNothing(s, a);
    }
  }

  /** On any connection a subscription is sent at most twice, and twice if and only if the replay loop of
      that connection visited its ID and its Subscribe call made its own write on that connection too. */
  lemma SentTwiceIff(states: seq<State>, i: nat, conn: nat, id: int)
    requires IsRun(states) && i < |states|
    ensures TimesSent(states[i].frames, conn, id) <= 2
    ensures TimesSent(states[i].frames, conn, id) == 2
            <==> VisitedOn(states, i, conn, id) && WroteOn(states, i, conn, id)
    ensures TimesSent(states[i].frames, conn, id) == 0
            <==> !VisitedOn(states, i, conn, id) && !WroteOn(states, i, conn, id)
  {
    RunKeepsCounts(states, i);
    CopiesFacts(states[i].frames, conn, id);
    ReplayFramesIff(states, i, conn, id);
    OwnFramesIff(states, i, conn, id);
    assert Copies(states[i].frames, conn, id, ReplayLoop) <= 1 && Copies(states[i].frames, conn, id, OwnCall) <= 1;
  }

  /** A run in which it happens: a call registers before a redial and writes after it. */
  lemma SentTwice(events: seq<string>) returns (states: seq<State>)
    ensures IsRun(states)
    ensures var s := states[|states| - 1];
            s.conn == Some(1) &&
            s.frames == [Frame(1, 1, Query(events), true, ReplayLoop), Frame(1, 1, Query(events), true, OwnCall)]
  {
    var f, g := Frame(1, 1, Query(events), true, ReplayLoop), Frame(1, 1, Query(events), true, OwnCall);
    var call := Call(Registered, 1, events);
    var registered := INIT.(nonce := 1, calls := map[7 := call], subs := map[1 := events]);
    states := Extend([INIT], BeginSubscribe(7, events), INIT.(nonce := 1, calls := map[7 := call.(at := GotID)]));
    states := Extend(states, Register(7), registered);
    states := Redial(states, registered, [f]);
    var replayed := registered.(conn := Some(1), dialled := 2, frames := [f]);
    var locked := replayed.(holder := ByCall(7), calls := map[7 := call.(at := Locked)]);
    states := Extend(states, LockForCall(7), locked);
    states := Extend(states, WriteForCall(7, true), locked.(calls := map[7 := call.(at := Written)], frames := [f, g]));
  }

  lemma Redial(before: seq<State>, s: State, frames: seq<Frame>) returns (states: seq<State>)
    requires IsRun(before) && before[|before| - 1] == s
    requires s.manager.CheckStop? && !s.stopped && s.holder.Free? && s.frames == [] && s.subs.Keys == {1}
    requires s.dialled == 1 && frames == [Frame(1, 1, Query(s.subs[1]), true, ReplayLoop)]
    ensures IsRun(states)
    ensures states[|states| - 1] == s.(conn := Some(1), dialled := 2, frames := frames)
  {
    states := Extend(before, TestStop, s.(manager := Reading));
    states := Extend(states, ReadFails, s.(manager := AfterRead));
    states := Extend(states, SelectAfterRead, s.(manager := ResetLocking));
    states := Replay1(states, s.(manager := ResetLocking), frames);
  }

  lemma Replay1(before: seq<State>, s: State, frames: seq<Frame>) returns (states: seq<State>)
    requires IsRun(before) && before[|before| - 1] == s
    requires s.manager.ResetLocking? && s.holder.Free? && s.frames == [] && s.subs.Keys == {1}
    requires s.dialled == 1 && frames == [Frame(1, 1, Query(s.subs[1]), true, ReplayLoop)]
    ensures IsRun(states)
    ensures states[|states| - 1] == s.(conn := Some(1), dialled := 2, frames := frames, manager := CheckStop)
  {
    var held := s.(holder := ByManager);
    states := Extend(before, LockForReset, held.(manager := ResetClosing));
    states := Extend(states, CloseOld, held.(manager := Dialing, conn := None));
    var redialled := held.(manager := Resubscribing({1}, {}), conn := Some(1), dialled := 2);
    states := Extend(states, DialSucceeds, redialled);
    states := ReplayLoop1(states, redialled, frames);
  }

  lemma ReplayLoop1(before: seq<State>, s: State, frames: seq<Frame>) returns (states: seq<State>)
    requires IsRun(before) && before[|before| - 1] == s
    requires s.manager == Resubscribing({1}, {}) && s.holder.ByManager? && s.frames == [] && s.subs.Keys == {1}
    requires s.conn == Some(1) && frames == [Frame(1, 1, Query(s.subs[1]), true, ReplayLoop)]
    ensures IsRun(states)
    ensures states[|states| - 1] == s.(holder := Free, frames := frames, manager := CheckStop)
  {
    assert {1} - {1} == {} && s.manager.visited + {1} == {1};
    states := Extend(before, Replay(1, true), s.(manager := Resubscribing({}, {1}), frames := frames));
    states := Extend(states, EndReplay, s.(holder := Free, frames := frames, manager := CheckStop));
  }
}
