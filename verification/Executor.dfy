/**
 * Any number of Execute calls sharing one cycle detector, one semaphore and one start
 * budget, as atomic steps of concurrent calls. Each lock-protected block and each
 * channel operation is one step; deferred calls run in reverse order, so a permit is
 * released before the fingerprint is untracked.
 */
module Executor {

  datatype Outcome = Invalid | Cycle | Cancelled | Exhausted | StartBudget | Finished

  datatype Phase =
    | Arrived                       // before the cycle check
    | Waiting                       // tracked, at the semaphore's select
    | Admitted                      // permit taken, start not yet counted
    | Running
    | Releasing(outcome: Outcome)   // deferred semaphore release
    | Untracking(outcome: Outcome)  // deferred untrack
    | Ended(outcome: Outcome)

  datatype Call = Call(fingerprint: string, phase: Phase, started: bool)

  datatype State = State(
    maxConcurrent: nat,
    maxStarts: nat,
    starts: nat,
    occupancy: nat,
    active: set<string>,
    calls: seq<Call>)

  predicate HoldsPermit(c: Call) { c.phase.Admitted? || c.phase.Running? || c.phase.Releasing? }

  predicate Tracked(c: Call) { c.phase.Waiting? || HoldsPermit(c) || c.phase.Untracking? }

  predicate Init(s: State) {
    s.starts == 0 && s.occupancy == 0 && s.active == {} && s.calls == []
  }

  // ---- The atomic steps ----

  predicate Arrive(s: State, s': State, fingerprint: string) {
    s' == s.(calls := s.calls + [Call(fingerprint, Arrived, false)])
  }

  function Moved(s: State, i: nat, phase: Phase): State
    requires i < |s.calls|
  {
    s.(calls := s.calls[i := s.calls[i].(phase := phase)])
  }

  // Deadline, validation, depth and self-execution checks touch nothing shared.
  predicate Reject(s: State, s': State, i: nat) {
    i < |s.calls| && s.calls[i].phase.Arrived? && s' == Moved(s, i, Ended(Invalid))
  }

  predicate Track(s: State, s': State, i: nat) {
    && i < |s.calls| && s.calls[i].phase.Arrived?
    && s' == if s.calls[i].fingerprint in s.active then Moved(s, i, Ended(Cycle))
             else Moved(s, i, Waiting).(active := s.active + {s.calls[i].fingerprint})
  }

  predicate Admit(s: State, s': State, i: nat) {
    && i < |s.calls| && s.calls[i].phase.Waiting? && s.occupancy < s.maxConcurrent
    && s' == Moved(s, i, Admitted).(occupancy := s.occupancy + 1)
  }

  predicate Cancel(s: State, s': State, i: nat) {
    i < |s.calls| && s.calls[i].phase.Waiting? && s' == Moved(s, i, Untracking(Cancelled))
  }

  // Acquire refuses the weight one when the limit is zero.
  predicate Refuse(s: State, s': State, i: nat) {
    && i < |s.calls| && s.calls[i].phase.Waiting? && s.maxConcurrent < 1
    && s' == Moved(s, i, Untracking(Exhausted))
  }

  predicate CountStart(s: State, s': State, i: nat) {
    && i < |s.calls| && s.calls[i].phase.Admitted?
    && s' == if s.starts >= s.maxStarts then Moved(s, i, Releasing(StartBudget))
             else s.(starts := s.starts + 1,
                     calls := s.calls[i := s.calls[i].(phase := Running, started := true)])
  }

  // The process ends, fails to start, overflows or is terminated.
  predicate Finish(s: State, s': State, i: nat) {
    i < |s.calls| && s.calls[i].phase.Running? && s' == Moved(s, i, Releasing(Finished))
  }

  // The receive of Release falls through when the channel is empty.
  predicate Release(s: State, s': State, i: nat) {
    && i < |s.calls| && s.calls[i].phase.Releasing?
    && var moved := Moved(s, i, Untracking(s.calls[i].phase.outcome));
       s' == if s.occupancy > 0 then moved.(occupancy := s.occupancy - 1) else moved
  }

  predicate Untrack(s: State, s': State, i: nat) {
    && i < |s.calls| && s.calls[i].phase.Untracking?
    && s' == Moved(s, i, Ended(s.calls[i].phase.outcome)).(active := s.active - {s.calls[i].fingerprint})
  }

  predicate Act(s: State, s': State, i: nat) {
    || Reject(s, s', i) || Track(s, s', i) || Admit(s, s', i) || Cancel(s, s', i)
    || Refuse(s, s', i) || CountStart(s, s', i) || Finish(s, s', i) || Release(s, s', i) || Untrack(s, s', i)
  }

  ghost predicate SomeAct(s: State, s': State) {
    exists i: nat :: Act(s, s', i)
  }

  ghost predicate Next(s: State, s': State) {
    (exists fingerprint :: Arrive(s, s', fingerprint)) || SomeAct(s, s')
  }

  ghost predicate StepAt(states: seq<State>, k: nat)
    requires k + 1 < |states|
  {
    Next(states[k], states[k + 1])
  }

  ghost predicate Run(states: seq<State>) {
    && states != [] && Init(states[0])
    && forall k: nat :: k < |states| - 1 ==> StepAt(states, k)
  }

  // ---- What every step keeps ----

  function CountPermits(calls: seq<Call>): nat {
    if calls == [] then 0 else (if HoldsPermit(calls[0]) then 1 else 0) + CountPermits(calls[1..])
  }

  function CountStarted(calls: seq<Call>): nat {
    if calls == [] then 0 else (if calls[0].started then 1 else 0) + CountStarted(calls[1..])
  }

  function CountRunning(calls: seq<Call>): nat {
    if calls == [] then 0 else (if calls[0].phase.Running? then 1 else 0) + CountRunning(calls[1..])
  }

  ghost predicate ActiveExact(s: State) {
    && (forall i :: 0 <= i < |s.calls| && Tracked(s.calls[i]) ==> s.calls[i].fingerprint in s.active)
    && (forall f :: f in s.active ==> exists i :: 0 <= i < |s.calls| && Tracked(s.calls[i]) && s.calls[i].fingerprint == f)
  }

  ghost predicate NoSharedFingerprint(s: State) {
    forall i, j :: 0 <= i < j < |s.calls| && Tracked(s.calls[i]) && Tracked(s.calls[j]) ==>
      s.calls[i].fingerprint != s.calls[j].fingerprint
  }

  ghost predicate Inv(s: State) {
    Counted(s) && ActiveExact(s) && NoSharedFingerprint(s)
  }

  // Permits and starts are those of the calls.
  ghost predicate Counted(s: State) {
    && s.occupancy == CountPermits(s.calls) <= s.maxConcurrent
    && s.starts == CountStarted(s.calls) <= s.maxStarts
    && forall i :: 0 <= i < |s.calls| ==>
         (s.calls[i].phase.Running? ==> s.calls[i].started) &&
         (s.calls[i].phase.Arrived? || s.calls[i].phase.Waiting? || s.calls[i].phase.Admitted? ==> !s.calls[i].started)
  }

  lemma {:induction false} CountsUpdate(calls: seq<Call>, i: nat, c: Call)
    requires i < |calls|
    ensures CountPermits(calls[i := c]) ==
            CountPermits(calls) - (if HoldsPermit(calls[i]) then 1 else 0) + (if HoldsPermit(c) then 1 else 0)
    ensures CountStarted(calls[i := c]) ==
            CountStarted(calls) - (if calls[i].started then 1 else 0) + (if c.started then 1 else 0)
    ensures HoldsPermit(calls[i]) ==> CountPermits(calls) > 0
  {
    if i == 0 {
      assert calls[0 := c][1..] == calls[1..];
    } else {
      CountsUpdate(calls[1..], i - 1, c);
      assert calls[i := c][1..] == calls[1..][i - 1 := c];
    }
  }

  lemma {:induction false} CountsAppend(calls: seq<Call>, c: Call)
    requires !HoldsPermit(c) && !c.started
    ensures CountPermits(calls + [c]) == CountPermits(calls) && CountStarted(calls + [c]) == CountStarted(calls)
  {
    if calls == [] {
      assert calls + [c] == [c];
    } else {
      CountsAppend(calls[1..], c);
      assert (calls + [c])[1..] == calls[1..] + [c];
    }
  }

  lemma ArriveKeepsInv(s: State, s': State, fingerprint: string)
    requires Inv(s) && Arrive(s, s', fingerprint)
    ensures Inv(s')
  {
    CountsAppend(s.calls, s'.calls[|s.calls|]);
    forall f | f in s'.active
      ensures exists i :: 0 <= i < |s'.calls| && Tracked(s'.calls[i]) && s'.calls[i].fingerprint == f
    {
      var i :| 0 <= i < |s.calls| && Tracked(s.calls[i]) && s.calls[i].fingerprint == f;
      assert s'.calls[i] == s.calls[i];
    }
  }

  // A step that leaves the active set and the call's tracked status alone.
  lemma SameTracking(s: State, s': State, i: nat)
    requires ActiveExact(s) && NoSharedFingerprint(s)
    requires i < |s.calls| == |s'.calls| && s'.calls == s.calls[i := s'.calls[i]]
    requires s'.calls[i].fingerprint == s.calls[i].fingerprint
    requires Tracked(s'.calls[i]) == Tracked(s.calls[i]) && s'.active == s.active
    ensures ActiveExact(s') && NoSharedFingerprint(s')
  {
    forall f | f in s'.active
      ensures exists j :: 0 <= j < |s'.calls| && Tracked(s'.calls[j]) && s'.calls[j].fingerprint == f
    {
      var j :| 0 <= j < |s.calls| && Tracked(s.calls[j]) && s.calls[j].fingerprint == f;
      assert j != i ==> s'.calls[j] == s.calls[j];
      assert Tracked(s'.calls[j]) && s'.calls[j].fingerprint == f;
    }
  }

  lemma TrackKeepsTracking(s: State, s': State, i: nat)
    requires ActiveExact(s) && NoSharedFingerprint(s) && Track(s, s', i)
    ensures ActiveExact(s') && NoSharedFingerprint(s')
  {
    if s.calls[i].fingerprint in s.active {
      SameTracking(s, s', i);
    } else {
      forall f | f in s'.active
        ensures exists j :: 0 <= j < |s'.calls| && Tracked(s'.calls[j]) && s'.calls[j].fingerprint == f
      {
        if f in s.active {
          var j :| 0 <= j < |s.calls| && Tracked(s.calls[j]) && s.calls[j].fingerprint == f;
          assert s'.calls[j] == s.calls[j];
        } else {
          assert Tracked(s'.calls[i]) && s'.calls[i].fingerprint == f;
        }
      }
    }
  }

  lemma UntrackKeepsTracking(s: State, s': State, i: nat)
    requires ActiveExact(s) && NoSharedFingerprint(s) && Untrack(s, s', i)
    ensures ActiveExact(s') && NoSharedFingerprint(s')
  {
    forall f | f in s'.active
      ensures exists j :: 0 <= j < |s'.calls| && Tracked(s'.calls[j]) && s'.calls[j].fingerprint == f
    {
      var j :| 0 <= j < |s.calls| && Tracked(s.calls[j]) && s.calls[j].fingerprint == f;
      assert s'.calls[j] == s.calls[j];
    }
    forall j | 0 <= j < |s'.calls| && Tracked(s'.calls[j]) ensures s'.calls[j].fingerprint in s'.active {
      assert j != i && s'.calls[j] == s.calls[j];
      assert s.calls[j].fingerprint != s.calls[i].fingerprint;
    }
  }

  lemma ActKeepsInv(s: State, s': State, i: nat)
    requires Inv(s) && Act(s, s', i)
    ensures Inv(s')
  {
    ActKeepsTracking(s, s', i);
    ActKeepsCounts(s, s', i);
  }

  lemma ActKeepsTracking(s: State, s': State, i: nat)
    requires ActiveExact(s) && NoSharedFingerprint(s) && Act(s, s', i)
    ensures ActiveExact(s') && NoSharedFingerprint(s')
  {
    if Track(s, s', i) {
      TrackKeepsTracking(s, s', i);
    } else if Untrack(s, s', i) {
      UntrackKeepsTracking(s, s', i);
    } else {
      SameTracking(s, s', i);
    }
  }

  lemma ActKeepsCounts(s: State, s': State, i: nat)
    requires Counted(s) && Act(s, s', i)
    ensures Counted(s')
  {
    CountsUpdate(s.calls, i, s'.calls[i]);
  }

  lemma {:induction false} RunKeepsInv(states: seq<State>, k: nat)
    requires Run(states) && k < |states|
    ensures Inv(states[k])
    ensures states[k].maxConcurrent == states[0].maxConcurrent && states[k].maxStarts == states[0].maxStarts
  {
    if k > 0 {
      RunKeepsInv(states, k - 1);
      var s, s' := states[k - 1], states[k];
      assert StepAt(states, k - 1);
      if fingerprint :| Arrive(s, s', fingerprint) {
        ArriveKeepsInv(s, s', fingerprint);
      } else {
        assert SomeAct(s, s');
        var i: nat :| Act(s, s', i);
        ActKeepsInv(s, s', i);
      }
    }
  }

  // ---- Safety of every interleaving ----

  lemma {:induction false} RunningHoldPermits(calls: seq<Call>)
    ensures CountRunning(calls) <= CountPermits(calls)
  {
    if calls != [] {
      RunningHoldPermits(calls[1..]);
    }
  }

  // At no time do more than MaxConcurrent calls run, and no more than MaxStarts ever
  // started; calls in flight never share a fingerprint, and each of them is tracked.
  lemma Bounded(states: seq<State>, k: nat)
    requires Run(states) && k < |states|
    ensures CountRunning(states[k].calls) <= states[0].maxConcurrent
    ensures CountStarted(states[k].calls) <= states[0].maxStarts
    ensures NoSharedFingerprint(states[k])
    ensures forall i :: 0 <= i < |states[k].calls| && Tracked(states[k].calls[i]) ==>
              states[k].calls[i].fingerprint in states[k].active
  {
    RunKeepsInv(states, k);
    RunningHoldPermits(states[k].calls);
  }

  // The release of a permit always finds one in the channel.
  lemma ReleaseFindsPermit(states: seq<State>, k: nat, i: nat)
    requires Run(states) && k < |states|
    requires i < |states[k].calls| && states[k].calls[i].phase.Releasing?
    ensures states[k].occupancy > 0
  {
    RunKeepsInv(states, k);
    CountsUpdate(states[k].calls, i, states[k].calls[i]);
  }

  predicate Owns(s: State, j: nat, fingerprint: string) {
    j < |s.calls| && Tracked(s.calls[j]) && s.calls[j].fingerprint == fingerprint
  }

  // A call rejected as a cycle changes nothing shared, at the rejection or later:
  // some other call in flight owns the fingerprint and keeps it.
  lemma DuplicateNeverUntracks(states: seq<State>, k: nat, i: nat) returns (owner: nat)
    requires Run(states) && k + 1 < |states|
    requires i < |states[k].calls| && states[k].calls[i].phase.Arrived?
    requires Act(states[k], states[k + 1], i) && states[k + 1].calls[i].phase == Ended(Cycle)
    ensures states[k + 1].active == states[k].active && states[k + 1].occupancy == states[k].occupancy
    ensures states[k + 1].starts == states[k].starts
    ensures owner != i && Owns(states[k + 1], owner, states[k].calls[i].fingerprint)
  {
    RunKeepsInv(states, k);
    var s := states[k];
    assert s.calls[i].fingerprint in s.active;
    owner :| owner < |s.calls| && Tracked(s.calls[owner]) && s.calls[owner].fingerprint == s.calls[i].fingerprint;
    assert states[k + 1].calls[owner] == s.calls[owner];
  }

  // The outcome of an ended call is final: it is the same in every later state of the run.
  lemma {:induction false} EndedIsFinal(states: seq<State>, j: nat, k: nat, i: nat)
    requires Run(states) && j <= k < |states|
    requires i < |states[j].calls| && states[j].calls[i].phase.Ended?
    ensures i < |states[k].calls| && states[k].calls[i] == states[j].calls[i]
  {
    if j < k {
      EndedIsFinal(states, j, k - 1, i);
      RunStep(states, k);
      EndedStays(states[k - 1], states[k], i);
    }
  }

  lemma RunStep(states: seq<State>, k: nat)
    requires Run(states) && 0 < k < |states|
    ensures Next(states[k - 1], states[k])
  {
    assert StepAt(states, k - 1);
  }

  lemma EndedStays(s: State, s': State, i: nat)
    requires i < |s.calls| && s.calls[i].phase.Ended? && Next(s, s')
    ensures i < |s'.calls| && s'.calls[i] == s.calls[i]
  {
    if fingerprint :| Arrive(s, s', fingerprint) {
    } else {
      assert SomeAct(s, s');
      var j: nat :| Act(s, s', j);
      assert j != i;
    }
  }

  // ---- What an outcome means ----

  ghost predicate Owned(s: State, fingerprint: string) {
    exists j: nat :: Owns(s, j, fingerprint)
  }

  lemma OwnedIffActive(s: State, fingerprint: string)
    requires ActiveExact(s)
    ensures Owned(s, fingerprint) <==> fingerprint in s.active
  {
    if fingerprint in s.active {
      var j :| 0 <= j < |s.calls| && Tracked(s.calls[j]) && s.calls[j].fingerprint == fingerprint;
      assert Owns(s, j, fingerprint);
    }
  }

  // What the next step of a call makes of it, in terms of the calls alone: who owns the
  // fingerprint, how many hold permits, how many have started.
  ghost predicate Decides(s: State, s': State, i: nat)
    requires i < |s.calls| && i < |s'.calls|
  {
    var c, c' := s.calls[i], s'.calls[i];
    match c.phase
    case Arrived => c'.phase == if Owned(s, c.fingerprint) then Ended(Cycle) else Waiting
    case Waiting =>
      if s.maxConcurrent == 0 then c'.phase == Untracking(Exhausted)
      else c'.phase == Admitted && CountPermits(s.calls) < s.maxConcurrent
    case Admitted => c'.phase == if CountStarted(s.calls) == s.maxStarts then Releasing(StartBudget) else Running
    case Running => c'.phase == Releasing(Finished)
    case Releasing(o) => c'.phase == Untracking(o) && CountPermits(s'.calls) == CountPermits(s.calls) - 1
    case Untracking(o) => c'.phase == Ended(o) && !Owned(s', c.fingerprint)
    case Ended(_) => false
  }

  // The step a call takes of its own accord is decided by the calls; it touches no other
  // call, and the call has started exactly if it was so already or is running now.
  lemma OwnActDecides(s: State, s': State, i: nat)
    requires Inv(s) && OwnAct(s, s', i)
    ensures |s'.calls| == |s.calls| && Decides(s, s', i)
    ensures s'.calls[i].started <==> s.calls[i].started || s'.calls[i].phase.Running?
    ensures forall j :: 0 <= j < |s.calls| && j != i ==> s'.calls[j] == s.calls[j]
  {
    ActKeepsInv(s, s', i);
    CountsUpdate(s.calls, i, s'.calls[i]);
    OwnedIffActive(s, s.calls[i].fingerprint);
    OwnedIffActive(s', s.calls[i].fingerprint);
  }

  // While starts are left, the next step of an admitted call starts it.
  lemma BudgetIsGiven(s: State, s': State, i: nat)
    requires Inv(s) && Act(s, s', i) && s.calls[i].phase.Admitted?
    ensures CountStarted(s.calls) < s.maxStarts ==>
              s'.calls[i].phase.Running? && CountStarted(s'.calls) == CountStarted(s.calls) + 1
    ensures CountStarted(s.calls) == s.maxStarts ==>
              s'.calls[i].phase == Releasing(StartBudget) && CountStarted(s'.calls) == CountStarted(s.calls)
  {
    CountsUpdate(s.calls, i, s'.calls[i]);
  }

  predicate HasOutcome(c: Call, o: Outcome) {
    c.phase == Releasing(o) || c.phase == Untracking(o) || c.phase == Ended(o)
  }

  predicate Undecided(c: Call) {
    c.phase.Arrived? || c.phase.Waiting? || c.phase.Admitted? || c.phase.Running?
  }

  // The step of the run at which call i got its outcome.
  ghost predicate DecidedAt(states: seq<State>, m: nat, i: nat, o: Outcome) {
    && m + 1 < |states| && i < |states[m].calls| == |states[m + 1].calls|
    && Act(states[m], states[m + 1], i)
    && Undecided(states[m].calls[i]) && HasOutcome(states[m + 1].calls[i], o)
  }

  lemma {:induction false} DecisionOf(states: seq<State>, k: nat, i: nat, o: Outcome) returns (m: nat)
    requires Run(states) && k < |states| && i < |states[k].calls| && HasOutcome(states[k].calls[i], o)
    ensures m < k && DecidedAt(states, m, i, o)
  {
    if k > 0 {
      var s, s' := states[k - 1], states[k];
      RunStep(states, k);
      if i < |s.calls| && HasOutcome(s.calls[i], o) {
        m := DecisionOf(states, k - 1, i, o);
      } else {
        OutcomeAppears(s, s', i, o);
        m := k - 1;
        assert states[m + 1] == states[k];
      }
    }
  }

  lemma OutcomeAppears(s: State, s': State, i: nat, o: Outcome)
    requires Next(s, s') && i < |s'.calls| && HasOutcome(s'.calls[i], o)
    requires !(i < |s.calls| && HasOutcome(s.calls[i], o))
    ensures i < |s.calls| == |s'.calls| && Undecided(s.calls[i]) && Act(s, s', i)
  {
    if fingerprint :| Arrive(s, s', fingerprint) {
    } else {
      assert SomeAct(s, s');
      var j: nat :| Act(s, s', j);
      OthersUntouched(s, s', j);
      assert j == i;
      OutcomesDoNotChange(s, s', i);
    }
  }

  lemma OthersUntouched(s: State, s': State, j: nat)
    requires Act(s, s', j)
    ensures |s'.calls| == |s.calls| && forall i :: 0 <= i < |s.calls| && i != j ==> s'.calls[i] == s.calls[i]
  {
  }

  lemma OutcomesDoNotChange(s: State, s': State, i: nat)
    requires Act(s, s', i)
    ensures forall o :: !Undecided(s.calls[i]) && HasOutcome(s'.calls[i], o) ==> HasOutcome(s.calls[i], o)
  {
  }

  // What had to be the case for a call to get this outcome.
  ghost predicate Reason(s: State, i: nat, o: Outcome)
    requires i < |s.calls|
  {
    match o
    case Invalid => s.calls[i].phase.Arrived?
    case Cycle => s.calls[i].phase.Arrived? && exists j: nat :: j != i && Owns(s, j, s.calls[i].fingerprint)
    case Cancelled => s.calls[i].phase.Waiting?
    case Exhausted => s.calls[i].phase.Waiting? && s.maxConcurrent == 0
    case StartBudget => s.calls[i].phase.Admitted? && CountStarted(s.calls) == s.maxStarts
    case Finished => s.calls[i].phase.Running? && s.calls[i].started
  }

  lemma DecisionHasReason(s: State, s': State, i: nat, o: Outcome)
    requires Inv(s) && Act(s, s', i) && Undecided(s.calls[i]) && HasOutcome(s'.calls[i], o)
    ensures Reason(s, i, o)
  {
    if o == Cycle {
      OwnedIffActive(s, s.calls[i].fingerprint);
      var j: nat :| Owns(s, j, s.calls[i].fingerprint);
      assert j != i;
    }
  }

  // In every run: whenever a call has an outcome, some earlier step gave it that outcome,
  // and then there was reason to.
  lemma OutcomeHasReason(states: seq<State>, k: nat, i: nat, o: Outcome) returns (m: nat)
    requires Run(states) && k < |states| && i < |states[k].calls| && HasOutcome(states[k].calls[i], o)
    ensures m < k && DecidedAt(states, m, i, o) && Reason(states[m], i, o)
  {
    m := DecisionOf(states, k, i, o);
    RunKeepsInv(states, m);
    DecisionHasReason(states[m], states[m + 1], i, o);
  }

  // An undecided call has started exactly if it is running, a decided one exactly if it
  // finished; and nobody is refused a start before all starts are used up.
  ghost predicate Accounted(s: State) {
    forall i :: 0 <= i < |s.calls| ==> CallAccounted(s, s.calls[i])
  }

  ghost predicate CallAccounted(s: State, c: Call) {
    && (c.started <==> c.phase.Running? || HasOutcome(c, Finished))
    && (HasOutcome(c, StartBudget) ==> CountStarted(s.calls) == s.maxStarts)
    && (HasOutcome(c, Exhausted) ==> s.maxConcurrent == 0)
  }

  lemma {:induction false} OutcomesAccounted(states: seq<State>, k: nat)
    requires Run(states) && k < |states|
    ensures Accounted(states[k])
  {
    if k > 0 {
      OutcomesAccounted(states, k - 1);
      RunKeepsInv(states, k - 1);
      RunKeepsInv(states, k);
      RunStep(states, k);
      StepAccounted(states[k - 1], states[k]);
    }
  }

  lemma StepAccounted(s: State, s': State)
    requires Inv(s) && Inv(s') && Accounted(s) && Next(s, s')
    ensures Accounted(s')
  {
    if fingerprint :| Arrive(s, s', fingerprint) {
      CountsAppend(s.calls, s'.calls[|s.calls|]);
    } else {
      assert SomeAct(s, s');
      var i: nat :| Act(s, s', i);
      ActAccounted(s, s', i);
    }
  }

  lemma ActAccounted(s: State, s': State, i: nat)
    requires Inv(s) && Inv(s') && Accounted(s) && Act(s, s', i)
    ensures Accounted(s')
  {
    MoverAccounted(s, s', i);
    forall j | 0 <= j < |s'.calls| ensures CallAccounted(s', s'.calls[j]) {
      if j != i {
        assert s'.calls[j] == s.calls[j];
      }
    }
  }

  // The call that moves, and what its step means for the others.
  lemma MoverAccounted(s: State, s': State, i: nat)
    requires Counted(s) && Counted(s') && Act(s, s', i) && CallAccounted(s, s.calls[i])
    ensures |s'.calls| == |s.calls| && CallAccounted(s', s'.calls[i])
    ensures s'.maxStarts == s.maxStarts && s'.maxConcurrent == s.maxConcurrent
    ensures CountStarted(s'.calls) >= CountStarted(s.calls)
  {
    CountsUpdate(s.calls, i, s'.calls[i]);
  }

  ghost predicate AllEnded(s: State) {
    forall i :: 0 <= i < |s.calls| ==> s.calls[i].phase.Ended?
  }

  lemma {:induction false} NoPermits(calls: seq<Call>)
    requires forall i :: 0 <= i < |calls| ==> calls[i].phase.Ended?
    ensures CountPermits(calls) == 0
  {
    if calls != [] {
      NoPermits(calls[1..]);
    }
  }

  // Once every call has ended nothing is leaked.
  lemma QuiescentIsClean(states: seq<State>, k: nat)
    requires Run(states) && k < |states| && AllEnded(states[k])
    ensures states[k].occupancy == 0 && states[k].active == {}
  {
    RunKeepsInv(states, k);
    NoPermits(states[k].calls);
  }

  // ---- Progress: no reachable state is stuck, and calls drain ----

  function Rank(p: Phase): nat {
    match p
    case Arrived => 6
    case Waiting => 5
    case Admitted => 4
    case Running => 3
    case Releasing(_) => 2
    case Untracking(_) => 1
    case Ended(_) => 0
  }

  function TotalRank(calls: seq<Call>): nat {
    if calls == [] then 0 else Rank(calls[0].phase) + TotalRank(calls[1..])
  }

  lemma {:induction false} RankUpdate(calls: seq<Call>, i: nat, c: Call)
    requires i < |calls|
    ensures TotalRank(calls[i := c]) == TotalRank(calls) - Rank(calls[i].phase) + Rank(c.phase)
    ensures TotalRank(calls) >= Rank(calls[i].phase)
  {
    if i == 0 {
      assert calls[0 := c][1..] == calls[1..];
    } else {
      RankUpdate(calls[1..], i - 1, c);
      assert calls[i := c][1..] == calls[1..][i - 1 := c];
    }
  }

  lemma ActLowersRank(s: State, s': State, i: nat)
    requires Act(s, s', i)
    ensures TotalRank(s'.calls) < TotalRank(s.calls)
  {
    RankUpdate(s.calls, i, s'.calls[i]);
  }

  lemma {:induction false} PermitHolder(calls: seq<Call>) returns (i: nat)
    requires CountPermits(calls) > 0
    ensures i < |calls| && HoldsPermit(calls[i])
  {
    if HoldsPermit(calls[0]) {
      i := 0;
    } else {
      var j := PermitHolder(calls[1..]);
      i := j + 1;
    }
  }

  // A step a call takes of its own accord: it is neither cancelled nor found invalid.
  predicate OwnAct(s: State, s': State, i: nat) {
    Act(s, s', i) && !Cancel(s, s', i) && !Reject(s, s', i)
  }

  lemma NotForced(s: State, s': State, i: nat)
    requires i < |s.calls| && i < |s'.calls|
    requires s.calls[i].phase.Waiting? ==> s'.calls[i].phase != Untracking(Cancelled)
    requires s.calls[i].phase.Arrived? ==> s'.calls[i].phase != Ended(Invalid)
    ensures !Cancel(s, s', i) && !Reject(s, s', i)
  {
    assert Moved(s, i, Untracking(Cancelled)).calls[i].phase == Untracking(Cancelled);
    assert Moved(s, i, Ended(Invalid)).calls[i].phase == Ended(Invalid);
  }

  // The step a call that is not waiting for a permit can always take.
  lemma OwnStep(s: State, i: nat) returns (s': State)
    requires i < |s.calls| && !s.calls[i].phase.Ended?
    requires s.calls[i].phase.Waiting? ==> s.occupancy < s.maxConcurrent || s.maxConcurrent == 0
    ensures OwnAct(s, s', i)
  {
    var c := s.calls[i];
    match c.phase {
      case Arrived =>
        s' := if c.fingerprint in s.active then Moved(s, i, Ended(Cycle))
              else Moved(s, i, Waiting).(active := s.active + {c.fingerprint});
        assert Track(s, s', i);
      case Waiting =>
        if s.maxConcurrent == 0 {
          s' := Moved(s, i, Untracking(Exhausted));
          assert Refuse(s, s', i);
        } else {
          s' := Moved(s, i, Admitted).(occupancy := s.occupancy + 1);
          assert Admit(s, s', i);
        }
      case Admitted =>
        s' := if s.starts >= s.maxStarts then Moved(s, i, Releasing(StartBudget))
              else s.(starts := s.starts + 1, calls := s.calls[i := c.(phase := Running, started := true)]);
        assert CountStart(s, s', i);
      case Running => s' := Moved(s, i, Releasing(Finished)); assert Finish(s, s', i);
      case Releasing(outcome) =>
        var moved := Moved(s, i, Untracking(outcome));
        s' := if s.occupancy > 0 then moved.(occupancy := s.occupancy - 1) else moved;
        assert Release(s, s', i);
      case Untracking(outcome) =>
        s' := Moved(s, i, Ended(outcome)).(active := s.active - {c.fingerprint});
        assert Untrack(s, s', i);
    }
    NotForced(s, s', i);
  }

  // Without any cancellation, rejection or arrival, some call can move: a full semaphore
  // has a holder, and a holder never waits for another call.
  lemma NeverStuck(s: State) returns (s': State, i: nat)
    requires Inv(s) && !AllEnded(s)
    ensures OwnAct(s, s', i)
  {
    var j: nat :| j < |s.calls| && !s.calls[j].phase.Ended?;
    i := j;
    if s.calls[j].phase.Waiting? && s.occupancy == s.maxConcurrent > 0 {
      i := PermitHolder(s.calls);
    }
    s' := OwnStep(s, i);
  }

  ghost predicate Path(states: seq<State>) {
    forall k :: 0 <= k < |states| - 1 ==> SomeAct(states[k], states[k + 1])
  }

  ghost predicate SomeOwnAct(s: State, s': State) {
    exists i: nat :: OwnAct(s, s', i)
  }

  // A path on which nobody is cancelled or found invalid.
  ghost predicate OwnPath(states: seq<State>) {
    forall k :: 0 <= k < |states| - 1 ==> SomeOwnAct(states[k], states[k + 1])
  }

  lemma OwnPathCons(s: State, rest: seq<State>)
    requires rest != [] && OwnPath(rest) && SomeOwnAct(s, rest[0])
    ensures OwnPath([s] + rest)
  {
    var path := [s] + rest;
    forall k | 0 <= k < |path| - 1 ensures SomeOwnAct(path[k], path[k + 1]) {
      assert k > 0 ==> path[k] == rest[k - 1] && path[k + 1] == rest[k - 1 + 1];
    }
  }

  lemma PathTail(states: seq<State>)
    requires states != [] && Path(states)
    ensures Path(states[1..])
  {
    var rest := states[1..];
    forall k | 0 <= k < |rest| - 1 ensures SomeAct(rest[k], rest[k + 1]) {
      assert rest[k] == states[k + 1] && rest[k + 1] == states[k + 1 + 1];
    }
  }

  // From any reachable state the calls in flight can all end of their own accord, for
  // any limits, leaving nothing behind.
  lemma {:induction false} Drains(s: State) returns (path: seq<State>)
    requires Inv(s)
    ensures path != [] && path[0] == s && OwnPath(path)
    ensures var end := path[|path| - 1]; Inv(end) && AllEnded(end) && end.occupancy == 0 && end.active == {}
    decreases TotalRank(s.calls)
  {
    if AllEnded(s) {
      NoPermits(s.calls);
      path := [s];
    } else {
      var s', i := NeverStuck(s);
      ActKeepsInv(s, s', i);
      ActLowersRank(s, s', i);
      var rest := Drains(s');
      path := [s] + rest;
      assert SomeOwnAct(s, s');
      OwnPathCons(s, rest);
    }
  }

  // Without arrivals every schedule ends after at most TotalRank steps.
  lemma {:induction false} SchedulesAreBounded(states: seq<State>)
    requires states != [] && Path(states)
    ensures |states| - 1 <= TotalRank(states[0].calls)
  {
    if |states| > 1 {
      assert SomeAct(states[0], states[0 + 1]);
      var i: nat :| Act(states[0], states[1], i);
      ActLowersRank(states[0], states[1], i);
      PathTail(states);
      SchedulesAreBounded(states[1..]);
    }
  }

  // ---- The detector object behind Track and Untrack ----

  class CycleDetector {
    var active: set<string>
    var fingerprints: map<string, string>

    ghost predicate Valid()
      reads this
    {
      fingerprints.Keys == active
    }

    constructor ()
      ensures Valid() && active == {}
    {
      active, fingerprints := {}, map[];
    }

    // true is the source's nil error; a detected cycle leaves the owner's entry alone.
    method CheckAndTrack(fingerprint: string, name: string) returns (ok: bool)
      requires Valid()
      modifies this
      ensures Valid() && ok == (fingerprint !in old(active))
      ensures active == if ok then old(active) + {fingerprint} else old(active)
      ensures fingerprints == if ok then old(fingerprints)[fingerprint := name] else old(fingerprints)
    {
      if fingerprint in active {
        return false;
      }
      active := active + {fingerprint};
      fingerprints := fingerprints[fingerprint := name];
      ok := true;
    }

    method Untrack(fingerprint: string)
      requires Valid()
      modifies this
      ensures Valid() && active == old(active) - {fingerprint}
      ensures fingerprints == old(fingerprints) - {fingerprint}
    {
      active := active - {fingerprint};
      fingerprints := fingerprints - {fingerprint};
    }

    method ActiveCount() returns (n: nat)
      requires Valid()
      ensures n == |active| == |fingerprints|
    {
      assert |fingerprints.Keys| == |fingerprints|;
      n := |active|;
    }
  }
}
