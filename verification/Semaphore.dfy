/**
 * The context-cancellable weighted semaphore, as atomic channel operations of any
 * number of concurrent callers. A caller sends one token per permit, and gives back
 * what it has when its context is cancelled in the middle.
 */
module Semaphore {

  datatype Phase =
    | Acquiring(weight: nat, got: nat)  // in the loop of Acquire, before send number got
    | RollingBack(left: nat)            // cancelled, still to receive `left` tokens
    | Holding(weight: nat)
    | Releasing(left: nat)              // in the loop of Release
    | Refused                           // invalid weight
    | Cancelled                         // Acquire returned the context's error
    | Released

  // `sent` and `received` count the caller's own completed channel operations.
  datatype Caller = Caller(phase: Phase, sent: nat, received: nat)

  datatype State = State(limit: nat, occupancy: nat, callers: seq<Caller>)

  function Permits(p: Phase): nat {
    match p
    case Acquiring(_, got) => got
    case RollingBack(left) => left
    case Holding(weight) => weight
    case Releasing(left) => left
    case _ => 0
  }

  function TotalPermits(callers: seq<Caller>): nat {
    if callers == [] then 0 else Permits(callers[0].phase) + TotalPermits(callers[1..])
  }

  predicate Init(s: State) { s.occupancy == 0 && s.callers == [] }

  // ---- The atomic steps ----

  predicate Begin(s: State, s': State, weight: int) {
    var phase := if weight <= 0 || weight > s.limit then Refused else Acquiring(weight, 0);
    s' == s.(callers := s.callers + [Caller(phase, 0, 0)])
  }

  predicate Send(s: State, s': State, i: nat) {
    && i < |s.callers| && s.callers[i].phase.Acquiring?
    && s.occupancy < s.limit
    && var c := s.callers[i];
       var got := c.phase.got + 1;
       var phase := if got == c.phase.weight then Holding(got) else Acquiring(c.phase.weight, got);
       s' == s.(occupancy := s.occupancy + 1, callers := s.callers[i := Caller(phase, c.sent + 1, c.received)])
  }

  // The select takes the context branch.
  predicate Cancel(s: State, s': State, i: nat) {
    && i < |s.callers| && s.callers[i].phase.Acquiring?
    && var c := s.callers[i];
       var phase := if c.phase.got == 0 then Cancelled else RollingBack(c.phase.got);
       s' == s.(callers := s.callers[i := c.(phase := phase)])
  }

  // A rollback receive blocks on an empty channel.
  predicate RollBackOne(s: State, s': State, i: nat) {
    && i < |s.callers| && s.callers[i].phase.RollingBack?
    && s.occupancy > 0
    && var c := s.callers[i];
       var phase := if c.phase.left <= 1 then Cancelled else RollingBack(c.phase.left - 1);
       s' == s.(occupancy := s.occupancy - 1, callers := s.callers[i := Caller(phase, c.sent, c.received + 1)])
  }

  predicate BeginRelease(s: State, s': State, i: nat) {
    && i < |s.callers| && s.callers[i].phase.Holding?
    && s' == s.(callers := s.callers[i := s.callers[i].(phase := Releasing(s.callers[i].phase.weight))])
  }

  // A release receive falls through on an empty channel.
  predicate ReleaseOne(s: State, s': State, i: nat) {
    && i < |s.callers| && s.callers[i].phase.Releasing?
    && var c := s.callers[i];
       var phase := if c.phase.left <= 1 then Released else Releasing(c.phase.left - 1);
       if s.occupancy > 0
       then s' == s.(occupancy := s.occupancy - 1,
                     callers := s.callers[i := Caller(phase, c.sent, c.received + 1)])
       else s' == s.(callers := s.callers[i := c.(phase := phase)])
  }

  predicate Act(s: State, s': State, i: nat) {
    || Send(s, s', i) || Cancel(s, s', i) || RollBackOne(s, s', i)
    || BeginRelease(s, s', i) || ReleaseOne(s, s', i)
  }

  ghost predicate Next(s: State, s': State) {
    (exists weight :: Begin(s, s', weight)) || (exists i: nat :: Act(s, s', i))
  }

  ghost predicate StepAt(states: seq<State>, k: nat)
    requires k + 1 < |states|
  {
    Next(states[k], states[k + 1])
  }

  ghost predicate Run(states: seq<State>) {
    && states != [] && Init(states[0])
    && forall k: nat :: k < |states| - 1 ==> StepAt(states, k)
  }

  // ---- What every step keeps ----

  predicate GoodCaller(c: Caller, limit: nat) {
    && c.sent == c.received + Permits(c.phase)
    && (c.phase.Acquiring? ==> c.phase.got < c.phase.weight <= limit)
    && (c.phase.Holding? ==> 0 < c.phase.weight <= limit)
    && (c.phase.RollingBack? || c.phase.Releasing? ==> c.phase.left > 0)
  }

  ghost predicate Inv(s: State) {
    && s.occupancy == TotalPermits(s.callers)
    && s.occupancy <= s.limit
    && forall i :: 0 <= i < |s.callers| ==> GoodCaller(s.callers[i], s.limit)
  }

  lemma {:induction false} TotalUpdate(callers: seq<Caller>, i: nat, c: Caller)
    requires i < |callers|
    ensures TotalPermits(callers[i := c]) == TotalPermits(callers) - Permits(callers[i].phase) + Permits(c.phase)
    ensures TotalPermits(callers) >= Permits(callers[i].phase)
  {
    if i == 0 {
      assert callers[0 := c][1..] == callers[1..];
    } else {
      TotalUpdate(callers[1..], i - 1, c);
      assert callers[i := c][1..] == callers[1..][i - 1 := c];
    }
  }

  lemma {:induction false} TotalAppend(callers: seq<Caller>, c: Caller)
    ensures TotalPermits(callers + [c]) == TotalPermits(callers) + Permits(c.phase)
  {
    if callers == [] {
      assert callers + [c] == [c];
    } else {
      TotalAppend(callers[1..], c);
      assert (callers + [c])[1..] == callers[1..] + [c];
    }
  }

  lemma ActKeepsInv(s: State, s': State, i: nat)
    requires Inv(s) && Act(s, s', i)
    ensures Inv(s') && s'.limit == s.limit
  {
    assert GoodCaller(s.callers[i], s.limit);
    TotalUpdate(s.callers, i, s'.callers[i]);
  }

  lemma StepKeepsInv(s: State, s': State)
    requires Inv(s) && Next(s, s')
    ensures Inv(s') && s'.limit == s.limit
  {
    if weight :| Begin(s, s', weight) {
      TotalAppend(s.callers, s'.callers[|s.callers|]);
    } else {
      var i: nat :| Act(s, s', i);
      ActKeepsInv(s, s', i);
    }
  }

  lemma {:induction false} RunKeepsInv(states: seq<State>, k: nat)
    requires Run(states) && k < |states|
    ensures Inv(states[k]) && states[k].limit == states[0].limit
  {
    if k > 0 {
      RunKeepsInv(states, k - 1);
      assert StepAt(states, k - 1);
      StepKeepsInv(states[k - 1], states[k]);
    }
  }

  // ---- What that means for any interleaving ----

  // Occupancy is the permits held or partly held, never above the limit; a cancelled
  // or finished caller has given back exactly what it put in.
  lemma OccupancyIsPermits(states: seq<State>, k: nat)
    requires Run(states) && k < |states|
    ensures states[k].occupancy == TotalPermits(states[k].callers) <= states[0].limit
    ensures forall i :: 0 <= i < |states[k].callers| ==>
              var c := states[k].callers[i];
              c.phase.Cancelled? || c.phase.Released? || c.phase.Refused? ==> c.sent == c.received
  {
    RunKeepsInv(states, k);
  }

  // Neither a rollback receive nor a release ever finds the channel empty.
  lemma GivingBackNeverEmpty(states: seq<State>, k: nat, i: nat)
    requires Run(states) && k < |states| && i < |states[k].callers|
    requires states[k].callers[i].phase.RollingBack? || states[k].callers[i].phase.Releasing?
    ensures states[k].occupancy > 0
  {
    RunKeepsInv(states, k);
    TotalUpdate(states[k].callers, i, states[k].callers[i]);
  }

  lemma {:induction false} NoPermitsNoTotal(callers: seq<Caller>)
    ensures TotalPermits(callers) == 0 <==> forall i :: 0 <= i < |callers| ==> Permits(callers[i].phase) == 0
  {
    if callers != [] {
      NoPermitsNoTotal(callers[1..]);
      assert forall i :: 0 < i < |callers| ==> callers[i] == callers[1..][i - 1];
      assert forall i :: 0 <= i < |callers[1..]| ==> callers[1..][i] == callers[i + 1];
    }
  }

  // The channel is empty exactly when nobody has a permit, whole or in part.
  lemma EmptyIffIdle(states: seq<State>, k: nat)
    requires Run(states) && k < |states|
    ensures states[k].occupancy == 0 <==>
            forall i :: 0 <= i < |states[k].callers| ==> Permits(states[k].callers[i].phase) == 0
  {
    RunKeepsInv(states, k);
    NoPermitsNoTotal(states[k].callers);
  }

  ghost predicate SomeoneCanSend(s: State) {
    s.occupancy < s.limit && exists i :: 0 <= i < |s.callers| && s.callers[i].phase.Acquiring?
  }

  // With unit weights a waiting caller is only ever waiting for a caller that holds
  // its permit or is giving it back; no set of waiting callers blocks itself.
  lemma UnitWeightsNeverStall(states: seq<State>, k: nat, i: nat)
    requires Run(states) && k < |states| && states[0].limit > 0
    requires forall j :: 0 <= j < |states[k].callers| && states[k].callers[j].phase.Acquiring? ==>
               states[k].callers[j].phase.weight == 1
    requires i < |states[k].callers| && states[k].callers[i].phase.Acquiring?
    ensures SomeoneCanSend(states[k]) ||
            exists j :: 0 <= j < |states[k].callers| &&
              (states[k].callers[j].phase.Holding? || states[k].callers[j].phase.Releasing?
               || states[k].callers[j].phase.RollingBack?)
  {
    RunKeepsInv(states, k);
    var s := states[k];
    if s.occupancy == s.limit {
      NoPermitsNoTotal(s.callers);
      var j :| 0 <= j < |s.callers| && Permits(s.callers[j].phase) != 0;
      assert GoodCaller(s.callers[j], s.limit);
    }
  }

  // ---- When waiting callers block each other ----

  // The weights of the callers in the loop of Acquire.
  function WaitingWeights(callers: seq<Caller>): seq<nat> {
    if callers == [] then []
    else (if callers[0].phase.Acquiring? then [callers[0].phase.weight] else []) + WaitingWeights(callers[1..])
  }

  // Callers of these weights are waiting, nobody else has a permit, and none of them
  // can take another: only a cancellation helps.
  ghost predicate Stalled(s: State, weights: seq<nat>) {
    && WaitingWeights(s.callers) == weights
    && (forall i :: 0 <= i < |s.callers| && !s.callers[i].phase.Acquiring? ==> Permits(s.callers[i].phase) == 0)
    && !SomeoneCanSend(s)
  }

  ghost predicate Reaches(limit: nat, s: State) {
    exists states: seq<State> :: Run(states) && states[0].limit == limit && states[|states| - 1] == s
  }

  ghost predicate CanStall(limit: nat, weights: seq<nat>) {
    exists s :: Reaches(limit, s) && Stalled(s, weights)
  }

  // How many permits callers of these weights can hold and all still be waiting.
  function Slack(weights: seq<nat>): nat
    requires forall i :: 0 <= i < |weights| ==> weights[i] > 0
  {
    if weights == [] then 0 else weights[0] - 1 + Slack(weights[1..])
  }

  lemma {:induction false} WaitingWeightsPositive(callers: seq<Caller>, limit: nat)
    requires forall i :: 0 <= i < |callers| ==> GoodCaller(callers[i], limit)
    ensures forall i :: 0 <= i < |WaitingWeights(callers)| ==> WaitingWeights(callers)[i] > 0
  {
    if callers != [] {
      WaitingWeightsPositive(callers[1..], limit);
    }
  }

  lemma {:induction false} PermitsWithinSlack(callers: seq<Caller>, limit: nat)
    requires forall i :: 0 <= i < |callers| ==> GoodCaller(callers[i], limit)
    requires forall i :: 0 <= i < |callers| && !callers[i].phase.Acquiring? ==> Permits(callers[i].phase) == 0
    requires forall i :: 0 <= i < |WaitingWeights(callers)| ==> WaitingWeights(callers)[i] > 0
    ensures TotalPermits(callers) <= Slack(WaitingWeights(callers))
  {
    if callers != [] {
      var rest := callers[1..];
      WaitingWeightsPositive(rest, limit);
      PermitsWithinSlack(rest, limit);
      if callers[0].phase.Acquiring? {
        assert GoodCaller(callers[0], limit);
        assert WaitingWeights(callers)[1..] == WaitingWeights(rest);
      } else {
        assert WaitingWeights(callers) == WaitingWeights(rest);
      }
    }
  }

  lemma {:induction false} SomeoneWaits(callers: seq<Caller>) returns (i: nat)
    requires WaitingWeights(callers) != []
    ensures i < |callers| && callers[i].phase.Acquiring?
  {
    if callers[0].phase.Acquiring? {
      i := 0;
    } else {
      var j := SomeoneWaits(callers[1..]);
      i := j + 1;
    }
  }

  lemma ReachesNext(limit: nat, s: State, s': State)
    requires Reaches(limit, s) && Next(s, s')
    ensures Reaches(limit, s')
  {
    var states: seq<State> :| Run(states) && states[0].limit == limit && states[|states| - 1] == s;
    var longer := states + [s'];
    forall k: nat | k < |longer| - 1 ensures StepAt(longer, k) {
      if k < |states| - 1 {
        assert StepAt(states, k);
        assert longer[k] == states[k] && longer[k + 1] == states[k + 1];
      }
    }
    assert Run(longer) && longer[|longer| - 1] == s';
  }

  // Callers of these weights that have taken so many permits each.
  function Queue(weights: seq<nat>, gots: seq<nat>): (callers: seq<Caller>)
    requires |weights| == |gots|
  {
    seq(|weights|, i requires 0 <= i < |weights| => Caller(Acquiring(weights[i], gots[i]), gots[i], 0))
  }

  function Total(gots: seq<nat>): nat {
    if gots == [] then 0 else gots[0] + Total(gots[1..])
  }

  function Zeros(n: nat): seq<nat> { seq(n, i => 0) }

  lemma {:induction false} ReachesFresh(limit: nat, weights: seq<nat>)
    requires forall i :: 0 <= i < |weights| ==> 0 < weights[i] <= limit
    ensures Reaches(limit, State(limit, 0, Queue(weights, Zeros(|weights|))))
  {
    if weights == [] {
      var s := State(limit, 0, []);
      assert Run([s]);
      assert s.callers == Queue(weights, Zeros(0));
    } else {
      var n := |weights| - 1;
      ReachesFresh(limit, weights[..n]);
      var s := State(limit, 0, Queue(weights[..n], Zeros(n)));
      var s' := State(limit, 0, Queue(weights, Zeros(n + 1)));
      assert s'.callers == s.callers + [Caller(Acquiring(weights[n], 0), 0, 0)];
      assert Begin(s, s', weights[n]);
      ReachesNext(limit, s, s');
    }
  }

  lemma {:induction false} TotalDecrement(gots: seq<nat>) returns (i: nat)
    requires Total(gots) > 0
    ensures i < |gots| && gots[i] > 0 && Total(gots[i := gots[i] - 1]) == Total(gots) - 1
  {
    if gots[0] > 0 {
      i := 0;
      assert gots[0 := gots[0] - 1][1..] == gots[1..];
    } else {
      var j := TotalDecrement(gots[1..]);
      i := j + 1;
      assert gots[i := gots[i] - 1][1..] == gots[1..][j := gots[1..][j] - 1];
    }
  }

  lemma {:induction false} TotalZero(gots: seq<nat>)
    requires Total(gots) == 0
    ensures gots == Zeros(|gots|)
  {
    if gots != [] {
      TotalZero(gots[1..]);
      assert gots == [gots[0]] + gots[1..];
    }
  }

  // Any distribution of permits that leaves every caller short of its weight is reached.
  lemma {:induction false} ReachesQueue(limit: nat, weights: seq<nat>, gots: seq<nat>)
    requires |weights| == |gots| && Total(gots) <= limit
    requires forall i :: 0 <= i < |weights| ==> gots[i] < weights[i] <= limit
    ensures Reaches(limit, State(limit, Total(gots), Queue(weights, gots)))
    decreases Total(gots)
  {
    if Total(gots) == 0 {
      TotalZero(gots);
      ReachesFresh(limit, weights);
    } else {
      var i := TotalDecrement(gots);
      var fewer := gots[i := gots[i] - 1];
      ReachesQueue(limit, weights, fewer);
      var s := State(limit, Total(fewer), Queue(weights, fewer));
      var s' := State(limit, Total(gots), Queue(weights, gots));
      assert s'.callers == s.callers[i := Caller(Acquiring(weights[i], gots[i]), gots[i], 0)];
      assert Send(s, s', i) && Act(s, s', i);
      ReachesNext(limit, s, s');
    }
  }

  // Fill the callers from the left, each up to one below its weight.
  function Fill(weights: seq<nat>, permits: nat): (gots: seq<nat>)
    requires forall i :: 0 <= i < |weights| ==> weights[i] > 0
    requires permits <= Slack(weights)
    ensures |gots| == |weights| && Total(gots) == permits
    ensures forall i :: 0 <= i < |weights| ==> gots[i] < weights[i]
  {
    if weights == [] then []
    else
      var first := if permits < weights[0] then permits else weights[0] - 1;
      [first] + Fill(weights[1..], permits - first)
  }

  lemma {:induction false} QueueWeights(weights: seq<nat>, gots: seq<nat>)
    requires |weights| == |gots|
    ensures WaitingWeights(Queue(weights, gots)) == weights
  {
    if weights != [] {
      QueueWeights(weights[1..], gots[1..]);
      assert Queue(weights, gots)[1..] == Queue(weights[1..], gots[1..]);
    }
  }

  // The exact condition: callers waiting for these weights can block each other if and
  // only if, each one permit short of its weight, they can hold all permits there are.
  lemma CanStallIff(limit: nat, weights: seq<nat>)
    requires weights != [] && forall i :: 0 <= i < |weights| ==> 0 < weights[i] <= limit
    ensures CanStall(limit, weights) <==> Slack(weights) >= limit
  {
    if CanStall(limit, weights) {
      var s :| Reaches(limit, s) && Stalled(s, weights);
      StalledHoldsAll(limit, weights, s);
    }
    if Slack(weights) >= limit {
      StallReached(limit, weights);
    }
  }

  lemma StalledHoldsAll(limit: nat, weights: seq<nat>, s: State)
    requires weights != [] && forall i :: 0 <= i < |weights| ==> 0 < weights[i] <= limit
    requires Reaches(limit, s) && Stalled(s, weights)
    ensures Slack(weights) >= limit
  {
    var states: seq<State> :| Run(states) && states[0].limit == limit && states[|states| - 1] == s;
    RunKeepsInv(states, |states| - 1);
    StalledSlack(s, weights);
  }

  lemma StalledSlack(s: State, weights: seq<nat>)
    requires Inv(s) && Stalled(s, weights) && weights != [] && forall i :: 0 <= i < |weights| ==> weights[i] > 0
    ensures Slack(weights) >= s.limit
  {
    var i := SomeoneWaits(s.callers);
    PermitsWithinSlack(s.callers, s.limit);
  }

  lemma StallReached(limit: nat, weights: seq<nat>)
    requires weights != [] && (forall i :: 0 <= i < |weights| ==> 0 < weights[i] <= limit) && Slack(weights) >= limit
    ensures CanStall(limit, weights)
  {
    var gots := Fill(weights, limit);
    ReachesQueue(limit, weights, gots);
    QueueStalled(limit, weights, gots);
  }

  lemma QueueStalled(limit: nat, weights: seq<nat>, gots: seq<nat>)
    requires |weights| == |gots|
    ensures Stalled(State(limit, limit, Queue(weights, gots)), weights)
  {
    QueueWeights(weights, gots);
  }

  // So two callers of weight two on a limit of two can, and callers of weight one never.
  lemma WeightedCallersCanStall()
    ensures CanStall(2, [2, 2])
    ensures forall limit: nat, n: nat :: limit > 0 && n > 0 ==> !CanStall(limit, Ones(n))
  {
    assert Slack([2, 2]) == 1 + Slack([2, 2][1..]) && [2, 2][1..] == [2];
    CanStallIff(2, [2, 2]);
    forall limit: nat, n: nat | limit > 0 && n > 0 ensures !CanStall(limit, Ones(n)) {
      OnesSlack(n);
      CanStallIff(limit, Ones(n));
    }
  }

  function Ones(n: nat): seq<nat> { seq(n, i => 1) }

  lemma {:induction false} OnesSlack(n: nat)
    ensures Slack(Ones(n)) == 0
  {
    if n > 0 {
      OnesSlack(n - 1);
      assert Ones(n)[1..] == Ones(n - 1);
    }
  }
}
