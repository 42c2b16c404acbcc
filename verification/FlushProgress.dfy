/**
 * Group commit gets somewhere: no call of flush_to is ever stuck, and once nothing new is appended or called every
 * flush that can return does so after a bounded number of steps, whatever the order the threads are scheduled in.
 */
module FlushProgress {
  import opened FlushProtocol

  /** The steps of a thread inside flush_to, a write() that takes no bytes apart. */
  predicate Works(step: Step) {
    step.Check? || step.Wake? || step.Copy? || (step.Write? && step.n > 0) || step.Sync? || step.Publish?
  }

  /** The thread has called flush_to and is not back. */
  predicate Inside(s: State, t: nat) {
    t in s.phases && !s.phases[t].Returned?
  }

  ghost predicate CanWork(s: State) {
    exists step :: Works(step) && Enabled(s, step)
  }

  /** While a thread is inside flush_to, it or another one has a step to take. */
  lemma NeverStuck(s: State, t: nat)
    requires Inv(s) && Inside(s, t)
    ensures CanWork(s)
  {
    hide Flat, Rest;
    if s.phases[t].Waiting? && s.flushing {
      var u :| u in s.phases && IsLeader(s.phases[u]);
      LeaderWorks(s, u);
    } else if IsLeader(s.phases[t]) {
      LeaderWorks(s, t);
    } else {
      var step := if s.phases[t].Waiting? then Wake(t) else Check(t);
      assert Works(step) && Enabled(s, step);
    }
  }

  lemma LeaderWorks(s: State, t: nat)
    requires Inv(s) && t in s.phases && IsLeader(s.phases[t])
    ensures CanWork(s)
  {
    hide Flat, Rest;
    assert PhaseOk(s, s.phases[t]);
    var step :=
      if s.phases[t].Leading? then Copy(t)
      else if s.phases[t].Synced? then Publish(t)
      else if s.sent < |s.fill| then Write(t, 1) else Sync(t);
    assert Works(step) && Enabled(s, step);
  }

  // ---- sums over threads ----------------------------------------------------------------------------

  ghost function Sum(m: map<nat, nat>): nat {
    if m == map[] then 0
    else
      var t :| t in m;
      m[t] + Sum(m - {t})
  }

  lemma {:induction false} SumTake(m: map<nat, nat>, t: nat)
    requires t in m
    ensures Sum(m) == m[t] + Sum(m - {t})
    decreases |m|
  {
    var u :| u in m && Sum(m) == m[u] + Sum(m - {u});
    if u != t {
      SumTake(m - {u}, t);
      SumTake(m - {t}, u);
      assert m - {u} - {t} == m - {t} - {u};
    }
  }

  lemma SumSet(m: map<nat, nat>, t: nat, x: nat)
    requires t in m
    ensures Sum(m[t := x]) + m[t] == Sum(m) + x
  {
    SumTake(m, t);
    SumTake(m[t := x], t);
    assert m[t := x] - {t} == m - {t};
  }

  lemma {:induction false} SumBound(m: map<nat, nat>)
    requires forall t :: t in m ==> m[t] <= 3
    ensures Sum(m) <= 3 * |m|
    decreases |m|
  {
    if m != map[] {
      var t :| t in m;
      SumTake(m, t);
      assert |m - {t}| == |m| - 1;
      SumBound(m - {t});
    }
  }

  // ---- how much is left to do -------------------------------------------------------------------------

  /** A batch is in flight that leaves out records appended since it was copied. */
  ghost predicate Behind(s: State) {
    exists t :: t in s.phases && HasBatch(s.phases[t]) && s.phases[t].end < s.current
  }

  /** How often the leadership can still change hands: at most twice taken and given up. */
  ghost function Turns(s: State): nat {
    if s.flushing then (if Behind(s) then 3 else 1) else if s.flushed < s.current then 2 else 0
  }

  /** Bytes no write() has taken yet. */
  ghost function Pending(s: State): nat {
    |s.buffer| + if NoBatch(s) || |s.fill| < s.sent then 0 else |s.fill| - s.sent
  }

  /** The steps a thread can take before the leadership changes hands, those of write() apart. */
  function Weight(s: State, p: Phase): nat {
    match p
    case Returned(_) => 0
    case Checking(_) => 1
    case Waiting(target) => if s.flushing && s.flushed < target then 0 else 2
    case Leading(_) => 3
    case Writing(_, _) => 2
    case Synced(_, _) => 1
  }

  ghost function Weights(s: State): map<nat, nat> {
    map t | t in s.phases :: Weight(s, s.phases[t])
  }

  /** A bound on the steps left when nothing is appended or called any more. */
  ghost function Measure(s: State): nat {
    Turns(s) * (3 * |s.phases| + 1) + Pending(s) + Sum(Weights(s))
  }

  /** Every target is at most the next LSN: it can be reached without new records. */
  predicate Timely(s: State) {
    forall t :: t in s.phases ==> s.phases[t].target <= s.current
  }

  /** A step that leaves the leadership alone moves one thread, or bytes, nearer the end. */
  lemma SmallStep(s: State, t: nat, s': State)
    requires t in s.phases && t in s'.phases && s'.phases == s.phases[t := s'.phases[t]]
    requires s'.flushing == s.flushing && s'.flushed == s.flushed && Turns(s') == Turns(s)
    requires Pending(s') + Weight(s', s'.phases[t]) < Pending(s) + Weight(s, s.phases[t])
    ensures Measure(s') < Measure(s)
  {
    hide Turns, Pending;
    assert Weights(s') == Weights(s)[t := Weight(s', s'.phases[t])];
    SumSet(Weights(s), t, Weight(s', s'.phases[t]));
    assert s'.phases.Keys == s.phases.Keys;
    assert |s'.phases| == |s'.phases.Keys| && |s.phases| == |s.phases.Keys|;
  }

  /** A step that takes or gives up the leadership. */
  lemma TurnStep(s: State, t: nat, s': State)
    requires t in s.phases && t in s'.phases && s'.phases == s.phases[t := s'.phases[t]]
    requires Turns(s') < Turns(s) && Pending(s') == Pending(s)
    ensures Measure(s') < Measure(s)
  {
    hide Turns, Pending;
    assert s'.phases.Keys == s.phases.Keys;
    assert |s'.phases| == |s'.phases.Keys| && |s.phases| == |s.phases.Keys|;
    assert Weights(s').Keys == s'.phases.Keys;
    assert |Weights(s')| == |Weights(s').Keys|;
    SumBound(Weights(s'));
    TurnDown(Turns(s), Turns(s'), 3 * |s.phases| + 1);
  }

  lemma TurnDown(a: nat, b: nat, n: nat)
    requires b < a
    ensures b * n + n <= a * n
  {
    assert (b + 1) * n <= a * n;
  }

  lemma LeaderIs(s: State, t: nat)
    requires Inv(s) && t in s.phases && IsLeader(s.phases[t])
    ensures s.flushing && forall u :: u in s.phases && IsLeader(s.phases[u]) ==> u == t
    ensures HasBatch(s.phases[t]) ==>
              !NoBatch(s) && s.sent <= |s.fill| && (Behind(s) <==> s.phases[t].end < s.current)
    ensures !HasBatch(s.phases[t]) ==> NoBatch(s) && !Behind(s)
  {
    hide Flat, Rest;
    assert PhaseOk(s, s.phases[t]);
  }

  /** Nobody leads, so nobody has a batch. */
  lemma NobodyLeads(s: State)
    requires Inv(s) && !s.flushing
    ensures NoBatch(s) && !Behind(s)
  {
    hide Flat, Rest, PhaseOk;
  }

  lemma CheckWorks(s: State, t: nat)
    requires Inv(s) && Timely(s) && Enabled(s, Check(t))
    ensures Measure(After(s, Check(t))) < Measure(s)
  {
    hide Flat, Rest, PhaseOk, Measure;
    var s' := After(s, Check(t));
    if s.flushed < s.phases[t].target && !s.flushing {
      NobodyLeads(s);
      assert NoBatch(s') && !Behind(s');
      TurnStep(s, t, s');
    } else {
      SameBatch(s, t, s');
      SmallStep(s, t, s');
    }
  }

  /** A thread that does not lead moves: the batch in flight stays what it is. */
  lemma SameBatch(s: State, t: nat, s': State)
    requires t in s.phases && !HasBatch(s.phases[t]) && t in s'.phases && !HasBatch(s'.phases[t])
    requires s' == s.(phases := s.phases[t := s'.phases[t]])
    ensures Turns(s') == Turns(s) && Pending(s') == Pending(s)
  {
    assert forall u :: u in s.phases && u != t ==> u in s'.phases && s'.phases[u] == s.phases[u];
    assert NoBatch(s') <==> NoBatch(s);
    assert Behind(s') <==> Behind(s);
  }

  lemma WakeWorks(s: State, t: nat)
    requires Inv(s) && Enabled(s, Wake(t))
    ensures Measure(After(s, Wake(t))) < Measure(s)
  {
    hide Measure, Turns, Pending;
    SameBatch(s, t, After(s, Wake(t)));
    SmallStep(s, t, After(s, Wake(t)));
  }

  /** A step of the leader short of publishing. */
  lemma LeaderWorksOn(s: State, step: Step, t: nat)
    requires Inv(s) && Enabled(s, step)
    requires step == Copy(t) || step == Sync(t) || (step.Write? && step.t == t && step.n > 0)
    ensures Measure(After(s, step)) < Measure(s)
  {
    StepInv(s, step, After(s, step));
    LeaderIs(s, t);
    LeaderIs(After(s, step), t);
    hide Flat, Rest, PhaseOk, Measure, Inv, OneLeader, Behind, NoBatch;
    var s' := After(s, step);
    assert s'.phases == s.phases[t := s'.phases[t]];
    SmallStep(s, t, s');
  }

  lemma PublishWorks(s: State, t: nat)
    requires Inv(s) && Enabled(s, Publish(t))
    ensures Measure(After(s, Publish(t))) < Measure(s)
  {
    var s' := After(s, Publish(t));
    StepInv(s, Publish(t), s');
    LeaderIs(s, t);
    assert PhaseOk(s, s.phases[t]);
    NobodyLeads(s');
    hide Flat, Rest, PhaseOk, Measure, Inv, OneLeader, Behind, NoBatch;
    TurnStep(s, t, s');
  }

  /** Every step brings the end nearer. */
  lemma WorkShrinks(s: State, step: Step)
    requires Inv(s) && Timely(s) && Works(step) && Enabled(s, step)
    ensures Timely(After(s, step)) && Measure(After(s, step)) < Measure(s)
  {
    hide Inv, Measure;
    match step
    case Check(t) => CheckWorks(s, t);
    case Wake(t) => WakeWorks(s, t);
    case Publish(t) => PublishWorks(s, t);
    case Copy(t) => LeaderWorksOn(s, step, t);
    case Sync(t) => LeaderWorksOn(s, step, t);
    case Write(t, n) => LeaderWorksOn(s, step, t);
  }

  // ---- over whole runs ----------------------------------------------------------------------------------

  ghost predicate WorkStep(s: State, s': State) {
    exists step :: Works(step) && Takes(s, step, s')
  }

  /** From state i on nothing is appended or called: only threads inside flush_to take steps. */
  ghost predicate QuietFrom(states: seq<State>, i: nat) {
    Run(states) && i < |states| && forall j :: i < j < |states| ==> WorkStep(states[j - 1], states[j])
  }

  /** The number of steps taken from a quiet point on is bounded by what was left to do there. */
  lemma {:induction false} StepsAreBounded(states: seq<State>, i: nat, j: nat)
    requires QuietFrom(states, i) && i <= j < |states| && Timely(states[i])
    ensures Timely(states[j]) && j - i + Measure(states[j]) <= Measure(states[i])
    decreases j
  {
    hide Inv, Measure, Run, Timely, Takes;
    if i < j {
      StepsAreBounded(states, i, j - 1);
      RunInv(states, j - 1);
      assert WorkStep(states[j - 1], states[j]);
      var step :| Works(step) && Takes(states[j - 1], step, states[j]);
      TakesIs(states[j - 1], step, states[j]);
      WorkShrinks(states[j - 1], step);
    }
  }

  lemma TakesIs(s: State, step: Step, s': State)
    requires Takes(s, step, s')
    ensures Enabled(s, step) && s' == After(s, step)
  {
  }

  /**
   * Once nothing is appended or called any more and every target is at most the next LSN, the threads take at most
   * `Measure` steps, in whatever order; when none is left to take every call has returned, with all below its target
   * durable.
   */
  lemma EveryFlushReturns(states: seq<State>, i: nat, t: nat)
    requires QuietFrom(states, i) && Timely(states[i]) && t in states[i].phases
    ensures var last := states[|states| - 1];
            && |states| - 1 - i <= Measure(states[i])
            && (!CanWork(last) ==>
                  && t in last.phases && last.phases[t].Returned?
                  && (states[i].phases[t].target >= last.base ==> DurableBelow(last, states[i].phases[t].target)))
  {
    hide Inv, Measure, Run, Timely, Takes, CanWork, DurableBelow;
    var n := |states| - 1;
    StepsAreBounded(states, i, n);
    StaysKnown(states, i, n, t);
    RunInv(states, n);
    if !CanWork(states[n]) {
      if Inside(states[n], t) {
        NeverStuck(states[n], t);
      }
      if states[n].phases[t].target >= states[n].base {
        FlushGuarantee(states, n, t);
      }
    }
  }

  /** In a quiet run a call keeps its target, and the next LSN stays what it is. */
  lemma {:induction false} StaysKnown(states: seq<State>, i: nat, j: nat, t: nat)
    requires QuietFrom(states, i) && i <= j < |states| && t in states[i].phases
    ensures t in states[j].phases && states[j].phases[t].target == states[i].phases[t].target
    ensures states[j].current == states[i].current && states[j].base == states[i].base
    decreases j
  {
    hide Run, Takes;
    if i < j {
      StaysKnown(states, i, j - 1, t);
      assert WorkStep(states[j - 1], states[j]);
      var step :| Works(step) && Takes(states[j - 1], step, states[j]);
      TakesIs(states[j - 1], step, states[j]);
    }
  }

  /** A call whose target is above the next LSN does not return in such a run. */
  lemma TooFarNeverReturns(states: seq<State>, i: nat, j: nat, t: nat)
    requires QuietFrom(states, i) && i <= j < |states| && t in states[i].phases
    requires states[i].current < states[i].phases[t].target
    ensures Inside(states[j], t)
  {
    hide Run, WorkStep;
    StaysKnown(states, i, j, t);
    if states[j].phases[t].Returned? {
      ReturnsOnlyWhenReached(states, j, t);
    }
  }
}
