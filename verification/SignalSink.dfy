/**
 The recording sink actor: tasks wait until enough observations are recorded, and are resumed
 by a recording, a timeout or a cancellation.

 An actor runs one method at a time, so a run is a sequence of the steps below in any order.
 Every call of the wait method has an identity; resuming its continuation is a delivery.
 */
module SignalSink {

  datatype Observation = Observation(name: string, sequence: int)

  type Id = nat

  datatype Cause = Immediate | Recorded | TimedOut | Cancelled

  /** One call of the wait method has returned these values. */
  datatype Delivery = Delivery(id: Id, minimum: int, values: seq<Observation>, cause: Cause)

  datatype State = State(
    observations: seq<Observation>,
    waiters: map<Id, int>,
    delivered: seq<Delivery>,
    issued: set<Id>)

  datatype Step =
    | Record(observation: Observation) | DeleteAll | Wait(id: Id, minimum: int) | Timeout(id: Id) | Cancel(id: Id)

  const INITIAL: State := State([], map[], [], {})

  // ----- Steps -----

  ghost function Satisfied(waiters: map<Id, int>, count: nat): set<Id> {
    set id | id in waiters && count >= waiters[id]
  }

  /** The deliveries resume the given waiters, each once, in any order. */
  ghost predicate Resumes(deliveries: seq<Delivery>, ids: set<Id>, waiters: map<Id, int>, values: seq<Observation>,
                          cause: Cause) {
    && (forall a, b :: 0 <= a < b < |deliveries| ==> deliveries[a].id != deliveries[b].id)
    && (forall id :: id in ids <==> exists d :: d in deliveries && d.id == id)
    && (forall d :: d in deliveries ==> d.id in waiters && d == Delivery(d.id, waiters[d.id], values, cause))
  }

  ghost predicate ResumesOne(s: State, id: Id, cause: Cause, s': State) {
    if id in s.waiters then
      s' == s.(waiters := s.waiters - {id},
               delivered := s.delivered + [Delivery(id, s.waiters[id], s.observations, cause)])
    else s' == s
  }

  ghost predicate Next(s: State, step: Step, s': State) {
    match step
    case Record(o) =>
      var observations := s.observations + [o];
      var satisfied := Satisfied(s.waiters, |observations|);
      && s'.observations == observations
      && s'.waiters == s.waiters - satisfied
      && s'.issued == s.issued
      && |s'.delivered| >= |s.delivered| && s'.delivered[..|s.delivered|] == s.delivered
      && Resumes(s'.delivered[|s.delivered|..], satisfied, s.waiters, observations, Recorded)
    case DeleteAll => s' == s.(observations := [])
    case Wait(id, minimum) =>
      && id !in s.issued
      && s' == if |s.observations| >= minimum
               then s.(delivered := s.delivered + [Delivery(id, minimum, s.observations, Immediate)],
                       issued := s.issued + {id})
               else s.(waiters := s.waiters[id := minimum], issued := s.issued + {id})
    case Timeout(id) => ResumesOne(s, id, TimedOut, s')
    case Cancel(id) => ResumesOne(s, id, Cancelled, s')
  }

  // ----- What every step keeps -----

  ghost predicate DeliveredOnce(delivered: seq<Delivery>) {
    forall a, b :: 0 <= a < b < |delivered| ==> delivered[a].id != delivered[b].id
  }

  ghost predicate IsDelivered(delivered: seq<Delivery>, id: Id) {
    exists d :: d in delivered && d.id == id
  }

  /** A delivery by timeout or cancellation is short, a delivery by a recording is exact. */
  ghost predicate IsProper(d: Delivery) {
    match d.cause
    case Immediate => |d.values| >= d.minimum
    case Recorded => |d.values| == d.minimum
    case TimedOut | Cancelled => |d.values| < d.minimum
  }

  ghost predicate Invariant(s: State) {
    && DeliveredOnce(s.delivered)
    && (forall id :: id in s.issued <==> id in s.waiters || IsDelivered(s.delivered, id))
    && (forall id :: id in s.waiters ==> !IsDelivered(s.delivered, id) && |s.observations| < s.waiters[id])
    && (forall d :: d in s.delivered ==> IsProper(d))
  }

  lemma DeliveredOfConcat(a: seq<Delivery>, b: seq<Delivery>)
    ensures forall id :: IsDelivered(a + b, id) <==> IsDelivered(a, id) || IsDelivered(b, id)
    ensures
      DeliveredOnce(a) && DeliveredOnce(b) && (forall d :: d in b ==> !IsDelivered(a, d.id)) ==> DeliveredOnce(a + b)
  {
    forall id ensures IsDelivered(a + b, id) <==> IsDelivered(a, id) || IsDelivered(b, id) {
      if d :| d in a && d.id == id {
        assert d in a + b;
      }
      if d :| d in b && d.id == id {
        assert d in a + b;
      }
    }
    if DeliveredOnce(a) && DeliveredOnce(b) && forall d :: d in b ==> !IsDelivered(a, d.id) {
      forall i, j | 0 <= i < j < |a + b| ensures (a + b)[i].id != (a + b)[j].id {
        if i < |a| <= j {
          assert (a + b)[i] in a && (a + b)[j] in b;
        }
      }
    }
  }

  lemma RecordKeeps(s: State, o: Observation, s': State)
    requires Invariant(s) && Next(s, Record(o), s')
    ensures Invariant(s')
  {
    var more := s'.delivered[|s.delivered|..];
    assert s'.delivered == s.delivered + more;
    DeliveredOfConcat(s.delivered, more);
    var satisfied := Satisfied(s.waiters, |s'.observations|);
    forall d | d in more ensures IsProper(d) && d.id in satisfied && !IsDelivered(s.delivered, d.id) {
      assert d.id in satisfied;
    }
    assert DeliveredOnce(more);
    forall id ensures IsDelivered(more, id) <==> id in satisfied {}
  }

  lemma ResumeKeeps(s: State, id: Id, cause: Cause, s': State)
    requires Invariant(s) && ResumesOne(s, id, cause, s') && (cause == TimedOut || cause == Cancelled)
    ensures Invariant(s')
  {
    if id in s.waiters {
      var d := Delivery(id, s.waiters[id], s.observations, cause);
      DeliveredOfConcat(s.delivered, [d]);
      assert forall i :: IsDelivered([d], i) <==> i == id by {
        assert d in [d];
      }
    }
  }

  lemma WaitKeeps(s: State, id: Id, minimum: int, s': State)
    requires Invariant(s) && Next(s, Wait(id, minimum), s')
    ensures Invariant(s')
  {
    if |s.observations| >= minimum {
      var d := Delivery(id, minimum, s.observations, Immediate);
      DeliveredOfConcat(s.delivered, [d]);
      assert forall i :: IsDelivered([d], i) <==> i == id by {
        assert d in [d];
      }
    }
  }

  lemma StepKeeps(s: State, step: Step, s': State)
    requires Invariant(s) && Next(s, step, s')
    ensures Invariant(s')
    ensures |s.delivered| <= |s'.delivered| && s'.delivered[..|s.delivered|] == s.delivered
  {
    match step
    case Record(o) => RecordKeeps(s, o, s');
    case DeleteAll =>
    case Wait(id, minimum) => WaitKeeps(s, id, minimum, s');
    case Timeout(id) => ResumeKeeps(s, id, TimedOut, s');
    case Cancel(id) => ResumeKeeps(s, id, Cancelled, s');
  }

  // ----- Runs -----

  ghost predicate IsRun(states: seq<State>, steps: seq<Step>) {
    && |states| == |steps| + 1 && states[0] == INITIAL
    && forall k :: 0 <= k < |steps| ==> Next(states[k], steps[k], states[k + 1])
  }

  lemma {:induction false} RunKeeps(states: seq<State>, steps: seq<Step>, k: nat)
    requires IsRun(states, steps) && k < |states|
    ensures Invariant(states[k])
  {
    if k > 0 {
      RunKeeps(states, steps, k - 1);
      StepKeeps(states[k - 1], steps[k - 1], states[k]);
    }
  }

  /** In every interleaving: no continuation is resumed twice, no waiter stays registered with
      its minimum reached, every wait is either pending or delivered and never both, and a
      result is shorter than its minimum exactly when a timeout or cancellation produced it. */
  lemma EveryRunIsSafe(states: seq<State>, steps: seq<Step>, k: nat)
    requires IsRun(states, steps) && k < |states|
    ensures
      var s := states[k];
      && (forall a, b :: 0 <= a < b < |s.delivered| ==> s.delivered[a].id != s.delivered[b].id)
      && (forall id :: id in s.waiters ==> |s.observations| < s.waiters[id])
      && (forall id :: id in s.issued <==> (id in s.waiters) != IsDelivered(s.delivered, id))
      && (forall d :: d in s.delivered ==>
            (|d.values| < d.minimum <==> d.cause == TimedOut || d.cause == Cancelled))
  {
    RunKeeps(states, steps, k);
  }

  /** Deliveries are final: later states keep them, in order. */
  lemma {:induction false} DeliveriesAreFinal(states: seq<State>, steps: seq<Step>, j: nat, k: nat)
    requires IsRun(states, steps) && j <= k < |states|
    ensures |states[j].delivered| <= |states[k].delivered|
    ensures states[k].delivered[..|states[j].delivered|] == states[j].delivered
    decreases k
  {
    hide Next, Invariant;
    if j < k {
      DeliveriesAreFinal(states, steps, j, k - 1);
      RunKeeps(states, steps, k - 1);
      StepKeeps(states[k - 1], steps[k - 1], states[k]);
      var n := |states[k - 1].delivered|;
      assert states[k].delivered[..n][..|states[j].delivered|] == states[k].delivered[..|states[j].delivered|];
    }
  }

  /** After its timeout a wait has returned, whatever happened before. */
  lemma TimeoutReturns(states: seq<State>, steps: seq<Step>, k: nat, id: Id)
    requires IsRun(states, steps) && k < |steps| && steps[k] == Timeout(id) && id in states[k].issued
    ensures IsDelivered(states[k + 1].delivered, id)
  {
    RunKeeps(states, steps, k);
    RunKeeps(states, steps, k + 1);
    assert Next(states[k], steps[k], states[k + 1]);
  }

  // ----- What a wait returns -----

  /** `at` lists, in order, the steps before `k` that recorded something and were not followed by
      a deletion before `k`. */
  ghost predicate AreRecordings(steps: seq<Step>, k: int, at: seq<int>) {
    && (forall x, y :: 0 <= x < y < |at| ==> at[x] < at[y])
    && (forall j :: j in at <==> IsStanding(steps, k, j))
  }

  ghost predicate IsStanding(steps: seq<Step>, k: int, j: int) {
    0 <= j < k <= |steps| && steps[j].Record? && forall i :: j < i < k ==> steps[i] != DeleteAll
  }

  /** The values are what these steps recorded, in their order. */
  ghost predicate Hold(steps: seq<Step>, at: seq<int>, values: seq<Observation>) {
    && |values| == |at|
    && forall x :: 0 <= x < |at| ==> 0 <= at[x] < |steps| && steps[at[x]] == Record(values[x])
  }

  /** The values are the observations recorded before step `k` since the last deletion. */
  ghost predicate AreObserved(steps: seq<Step>, k: int, values: seq<Observation>) {
    exists at :: AreRecordings(steps, k, at) && Hold(steps, at, values)
  }

  lemma OneMoreRecording(steps: seq<Step>, k: nat, at: seq<int>, values: seq<Observation>)
    requires k < |steps| && AreRecordings(steps, k, at) && Hold(steps, at, values)
    ensures
      match steps[k]
      case Record(o) => AreRecordings(steps, k + 1, at + [k]) && Hold(steps, at + [k], values + [o])
      case DeleteAll => AreRecordings(steps, k + 1, []) && Hold(steps, [], [])
      case _ => AreRecordings(steps, k + 1, at)
  {
    hide IsStanding;
    var later :=
      match steps[k]
      case Record(_) => at + [k]
      case DeleteAll => []
      case _ => at;
    forall j ensures j in later <==> IsStanding(steps, k + 1, j) {
      StandingNext(steps, k, j);
    }
    forall j | j in at ensures j < k {
      StandingNext(steps, k, j);
    }
    OrderedWithLast(at, k);
  }

  lemma OrderedWithLast(at: seq<int>, k: int)
    requires forall x, y :: 0 <= x < y < |at| ==> at[x] < at[y]
    requires forall j :: j in at ==> j < k
    ensures forall x, y :: 0 <= x < y < |at + [k]| ==> (at + [k])[x] < (at + [k])[y]
  {
    forall x, y | 0 <= x < y < |at + [k]| ensures (at + [k])[x] < (at + [k])[y] {
      if y == |at| {
        assert at[x] in at;
      }
    }
  }

  lemma StandingNext(steps: seq<Step>, k: nat, j: int)
    requires k < |steps|
    ensures IsStanding(steps, k + 1, j) <==>
            (j == k && steps[k].Record?) || (steps[k] != DeleteAll && IsStanding(steps, k, j))
    ensures IsStanding(steps, k, j) ==> j < k
  {}

  /** The observations of a state are what was recorded since the last deletion, in order. */
  lemma {:induction false} ObservationsAreRecorded(states: seq<State>, steps: seq<Step>, k: nat)
    requires IsRun(states, steps) && k < |states|
    ensures AreObserved(steps, k, states[k].observations)
  {
    hide AreRecordings, Hold;
    if k == 0 {
      NothingRecorded(steps);
    } else {
      ObservationsAreRecorded(states, steps, k - 1);
      var before := states[k - 1].observations;
      var at :| AreRecordings(steps, k - 1, at) && Hold(steps, at, before);
      OneMoreRecording(steps, k - 1, at, before);
      assert Next(states[k - 1], steps[k - 1], states[k]);
    }
  }

  lemma NothingRecorded(steps: seq<Step>)
    ensures AreRecordings(steps, 0, []) && Hold(steps, [], [])
  {}

  /** The step and what it hands out: a recording that completes the wait, the wait itself, or
      its timeout or cancellation. */
  ghost predicate IsCause(step: Step, d: Delivery) {
    match d.cause
    case Immediate => step == Wait(d.id, d.minimum)
    case Recorded => d.values != [] && step == Record(d.values[|d.values| - 1])
    case TimedOut => step == Timeout(d.id)
    case Cancelled => step == Cancel(d.id)
  }

  ghost predicate WasAsked(steps: seq<Step>, k: int, id: Id, minimum: int) {
    exists i :: 0 <= i < k && i < |steps| && steps[i] == Wait(id, minimum)
  }

  lemma {:induction false} WaitersAsked(states: seq<State>, steps: seq<Step>, k: nat, id: Id)
    requires IsRun(states, steps) && k < |states| && id in states[k].waiters
    ensures WasAsked(steps, k, id, states[k].waiters[id])
  {
    if k > 0 {
      assert Next(states[k - 1], steps[k - 1], states[k]);
      if steps[k - 1] != Wait(id, states[k].waiters[id]) {
        WaitersAsked(states, steps, k - 1, id);
      }
    }
  }

  /** What a step hands out. */
  lemma NewDelivery(s: State, step: Step, s': State, d: Delivery)
    requires Next(s, step, s') && |s.delivered| <= |s'.delivered| && d in s'.delivered[|s.delivered|..]
    ensures d.values == s'.observations && IsCause(step, d)
    ensures step == Wait(d.id, d.minimum) || (d.id in s.waiters && d.minimum == s.waiters[d.id])
  {}

  /** Every delivery comes from one step: it holds exactly the observations recorded since the
      last deletion up to that step, in order; the step is its cause; and the minimum is the one
      that the wait asked for. */
  ghost predicate IsProduced(steps: seq<Step>, j: int, d: Delivery) {
    && 0 <= j < |steps| && AreObserved(steps, j + 1, d.values) && IsCause(steps[j], d)
    && WasAsked(steps, j + 1, d.id, d.minimum)
  }

  lemma {:induction false} DeliveriesAreProduced(states: seq<State>, steps: seq<Step>, k: nat, m: nat)
    requires IsRun(states, steps) && k < |states| && m < |states[k].delivered|
    ensures exists j :: j < k && IsProduced(steps, j, states[k].delivered[m])
  {
    hide AreObserved, WasAsked, IsCause, Next, Invariant;
    FirstState(states, steps);
    if k > 0 {
      RunKeeps(states, steps, k - 1);
      StepKeeps(states[k - 1], steps[k - 1], states[k]);
      var earlier := states[k - 1].delivered;
      var d := states[k].delivered[m];
      if m < |earlier| {
        assert states[k].delivered[..|earlier|][m] == earlier[m];
        DeliveriesAreProduced(states, steps, k - 1, m);
        var j :| j < k - 1 && IsProduced(steps, j, d);
        assert j < k;
      } else {
        assert d == states[k].delivered[|earlier|..][m - |earlier|];
        NewDelivery(states[k - 1], steps[k - 1], states[k], d);
        ObservationsAreRecorded(states, steps, k);
        AskedBefore(states, steps, k, d);
        assert IsProduced(steps, k - 1, d);
      }
    }
  }

  lemma FirstState(states: seq<State>, steps: seq<Step>)
    requires IsRun(states, steps)
    ensures states[0].delivered == []
  {}

  lemma AskedBefore(states: seq<State>, steps: seq<Step>, k: nat, d: Delivery)
    requires IsRun(states, steps) && 0 < k < |states|
    requires steps[k - 1] == Wait(d.id, d.minimum)
             || (d.id in states[k - 1].waiters && d.minimum == states[k - 1].waiters[d.id])
    ensures WasAsked(steps, k, d.id, d.minimum)
  {
    if steps[k - 1] != Wait(d.id, d.minimum) {
      WaitersAsked(states, steps, k - 1, d.id);
    }
  }

  // ----- The actor -----

  class RecordingProductSignalSink {
    var observations: seq<Observation>
    var waiters: map<Id, int>
    ghost var delivered: seq<Delivery>
    ghost var issued: set<Id>

    ghost function Abstract(): State
      reads this
    {
      State(observations, waiters, delivered, issued)
    }

    constructor ()
      ensures Abstract() == INITIAL
    {
      observations, waiters, delivered, issued := [], map[], [], {};
    }

    method Captured() returns (r: seq<Observation>)
      ensures r == observations
    {
      r := observations;
    }

    method RecordObservation(observation: Observation)
      modifies this
      ensures Next(old(Abstract()), Record(observation), Abstract())
    {
      observations := observations + [observation];
      ResumeSatisfiedWaiters();
    }

    method DeleteObservations()
      modifies this
      ensures Next(old(Abstract()), DeleteAll, Abstract())
    {
      observations := [];
    }

    /** Returns at once, or registers a waiter and returns nothing yet. */
    method WaitForCount(id: Id, minimumCount: int) returns (ready: bool, values: seq<Observation>)
      requires id !in issued
      modifies this
      ensures Next(old(Abstract()), Wait(id, minimumCount), Abstract())
      ensures ready <==> |old(observations)| >= minimumCount
      ensures ready ==> values == old(observations)
    {
      issued := issued + {id};
      ready, values := |observations| >= minimumCount, observations;
      if ready {
        delivered := delivered + [Delivery(id, minimumCount, observations, Immediate)];
      } else {
        waiters := waiters[id := minimumCount];
      }
    }

    method ResumeSatisfiedWaiters()
      modifies this`waiters, this`delivered
      ensures
        var satisfied := Satisfied(old(waiters), |observations|);
        && waiters == old(waiters) - satisfied
        && |delivered| >= |old(delivered)| && delivered[..|old(delivered)|] == old(delivered)
        && Resumes(delivered[|old(delivered)|..], satisfied, old(waiters), observations, Recorded)
    {
      var pending := set id | id in waiters && |observations| >= waiters[id];
      ghost var all, base, before, done := pending, delivered, waiters, {};
      ghost var resumed: seq<Delivery> := [];
      NoneResumed(before, observations);
      hide Resumes;
      while pending != {}
        invariant pending !! done && pending + done == all
        invariant waiters == before - done
        invariant delivered == base + resumed
        invariant Resumes(resumed, done, before, observations, Recorded)
        decreases pending
      {
        var id :| id in pending;
        OneMoreResumed(resumed, done, before, observations, id);
        ResumeWaiter(id, Recorded);
        resumed := resumed + [Delivery(id, before[id], observations, Recorded)];
        pending, done := pending - {id}, done + {id};
      }
      assert delivered[|base|..] == resumed;
    }

    method ResumeWaiter(id: Id, ghost cause: Cause)
      modifies this`waiters, this`delivered
      ensures ResumesOne(old(Abstract()), id, cause, Abstract())
    {
      if id in waiters {
        delivered := delivered + [Delivery(id, waiters[id], observations, cause)];
        waiters := waiters - {id};
      }
    }
  }

  lemma NoneResumed(waiters: map<Id, int>, values: seq<Observation>)
    ensures Resumes([], {}, waiters, values, Recorded)
  {}

  lemma OneMoreResumed(deliveries: seq<Delivery>, ids: set<Id>, waiters: map<Id, int>, values: seq<Observation>, id: Id)
    requires Resumes(deliveries, ids, waiters, values, Recorded) && id in waiters && id !in ids
    ensures Resumes(deliveries + [Delivery(id, waiters[id], values, Recorded)], ids + {id}, waiters, values, Recorded)
  {
    var d := Delivery(id, waiters[id], values, Recorded);
    var more := deliveries + [d];
    assert forall x :: x in more <==> x in deliveries || x == d;
    forall a, b | 0 <= a < b < |more| ensures more[a].id != more[b].id {
      if b == |deliveries| {
        assert more[a] in deliveries;
      }
    }
  }
}
