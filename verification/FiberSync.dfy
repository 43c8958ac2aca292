/**
 The fiber mutex and the condition variable on it, as a machine whose steps are the critical
 sections of the source. A fiber that is told to wait gives up its thread at the end of the step;
 it runs again only when a step schedules it. A signal is two steps: it pops a waiter under the
 lock of the condition and hands it to the mutex under the lock of the mutex, and anything may
 happen in between.
 */
module FiberSync {
  import opened Prelude

  type Fiber = nat

  /** `flight` holds the fibers popped by a signal that has not delivered them yet. */
  datatype Sync = Sync(owner: Option<Fiber>, waiters: seq<Fiber>, cond: seq<Fiber>, flight: seq<Fiber>)

  datatype Step =
    | Lock(f: Fiber)
    | Unlock(f: Fiber)
    | UnlockIfNotUnique(f: Fiber)
    | Wait(f: Fiber)
    | SignalPop
    | SignalDeliver(i: nat)
    | Broadcast

  // ---------------------------------------------------------------------------------------
  // The critical sections
  // ---------------------------------------------------------------------------------------

  /** unlockNoLock: the fiber that waited longest is the new owner. */
  function Release(s: Sync): Sync {
    if s.waiters == [] then s.(owner := None)
    else s.(owner := Some(s.waiters[0]), waiters := s.waiters[1..])
  }

  /** A fiber that comes from the condition takes the free mutex or queues for it. */
  function Handover(s: Sync, f: Fiber): Sync {
    if s.owner.None? then s.(owner := Some(f)) else s.(waiters := s.waiters + [f])
  }

  function HandoverAll(s: Sync, fs: seq<Fiber>): Sync {
    if fs == [] then s else Handover(HandoverAll(s, fs[..|fs| - 1]), fs[|fs| - 1])
  }

  function Apply(s: Sync, step: Step): Sync {
    match step
    case Lock(f) => Handover(s, f)
    case Unlock(f) => Release(s)
    case UnlockIfNotUnique(f) => if s.waiters != [] then Release(s) else s
    case Wait(f) => Release(s.(cond := s.cond + [f]))
    case SignalPop => if s.cond == [] then s else s.(cond := s.cond[1..], flight := s.flight + [s.cond[0]])
    case SignalDeliver(i) =>
      if i < |s.flight| then Handover(s.(flight := Remove(s.flight, i)), s.flight[i]) else s
    case Broadcast => HandoverAll(s, s.cond).(cond := [])
  }

  /** The fibers passed to Schedule by a step. Taking a free mutex in lock() schedules nobody: the
      caller simply goes on. */
  function Scheduled(s: Sync, step: Step): seq<Fiber> {
    match step
    case Lock(f) => []
    case Unlock(f) => if s.waiters == [] then [] else [s.waiters[0]]
    case UnlockIfNotUnique(f) => if s.waiters == [] then [] else [s.waiters[0]]
    case Wait(f) => if s.waiters == [] then [] else [s.waiters[0]]
    case SignalPop => []
    case SignalDeliver(i) => if i < |s.flight| && s.owner.None? then [s.flight[i]] else []
    case Broadcast => if s.cond != [] && s.owner.None? then [s.cond[0]] else []
  }

  // ---------------------------------------------------------------------------------------
  // Callers and the invariant
  // ---------------------------------------------------------------------------------------

  /** The number of places that hold f. */
  ghost function Places(s: Sync, f: Fiber): nat {
    (if s.owner == Some(f) then 1 else 0) + multiset(s.waiters)[f] + multiset(s.cond)[f] + multiset(s.flight)[f]
  }

  predicate Suspended(s: Sync, f: Fiber) {
    f in s.waiters || f in s.cond || f in s.flight
  }

  /** Each fiber is in at most one place, and nobody waits for a free mutex. */
  ghost predicate Inv(s: Sync) {
    (forall f :: Places(s, f) <= 1) && (s.owner.None? ==> s.waiters == [])
  }

  /** A fiber acts only while it runs, and as lock(), unlock() and wait() ask of it. */
  predicate Allowed(s: Sync, step: Step) {
    match step
    case Lock(f) => !Suspended(s, f) && s.owner != Some(f)
    case Unlock(f) => s.owner == Some(f)
    case UnlockIfNotUnique(f) => s.owner == Some(f)
    case Wait(f) => s.owner == Some(f)
    case SignalPop => true
    case SignalDeliver(i) => i < |s.flight|
    case Broadcast => true
  }

  /** Broadcast keeps the order of the condition's queue. */
  lemma {:induction false} HandoverAllOrder(s: Sync, fs: seq<Fiber>)
    ensures HandoverAll(s, fs) ==
              if fs == [] then s
              else if s.owner.Some? then s.(waiters := s.waiters + fs)
              else s.(owner := Some(fs[0]), waiters := s.waiters + fs[1..])
  {
    if fs != [] {
      HandoverAllOrder(s, fs[..|fs| - 1]);
      assert fs == fs[..|fs| - 1] + [fs[|fs| - 1]];
    }
  }

  lemma ReleasePlaces(s: Sync, g: Fiber)
    requires s.owner.Some?
    ensures Places(Release(s), g) + (if s.owner == Some(g) then 1 else 0) == Places(s, g)
  {
    if s.waiters != [] {
      assert s.waiters == [s.waiters[0]] + s.waiters[1..];
    }
  }

  lemma HandoverPlaces(s: Sync, f: Fiber, g: Fiber)
    ensures Places(Handover(s, f), g) == Places(s, g) + if f == g then 1 else 0
  {
  }

  lemma BroadcastPlaces(s: Sync, g: Fiber)
    ensures Places(HandoverAll(s, s.cond).(cond := []), g) == Places(s, g)
  {
    HandoverAllOrder(s, s.cond);
    if s.cond != [] {
      assert s.cond == [s.cond[0]] + s.cond[1..];
    }
  }

  lemma WaitPlaces(s: Sync, f: Fiber, g: Fiber)
    requires s.owner == Some(f)
    ensures Places(Release(s.(cond := s.cond + [f])), g) == Places(s, g)
  {
    var s1 := s.(cond := s.cond + [f]);
    assert multiset(s1.cond) == multiset(s.cond) + multiset{f};
    ReleasePlaces(s1, g);
  }

  lemma PopPlaces(s: Sync, g: Fiber)
    ensures Places(Apply(s, SignalPop), g) == Places(s, g)
  {
    if s.cond != [] {
      assert s.cond == [s.cond[0]] + s.cond[1..];
    }
  }

  lemma DeliverPlaces(s: Sync, i: nat, g: Fiber)
    requires i < |s.flight|
    ensures Places(Apply(s, SignalDeliver(i)), g) == Places(s, g)
  {
    RemoveCount(s.flight, i, g);
    HandoverPlaces(s.(flight := Remove(s.flight, i)), s.flight[i], g);
  }

  /** Who leaves the machine at a step: the owner that gives up the mutex and does not wait. */
  predicate Leaves(s: Sync, step: Step, g: Fiber) {
    (step.Unlock? || (step.UnlockIfNotUnique? && s.waiters != [])) && step.f == g
  }

  /** No step creates or loses a fiber: lock() adds its caller, an unlock lets the owner go, and all
      else only moves fibers between places. */
  lemma StepPlaces(s: Sync, step: Step, g: Fiber)
    requires Inv(s) && Allowed(s, step)
    ensures Places(Apply(s, step), g) + (if Leaves(s, step, g) then 1 else 0)
         == Places(s, g) + (if step == Lock(g) then 1 else 0)
  {
    match step
    case Lock(f) => HandoverPlaces(s, f, g);
    case Unlock(f) => ReleasePlaces(s, g);
    case UnlockIfNotUnique(f) => ReleasePlaces(s, g);
    case Wait(f) => WaitPlaces(s, f, g);
    case SignalPop => PopPlaces(s, g);
    case SignalDeliver(i) => DeliverPlaces(s, i, g);
    case Broadcast => BroadcastPlaces(s, g);
  }

  /** Safety over all interleavings: the invariant is kept by every step callers may take. */
  lemma StepKeepsInv(s: Sync, step: Step)
    requires Inv(s) && Allowed(s, step)
    ensures Inv(Apply(s, step))
  {
    forall g ensures Places(Apply(s, step), g) <= 1 {
      StepPlaces(s, step, g);
    }
    HandoverAllOrder(s, s.cond);
  }

  /** What the source asserts about a fiber it is about to hand the mutex to. */
  predicate NotInMutex(s: Sync, f: Fiber) {
    s.owner != Some(f) && f !in s.waiters
  }

  /** The assertions written into lock() and signal() hold whenever the step is allowed ... */
  lemma AssertionsHold(s: Sync, step: Step)
    requires Inv(s) && Allowed(s, step)
    ensures step.Lock? ==> NotInMutex(s, step.f)
    ensures step.SignalDeliver? ==> NotInMutex(s, s.flight[step.i])
  {
    if step.SignalDeliver? {
      assert Places(s, s.flight[step.i]) <= 1;
    }
  }

  /** ... and so do those in each round of the loop of broadcast(). */
  lemma BroadcastAssertionsHold(s: Sync, j: nat)
    requires Inv(s) && j < |s.cond|
    ensures NotInMutex(HandoverAll(s, s.cond[..j]), s.cond[j])
  {
    var f, done := s.cond[j], s.cond[..j];
    HandoverAllOrder(s, done);
    assert Places(s, f) <= 1;
    CountBefore(s.cond, j);
    if done != [] && s.owner.None? {
      assert done[0] in done;
    }
  }

  lemma CountBefore(fs: seq<Fiber>, j: nat)
    requires j < |fs|
    ensures multiset(fs)[fs[j]] >= multiset(fs[..j])[fs[j]] + 1
  {
    assert fs == fs[..j] + fs[j..] && fs[j..] == [fs[j]] + fs[j + 1..];
  }

  // ---------------------------------------------------------------------------------------
  // Who runs
  // ---------------------------------------------------------------------------------------

  /** The fiber that a step makes the owner, if it changes the owner to a fiber. */
  function Granted(s: Sync, s': Sync): seq<Fiber> {
    if s'.owner.Some? && s'.owner != s.owner then [s'.owner.value] else []
  }

  /** Every Schedule names the fiber that has just become the owner, and every change of owner is
      announced to the new owner, unless it is the running caller of lock(). */
  lemma ScheduledIsOwner(s: Sync, step: Step)
    requires Inv(s) && Allowed(s, step)
    ensures Scheduled(s, step) == if step.Lock? then [] else Granted(s, Apply(s, step))
  {
    HandoverAllOrder(s, s.cond);
    if s.owner.Some? && s.waiters != [] {
      assert Places(s, s.waiters[0]) <= 1 && s.waiters[0] in s.waiters;
    }
  }

  /** A fiber that suspended itself in lock() or wait() resumes exactly when it owns the mutex: it
      stops being suspended only by being scheduled as the owner, and nobody else is scheduled. */
  lemma ResumesAsOwner(s: Sync, step: Step, f: Fiber)
    requires Inv(s) && Allowed(s, step)
    ensures f in Scheduled(s, step) <==> Suspended(s, f) && !Suspended(Apply(s, step), f)
    ensures f in Scheduled(s, step) ==> Apply(s, step).owner == Some(f)
  {
    hide Apply, Places, Suspended, Scheduled;
    ScheduledIsOwner(s, step);
    StepKeepsInv(s, step);
    StepPlaces(s, step, f);
    if step.Lock? {
      LockOwner(s, step);
    }
    SuspendedPlace(s, f);
    SuspendedPlace(Apply(s, step), f);
  }

  lemma SuspendedPlace(s: Sync, f: Fiber)
    requires Inv(s)
    ensures Places(s, f) == (if s.owner == Some(f) then 1 else 0) + (if Suspended(s, f) then 1 else 0)
  {
    assert Places(s, f) <= 1;
  }

  lemma LockOwner(s: Sync, step: Step)
    requires step.Lock?
    ensures Apply(s, step).owner == if s.owner.None? then Some(step.f) else s.owner
  {
  }

  // ---------------------------------------------------------------------------------------
  // Runs: strictly first come, first served
  // ---------------------------------------------------------------------------------------

  ghost predicate AllowedRun(s: Sync, steps: seq<Step>)
    decreases |steps|
  {
    steps == [] || (Allowed(s, steps[0]) && AllowedRun(Apply(s, steps[0]), steps[1..]))
  }

  function Run(s: Sync, steps: seq<Step>): Sync
    decreases |steps|
  {
    if steps == [] then s else Run(Apply(s, steps[0]), steps[1..])
  }

  /** A step that only fiber f can take. */
  predicate IsBy(step: Step, f: Fiber) {
    step in [Lock(f), Unlock(f), UnlockIfNotUnique(f), Wait(f)]
  }

  predicate NoneBy(steps: seq<Step>, f: Fiber) {
    forall i | 0 <= i < |steps| :: !IsBy(steps[i], f)
  }

  /** The run schedules f. */
  predicate Wakes(s: Sync, steps: seq<Step>, f: Fiber)
    decreases |steps|
  {
    steps != [] && (f in Scheduled(s, steps[0]) || Wakes(Apply(s, steps[0]), steps[1..], f))
  }

  lemma OthersKeepOwner(s: Sync, step: Step, f: Fiber)
    requires Inv(s) && Allowed(s, step) && s.owner == Some(f) && !IsBy(step, f)
    ensures Apply(s, step).owner == Some(f)
  {
    HandoverAllOrder(s, s.cond);
  }

  /** The owner stays the owner, outside of all queues, until a step of its own. */
  lemma {:induction false} StaysOwner(s: Sync, steps: seq<Step>, f: Fiber)
    requires Inv(s) && AllowedRun(s, steps) && s.owner == Some(f) && NoneBy(steps, f)
    ensures Run(s, steps).owner == Some(f) && !Suspended(Run(s, steps), f)
    decreases |steps|
  {
    if steps == [] {
      assert Places(s, f) <= 1;
    } else {
      OthersKeepOwner(s, steps[0], f);
      StepKeepsInv(s, steps[0]);
      StaysOwner(Apply(s, steps[0]), steps[1..], f);
    }
  }

  /** What is asserted after YieldToHold in lock() and wait(): whatever comes between, from when the
      fiber is scheduled until it goes on it is the owner and in no queue; and if it is not
      scheduled it is still suspended. */
  lemma {:induction false} AssertedOnResume(s: Sync, steps: seq<Step>, f: Fiber)
    requires Inv(s) && AllowedRun(s, steps) && Suspended(s, f) && NoneBy(steps, f)
    ensures Wakes(s, steps, f) <==> Run(s, steps).owner == Some(f)
    ensures Wakes(s, steps, f) <==> !Suspended(Run(s, steps), f)
    decreases |steps|
  {
    if steps == [] {
      assert Places(s, f) <= 1;
    } else {
      var s' := Apply(s, steps[0]);
      ResumesAsOwner(s, steps[0], f);
      StepKeepsInv(s, steps[0]);
      if f in Scheduled(s, steps[0]) {
        StaysOwner(s', steps[1..], f);
      } else {
        AssertedOnResume(s', steps[1..], f);
      }
    }
  }

  /** The fibers that ask for the mutex at a step, in order. */
  function Arrivals(s: Sync, step: Step): seq<Fiber> {
    match step
    case Lock(f) => [f]
    case SignalDeliver(i) => if i < |s.flight| then [s.flight[i]] else []
    case Broadcast => s.cond
    case _ => []
  }

  function AllArrivals(s: Sync, steps: seq<Step>): seq<Fiber>
    decreases |steps|
  {
    if steps == [] then [] else Arrivals(s, steps[0]) + AllArrivals(Apply(s, steps[0]), steps[1..])
  }

  function AllGrants(s: Sync, steps: seq<Step>): seq<Fiber>
    decreases |steps|
  {
    if steps == [] then []
    else Granted(s, Apply(s, steps[0])) + AllGrants(Apply(s, steps[0]), steps[1..])
  }

  lemma StepIsFifo(s: Sync, step: Step)
    requires Inv(s) && Allowed(s, step)
    ensures Granted(s, Apply(s, step)) + Apply(s, step).waiters == s.waiters + Arrivals(s, step)
  {
    match step
    case Unlock(f) => ReleaseIsFifo(s, s.cond);
    case UnlockIfNotUnique(f) => ReleaseIsFifo(s, s.cond);
    case Wait(f) => ReleaseIsFifo(s, s.cond + [f]);
    case Broadcast => HandoverAllOrder(s, s.cond);
    case _ =>
  }

  lemma ReleaseIsFifo(s: Sync, cond: seq<Fiber>)
    requires Inv(s) && s.owner.Some?
    ensures var s' := Release(s.(cond := cond)); Granted(s, s') + s'.waiters == s.waiters
  {
    if s.waiters != [] {
      assert Places(s, s.waiters[0]) <= 1 && s.waiters[0] in s.waiters;
    }
  }

  /** Strictly first in, first out: over any run, the fibers that became owner, followed by those
      still queued, are those queued at the start followed by those that arrived, in order. */
  lemma {:induction false} RunIsFifo(s: Sync, steps: seq<Step>)
    requires Inv(s) && AllowedRun(s, steps)
    ensures Inv(Run(s, steps))
    ensures AllGrants(s, steps) + Run(s, steps).waiters == s.waiters + AllArrivals(s, steps)
    decreases |steps|
  {
    if steps != [] {
      var s' := Apply(s, steps[0]);
      StepIsFifo(s, steps[0]);
      StepKeepsInv(s, steps[0]);
      RunIsFifo(s', steps[1..]);
      ChainQueues(Granted(s, s'), AllGrants(s', steps[1..]), s.waiters, s'.waiters, Run(s, steps).waiters,
                  Arrivals(s, steps[0]), AllArrivals(s', steps[1..]));
    }
  }

  /** Steps that let go of the mutex while somebody queues for it. */
  predicate Releases(s: Sync, step: Step) {
    (step.Unlock? || step.UnlockIfNotUnique? || step.Wait?) && s.waiters != []
  }

  function ReleaseCount(s: Sync, steps: seq<Step>): nat
    decreases |steps|
  {
    if steps == [] then 0
    else (if Releases(s, steps[0]) then 1 else 0) + ReleaseCount(Apply(s, steps[0]), steps[1..])
  }

  /** Bounded wait, no barging: the fiber at index k of the queue moves up by one place at every
      release and at nothing else, whatever locks, signals and broadcasts come between ... */
  lemma {:induction false} QueueAdvances(s: Sync, steps: seq<Step>, k: nat)
    requires Inv(s) && AllowedRun(s, steps) && k < |s.waiters| && ReleaseCount(s, steps) <= k
    ensures var r := ReleaseCount(s, steps); var s' := Run(s, steps);
            Inv(s') && k - r < |s'.waiters| && s'.waiters[k - r] == s.waiters[k]
    decreases |steps|
  {
    if steps != [] {
      var s' := Apply(s, steps[0]);
      HandoverAllOrder(s, s.cond);
      StepKeepsInv(s, steps[0]);
      QueueAdvances(s', steps[1..], if Releases(s, steps[0]) then k - 1 else k);
    }
  }

  /** ... and becomes the owner at release number k + 1. */
  lemma BoundedWait(s: Sync, steps: seq<Step>, last: Step, k: nat)
    requires Inv(s) && AllowedRun(s, steps) && k < |s.waiters| && ReleaseCount(s, steps) == k
    requires Allowed(Run(s, steps), last) && Releases(Run(s, steps), last)
    ensures Apply(Run(s, steps), last).owner == Some(s.waiters[k])
    ensures Scheduled(Run(s, steps), last) == [s.waiters[k]]
  {
    QueueAdvances(s, steps, k);
  }

  // ---------------------------------------------------------------------------------------
  // The queue of the condition
  // ---------------------------------------------------------------------------------------

  /** The fibers that a step adds to the queue of the condition. */
  function CondArrivals(step: Step): seq<Fiber> {
    if step.Wait? then [step.f] else []
  }

  /** The fibers that a step takes out of it: those a signal has newly in hand, or those that a broadcast
      makes the owner or queues for the mutex, in that order. */
  function CondLeavers(s: Sync, step: Step): seq<Fiber> {
    var s' := Apply(s, step);
    match step
    case SignalPop => if |s.flight| <= |s'.flight| then s'.flight[|s.flight|..] else []
    case Broadcast => Granted(s, s') + if |s.waiters| <= |s'.waiters| then s'.waiters[|s.waiters|..] else []
    case _ => []
  }

  lemma CondStepIsFifo(s: Sync, step: Step)
    requires Inv(s) && Allowed(s, step)
    ensures CondLeavers(s, step) + Apply(s, step).cond == s.cond + CondArrivals(step)
    ensures step.SignalPop? ==> |CondLeavers(s, step)| == (if s.cond == [] then 0 else 1)
    ensures step.SignalPop? ==> Apply(s, step).flight == s.flight + CondLeavers(s, step)
  {
    if step.Broadcast? {
      HandoverAllOrder(s, s.cond);
      if s.cond != [] {
        assert s.cond == [s.cond[0]] + s.cond[1..];
      }
    }
  }

  function AllCondArrivals(steps: seq<Step>): seq<Fiber> {
    if steps == [] then [] else CondArrivals(steps[0]) + AllCondArrivals(steps[1..])
  }

  function AllCondLeavers(s: Sync, steps: seq<Step>): seq<Fiber>
    decreases |steps|
  {
    if steps == [] then [] else CondLeavers(s, steps[0]) + AllCondLeavers(Apply(s, steps[0]), steps[1..])
  }

  /** First in, first out over any run: the fibers that a signal or a broadcast took from the condition,
      then those that still wait there, are those that waited at first, then those that came. */
  lemma {:induction false} CondIsFifo(s: Sync, steps: seq<Step>)
    requires Inv(s) && AllowedRun(s, steps)
    ensures AllCondLeavers(s, steps) + Run(s, steps).cond == s.cond + AllCondArrivals(steps)
    decreases |steps|
  {
    if steps != [] {
      var s' := Apply(s, steps[0]);
      CondStepIsFifo(s, steps[0]);
      StepKeepsInv(s, steps[0]);
      CondIsFifo(s', steps[1..]);
      ChainQueues(CondLeavers(s, steps[0]), AllCondLeavers(s', steps[1..]), s.cond, s'.cond, Run(s, steps).cond,
                  CondArrivals(steps[0]), AllCondArrivals(steps[1..]));
    }
  }

  function Signals(steps: seq<Step>): nat {
    if steps == [] then 0 else (if steps[0].SignalPop? then 1 else 0) + Signals(steps[1..])
  }

  /** Each signal moves the fibers that wait on the condition up by one, and nothing but a broadcast
      does so besides ... */
  lemma {:induction false} SignalsAdvance(s: Sync, steps: seq<Step>, k: nat)
    requires Inv(s) && AllowedRun(s, steps) && k < |s.cond| && Signals(steps) <= k
    requires forall i | 0 <= i < |steps| :: !steps[i].Broadcast?
    ensures var r := Signals(steps); var s' := Run(s, steps);
            Inv(s') && k - r < |s'.cond| && s'.cond[k - r] == s.cond[k]
    decreases |steps|
  {
    if steps != [] {
      StepKeepsInv(s, steps[0]);
      CondStepIsFifo(s, steps[0]);
      SignalsAdvance(Apply(s, steps[0]), steps[1..], if steps[0].SignalPop? then k - 1 else k);
    }
  }

  /** ... so the fiber at index k is taken by signal number k + 1, if no broadcast comes before. */
  lemma SignalReaches(s: Sync, steps: seq<Step>, k: nat)
    requires Inv(s) && AllowedRun(s, steps) && k < |s.cond| && Signals(steps) == k
    requires forall i | 0 <= i < |steps| :: !steps[i].Broadcast?
    ensures CondLeavers(Run(s, steps), SignalPop) == [s.cond[k]]
    ensures s.cond[k] in Apply(Run(s, steps), SignalPop).flight
  {
    SignalsAdvance(s, steps, k);
    CondStepIsFifo(Run(s, steps), SignalPop);
  }

  // ---------------------------------------------------------------------------------------
  // The objects
  // ---------------------------------------------------------------------------------------

  class FiberMutex {
    var owner: Option<Fiber>
    var waiters: seq<Fiber>

    constructor ()
      ensures owner == None && waiters == []
    {
      owner, waiters := None, [];
    }

    /** The mutex with what a condition on it holds. */
    function State(cond: seq<Fiber>, flight: seq<Fiber>): Sync
      reads this
    {
      Sync(owner, waiters, cond, flight)
    }

    /** Returns whether the caller has to give up its thread. */
    method LockBy(self: Fiber, ghost cond: seq<Fiber>, ghost flight: seq<Fiber>) returns (suspends: bool)
      requires Inv(State(cond, flight)) && Allowed(State(cond, flight), Lock(self))
      modifies this
      ensures State(cond, flight) == Apply(old(State(cond, flight)), Lock(self))
      ensures suspends <==> owner != Some(self)
      ensures Inv(State(cond, flight))
    {
      AssertionsHold(State(cond, flight), Lock(self));
      StepKeepsInv(State(cond, flight), Lock(self));
      assert owner != Some(self);
      assert self !in waiters;
      if owner.None? {
        owner := Some(self);
        return false;
      }
      waiters := waiters + [self];
      suspends := true;
    }

    /** Hands the mutex to the fiber that waited longest; returns the fibers to schedule. */
    method UnlockNoLock() returns (scheduled: seq<Fiber>)
      requires owner.Some?
      modifies this
      ensures forall cond, flight :: State(cond, flight) == Release(old(State(cond, flight)))
      ensures scheduled == if old(waiters) == [] then [] else [old(waiters)[0]]
    {
      owner := None;
      scheduled := [];
      if waiters != [] {
        var next := waiters[0];
        waiters := waiters[1..];
        owner := Some(next);
        scheduled := [next];
      }
    }

    method UnlockBy(self: Fiber, ghost cond: seq<Fiber>, ghost flight: seq<Fiber>) returns (scheduled: seq<Fiber>)
      requires Inv(State(cond, flight)) && Allowed(State(cond, flight), Unlock(self))
      modifies this
      ensures State(cond, flight) == Apply(old(State(cond, flight)), Unlock(self)) && Inv(State(cond, flight))
      ensures scheduled == Scheduled(old(State(cond, flight)), Unlock(self))
    {
      StepKeepsInv(State(cond, flight), Unlock(self));
      scheduled := UnlockNoLock();
    }

    method UnlockIfNotUniqueBy(self: Fiber, ghost cond: seq<Fiber>, ghost flight: seq<Fiber>)
      returns (unlocked: bool, scheduled: seq<Fiber>)
      requires Inv(State(cond, flight)) && Allowed(State(cond, flight), UnlockIfNotUnique(self))
      modifies this
      ensures State(cond, flight) == Apply(old(State(cond, flight)), UnlockIfNotUnique(self))
      ensures Inv(State(cond, flight)) && scheduled == Scheduled(old(State(cond, flight)), UnlockIfNotUnique(self))
      ensures unlocked <==> owner != Some(self)
    {
      ghost var s := State(cond, flight);
      StepKeepsInv(s, UnlockIfNotUnique(self));
      StepPlaces(s, UnlockIfNotUnique(self), self);
      assert Places(s, self) <= 1;
      unlocked, scheduled := false, [];
      if waiters != [] {
        scheduled := UnlockNoLock();
        unlocked := true;
      }
    }
  }

  class FiberCondition {
    const mutex: FiberMutex
    var waiters: seq<Fiber>

    constructor (mutex: FiberMutex)
      ensures this.mutex == mutex && waiters == []
    {
      this.mutex := mutex;
      waiters := [];
    }

    function State(flight: seq<Fiber>): Sync
      reads this, mutex
    {
      mutex.State(waiters, flight)
    }

    /** Queues the caller and lets go of the mutex in one critical section. */
    method WaitBy(self: Fiber, ghost flight: seq<Fiber>) returns (scheduled: seq<Fiber>)
      requires Inv(State(flight)) && Allowed(State(flight), Wait(self))
      modifies this, mutex
      ensures State(flight) == Apply(old(State(flight)), Wait(self)) && Inv(State(flight))
      ensures scheduled == Scheduled(old(State(flight)), Wait(self))
    {
      StepKeepsInv(State(flight), Wait(self));
      waiters := waiters + [self];
      scheduled := mutex.UnlockNoLock();
    }

    /** The first half of signal(), under the lock of the condition alone. */
    method SignalFirst(ghost flight: seq<Fiber>) returns (next: Option<Fiber>, ghost flight': seq<Fiber>)
      requires Inv(State(flight))
      modifies this
      ensures State(flight') == Apply(old(State(flight)), SignalPop) && Inv(State(flight'))
      ensures next == if old(waiters) == [] then None else Some(old(waiters)[0])
      ensures next.None? ==> flight' == flight
      ensures next.Some? ==> flight' == flight + [next.value] && waiters == old(waiters)[1..]
    {
      StepKeepsInv(State(flight), SignalPop);
      next, flight' := None, flight;
      if waiters != [] {
        next := Some(waiters[0]);
        waiters := waiters[1..];
        flight' := flight + [next.value];
      }
    }

    /** The second half, under the lock of the mutex, for fiber number i of those in flight. */
    method SignalSecond(next: Fiber, i: nat, ghost flight: seq<Fiber>) returns (scheduled: seq<Fiber>)
      requires Inv(State(flight)) && i < |flight| && flight[i] == next
      modifies mutex
      ensures State(Remove(flight, i)) == Apply(old(State(flight)), SignalDeliver(i)) && Inv(State(Remove(flight, i)))
      ensures scheduled == Scheduled(old(State(flight)), SignalDeliver(i))
    {
      StepKeepsInv(State(flight), SignalDeliver(i));
      AssertionsHold(State(flight), SignalDeliver(i));
      assert mutex.owner != Some(next);
      assert next !in mutex.waiters;
      scheduled := [];
      if mutex.owner.None? {
        mutex.owner := Some(next);
        scheduled := [next];
      } else {
        mutex.waiters := mutex.waiters + [next];
      }
    }

    method BroadcastAll(ghost flight: seq<Fiber>) returns (scheduled: seq<Fiber>)
      requires Inv(State(flight))
      modifies this, mutex
      ensures State(flight) == Apply(old(State(flight)), Broadcast) && Inv(State(flight))
      ensures scheduled == Scheduled(old(State(flight)), Broadcast)
    {
      ghost var s := State(flight);
      StepKeepsInv(s, Broadcast);
      scheduled := [];
      var j := 0;
      while j < |waiters|
        invariant j <= |waiters| && waiters == s.cond
        invariant State(flight) == HandoverAll(s, s.cond[..j])
        invariant scheduled == if j > 0 && s.owner.None? then [s.cond[0]] else []
      {
        BroadcastAssertionsHold(s, j);
        HandoverAllOrder(s, s.cond[..j]);
        assert s.cond[..j + 1][..j] == s.cond[..j];
        var next := waiters[j];
        assert mutex.owner != Some(next);
        assert next !in mutex.waiters;
        if mutex.owner.None? {
          mutex.owner := Some(next);
          scheduled := scheduled + [next];
        } else {
          mutex.waiters := mutex.waiters + [next];
        }
        j := j + 1;
      }
      assert s.cond[..j] == s.cond;
      waiters := [];
    }
  }
}
