/**
 The per-worker task queues of the scheduler: pushing, popping from the own front, stealing from
 another tail, and balancing in two phases. Every step is one critical section on one queue; the
 choices made without a lock (which queue to steal from or to balance) may be stale, so the machine
 lets them be any.
 */
module WorkStealing {
  import opened Prelude

  /** `pin` is the thread index the caller asked for, -1 for any. */
  datatype Task = Task(id: nat, pin: int)

  /** Tasks taken from one queue by a balancing thread and not yet put into queue `target`. */
  datatype Transfer = Transfer(target: nat, tasks: seq<Task>)

  datatype Sched = Sched(
    queues: seq<seq<Task>>, sizes: seq<int>, held: seq<Option<Task>>, transit: seq<Transfer>)
  {
    predicate Shaped() {
      |queues| >= 1 && |sizes| == |queues| && |held| == |queues| && forall x | x in transit :: x.target < |queues|
    }
  }

  datatype Step =
    | Push(task: Task, q: nat)
    | Pop(w: nat)
    | Steal(w: nat, victim: nat)
    | Finish(w: nat)               // the task ended or suspended itself
    | Reschedule(w: nat, q: nat)   // the task came back READY
    | BalanceTake(source: nat, target: nat)
    | BalancePut(x: nat)

  const BATCH := 5

  /** Whether selectBestQueue honours the pin. A negative one other than -1 is compared as a huge
      unsigned number. */
  predicate Honoured(pin: int, n: nat) {
    0 <= pin < n
  }

  predicate Loose(t: Task) {
    t.pin == -1
  }

  /** Index of the last task that may be stolen, or |q|. */
  function LastLoose(q: seq<Task>): (i: nat)
    ensures i <= |q|
    ensures i < |q| ==> q[i].pin == -1 && forall j | i < j < |q| :: q[j].pin != -1
    ensures i == |q| ==> forall j | 0 <= j < |q| :: q[j].pin != -1
  {
    if q == [] then 0
    else if Loose(q[|q| - 1]) then |q| - 1
    else
      var i := LastLoose(q[..|q| - 1]);
      if i == |q| - 1 then |q| else i
  }

  /** Walking from the tail, moves up to `limit` loose tasks out: what stays, and what was taken, in
      the order of the walk. */
  function TakeTail(q: seq<Task>, limit: nat): (r: (seq<Task>, seq<Task>))
    ensures |r.0| + |r.1| == |q| && |r.1| <= limit
    ensures forall t | t in r.1 :: t.pin == -1
  {
    if q == [] || limit == 0 then (q, [])
    else
      var front, t := q[..|q| - 1], q[|q| - 1];
      if Loose(t) then
        var (rest, taken) := TakeTail(front, limit - 1);
        (rest, [t] + taken)
      else
        var (rest, taken) := TakeTail(front, limit);
        (rest + [t], taken)
  }

  predicate Allowed(s: Sched, step: Step)
    requires s.Shaped()
  {
    match step
    case Push(t, q) => q < |s.queues| && (Honoured(t.pin, |s.queues|) ==> q == t.pin)
    case Pop(w) => w < |s.queues| && s.held[w].None? && s.queues[w] != []
    case Steal(w, v) =>
      w < |s.queues| && v < |s.queues| && v != w && s.held[w].None? && LastLoose(s.queues[v]) < |s.queues[v]|
    case Finish(w) => w < |s.queues| && s.held[w].Some?
    case Reschedule(w, q) =>
      && w < |s.queues| && s.held[w].Some? && q < |s.queues|
      && (Honoured(s.held[w].value.pin, |s.queues|) ==> q == s.held[w].value.pin)
    case BalanceTake(f, t) => f < |s.queues| && t < |s.queues| && f != t
    case BalancePut(x) => x < |s.transit|
  }

  function PutBack(s: Sched, q: nat, ts: seq<Task>): (r: Sched)
    requires s.Shaped() && q < |s.queues|
    ensures r.Shaped() && |r.queues| == |s.queues|
  {
    s.(queues := s.queues[q := s.queues[q] + ts], sizes := s.sizes[q := s.sizes[q] + |ts|])
  }

  /** Worker w takes task number i of queue q. */
  function TakeBy(s: Sched, w: nat, q: nat, i: nat): (r: Sched)
    requires s.Shaped() && w < |s.queues| && q < |s.queues| && i < |s.queues[q]|
    ensures r.Shaped() && |r.queues| == |s.queues|
  {
    s.(queues := s.queues[q := Remove(s.queues[q], i)], sizes := s.sizes[q := s.sizes[q] - 1],
       held := s.held[w := Some(s.queues[q][i])])
  }

  function Apply(s: Sched, step: Step): (r: Sched)
    requires s.Shaped() && Allowed(s, step)
    ensures r.Shaped() && |r.queues| == |s.queues|
  {
    match step
    case Push(t, q) => PutBack(s, q, [t])
    case Pop(w) => TakeBy(s, w, w, 0)
    case Steal(w, v) => TakeBy(s, w, v, LastLoose(s.queues[v]))
    case Finish(w) => s.(held := s.held[w := None])
    case Reschedule(w, q) => PutBack(s.(held := s.held[w := None]), q, [s.held[w].value])
    case BalanceTake(f, t) =>
      var (rest, taken) := TakeTail(s.queues[f], BATCH);
      s.(queues := s.queues[f := rest], sizes := s.sizes[f := s.sizes[f] - |taken|],
         transit := s.transit + [Transfer(t, taken)])
    case BalancePut(x) =>
      PutBack(s.(transit := Remove(s.transit, x)), s.transit[x].target, s.transit[x].tasks)
  }

  // ---------------------------------------------------------------------------------------
  // Invariant: sizes and pins
  // ---------------------------------------------------------------------------------------

  ghost predicate Inv(s: Sched) {
    && s.Shaped()
    && (forall i | 0 <= i < |s.queues| :: s.sizes[i] == |s.queues[i]|)
    && (forall i, t | 0 <= i < |s.queues| && t in s.queues[i] :: Honoured(t.pin, |s.queues|) ==> t.pin == i)
    && (forall w | 0 <= w < |s.held| && s.held[w].Some? ::
          Honoured(s.held[w].value.pin, |s.queues|) ==> s.held[w].value.pin == w)
    && (forall x, t | x in s.transit && t in x.tasks :: Loose(t))
  }

  lemma InvShaped(s: Sched)
    requires Inv(s)
    ensures s.Shaped()
  {
  }

  lemma TakeTailSubset(q: seq<Task>, limit: nat)
    ensures forall t | t in TakeTail(q, limit).0 :: t in q
  {
  }

  lemma PutBackKeeps(s: Sched, q: nat, ts: seq<Task>)
    requires Inv(s) && q < |s.queues| && forall t | t in ts :: Honoured(t.pin, |s.queues|) ==> t.pin == q
    ensures Inv(PutBack(s, q, ts))
  {
  }

  lemma TakeByKeeps(s: Sched, w: nat, q: nat, i: nat)
    requires Inv(s) && w < |s.queues| && q < |s.queues| && i < |s.queues[q]| && (q != w ==> Loose(s.queues[q][i]))
    ensures Inv(TakeBy(s, w, q, i))
  {
    var r := TakeBy(s, w, q, i);
    assert s.queues[q][i] in s.queues[q];
    forall j, t | 0 <= j < |r.queues| && t in r.queues[j] ensures Honoured(t.pin, |r.queues|) ==> t.pin == j {
      assert t in s.queues[j];
    }
  }

  /** In every reachable state the size counters are right whenever a queue's lock is free, a pinned
      task is only in the queue of its thread or with that thread, and what is in transit is loose. */
  lemma StepKeepsInv(s: Sched, step: Step)
    requires Inv(s) && Allowed(s, step)
    ensures Inv(Apply(s, step))
  {
    match step
    case Push(t, q) => PutBackKeeps(s, q, [t]);
    case Pop(w) => TakeByKeeps(s, w, w, 0);
    case Steal(w, v) => TakeByKeeps(s, w, v, LastLoose(s.queues[v]));
    case Finish(w) =>
    case Reschedule(w, q) => PutBackKeeps(s.(held := s.held[w := None]), q, [s.held[w].value]);
    case BalanceTake(f, t) => BalanceTakeKeeps(s, f, t);
    case BalancePut(x) =>
      assert s.transit[x] in s.transit;
      assert forall t | t in s.transit[x].tasks :: Loose(t);
      PutBackKeeps(s.(transit := Remove(s.transit, x)), s.transit[x].target, s.transit[x].tasks);
  }

  lemma BalanceTakeKeeps(s: Sched, f: nat, t: nat)
    requires Inv(s) && Allowed(s, BalanceTake(f, t))
    ensures Inv(Apply(s, BalanceTake(f, t)))
  {
    TakeTailSubset(s.queues[f], BATCH);
    var r := Apply(s, BalanceTake(f, t));
    forall j, x | 0 <= j < |r.queues| && x in r.queues[j] ensures Honoured(x.pin, |r.queues|) ==> x.pin == j {
      assert x in s.queues[j];
    }
  }

  // ---------------------------------------------------------------------------------------
  // Conservation
  // ---------------------------------------------------------------------------------------

  ghost function InQueues(queues: seq<seq<Task>>, t: Task): nat {
    if queues == [] then 0 else multiset(queues[0])[t] + InQueues(queues[1..], t)
  }

  ghost function InHands(held: seq<Option<Task>>, t: Task): nat {
    if held == [] then 0 else (if held[0] == Some(t) then 1 else 0) + InHands(held[1..], t)
  }

  ghost function InTransit(transit: seq<Transfer>, t: Task): nat {
    if transit == [] then 0 else multiset(transit[0].tasks)[t] + InTransit(transit[1..], t)
  }

  /** Copies of t anywhere in the scheduler. */
  ghost function Copies(s: Sched, t: Task): nat {
    InQueues(s.queues, t) + InHands(s.held, t) + InTransit(s.transit, t)
  }

  lemma {:induction false} QueuesPut(queues: seq<seq<Task>>, i: nat, list: seq<Task>, t: Task)
    requires i < |queues|
    ensures InQueues(queues[i := list], t) + multiset(queues[i])[t] == InQueues(queues, t) + multiset(list)[t]
  {
    if i == 0 {
      assert queues[0 := list][1..] == queues[1..];
    } else {
      QueuesPut(queues[1..], i - 1, list, t);
      assert queues[i := list][1..] == queues[1..][i - 1 := list];
    }
  }

  lemma {:induction false} HandsPut(held: seq<Option<Task>>, w: nat, h: Option<Task>, t: Task)
    requires w < |held|
    ensures InHands(held[w := h], t) + (if held[w] == Some(t) then 1 else 0)
         == InHands(held, t) + (if h == Some(t) then 1 else 0)
  {
    if w == 0 {
      assert held[0 := h][1..] == held[1..];
    } else {
      HandsPut(held[1..], w - 1, h, t);
      assert held[w := h][1..] == held[1..][w - 1 := h];
    }
  }

  lemma {:induction false} TransitAdd(transit: seq<Transfer>, x: Transfer, t: Task)
    ensures InTransit(transit + [x], t) == InTransit(transit, t) + multiset(x.tasks)[t]
  {
    if transit != [] {
      TransitAdd(transit[1..], x, t);
      assert (transit + [x])[1..] == transit[1..] + [x];
    }
  }

  lemma {:induction false} TransitRemove(transit: seq<Transfer>, x: nat, t: Task)
    requires x < |transit|
    ensures InTransit(Remove(transit, x), t) + multiset(transit[x].tasks)[t] == InTransit(transit, t)
  {
    if x == 0 {
      assert Remove(transit, 0) == transit[1..];
    } else {
      TransitRemove(transit[1..], x - 1, t);
      assert Remove(transit, x)[1..] == Remove(transit[1..], x - 1);
    }
  }

  lemma {:induction false} TakeTailCounts(q: seq<Task>, limit: nat, t: Task)
    ensures multiset(TakeTail(q, limit).0)[t] + multiset(TakeTail(q, limit).1)[t] == multiset(q)[t]
  {
    if q != [] && limit != 0 {
      assert q == q[..|q| - 1] + [q[|q| - 1]];
      TakeTailCounts(q[..|q| - 1], if Loose(q[|q| - 1]) then limit - 1 else limit, t);
    }
  }

  lemma PutBackCounts(s: Sched, q: nat, ts: seq<Task>, t: Task)
    requires s.Shaped() && q < |s.queues|
    ensures Copies(PutBack(s, q, ts), t) == Copies(s, t) + multiset(ts)[t]
  {
    QueuesPut(s.queues, q, s.queues[q] + ts, t);
  }

  lemma TakeByCounts(s: Sched, w: nat, q: nat, i: nat, t: Task)
    requires s.Shaped() && w < |s.queues| && q < |s.queues| && i < |s.queues[q]| && s.held[w].None?
    ensures Copies(TakeBy(s, w, q, i), t) == Copies(s, t)
  {
    QueuesPut(s.queues, q, Remove(s.queues[q], i), t);
    RemoveCount(s.queues[q], i, t);
    HandsPut(s.held, w, Some(s.queues[q][i]), t);
  }

  /** Nothing is lost or duplicated: queued, held and in-transit copies of a task change only by a
      push and by the end of its execution. */
  lemma StepConserves(s: Sched, step: Step, t: Task)
    requires Inv(s) && Allowed(s, step)
    ensures Copies(Apply(s, step), t) + (if step.Finish? && s.held[step.w] == Some(t) then 1 else 0)
         == Copies(s, t) + (if step.Push? && step.task == t then 1 else 0)
  {
    match step
    case Push(x, q) => PutBackCounts(s, q, [x], t);
    case Pop(w) => TakeByCounts(s, w, w, 0, t);
    case Steal(w, v) => TakeByCounts(s, w, v, LastLoose(s.queues[v]), t);
    case Finish(w) => HandsPut(s.held, w, None, t);
    case Reschedule(w, q) =>
      HandsPut(s.held, w, None, t);
      PutBackCounts(s.(held := s.held[w := None]), q, [s.held[w].value], t);
    case BalanceTake(f, d) =>
      var (rest, taken) := TakeTail(s.queues[f], BATCH);
      TakeTailCounts(s.queues[f], BATCH, t);
      QueuesPut(s.queues, f, rest, t);
      TransitAdd(s.transit, Transfer(d, taken), t);
    case BalancePut(x) =>
      TransitRemove(s.transit, x, t);
      PutBackCounts(s.(transit := Remove(s.transit, x)), s.transit[x].target, s.transit[x].tasks, t);
  }

  // ---------------------------------------------------------------------------------------
  // Runs
  // ---------------------------------------------------------------------------------------

  ghost predicate AllowedRun(s: Sched, steps: seq<Step>)
    decreases |steps|
  {
    steps == [] || (s.Shaped() && Allowed(s, steps[0]) && AllowedRun(Apply(s, steps[0]), steps[1..]))
  }

  function Run(s: Sched, steps: seq<Step>): (r: Sched)
    requires AllowedRun(s, steps)
    decreases |steps|
  {
    if steps == [] then s else Run(Apply(s, steps[0]), steps[1..])
  }

  function Pushed(steps: seq<Step>, t: Task): nat {
    if steps == [] then 0 else (if steps[0].Push? && steps[0].task == t then 1 else 0) + Pushed(steps[1..], t)
  }

  function Finished(s: Sched, steps: seq<Step>, t: Task): nat
    requires AllowedRun(s, steps)
    decreases |steps|
  {
    if steps == [] then 0
    else
      (if steps[0].Finish? && s.held[steps[0].w] == Some(t) then 1 else 0)
      + Finished(Apply(s, steps[0]), steps[1..], t)
  }

  /** Over all interleavings: the copies in the scheduler are those pushed less those finished. */
  lemma {:induction false} RunConserves(s: Sched, steps: seq<Step>, t: Task)
    requires Inv(s) && AllowedRun(s, steps)
    ensures Inv(Run(s, steps))
    ensures Copies(Run(s, steps), t) + Finished(s, steps, t) == Copies(s, t) + Pushed(steps, t)
    decreases |steps|
  {
    if steps != [] {
      StepConserves(s, steps[0], t);
      StepKeepsInv(s, steps[0]);
      RunConserves(Apply(s, steps[0]), steps[1..], t);
    }
  }

  // ---------------------------------------------------------------------------------------
  // Every single queue
  // ---------------------------------------------------------------------------------------

  /** The tasks that a step names queue k for. */
  function Adds(s: Sched, step: Step, k: nat): seq<Task>
    requires s.Shaped() && Allowed(s, step)
  {
    match step
    case Push(t, q) => if q == k then [t] else []
    case Reschedule(w, q) => if q == k then [s.held[w].value] else []
    case BalancePut(x) => if s.transit[x].target == k then s.transit[x].tasks else []
    case _ => []
  }

  /** The tasks that a worker or a balancing thread has in hand after a step that takes from queue k. */
  function Takes(s: Sched, step: Step, k: nat): seq<Task>
    requires s.Shaped() && Allowed(s, step)
  {
    var s' := Apply(s, step);
    match step
    case Pop(w) => if w == k && s'.held[w].Some? then [s'.held[w].value] else []
    case Steal(w, v) => if v == k && s'.held[w].Some? then [s'.held[w].value] else []
    case BalanceTake(f, t) => if f == k && s'.transit != [] then s'.transit[|s'.transit| - 1].tasks else []
    case _ => []
  }

  /** What is put into a queue comes in at its tail, what its worker takes leaves at its front, and a queue
      that a step does not name stays as it is. */
  lemma QueueStep(s: Sched, step: Step, k: nat)
    requires Inv(s) && Allowed(s, step) && k < |s.queues|
    ensures multiset(Takes(s, step, k)) + multiset(Apply(s, step).queues[k])
         == multiset(s.queues[k]) + multiset(Adds(s, step, k))
    ensures Takes(s, step, k) == [] ==> Apply(s, step).queues[k] == s.queues[k] + Adds(s, step, k)
    ensures step == Pop(k) ==> s.queues[k] == Takes(s, step, k) + Apply(s, step).queues[k]
  {
    hide Apply, Takes, Adds;
    match step
    case Push(t, q) => PutStep(s, step, k);
    case Pop(w) => TakeStep(s, step, k, w, w, 0);
    case Steal(w, v) => TakeStep(s, step, k, w, v, LastLoose(s.queues[v]));
    case Finish(w) => PutStep(s, step, k);
    case Reschedule(w, q) => PutStep(s, step, k);
    case BalanceTake(f, t) => BalanceStep(s, f, t, k);
    case BalancePut(x) => PutStep(s, step, k);
  }

  lemma PutStep(s: Sched, step: Step, k: nat)
    requires s.Shaped() && Allowed(s, step) && k < |s.queues| && !step.Pop? && !step.Steal? && !step.BalanceTake?
    ensures Takes(s, step, k) == [] && Apply(s, step).queues[k] == s.queues[k] + Adds(s, step, k)
  {
    assert s.queues[k] + [] == s.queues[k];
  }

  lemma TakeStep(s: Sched, step: Step, k: nat, w: nat, q: nat, i: nat)
    requires s.Shaped() && Allowed(s, step) && k < |s.queues|
    requires (step == Pop(w) && q == w && i == 0) || (step == Steal(w, q) && i == LastLoose(s.queues[q]))
    ensures Adds(s, step, k) == [] && |Takes(s, step, k)| == (if q == k then 1 else 0)
    ensures q != k ==> Apply(s, step).queues[k] == s.queues[k]
    ensures q == k ==>
              && Takes(s, step, k) == [s.queues[k][i]]
              && multiset(Takes(s, step, k)) + multiset(Apply(s, step).queues[k]) == multiset(s.queues[k])
              && (i == 0 ==> s.queues[k] == Takes(s, step, k) + Apply(s, step).queues[k])
  {
    TakenFrom(s.queues[q], i);
  }

  lemma BalanceStep(s: Sched, f: nat, t: nat, k: nat)
    requires s.Shaped() && Allowed(s, BalanceTake(f, t)) && k < |s.queues|
    ensures Adds(s, BalanceTake(f, t), k) == []
    ensures multiset(Takes(s, BalanceTake(f, t), k)) + multiset(Apply(s, BalanceTake(f, t)).queues[k])
         == multiset(s.queues[k])
    ensures Takes(s, BalanceTake(f, t), k) == [] ==> Apply(s, BalanceTake(f, t)).queues[k] == s.queues[k]
  {
    TailTaken(s.queues[f], BATCH);
  }

  lemma TakenFrom(q: seq<Task>, i: nat)
    requires i < |q|
    ensures multiset([q[i]]) + multiset(Remove(q, i)) == multiset(q)
    ensures i == 0 ==> q == [q[0]] + Remove(q, 0)
  {
    assert q == q[..i] + [q[i]] + q[i + 1..];
  }

  lemma {:induction false} TailTaken(q: seq<Task>, limit: nat)
    ensures multiset(TakeTail(q, limit).1) + multiset(TakeTail(q, limit).0) == multiset(q)
    ensures TakeTail(q, limit).1 == [] ==> TakeTail(q, limit).0 == q
  {
    if q != [] && limit != 0 {
      assert q == q[..|q| - 1] + [q[|q| - 1]];
      TailTaken(q[..|q| - 1], if Loose(q[|q| - 1]) then limit - 1 else limit);
    }
  }

  function AllAdds(s: Sched, steps: seq<Step>, k: nat): multiset<Task>
    requires AllowedRun(s, steps)
    decreases |steps|
  {
    if steps == [] then multiset{}
    else multiset(Adds(s, steps[0], k)) + AllAdds(Apply(s, steps[0]), steps[1..], k)
  }

  function AllTakes(s: Sched, steps: seq<Step>, k: nat): multiset<Task>
    requires AllowedRun(s, steps)
    decreases |steps|
  {
    if steps == [] then multiset{}
    else multiset(Takes(s, steps[0], k)) + AllTakes(Apply(s, steps[0]), steps[1..], k)
  }

  /** Over any run a queue holds what it held and what was put into it by name, less what was taken from it. */
  lemma {:induction false} QueueConserves(s: Sched, steps: seq<Step>, k: nat)
    requires Inv(s) && AllowedRun(s, steps) && k < |s.queues|
    ensures |Run(s, steps).queues| == |s.queues|
    ensures AllTakes(s, steps, k) + multiset(Run(s, steps).queues[k]) == multiset(s.queues[k]) + AllAdds(s, steps, k)
    decreases |steps|
  {
    hide Apply, Takes, Adds, Inv;
    if steps != [] {
      QueueStep(s, steps[0], k);
      StepKeepsInv(s, steps[0]);
      var s' := Apply(s, steps[0]);
      QueueConserves(s', steps[1..], k);
      ChainBags(multiset(Takes(s, steps[0], k)), AllTakes(s', steps[1..], k), multiset(s.queues[k]),
                multiset(s'.queues[k]), multiset(Run(s, steps).queues[k]),
                multiset(Adds(s, steps[0], k)), AllAdds(s', steps[1..], k));
    }
  }

  lemma ChainBags(t0: multiset<Task>, t1: multiset<Task>, q0: multiset<Task>, q1: multiset<Task>, q2: multiset<Task>,
                  a0: multiset<Task>, a1: multiset<Task>)
    requires t0 + q1 == q0 + a0 && t1 + q2 == q1 + a1
    ensures (t0 + t1) + q2 == q0 + (a0 + a1)
  {
    forall x ensures ((t0 + t1) + q2)[x] == (q0 + (a0 + a1))[x] {
      assert (t0 + q1)[x] == (q0 + a0)[x] && (t1 + q2)[x] == (q1 + a1)[x];
    }
  }

  function Pushes(tasks: seq<Task>, q: nat): seq<Step> {
    seq(|tasks|, i requires 0 <= i < |tasks| => Push(tasks[i], q))
  }

  /** A batch is its tasks pushed one after the other into one queue. */
  lemma {:induction false} BatchIsPushes(s: Sched, tasks: seq<Task>, q: nat)
    requires Inv(s) && q < |s.queues| && forall t | t in tasks :: Honoured(t.pin, |s.queues|) ==> q == t.pin
    ensures AllowedRun(s, Pushes(tasks, q)) && Run(s, Pushes(tasks, q)) == PutBack(s, q, tasks)
    decreases |tasks|
  {
    var steps := Pushes(tasks, q);
    if tasks == [] {
      assert s.queues[q] + [] == s.queues[q];
    } else {
      var t, rest := tasks[0], tasks[1..];
      assert steps[0] == Push(t, q) && steps[1..] == Pushes(rest, q) && tasks == [t] + rest;
      StepKeepsInv(s, Push(t, q));
      BatchIsPushes(PutBack(s, q, [t]), rest, q);
      Assoc(s.queues[q], [t], rest);
    }
  }

  // ---------------------------------------------------------------------------------------
  // Pinned tasks keep their thread and their order
  // ---------------------------------------------------------------------------------------

  function PinnedTo(k: nat): Task -> bool {
    (t: Task) => t.pin == k
  }

  /** The tasks of a list that are pinned to k, in order. */
  function Pinned(k: nat, ts: seq<Task>): seq<Task> {
    Filter(PinnedTo(k), ts)
  }

  function Gets(s: Sched, step: Step): seq<Task>
    requires s.Shaped() && Allowed(s, step)
  {
    match step
    case Pop(w) => [s.queues[w][0]]
    case Steal(w, v) => [s.queues[v][LastLoose(s.queues[v])]]
    case _ => []
  }

  function Puts(s: Sched, step: Step): seq<Task>
    requires s.Shaped() && Allowed(s, step)
  {
    match step
    case Push(t, q) => [t]
    case Reschedule(w, q) => [s.held[w].value]
    case _ => []
  }

  /** Whoever gets a pinned task is the worker it is pinned to. */
  lemma PinnedStaysHome(s: Sched, step: Step)
    requires Inv(s) && Allowed(s, step) && (step.Pop? || step.Steal?)
    ensures var t := Gets(s, step)[0];
            Apply(s, step).held[step.w] == Some(t) && (Honoured(t.pin, |s.queues|) ==> t.pin == step.w)
  {
    StepKeepsInv(s, step);
  }

  lemma {:induction false} FilterLoose(k: nat, ts: seq<Task>)
    requires forall t | t in ts :: t.pin != k
    ensures Pinned(k, ts) == []
  {
    if ts != [] {
      var front, t := ts[..|ts| - 1], ts[|ts| - 1];
      assert ts == front + [t];
      FilterLoose(k, front);
    }
  }

  lemma PinnedAppend(k: nat, a: seq<Task>, b: seq<Task>)
    ensures Pinned(k, a + b) == Pinned(k, a) + Pinned(k, b)
  {
    FilterAppend(PinnedTo(k), a, b);
  }

  lemma PinnedOne(k: nat, x: Task)
    ensures Pinned(k, [x]) == if x.pin == k then [x] else []
    ensures Pinned(k, []) == []
  {
    assert [x][..0] == [];
  }

  lemma FilterThree(k: nat, a: seq<Task>, x: Task, b: seq<Task>)
    requires a == [] || x.pin != k
    ensures Pinned(k, [x]) + Pinned(k, a + b) == Pinned(k, (a + [x]) + b)
  {
    hide Pinned;
    PinnedOne(k, x);
    PinnedAppend(k, a, b);
    PinnedAppend(k, a, [x]);
    PinnedAppend(k, a + [x], b);
  }

  lemma FilterRemove(k: nat, q: seq<Task>, i: nat)
    requires i < |q| && (i == 0 || q[i].pin != k)
    ensures Pinned(k, [q[i]]) + Pinned(k, Remove(q, i)) == Pinned(k, q)
  {
    hide Pinned;
    assert i == 0 ==> q[..i] == [];
    FilterThree(k, q[..i], q[i], q[i + 1..]);
    assert q == (q[..i] + [q[i]]) + q[i + 1..];
  }

  lemma {:induction false} FilterTakeTail(k: nat, q: seq<Task>, limit: nat)
    ensures Pinned(k, TakeTail(q, limit).0) == Pinned(k, q)
  {
    if q != [] && limit != 0 {
      var front, t := q[..|q| - 1], q[|q| - 1];
      FilterTakeTail(k, front, if Loose(t) then limit - 1 else limit);
      FilterLast(PinnedTo(k), front, t);
      assert front + [t] == q;
      if !Loose(t) {
        FilterLast(PinnedTo(k), TakeTail(front, limit).0, t);
      }
    }
  }

  lemma PutBackOrder(s: Sched, q: nat, ts: seq<Task>, k: nat)
    requires s.Shaped() && q < |s.queues| && k < |s.queues| && forall t | t in ts && t.pin == k :: q == k
    ensures Pinned(k, PutBack(s, q, ts).queues[k])
         == Pinned(k, s.queues[k]) + Pinned(k, ts)
  {
    if q == k {
      FilterAppend(PinnedTo(k), s.queues[k], ts);
    } else {
      FilterLoose(k, ts);
    }
  }

  lemma TakeByOrder(s: Sched, w: nat, q: nat, i: nat, k: nat)
    requires Inv(s) && w < |s.queues| && q < |s.queues| && i < |s.queues[q]| && k < |s.queues|
    requires i == 0 || Loose(s.queues[q][i])
    ensures Pinned(k, [s.queues[q][i]]) + Pinned(k, TakeBy(s, w, q, i).queues[k])
         == Pinned(k, s.queues[k])
  {
    hide Pinned;
    var t := s.queues[q][i];
    assert t in s.queues[q];
    if q == k {
      FilterRemove(k, s.queues[q], i);
    } else {
      FilterLoose(k, [t]);
    }
  }

  lemma StepKeepsOrder(s: Sched, step: Step, k: nat)
    requires Inv(s) && Allowed(s, step) && k < |s.queues|
    ensures Pinned(k, Gets(s, step)) + Pinned(k, Apply(s, step).queues[k])
         == Pinned(k, s.queues[k]) + Pinned(k, Puts(s, step))
  {
    hide Pinned, Copies;
    FilterLoose(k, []);
    match step
    case Push(t, q) => PutBackOrder(s, q, [t], k);
    case Pop(w) => TakeByOrder(s, w, w, 0, k);
    case Steal(w, v) => TakeByOrder(s, w, v, LastLoose(s.queues[v]), k);
    case Finish(w) =>
    case Reschedule(w, q) => PutBackOrder(s.(held := s.held[w := None]), q, [s.held[w].value], k);
    case BalanceTake(f, t) => FilterTakeTail(k, s.queues[f], BATCH);
    case BalancePut(x) =>
      assert s.transit[x] in s.transit;
      assert forall t | t in s.transit[x].tasks :: Loose(t);
      FilterLoose(k, s.transit[x].tasks);
      PutBackOrder(s.(transit := Remove(s.transit, x)), s.transit[x].target, s.transit[x].tasks, k);
  }

  function PinnedGets(s: Sched, steps: seq<Step>, k: nat): seq<Task>
    requires AllowedRun(s, steps)
    decreases |steps|
  {
    if steps == [] then []
    else Pinned(k, Gets(s, steps[0])) + PinnedGets(Apply(s, steps[0]), steps[1..], k)
  }

  function PinnedPuts(s: Sched, steps: seq<Step>, k: nat): seq<Task>
    requires AllowedRun(s, steps)
    decreases |steps|
  {
    if steps == [] then []
    else Pinned(k, Puts(s, steps[0])) + PinnedPuts(Apply(s, steps[0]), steps[1..], k)
  }

  /** Over all interleavings of pushes, pops, steals and balancing, the tasks pinned to thread k are
      taken, all of them by worker k, in the order in which they were put into its queue. */
  lemma {:induction false} PinnedInOrder(s: Sched, steps: seq<Step>, k: nat)
    requires Inv(s) && AllowedRun(s, steps) && k < |s.queues|
    ensures |Run(s, steps).queues| == |s.queues|
    ensures PinnedGets(s, steps, k) + Pinned(k, Run(s, steps).queues[k])
         == Pinned(k, s.queues[k]) + PinnedPuts(s, steps, k)
    decreases |steps|
  {
    hide Pinned;
    if steps != [] {
      var s' := Apply(s, steps[0]);
      StepKeepsInv(s, steps[0]);
      StepKeepsOrder(s, steps[0], k);
      PinnedInOrder(s', steps[1..], k);
      ChainQueues(Pinned(k, Gets(s, steps[0])), PinnedGets(s', steps[1..], k),
                  Pinned(k, s.queues[k]), Pinned(k, s'.queues[k]),
                  Pinned(k, Run(s, steps).queues[k]),
                  Pinned(k, Puts(s, steps[0])), PinnedPuts(s', steps[1..], k));
    }
  }

  // ---------------------------------------------------------------------------------------
  // Balancing
  // ---------------------------------------------------------------------------------------

  function IsLoose(): Task -> bool {
    (t: Task) => t.pin == -1
  }

  function IsPinned(): Task -> bool {
    (t: Task) => t.pin != -1
  }

  /** What a balancing thread takes from a queue: its last loose tasks, the very last one first, as many
      as there are up to the limit; all others stay, in their order. */
  lemma {:induction false} TakesLastLoose(q: seq<Task>, limit: nat)
    ensures var (rest, taken) := TakeTail(q, limit); var loose := Filter(IsLoose(), q);
            && |taken| == (if limit < |loose| then limit else |loose|)
            && Filter(IsLoose(), rest) + Reverse(taken) == loose
            && Filter(IsPinned(), rest) == Filter(IsPinned(), q)
  {
    if q != [] && limit != 0 {
      var front, t := q[..|q| - 1], q[|q| - 1];
      assert q == front + [t];
      FilterLast(IsLoose(), front, t);
      FilterLast(IsPinned(), front, t);
      TakesLastLoose(front, if Loose(t) then limit - 1 else limit);
      if Loose(t) {
        var (rest, taken) := TakeTail(front, limit - 1);
        assert ([t] + taken)[1..] == taken;
        Assoc(Filter(IsLoose(), rest), Reverse(taken), [t]);
      } else {
        FilterLast(IsLoose(), TakeTail(front, limit).0, t);
        FilterLast(IsPinned(), TakeTail(front, limit).0, t);
      }
    }
  }

  /** Both phases of a balancing that nobody disturbs. */
  function Balanced(s: Sched, f: nat, t: nat): Sched
    requires s.Shaped() && Allowed(s, BalanceTake(f, t))
  {
    Apply(Apply(s, BalanceTake(f, t)), BalancePut(|s.transit|))
  }

  /** Undisturbed balancing moves at most five tasks, brings the two queues closer and leaves the
      fuller one the longer; the others keep their length. */
  lemma BalancingHelps(s: Sched, f: nat, t: nat)
    requires Inv(s) && f < |s.queues| && t < |s.queues| && s.sizes[f] - s.sizes[t] > 10
    ensures var r := Balanced(s, f, t); var moved := |TakeTail(s.queues[f], BATCH).1|;
            && Inv(r) && r.transit == s.transit
            && moved <= 5
            && |r.queues[f]| == |s.queues[f]| - moved && |r.queues[t]| == |s.queues[t]| + moved
            && |r.queues[f]| > |r.queues[t]|
            && (forall i | 0 <= i < |s.queues| && i != f && i != t :: r.queues[i] == s.queues[i])
  {
    StepKeepsInv(s, BalanceTake(f, t));
    var s1 := Apply(s, BalanceTake(f, t));
    StepKeepsInv(s1, BalancePut(|s.transit|));
    assert Remove(s1.transit, |s.transit|) == s.transit;
  }

  /** And which: the last loose tasks of the fuller queue, five of them or all if there are fewer, the very
      last one first, go to the tail of the other. */
  lemma BalancingMoves(s: Sched, f: nat, t: nat, taken: seq<Task>)
    requires Inv(s) && f < |s.queues| && t < |s.queues| && f != t
    requires |s.queues[t]| <= |Balanced(s, f, t).queues[t]| && taken == Balanced(s, f, t).queues[t][|s.queues[t]|..]
    ensures var r := Balanced(s, f, t); var loose := Filter(IsLoose(), s.queues[f]);
            && r.queues[t] == s.queues[t] + taken
            && |taken| == (if |loose| < 5 then |loose| else 5)
            && Filter(IsLoose(), r.queues[f]) + Reverse(taken) == loose
            && Filter(IsPinned(), r.queues[f]) == Filter(IsPinned(), s.queues[f])
  {
    TakesLastLoose(s.queues[f], BATCH);
    BalancedForm(s, f, t);
    var moved := TakeTail(s.queues[f], BATCH).1;
    assert (s.queues[t] + moved)[|s.queues[t]|..] == moved;
  }

  /** The scan of autoLoadBalance: where the first of the largest and of the smallest size is. Both
      start undefined while the size of queue 0 is already the bound to beat. */
  datatype Scan = Scan(maxQueue: int, minQueue: int, maxTask: int, minTask: int)

  function ScanSizes(sizes: seq<int>, n: nat): Scan
    requires 1 <= n <= |sizes|
  {
    if n == 1 then Scan(-1, -1, sizes[0], sizes[0])
    else
      var r := ScanSizes(sizes, n - 1);
      var cur := sizes[n - 1];
      if cur > r.maxTask then r.(maxQueue := n - 1, maxTask := cur)
      else if cur < r.minTask then r.(minQueue := n - 1, minTask := cur)
      else r
  }

  predicate Balances(sizes: seq<int>)
    requires |sizes| >= 1
  {
    var r := ScanSizes(sizes, |sizes|);
    r.maxQueue > -1 && r.minQueue > -1 && r.maxTask - r.minTask > 10
  }

  lemma {:induction false} ScanFinds(sizes: seq<int>, n: nat)
    requires 1 <= n <= |sizes|
    ensures var r := ScanSizes(sizes, n);
            && (forall i | 0 <= i < n :: r.minTask <= sizes[i] <= r.maxTask)
            && (if r.maxQueue > -1 then r.maxQueue < n && sizes[r.maxQueue] == r.maxTask && r.maxTask > sizes[0]
                else r.maxTask == sizes[0])
            && (if r.minQueue > -1 then r.minQueue < n && sizes[r.minQueue] == r.minTask && r.minTask < sizes[0]
                else r.minTask == sizes[0])
            && (forall i | 0 <= i < n && i < r.maxQueue :: sizes[i] < r.maxTask)
            && (forall i | 0 <= i < n && i < r.minQueue :: sizes[i] > r.minTask)
  {
    if n > 1 {
      ScanFinds(sizes, n - 1);
    }
  }

  /** The fullest and the emptiest queue are found, and balancing takes place, exactly when some two
      queues differ by more than ten and the size of queue 0 lies strictly between theirs: queue 0
      itself is never balanced. */
  lemma BalancesExactly(sizes: seq<int>)
    requires |sizes| >= 1
    ensures Balances(sizes) <==>
              exists i, j | 0 <= i < |sizes| && 0 <= j < |sizes| ::
                sizes[i] - sizes[j] > 10 && sizes[j] < sizes[0] < sizes[i]
    ensures Balances(sizes) ==> var r := ScanSizes(sizes, |sizes|); r.maxQueue > 0 && r.minQueue > 0
  {
    ScanFinds(sizes, |sizes|);
    var r := ScanSizes(sizes, |sizes|);
    if exists i, j | 0 <= i < |sizes| && 0 <= j < |sizes| ::
         sizes[i] - sizes[j] > 10 && sizes[j] < sizes[0] < sizes[i] {
      var i, j :| 0 <= i < |sizes| && 0 <= j < |sizes| && sizes[i] - sizes[j] > 10 && sizes[j] < sizes[0] < sizes[i];
      assert r.minTask <= sizes[j] && sizes[i] <= r.maxTask;
    }
    if Balances(sizes) {
      assert sizes[r.maxQueue] - sizes[r.minQueue] > 10;
    }
  }

  /** A queue 0 that is the fullest by far is left alone. */
  lemma FullQueueZeroIgnored()
    ensures !Balances([20, 0, 0])
  {
    assert ScanSizes([20, 0, 0], 2).maxQueue == -1;
  }

  // ---------------------------------------------------------------------------------------
  // The object
  // ---------------------------------------------------------------------------------------

  /** The random policy comes with what the generator draws, a number uniform over the queues. */
  datatype Policy = RoundRobin | LeastLoaded | Random(draw: nat)

  /** Queue q is what the policy selects, and counter' the round-robin counter afterwards. */
  ghost predicate Selected(pin: int, policy: Policy, sizes: seq<int>, counter: nat, q: nat, counter': nat) {
    && q < |sizes|
    && if Honoured(pin, |sizes|) then q == pin && counter' == counter
       else if policy.RoundRobin? then q == counter % |sizes| && counter' == counter + 1
       else if policy.Random? then q == policy.draw && counter' == counter
       else
         && counter' == counter && (forall i | 0 <= i < |sizes| :: sizes[q] <= sizes[i])
         && (forall i | 0 <= i < q :: sizes[q] < sizes[i])
  }

  /** No worker holds a task. */
  /** Round-robin choices of unpinned tasks visit the queues in turn: two of them meet in one queue exactly
      if the number of choices from one to the other is a multiple of the number of queues. A new scheduler
      begins with queue 0. */
  lemma RoundRobinTurns(sizes: seq<seq<int>>, n: nat, counters: seq<nat>, qs: seq<nat>)
    requires n >= 1 && |sizes| == |qs| && |counters| == |qs| + 1 && forall i | 0 <= i < |qs| :: |sizes[i]| == n
    requires forall i | 0 <= i < |qs| :: Selected(-1, RoundRobin, sizes[i], counters[i], qs[i], counters[i + 1])
    ensures forall i, j | 0 <= i <= j < |qs| :: qs[i] == qs[j] <==> (j - i) % n == 0
    ensures qs != [] && counters[0] == 0 ==> qs[0] == 0
  {
    forall i, j | 0 <= i <= j < |qs| ensures qs[i] == qs[j] <==> (j - i) % n == 0 {
      TurnIs(sizes, n, counters, qs, i);
      TurnIs(sizes, n, counters, qs, j);
      SameTurn(counters[0] + i, j - i, n);
    }
    if qs != [] {
      TurnIs(sizes, n, counters, qs, 0);
    }
  }

  lemma {:induction false} TurnIs(sizes: seq<seq<int>>, n: nat, counters: seq<nat>, qs: seq<nat>, i: nat)
    requires n >= 1 && |sizes| == |qs| && |counters| == |qs| + 1 && forall k | 0 <= k < |qs| :: |sizes[k]| == n
    requires forall k | 0 <= k < |qs| :: Selected(-1, RoundRobin, sizes[k], counters[k], qs[k], counters[k + 1])
    requires i < |qs|
    ensures counters[i] == counters[0] + i && qs[i] == (counters[0] + i) % n
  {
    assert Selected(-1, RoundRobin, sizes[i], counters[i], qs[i], counters[i + 1]);
    if i > 0 {
      TurnIs(sizes, n, counters, qs, i - 1);
      assert Selected(-1, RoundRobin, sizes[i - 1], counters[i - 1], qs[i - 1], counters[i - 1 + 1]);
    }
  }

  lemma SameTurn(x: nat, d: nat, n: nat)
    requires n >= 1
    ensures x % n == (x + d) % n <==> d % n == 0
  {
    TurnAfter(x, d, n, x / n, x % n, d / n, d % n);
  }

  lemma TurnAfter(x: nat, d: nat, n: nat, q: nat, r: nat, e: nat, f: nat)
    requires n >= 1 && r < n && f < n && x == q * n + r && d == e * n + f
    ensures (x + d) % n == if r + f < n then r + f else r + f - n
  {
    Joined(q, e, n);
    if r + f < n {
      Residue(q + e, n, r + f, x + d);
    } else {
      Joined(q + e, 1, n);
      Residue(q + e + 1, n, r + f - n, x + d);
    }
  }

  lemma Joined(q: int, e: int, n: int)
    ensures (q + e) * n == q * n + e * n
  {
  }

  lemma Residue(q: nat, n: nat, r: nat, x: nat)
    requires r < n && x == q * n + r
    ensures x % n == r
  {
    var d := x / n - q;
    Joined(q, d, n);
    Bigger(d, n);
  }

  lemma Bigger(d: int, n: nat)
    ensures d >= 1 ==> d * n >= n
    ensures d <= -1 ==> d * n <= 0 - n
  {
  }

  function NoHands(n: nat): seq<Option<Task>> {
    seq(n, _ => None)
  }

  class Scheduler {
    var localQueues: seq<seq<Task>>
    var queueSizes: seq<int>
    var roundRobinCounter: nat

    constructor (threadNum: nat)
      requires threadNum >= 1
      ensures Inv(State(NoHands(threadNum), [])) && |localQueues| == threadNum
      ensures forall t :: Copies(State(NoHands(threadNum), []), t) == 0
    {
      localQueues := seq(threadNum, _ => []);
      queueSizes := seq(threadNum, _ => 0);
      roundRobinCounter := 0;
      new;
      forall t ensures Copies(State(NoHands(threadNum), []), t) == 0 {
        EmptyCounts(localQueues, NoHands(threadNum), t);
      }
    }

    /** The queues with what the workers and balancing threads hold. */
    function State(held: seq<Option<Task>>, transit: seq<Transfer>): Sched
      reads this
    {
      Sched(localQueues, queueSizes, held, transit)
    }

    method SelectBestQueue(pin: int, policy: Policy) returns (q: nat)
      requires |localQueues| >= 1 && |queueSizes| == |localQueues| && (policy.Random? ==> policy.draw < |localQueues|)
      modifies `roundRobinCounter
      ensures Selected(pin, policy, queueSizes, old(roundRobinCounter), q, roundRobinCounter)
    {
      if 0 <= pin < |localQueues| {
        return pin;
      }
      match policy
      case RoundRobin =>
        q := roundRobinCounter % |localQueues|;
        roundRobinCounter := roundRobinCounter + 1;
      case Random(draw) =>
        q := draw;
      case LeastLoaded =>
        q := 0;
        var min, i := queueSizes[0], 1;
        while i < |queueSizes|
          invariant 1 <= i <= |queueSizes| && q < i && min == queueSizes[q]
          invariant forall j | 0 <= j < i :: queueSizes[q] <= queueSizes[j]
          invariant forall j | 0 <= j < q :: queueSizes[q] < queueSizes[j]
        {
          if min > queueSizes[i] {
            min := queueSizes[i];
            q := i;
          }
          i := i + 1;
        }
    }

    /** Pushes one task; also how a READY task comes back. */
    method Schedule(task: Task, policy: Policy, ghost held: seq<Option<Task>>, ghost transit: seq<Transfer>)
      returns (q: nat)
      requires Inv(State(held, transit)) && (policy.Random? ==> policy.draw < |localQueues|)
      modifies this
      ensures Selected(task.pin, policy, old(queueSizes), old(roundRobinCounter), q, roundRobinCounter)
      ensures q < |old(localQueues)| && Allowed(old(State(held, transit)), Push(task, q))
      ensures State(held, transit) == Apply(old(State(held, transit)), Push(task, q)) && Inv(State(held, transit))
      ensures localQueues == old(localQueues)[q := old(localQueues)[q] + [task]]
    {
      q := SelectBestQueue(task.pin, policy);
      StepKeepsInv(State(held, transit), Push(task, q));
      localQueues := localQueues[q := localQueues[q] + [task]];
      queueSizes := queueSizes[q := queueSizes[q] + 1];
    }

    /** Pushes a batch of tasks, all for one thread or for any: they end up in one queue, in order. */
    method ScheduleBatch(tasks: seq<Task>, pin: int, policy: Policy,
                         ghost held: seq<Option<Task>>, ghost transit: seq<Transfer>) returns (q: nat)
      requires Inv(State(held, transit)) && (policy.Random? ==> policy.draw < |localQueues|)
      requires forall t | t in tasks :: t.pin == pin
      modifies this
      ensures Selected(pin, policy, old(queueSizes), old(roundRobinCounter), q, roundRobinCounter)
      ensures q < |old(localQueues)|
      ensures State(held, transit) == PutBack(old(State(held, transit)), q, tasks) && Inv(State(held, transit))
      ensures localQueues == old(localQueues)[q := old(localQueues)[q] + tasks]
    {
      q := SelectBestQueue(pin, policy);
      PutBackKeeps(State(held, transit), q, tasks);
      AppendAll(q, tasks);
    }

    /** Worker w takes the front of its own queue. */
    method PopLocal(w: nat, ghost held: seq<Option<Task>>, ghost transit: seq<Transfer>) returns (r: Option<Task>)
      requires Inv(State(held, transit)) && w < |localQueues| && held[w].None?
      modifies this
      ensures r.None? ==> old(localQueues)[w] == [] && State(held, transit) == old(State(held, transit))
      ensures old(localQueues)[w] != [] ==>
                r == Some(old(localQueues)[w][0]) && localQueues == old(localQueues)[w := old(localQueues)[w][1..]]
      ensures r.Some? ==>
                && Allowed(old(State(held, transit)), Pop(w))
                && State(held[w := r], transit) == Apply(old(State(held, transit)), Pop(w))
                && Inv(State(held[w := r], transit))
    {
      if localQueues[w] == [] {
        return None;
      }
      StepKeepsInv(State(held, transit), Pop(w));
      r := Some(localQueues[w][0]);
      assert Remove(localQueues[w], 0) == localQueues[w][1..];
      localQueues := localQueues[w := localQueues[w][1..]];
      queueSizes := queueSizes[w := queueSizes[w] - 1];
    }

    /** The scan for a queue to steal from: the first of the longest others, if it has two or more. */
    method StealScan(w: nat) returns (best: int)
      requires |queueSizes| == |localQueues|
      ensures best == -1 ==> forall i | 0 <= i < |queueSizes| && i != w :: queueSizes[i] <= 1
      ensures best != -1 ==>
                && 0 <= best < |queueSizes| && best != w && queueSizes[best] > 1
                && (forall i | 0 <= i < |queueSizes| && i != w :: queueSizes[i] <= queueSizes[best])
                && (forall i | 0 <= i < best && i != w :: queueSizes[i] < queueSizes[best])
    {
      best := -1;
      var max, i := 0, 0;
      while i < |queueSizes|
        invariant i <= |queueSizes| && max >= 0
        invariant best == -1 ==> max == 0 && forall j | 0 <= j < i && j != w :: queueSizes[j] <= 1
        invariant best != -1 ==>
                    && 0 <= best < i && best != w && queueSizes[best] == max > 1
                    && (forall j | 0 <= j < i && j != w :: queueSizes[j] <= max)
                    && (forall j | 0 <= j < best && j != w :: queueSizes[j] < max)
      {
        if i != w && queueSizes[i] > max && queueSizes[i] > 1 {
          max := queueSizes[i];
          best := i;
        }
        i := i + 1;
      }
    }

    /** Worker w walks the victim's queue from the tail and takes the first loose task it meets. */
    method StealTake(w: nat, victim: nat, ghost held: seq<Option<Task>>, ghost transit: seq<Transfer>)
      returns (r: Option<Task>)
      requires Inv(State(held, transit)) && w < |localQueues| && victim < |localQueues| && victim != w && held[w].None?
      modifies this
      ensures r.None? ==>
                State(held, transit) == old(State(held, transit)) && forall t | t in localQueues[victim] :: t.pin != -1
      ensures r.Some? ==>
                exists i :: 0 <= i < |old(localQueues)[victim]| && r == Some(old(localQueues)[victim][i])
                            && r.value.pin == -1
                            && forall j | i < j < |old(localQueues)[victim]| :: old(localQueues)[victim][j].pin != -1
      ensures r.Some? ==>
                && Allowed(old(State(held, transit)), Steal(w, victim))
                && State(held[w := r], transit) == Apply(old(State(held, transit)), Steal(w, victim))
                && Inv(State(held[w := r], transit))
    {
      hide Apply;
      var i := |localQueues[victim]|;
      r := None;
      while i > 0
        invariant State(held, transit) == old(State(held, transit)) && 0 <= i <= |localQueues[victim]|
        invariant forall j | i <= j < |localQueues[victim]| :: !Loose(localQueues[victim][j])
      {
        i := i - 1;
        if localQueues[victim][i].pin == -1 {
          StealForm(State(held, transit), w, victim, i);
          r := Some(localQueues[victim][i]);
          localQueues := localQueues[victim := Remove(localQueues[victim], i)];
          queueSizes := queueSizes[victim := queueSizes[victim] - 1];
          return;
        }
      }
    }

    method BalanceScan() returns (r: Scan)
      requires |queueSizes| >= 1
      ensures r == ScanSizes(queueSizes, |queueSizes|)
    {
      r := Scan(-1, -1, queueSizes[0], queueSizes[0]);
      var i := 1;
      while i < |queueSizes|
        invariant 1 <= i <= |queueSizes| && r == ScanSizes(queueSizes, i)
      {
        var cur := queueSizes[i];
        if cur > r.maxTask {
          r := r.(maxQueue := i, maxTask := cur);
        } else if cur < r.minTask {
          r := r.(minQueue := i, minTask := cur);
        }
        i := i + 1;
      }
    }

    /** The first phase: erases up to five loose tasks from the tail of a queue. */
    method TakeForBalance(f: nat) returns (tasks: seq<Task>)
      requires f < |localQueues| && |queueSizes| == |localQueues|
      modifies this
      ensures roundRobinCounter == old(roundRobinCounter)
      ensures tasks == TakeTail(old(localQueues)[f], BATCH).1
      ensures localQueues == old(localQueues)[f := TakeTail(old(localQueues)[f], BATCH).0]
      ensures queueSizes == old(queueSizes)[f := old(queueSizes)[f] - |tasks|]
    {
      hide Taking;
      ghost var q := localQueues[f];
      tasks := [];
      var i := |localQueues[f]|;
      TakingBegins(q);
      while i > 0 && |tasks| < BATCH
        invariant |localQueues| == |old(localQueues)| && |queueSizes| == |old(queueSizes)|
        invariant roundRobinCounter == old(roundRobinCounter) && 0 <= i <= |localQueues[f]| && |tasks| <= BATCH
        invariant localQueues == old(localQueues)[f := localQueues[f]] && Taking(q, localQueues[f], tasks, i)
        invariant queueSizes == old(queueSizes)[f := old(queueSizes)[f] - |tasks|]
      {
        i := i - 1;
        TakingStep(q, localQueues[f], tasks, i);
        if localQueues[f][i].pin == -1 {
          tasks := tasks + [localQueues[f][i]];
          localQueues := localQueues[f := Remove(localQueues[f], i)];
          queueSizes := queueSizes[f := queueSizes[f] - 1];
        }
      }
      TakingEnds(q, localQueues[f], tasks, i);
    }

    /** autoLoadBalance while no other thread interferes. */
    method AutoLoadBalance(ghost held: seq<Option<Task>>, ghost transit: seq<Transfer>) returns (did: bool)
      requires Inv(State(held, transit))
      modifies this
      ensures did <==> Balances(old(queueSizes))
      ensures !did ==> State(held, transit) == old(State(held, transit))
      ensures did ==>
                var r := ScanSizes(old(queueSizes), |old(queueSizes)|);
                && 0 <= r.maxQueue < |old(queueSizes)| && 0 <= r.minQueue < |old(queueSizes)|
                && old(queueSizes)[r.maxQueue] - old(queueSizes)[r.minQueue] > 10
                && State(held, transit) == Balanced(old(State(held, transit)), r.maxQueue, r.minQueue)
    {
      hide Balanced, Apply, Inv;
      ghost var s := State(held, transit);
      InvShaped(s);
      ScanFinds(queueSizes, |queueSizes|);
      var r := BalanceScan();
      did := r.maxQueue > -1 && r.minQueue > -1 && r.maxTask - r.minTask > 10;
      if did {
        BalancedForm(s, r.maxQueue, r.minQueue);
        BalanceQueues(r.maxQueue, r.minQueue);
      }
    }

    /** Both phases, from queue f to queue t. */
    method BalanceQueues(f: nat, t: nat)
      requires f < |localQueues| && t < |localQueues| && f != t && |queueSizes| == |localQueues|
      modifies this
      ensures var (rest, taken) := TakeTail(old(localQueues)[f], BATCH);
              && localQueues == old(localQueues)[f := rest][t := old(localQueues)[t] + taken]
              && queueSizes == old(queueSizes)[f := old(queueSizes)[f] - |taken|][t := old(queueSizes)[t] + |taken|]
      ensures roundRobinCounter == old(roundRobinCounter)
    {
      var tasks := TakeForBalance(f);
      if tasks != [] {
        AppendAll(t, tasks);
      } else {
        assert localQueues[t] + tasks == localQueues[t];
      }
    }

    /** Appends tasks to a queue one by one, under one lock: a batch that is scheduled, or the second
        phase of a balancing. */
    method AppendAll(t: nat, tasks: seq<Task>)
      requires t < |localQueues| && |queueSizes| == |localQueues|
      modifies this
      ensures roundRobinCounter == old(roundRobinCounter)
      ensures localQueues == old(localQueues)[t := old(localQueues)[t] + tasks]
      ensures queueSizes == old(queueSizes)[t := old(queueSizes)[t] + |tasks|]
    {
      var i := 0;
      assert localQueues[t] + tasks[..0] == localQueues[t];
      while i < |tasks|
        invariant i <= |tasks| && roundRobinCounter == old(roundRobinCounter)
        invariant localQueues == old(localQueues)[t := old(localQueues)[t] + tasks[..i]]
        invariant queueSizes == old(queueSizes)[t := old(queueSizes)[t] + i]
      {
        assert old(localQueues)[t] + tasks[..i + 1] == (old(localQueues)[t] + tasks[..i]) + [tasks[i]];
        localQueues := localQueues[t := localQueues[t] + [tasks[i]]];
        queueSizes := queueSizes[t := queueSizes[t] + 1];
        i := i + 1;
      }
      assert tasks[..i] == tasks;
    }
  }

  /** The walk from the tail of queue q has come down to index i: `cur` is the queue now. */
  ghost predicate Taking(q: seq<Task>, cur: seq<Task>, tasks: seq<Task>, i: nat) {
    && i <= |q| && i <= |cur| && |tasks| <= BATCH && cur[..i] == q[..i]
    && TakeTail(q, BATCH).0 == TakeTail(q[..i], BATCH - |tasks|).0 + cur[i..]
    && TakeTail(q, BATCH).1 == tasks + TakeTail(q[..i], BATCH - |tasks|).1
  }

  lemma TakingBegins(q: seq<Task>)
    ensures Taking(q, q, [], |q|)
  {
    assert q[..|q|] == q && q[|q|..] == [];
  }

  lemma TakingStep(q: seq<Task>, cur: seq<Task>, tasks: seq<Task>, i: nat)
    requires Taking(q, cur, tasks, i + 1) && |tasks| < BATCH
    ensures if Loose(cur[i]) then Taking(q, Remove(cur, i), tasks + [cur[i]], i) else Taking(q, cur, tasks, i)
  {
    var front := q[..i + 1];
    assert front[..i] == q[..i] && front[i] == q[i] == cur[i];
    assert cur[..i] == cur[..i + 1][..i];
    if Loose(cur[i]) {
      TakesLoose(q, cur, tasks, i);
    } else {
      assert cur[i..] == [cur[i]] + cur[i + 1..];
    }
  }

  lemma TakesLoose(q: seq<Task>, cur: seq<Task>, tasks: seq<Task>, i: nat)
    requires Taking(q, cur, tasks, i + 1) && |tasks| < BATCH && Loose(cur[i]) && cur[i] == q[i] && cur[..i] == q[..i]
    ensures Taking(q, Remove(cur, i), tasks + [cur[i]], i)
  {
    var front := q[..i + 1];
    assert front[..i] == q[..i] && front[i] == cur[i];
    assert Remove(cur, i)[..i] == cur[..i] && Remove(cur, i)[i..] == cur[i + 1..];
  }

  lemma TakingEnds(q: seq<Task>, cur: seq<Task>, tasks: seq<Task>, i: nat)
    requires Taking(q, cur, tasks, i) && (i == 0 || |tasks| >= BATCH)
    ensures TakeTail(q, BATCH) == (cur, tasks)
  {
    assert cur == cur[..i] + cur[i..];
    assert TakeTail(q[..i], BATCH - |tasks|) == (q[..i], []) by {
      if i == 0 {
        assert q[..0] == [];
      }
    }
    assert tasks + [] == tasks;
  }

  /** A steal takes the loose task behind which there is none. */
  lemma StealForm(s: Sched, w: nat, victim: nat, i: nat)
    requires Inv(s) && w < |s.queues| && victim < |s.queues| && victim != w && s.held[w].None?
    requires i < |s.queues[victim]| && Loose(s.queues[victim][i])
    requires forall j | i < j < |s.queues[victim]| :: !Loose(s.queues[victim][j])
    ensures Allowed(s, Steal(w, victim)) && Inv(Apply(s, Steal(w, victim))) && s.sizes[victim] >= 1
    ensures Apply(s, Steal(w, victim))
            == s.(queues := s.queues[victim := Remove(s.queues[victim], i)],
                  sizes := s.sizes[victim := s.sizes[victim] - 1], held := s.held[w := Some(s.queues[victim][i])])
  {
    assert LastLoose(s.queues[victim]) == i;
    StepKeepsInv(s, Steal(w, victim));
  }

  lemma BalancedForm(s: Sched, f: nat, t: nat)
    requires s.Shaped() && Allowed(s, BalanceTake(f, t))
    ensures var (rest, taken) := TakeTail(s.queues[f], BATCH);
            Balanced(s, f, t) == s.(queues := s.queues[f := rest][t := s.queues[t] + taken],
                                    sizes := s.sizes[f := s.sizes[f] - |taken|][t := s.sizes[t] + |taken|])
  {
    var s1 := Apply(s, BalanceTake(f, t));
    assert Remove(s1.transit, |s.transit|) == s.transit;
  }

  lemma {:induction false} EmptyCounts(queues: seq<seq<Task>>, held: seq<Option<Task>>, t: Task)
    requires forall i | 0 <= i < |queues| :: queues[i] == []
    requires forall i | 0 <= i < |held| :: held[i] == None
    ensures InQueues(queues, t) == 0 && InHands(held, t) == 0
    decreases |queues| + |held|
  {
    if queues != [] {
      EmptyCounts(queues[1..], held, t);
    } else if held != [] {
      EmptyCounts(queues, held[1..], t);
    }
  }
}
