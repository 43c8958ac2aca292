/**
 The fiber semaphore and the worker group that bounds its tasks with it. The steps are the critical
 sections of the semaphore, taken by any number of fibers in any order: fibers that submit single
 tasks, tasks that finish, and the fiber that calls WaitAll.
 */
module WorkerGroups {
  import opened Prelude

  /** Who waits for a permit: a fiber about to schedule a task, or the fiber in WaitAll. */
  datatype Client = Submitter(id: nat) | Closer

  datatype Sem = Sem(permits: nat, queue: seq<Client>)

  /** wait(): takes a permit, or joins the queue and suspends. */
  function SemWait(s: Sem, c: Client): Sem {
    if s.permits > 0 then s.(permits := s.permits - 1) else s.(queue := s.queue + [c])
  }

  /** post(): hands the permit to the client that waited longest, or keeps it. */
  function SemPost(s: Sem): Sem {
    if s.queue != [] then s.(queue := s.queue[1..]) else s.(permits := s.permits + 1)
  }

  /** The clients that hold a permit after wait() or post() and did not before. */
  function WaitGrants(s: Sem, c: Client): seq<Client> {
    if s.permits > 0 then [c] else []
  }

  function PostGrants(s: Sem): seq<Client> {
    if s.queue != [] then [s.queue[0]] else []
  }

  /** `granted`: submitters that have their permit and have not scheduled their task yet;
      `outstanding`: scheduled tasks that have not posted yet; `taken`: permits WaitAll has got. */
  datatype Group = Group(
    batchSize: nat, sem: Sem, granted: set<nat>, outstanding: nat,
    isFinish: bool, closerWaits: bool, taken: nat)

  datatype Step =
    | Submit(id: nat)   // Schedule(cb): _fiberSem.wait()
    | Start(id: nat)    // the permit is there: _scheduler->Schedule(doWork)
    | Finish            // a task returns: _fiberSem.post()
    | Close             // WaitAll is entered
    | Acquire           // one round of the loop of WaitAll

  predicate Allowed(g: Group, step: Step) {
    match step
    case Submit(id) => id !in g.granted && Submitter(id) !in g.sem.queue
    case Start(id) => id in g.granted
    case Finish => g.outstanding > 0
    case Close => true
    case Acquire => g.isFinish && !g.closerWaits && g.taken < g.batchSize
  }

  function Grant(g: Group, cs: seq<Client>): Group {
    if cs == [] then g
    else match cs[0]
      case Submitter(id) => g.(granted := g.granted + {id})
      case Closer => g.(taken := g.taken + 1, closerWaits := false)
  }

  function Apply(g: Group, step: Step): Group {
    match step
    case Submit(id) => Grant(g.(sem := SemWait(g.sem, Submitter(id))), WaitGrants(g.sem, Submitter(id)))
    case Start(id) => g.(granted := g.granted - {id}, outstanding := g.outstanding + 1)
    case Finish =>
      Grant(g.(sem := SemPost(g.sem), outstanding := if g.outstanding > 0 then g.outstanding - 1 else 0),
            PostGrants(g.sem))
    case Close => g.(isFinish := true)
    case Acquire =>
      Grant(g.(sem := SemWait(g.sem, Closer), closerWaits := true), WaitGrants(g.sem, Closer))
  }

  function Create(batchSize: nat): Group {
    Group(batchSize, Sem(batchSize, []), {}, 0, false, false, 0)
  }

  /** Permits are conserved; clients wait only while there is no permit; WaitAll queues at most once. */
  ghost predicate Inv(g: Group) {
    && g.sem.permits + |g.granted| + g.outstanding + g.taken == g.batchSize
    && (g.sem.queue != [] ==> g.sem.permits == 0)
    && multiset(g.sem.queue)[Closer] == (if g.closerWaits then 1 else 0)
    && (forall id :: id in g.granted ==> multiset(g.sem.queue)[Submitter(id)] == 0)
    && (forall id :: multiset(g.sem.queue)[Submitter(id)] <= 1)
    && (g.closerWaits || g.taken > 0 ==> g.isFinish)
    && (g.closerWaits ==> g.taken < g.batchSize)
  }

  lemma CreateInv(batchSize: nat)
    ensures Inv(Create(batchSize))
  {
  }

  lemma SubmitKeeps(g: Group, id: nat)
    requires Inv(g) && Allowed(g, Submit(id))
    ensures Inv(Apply(g, Submit(id)))
  {
    if g.sem.permits > 0 {
      assert |g.granted + {id}| == |g.granted| + 1;
    } else {
      assert multiset(g.sem.queue + [Submitter(id)]) == multiset(g.sem.queue) + multiset{Submitter(id)};
    }
  }

  lemma HeadCount(queue: seq<Client>, c: Client)
    requires queue != []
    ensures multiset(queue)[c] == multiset(queue[1..])[c] + if queue[0] == c then 1 else 0
  {
    assert queue == [queue[0]] + queue[1..];
  }

  lemma FinishSubmitter(g: Group, id: nat)
    requires Inv(g) && g.outstanding > 0 && g.sem.queue != [] && g.sem.queue[0] == Submitter(id)
    ensures Inv(Apply(g, Finish))
  {
    forall c ensures multiset(g.sem.queue)[c] == multiset(g.sem.queue[1..])[c] + if c == Submitter(id) then 1 else 0 {
      HeadCount(g.sem.queue, c);
    }
    assert id !in g.granted;
    assert |g.granted + {id}| == |g.granted| + 1;
  }

  lemma FinishCloser(g: Group)
    requires Inv(g) && g.outstanding > 0 && g.sem.queue != [] && g.sem.queue[0] == Closer
    ensures Inv(Apply(g, Finish))
  {
    forall c ensures multiset(g.sem.queue)[c] == multiset(g.sem.queue[1..])[c] + if c == Closer then 1 else 0 {
      HeadCount(g.sem.queue, c);
    }
  }

  lemma FinishKeeps(g: Group)
    requires Inv(g) && g.outstanding > 0
    ensures Inv(Apply(g, Finish))
  {
    if g.sem.queue != [] {
      match g.sem.queue[0]
      case Submitter(id) => FinishSubmitter(g, id);
      case Closer => FinishCloser(g);
    }
  }

  /** Conservation over all runs. */
  lemma StepKeepsInv(g: Group, step: Step)
    requires Inv(g) && Allowed(g, step)
    ensures Inv(Apply(g, step))
  {
    match step
    case Submit(id) => SubmitKeeps(g, id);
    case Start(id) => assert |g.granted - {id}| == |g.granted| - 1;
    case Finish => FinishKeeps(g);
    case Close =>
    case Acquire => assert multiset(g.sem.queue + [Closer]) == multiset(g.sem.queue) + multiset{Closer};
  }

  ghost predicate AllowedRun(g: Group, steps: seq<Step>)
    decreases |steps|
  {
    steps == [] || (Allowed(g, steps[0]) && AllowedRun(Apply(g, steps[0]), steps[1..]))
  }

  function Run(g: Group, steps: seq<Step>): Group
    decreases |steps|
  {
    if steps == [] then g else Run(Apply(g, steps[0]), steps[1..])
  }

  /** At every point of every run at most batchSize tasks are scheduled and unfinished. */
  lemma {:induction false} NeverTooMany(g: Group, steps: seq<Step>)
    requires Inv(g) && AllowedRun(g, steps)
    ensures Inv(Run(g, steps)) && Run(g, steps).batchSize == g.batchSize
    ensures Run(g, steps).outstanding + |Run(g, steps).granted| <= g.batchSize
    decreases |steps|
  {
    if steps != [] {
      StepKeepsInv(g, steps[0]);
      NeverTooMany(Apply(g, steps[0]), steps[1..]);
    }
  }

  /** So in every run of a new group. */
  lemma BatchBound(batchSize: nat, steps: seq<Step>)
    requires AllowedRun(Create(batchSize), steps)
    ensures Run(Create(batchSize), steps).outstanding <= batchSize
  {
    CreateInv(batchSize);
    NeverTooMany(Create(batchSize), steps);
  }

  /** WaitAll has returned to its caller. */
  predicate Closed(g: Group) {
    g.isFinish && g.taken == g.batchSize
  }

  /** When WaitAll is through, every task that was ever scheduled has finished, no submitter holds a
      permit, and it stays so: in no continuation is a task scheduled again. */
  lemma {:induction false} ClosedForGood(g: Group, steps: seq<Step>)
    requires Inv(g) && Closed(g) && AllowedRun(g, steps)
    ensures g.outstanding == 0 && g.granted == {}
    ensures Closed(Run(g, steps)) && Run(g, steps).outstanding == 0 && Run(g, steps).granted == {}
    decreases |steps|
  {
    assert |g.granted| == 0;
    if steps != [] {
      StepKeepsInv(g, steps[0]);
      assert Closed(Apply(g, steps[0]));
      ClosedForGood(Apply(g, steps[0]), steps[1..]);
    }
  }

  /** A second call of WaitAll, which the destructor makes too, returns at once. It keeps the promise, that no
      task is outstanding then or later, if and only if the first call has returned. */
  lemma SecondWaitAll(g: Group)
    requires Inv(g) && g.isFinish
    ensures Apply(g, Close) == g
    ensures (forall steps | AllowedRun(g, steps) :: Run(g, steps).outstanding == 0) <==> Closed(g)
  {
    if Closed(g) {
      forall steps | AllowedRun(g, steps) ensures Run(g, steps).outstanding == 0 {
        ClosedForGood(g, steps);
      }
    } else {
      var steps := MoreTasks(g);
    }
  }

  /** As long as WaitAll lacks a permit, a task can be outstanding. */
  lemma MoreTasks(g: Group) returns (steps: seq<Step>)
    requires Inv(g) && g.taken < g.batchSize
    ensures AllowedRun(g, steps) && Run(g, steps).outstanding > 0
  {
    if g.outstanding > 0 {
      steps := [];
    } else if g.granted != {} {
      var id :| id in g.granted;
      steps := [Start(id)];
      assert AllowedRun(Apply(g, Start(id)), []);
    } else {
      var g1 := Apply(g, Submit(0));
      assert g1.granted == {0};
      steps := [Submit(0), Start(0)];
      assert steps[1..] == [Start(0)];
      assert AllowedRun(Apply(g1, Start(0)), []);
      assert AllowedRun(g1, [Start(0)]) && Run(g1, [Start(0)]).outstanding > 0;
    }
  }

  /** For example two permits: WaitAll has one of them and waits for a task to give back the other, and a
      second call returns while that task is outstanding. */
  lemma SecondWaitAllExample(g: Group)
    requires g == Run(Create(2), [Submit(0), Start(0), Close, Acquire])
    ensures AllowedRun(Create(2), [Submit(0), Start(0), Close, Acquire])
    ensures g.isFinish && g.taken == 1 && g.outstanding == 1 && Apply(g, Close) == g
  {
    var g0 := Create(2);
    var g1 := Apply(g0, Submit(0));
    var g2 := Apply(g1, Start(0));
    var g3 := Apply(g2, Close);
    var g4 := Apply(g3, Acquire);
    assert g1.granted == {0} && g2.granted == {};
    assert AllowedRun(g4, []) && AllowedRun(g3, [Acquire]) && Run(g3, [Acquire]) == g4;
    assert [Close, Acquire][1..] == [Acquire] && [Start(0), Close, Acquire][1..] == [Close, Acquire];
    assert AllowedRun(g2, [Close, Acquire]) && Run(g2, [Close, Acquire]) == g4;
    assert AllowedRun(g1, [Start(0), Close, Acquire]) && Run(g1, [Start(0), Close, Acquire]) == g4;
    assert [Submit(0), Start(0), Close, Acquire][1..] == [Start(0), Close, Acquire];
  }

  /** Whoever waits is waited for by someone who can act: as long as WaitAll has not taken every
      permit, some submitter can start its task or some task can finish. */
  lemma Progress(g: Group) returns (step: Step)
    requires Inv(g) && g.sem.queue != [] && g.taken < g.batchSize
    ensures Allowed(g, step) && (step.Start? || step.Finish?)
  {
    if g.granted != {} {
      var id :| id in g.granted;
      step := Start(id);
    } else {
      step := Finish;
    }
  }

  // ---------------------------------------------------------------------------------------
  // First in, first out
  // ---------------------------------------------------------------------------------------

  function Arrivals(g: Group, step: Step): seq<Client> {
    match step
    case Submit(id) => [Submitter(id)]
    case Acquire => [Closer]
    case _ => []
  }

  function Grants(g: Group, step: Step): seq<Client> {
    match step
    case Submit(id) => WaitGrants(g.sem, Submitter(id))
    case Finish => PostGrants(g.sem)
    case Acquire => WaitGrants(g.sem, Closer)
    case _ => []
  }

  function AllArrivals(g: Group, steps: seq<Step>): seq<Client>
    decreases |steps|
  {
    if steps == [] then [] else Arrivals(g, steps[0]) + AllArrivals(Apply(g, steps[0]), steps[1..])
  }

  function AllGrants(g: Group, steps: seq<Step>): seq<Client>
    decreases |steps|
  {
    if steps == [] then [] else Grants(g, steps[0]) + AllGrants(Apply(g, steps[0]), steps[1..])
  }

  lemma StepIsFifo(g: Group, step: Step)
    requires Inv(g) && Allowed(g, step)
    ensures Grants(g, step) + Apply(g, step).sem.queue == g.sem.queue + Arrivals(g, step)
  {
  }

  /** Permits are passed on in the order in which they were asked for, over any run. */
  lemma {:induction false} RunIsFifo(g: Group, steps: seq<Step>)
    requires Inv(g) && AllowedRun(g, steps)
    ensures AllGrants(g, steps) + Run(g, steps).sem.queue == g.sem.queue + AllArrivals(g, steps)
    decreases |steps|
  {
    hide Apply, Grants, Arrivals, Inv;
    if steps != [] {
      var g' := Apply(g, steps[0]);
      StepIsFifo(g, steps[0]);
      StepKeepsInv(g, steps[0]);
      RunIsFifo(g', steps[1..]);
      ChainQueues(Grants(g, steps[0]), AllGrants(g', steps[1..]), g.sem.queue, g'.sem.queue, Run(g, steps).sem.queue,
                  Arrivals(g, steps[0]), AllArrivals(g', steps[1..]));
    }
  }

  /** A group with a batch size of zero never grants a permit: whoever submits a task waits for ever. */
  lemma ZeroStarves(steps: seq<Step>)
    requires AllowedRun(Create(0), steps)
    ensures AllGrants(Create(0), steps) == []
    ensures Run(Create(0), steps).sem.queue == AllArrivals(Create(0), steps)
  {
    CreateInv(0);
    ZeroGrants(Create(0), steps);
    RunIsFifo(Create(0), steps);
    var queue, came := Run(Create(0), steps).sem.queue, AllArrivals(Create(0), steps);
    assert queue == [] + queue && came == [] + came;
  }

  lemma {:induction false} ZeroGrants(g: Group, steps: seq<Step>)
    requires Inv(g) && g.batchSize == 0 && AllowedRun(g, steps)
    ensures AllGrants(g, steps) == []
    decreases |steps|
  {
    if steps != [] {
      StepKeepsInv(g, steps[0]);
      ZeroGrants(Apply(g, steps[0]), steps[1..]);
    }
  }

  // ---------------------------------------------------------------------------------------
  // The objects
  // ---------------------------------------------------------------------------------------

  class FiberSemphore {
    var concurrency: nat
    var waitQueue: seq<Client>

    constructor (initial: nat)
      ensures Value() == Sem(initial, [])
    {
      concurrency, waitQueue := initial, [];
    }

    function Value(): Sem
      reads this
    {
      Sem(concurrency, waitQueue)
    }

    method TryWait() returns (got: bool)
      modifies this
      ensures got <==> old(concurrency) > 0
      ensures Value() == if got then Sem(old(concurrency) - 1, old(waitQueue)) else old(Value())
    {
      if concurrency > 0 {
        concurrency := concurrency - 1;
        return true;
      }
      got := false;
    }

    /** Returns whether the caller has its permit or has to suspend. */
    method Wait(c: Client) returns (got: bool)
      modifies this
      ensures Value() == SemWait(old(Value()), c)
      ensures WaitGrants(old(Value()), c) == if got then [c] else []
    {
      if concurrency > 0 {
        concurrency := concurrency - 1;
        return true;
      }
      waitQueue := waitQueue + [c];
      got := false;
    }

    /** Returns the client to schedule, if one gets the permit. */
    method Post() returns (scheduled: seq<Client>)
      modifies this
      ensures Value() == SemPost(old(Value())) && scheduled == PostGrants(old(Value()))
    {
      if waitQueue != [] {
        scheduled := [waitQueue[0]];
        waitQueue := waitQueue[1..];
      } else {
        concurrency := concurrency + 1;
        scheduled := [];
      }
    }
  }

  class WorkerGroup {
    const batchSize: nat
    const sem: FiberSemphore
    var isFinish: bool
    var outstanding: nat
    /** Progress of the fibers inside Schedule and WaitAll. */
    ghost var granted: set<nat>
    ghost var closerWaits: bool
    var taken: nat

    constructor (batchSize: nat)
      ensures fresh(sem) && State() == Create(batchSize)
    {
      this.batchSize := batchSize;
      sem := new FiberSemphore(batchSize);
      isFinish, outstanding, granted, closerWaits, taken := false, 0, {}, false, 0;
    }

    ghost function State(): Group
      reads this, sem
    {
      Group(batchSize, sem.Value(), granted, outstanding, isFinish, closerWaits, taken)
    }

    ghost method Record(cs: seq<Client>)
      modifies this`granted, this`closerWaits
      ensures granted == if cs != [] && cs[0].Submitter? then old(granted) + {cs[0].id} else old(granted)
      ensures closerWaits == (old(closerWaits) && !(cs != [] && cs[0].Closer?))
    {
      if cs != [] {
        match cs[0]
        case Submitter(id) => granted := granted + {id};
        case Closer => closerWaits := false;
      }
    }

    /** Schedule(cb) up to the point where the caller has a permit or suspends. */
    method Submit(id: nat) returns (got: bool)
      requires Inv(State()) && Allowed(State(), Step.Submit(id))
      modifies this, sem
      ensures State() == Apply(old(State()), Step.Submit(id)) && Inv(State())
      ensures got <==> id in granted
    {
      StepKeepsInv(State(), Step.Submit(id));
      got := sem.Wait(Submitter(id));
      if got {
        Record([Submitter(id)]);
      }
    }

    /** The rest of Schedule(cb): the task goes to the scheduler. */
    method Start(id: nat)
      requires Inv(State()) && Allowed(State(), Step.Start(id))
      modifies this
      ensures State() == Apply(old(State()), Step.Start(id)) && Inv(State())
    {
      StepKeepsInv(State(), Step.Start(id));
      granted := granted - {id};
      outstanding := outstanding + 1;
    }

    /** doWork after the task has run. */
    method DoWorkEnds() returns (scheduled: seq<Client>)
      requires Inv(State()) && Allowed(State(), Finish)
      modifies this, sem
      ensures State() == Apply(old(State()), Finish) && Inv(State())
      ensures scheduled == Grants(old(State()), Finish)
    {
      StepKeepsInv(State(), Finish);
      outstanding := outstanding - 1;
      scheduled := sem.Post();
      Record(scheduled);
      if scheduled != [] && scheduled[0].Closer? {
        taken := taken + 1;
      }
    }

    /** WaitAll is entered; a second call returns at once. */
    method WaitAllBegins() returns (goesOn: bool)
      requires Inv(State())
      modifies this
      ensures State() == Apply(old(State()), Close) && Inv(State()) && (goesOn <==> !old(isFinish))
    {
      StepKeepsInv(State(), Close);
      goesOn := !isFinish;
      isFinish := true;
    }

    /** One round of the loop of WaitAll. */
    method WaitAllRound() returns (got: bool)
      requires Inv(State()) && Allowed(State(), Acquire)
      modifies this, sem
      ensures State() == Apply(old(State()), Acquire) && Inv(State())
      ensures got <==> taken == old(taken) + 1
    {
      StepKeepsInv(State(), Acquire);
      got := sem.Wait(Closer);
      if got {
        taken := taken + 1;
      } else {
        closerWaits := true;
      }
    }
  }
}
