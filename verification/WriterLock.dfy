/**
 The writer-preferring read-write lock: a monitor with two condition variables. Threads step in any
 order; each step is what one thread does while it holds the monitor, from entering it (or waking up
 inside it) to leaving it or waiting. Wake-ups may be spurious, and notify_one may wake any waiter.
 */
module WriterLock {
  type Thread = nat

  /** The fields of the lock. */
  datatype Fields = Fields(activeReader: int, activeWriter: bool, waitWriter: int)

  /** The fields together with where every thread is. A thread is idle (in none of the sets),
      holds the lock, is blocked on a condition variable, or has been woken and is about to test
      its loop condition again. */
  datatype State = State(
    fields: Fields,
    reading: set<Thread>, writing: set<Thread>,
    readBlocked: set<Thread>, readWoken: set<Thread>,
    writeBlocked: set<Thread>, writeWoken: set<Thread>)

  datatype Step =
    | WrLock(t: Thread)
    | WrRetest(t: Thread)
    | RdLock(t: Thread)
    | RdRetest(t: Thread)
    | WrUnlock(t: Thread, woken: Thread)  // woken: whom notify_one wakes, if anyone waits
    | RdUnlock(t: Thread, woken: Thread)
    | Spurious(t: Thread)

  // ---------------------------------------------------------------------------------------
  // The source's tests and assignments
  // ---------------------------------------------------------------------------------------

  predicate WriterMustWait(m: Fields) {
    m.activeReader != 0 || m.activeWriter
  }

  predicate ReaderMustWait(m: Fields) {
    m.activeWriter || m.waitWriter != 0
  }

  datatype Notify = NotifyOneWriter | NotifyAllReaders

  function AfterWrUnlock(m: Fields): (Fields, Notify) {
    (m.(activeWriter := false), if m.waitWriter != 0 then NotifyOneWriter else NotifyAllReaders)
  }

  function AfterRdUnlock(m: Fields): (Fields, Notify) {
    (m.(activeReader := m.activeReader - 1),
     if m.waitWriter != 0 && m.activeReader - 1 == 0 then NotifyOneWriter else NotifyAllReaders)
  }

  // ---------------------------------------------------------------------------------------
  // Steps
  // ---------------------------------------------------------------------------------------

  function Busy(s: State): set<Thread> {
    s.reading + s.writing + s.readBlocked + s.readWoken + s.writeBlocked + s.writeWoken
  }

  predicate Allowed(s: State, step: Step) {
    match step
    case WrLock(t) => t !in Busy(s)
    case WrRetest(t) => t in s.writeWoken
    case RdLock(t) => t !in Busy(s)
    case RdRetest(t) => t in s.readWoken
    case WrUnlock(t, w) => t in s.writing && (s.writeBlocked != {} ==> w in s.writeBlocked)
    case RdUnlock(t, w) => t in s.reading && (s.writeBlocked != {} ==> w in s.writeBlocked)
    case Spurious(t) => t in s.readBlocked || t in s.writeBlocked
  }

  /** wrlock() from its loop test on; the thread is counted in waitWriter. */
  function WriterTests(s: State, t: Thread): State {
    if WriterMustWait(s.fields) then s.(writeBlocked := s.writeBlocked + {t})
    else s.(fields := s.fields.(activeWriter := true, waitWriter := s.fields.waitWriter - 1),
            writing := s.writing + {t})
  }

  /** rdlock() from its loop test on. */
  function ReaderTests(s: State, t: Thread): State {
    if ReaderMustWait(s.fields) then s.(readBlocked := s.readBlocked + {t})
    else s.(fields := s.fields.(activeReader := s.fields.activeReader + 1), reading := s.reading + {t})
  }

  function Wake(s: State, n: Notify, woken: Thread): State {
    match n
    case NotifyOneWriter =>
      if s.writeBlocked == {} then s
      else s.(writeBlocked := s.writeBlocked - {woken}, writeWoken := s.writeWoken + {woken})
    case NotifyAllReaders => s.(readBlocked := {}, readWoken := s.readWoken + s.readBlocked)
  }

  function Apply(s: State, step: Step): State {
    match step
    case WrLock(t) => WriterTests(s.(fields := s.fields.(waitWriter := s.fields.waitWriter + 1)), t)
    case WrRetest(t) => WriterTests(s.(writeWoken := s.writeWoken - {t}), t)
    case RdLock(t) => ReaderTests(s, t)
    case RdRetest(t) => ReaderTests(s.(readWoken := s.readWoken - {t}), t)
    case WrUnlock(t, w) =>
      var (m, n) := AfterWrUnlock(s.fields);
      Wake(s.(fields := m, writing := s.writing - {t}), n, w)
    case RdUnlock(t, w) =>
      var (m, n) := AfterRdUnlock(s.fields);
      Wake(s.(fields := m, reading := s.reading - {t}), n, w)
    case Spurious(t) =>
      if t in s.readBlocked then s.(readBlocked := s.readBlocked - {t}, readWoken := s.readWoken + {t})
      else s.(writeBlocked := s.writeBlocked - {t}, writeWoken := s.writeWoken + {t})
  }

  // ---------------------------------------------------------------------------------------
  // The invariant
  // ---------------------------------------------------------------------------------------

  ghost predicate OnePlaceEach(s: State) {
    && s.reading !! s.writing !! s.readBlocked !! s.readWoken !! s.writeBlocked !! s.writeWoken
  }

  /** The counters are the numbers of threads in each role. */
  ghost predicate CountersRight(s: State) {
    && s.fields.activeReader == |s.reading|
    && s.fields.waitWriter == |s.writeBlocked| + |s.writeWoken|
    && (s.fields.activeWriter <==> s.writing != {})
  }

  /** Never two writers, never a writer together with a reader. */
  ghost predicate Exclusive(s: State) {
    |s.writing| <= 1 && (s.writing == {} || s.reading == {})
  }

  ghost predicate Free(s: State) {
    s.reading == {} && s.writing == {}
  }

  /** When the lock is free and a writer is blocked, a writer is awake and about to test. A reader
      is blocked only while a writer holds the lock or waits for it. */
  ghost predicate WakeupsKept(s: State) {
    && (Free(s) && s.writeBlocked != {} ==> s.writeWoken != {})
    && (s.readBlocked != {} ==> s.writing != {} || s.writeBlocked != {} || s.writeWoken != {})
  }

  ghost predicate Inv(s: State) {
    OnePlaceEach(s) && CountersRight(s) && Exclusive(s) && WakeupsKept(s)
  }

  const INITIAL := State(Fields(0, false, 0), {}, {}, {}, {}, {}, {})

  lemma InitialInv()
    ensures Inv(INITIAL)
  {
  }

  lemma Added(a: set<Thread>, t: Thread)
    requires t !in a
    ensures |a + {t}| == |a| + 1
  {
  }

  lemma Removed(a: set<Thread>, t: Thread)
    requires t in a
    ensures |a - {t}| == |a| - 1
  {
  }

  lemma Nonempty(a: set<Thread>)
    ensures |a| == 0 <==> a == {}
  {
  }

  lemma WriterTestsKeeps(s: State, t: Thread)
    requires OnePlaceEach(s) && Exclusive(s) && t !in Busy(s)
    requires s.fields.activeReader == |s.reading| && (s.fields.activeWriter <==> s.writing != {})
    requires s.fields.waitWriter == |s.writeBlocked| + |s.writeWoken| + 1
    ensures Inv(WriterTests(s, t))
  {
    Added(s.writeBlocked, t);
    Added(s.writing, t);
    Nonempty(s.reading);
  }

  lemma ReaderTestsKeeps(s: State, t: Thread)
    requires Inv(s) && t !in Busy(s)
    ensures Inv(ReaderTests(s, t))
  {
    Added(s.reading, t);
    Nonempty(s.writeBlocked);
    Nonempty(s.writeWoken);
  }

  lemma WrUnlockKeeps(s: State, t: Thread, w: Thread)
    requires Inv(s) && Allowed(s, WrUnlock(t, w))
    ensures Inv(Apply(s, WrUnlock(t, w)))
  {
    Removed(s.writing, t);
    Nonempty(s.writing - {t});
    UnlockWakes(s.(fields := AfterWrUnlock(s.fields).0, writing := s.writing - {t}), AfterWrUnlock(s.fields).1, w);
  }

  lemma RdUnlockKeeps(s: State, t: Thread, w: Thread)
    requires Inv(s) && Allowed(s, RdUnlock(t, w))
    ensures Inv(Apply(s, RdUnlock(t, w)))
  {
    Removed(s.reading, t);
    Nonempty(s.reading - {t});
    UnlockWakes(s.(fields := AfterRdUnlock(s.fields).0, reading := s.reading - {t}), AfterRdUnlock(s.fields).1, w);
  }

  function WakeWriter(s: State, t: Thread): State {
    s.(writeBlocked := s.writeBlocked - {t}, writeWoken := s.writeWoken + {t})
  }

  lemma WakeWriterKeeps(s: State, t: Thread)
    requires OnePlaceEach(s) && CountersRight(s) && t in s.writeBlocked
    ensures OnePlaceEach(WakeWriter(s, t)) && CountersRight(WakeWriter(s, t))
  {
    assert t !in s.writeWoken;
    Removed(s.writeBlocked, t);
    Added(s.writeWoken, t);
  }

  lemma UnlockWakes(s: State, n: Notify, w: Thread)
    requires OnePlaceEach(s) && CountersRight(s) && Exclusive(s) && (s.writeBlocked != {} ==> w in s.writeBlocked)
    requires n.NotifyAllReaders? ==> s.fields.waitWriter == 0 || !Free(s)
    requires n.NotifyOneWriter? ==> s.fields.waitWriter != 0
    ensures Inv(Wake(s, n, w))
  {
    Nonempty(s.writeBlocked);
    Nonempty(s.writeWoken);
    if n.NotifyOneWriter? && s.writeBlocked != {} {
      assert Wake(s, n, w) == WakeWriter(s, w);
      WakeWriterKeeps(s, w);
    }
  }

  lemma SpuriousReader(s: State, t: Thread)
    requires Inv(s) && t in s.readBlocked
    ensures Inv(s.(readBlocked := s.readBlocked - {t}, readWoken := s.readWoken + {t}))
  {
  }

  lemma SpuriousWriter(s: State, t: Thread)
    requires Inv(s) && t in s.writeBlocked
    ensures Inv(WakeWriter(s, t))
  {
    hide OnePlaceEach, CountersRight;
    WakeWriterKeeps(s, t);
  }

  lemma SpuriousKeeps(s: State, t: Thread)
    requires Inv(s) && Allowed(s, Spurious(t))
    ensures Inv(Apply(s, Spurious(t)))
  {
    hide Inv;
    if t in s.readBlocked {
      SpuriousReader(s, t);
    } else {
      SpuriousWriter(s, t);
    }
  }

  /** Safety over all interleavings with spurious wake-ups. */
  lemma StepKeepsInv(s: State, step: Step)
    requires Inv(s) && Allowed(s, step)
    ensures Inv(Apply(s, step))
  {
    match step
    case WrLock(t) => WriterTestsKeeps(s.(fields := s.fields.(waitWriter := s.fields.waitWriter + 1)), t);
    case WrRetest(t) =>
      Removed(s.writeWoken, t);
      WriterTestsKeeps(s.(writeWoken := s.writeWoken - {t}), t);
    case RdLock(t) => ReaderTestsKeeps(s, t);
    case RdRetest(t) => ReaderTestsKeeps(s.(readWoken := s.readWoken - {t}), t);
    case WrUnlock(t, w) => WrUnlockKeeps(s, t, w);
    case RdUnlock(t, w) => RdUnlockKeeps(s, t, w);
    case Spurious(t) => SpuriousKeeps(s, t);
  }

  lemma UnlockFields(s: State, t: Thread, w: Thread)
    requires Inv(s)
    ensures Allowed(s, WrUnlock(t, w)) ==>
              && Apply(s, WrUnlock(t, w)).fields == AfterWrUnlock(s.fields).0
              && AfterWrUnlock(s.fields).1.NotifyOneWriter? == (s.writeBlocked + s.writeWoken != {})
    ensures Allowed(s, RdUnlock(t, w)) ==>
              && Apply(s, RdUnlock(t, w)).fields == AfterRdUnlock(s.fields).0
              && AfterRdUnlock(s.fields).1.NotifyOneWriter? == (s.writeBlocked + s.writeWoken != {} && s.reading == {t})
  {
    Nonempty(s.writeBlocked);
    Nonempty(s.writeWoken);
    if t in s.reading {
      Removed(s.reading, t);
      Nonempty(s.reading - {t});
    }
  }

  ghost predicate AllowedRun(s: State, steps: seq<Step>)
    decreases |steps|
  {
    steps == [] || (Allowed(s, steps[0]) && AllowedRun(Apply(s, steps[0]), steps[1..]))
  }

  function Run(s: State, steps: seq<Step>): State
    decreases |steps|
  {
    if steps == [] then s else Run(Apply(s, steps[0]), steps[1..])
  }

  // ---------------------------------------------------------------------------------------
  // What the lock promises
  // ---------------------------------------------------------------------------------------

  /** The threads between their call of wrlock() and their call of wrUnlock(), and likewise readers. */
  function Writers(s: State): set<Thread> {
    s.writing + s.writeBlocked + s.writeWoken
  }

  function Readers(s: State): set<Thread> {
    s.reading + s.readBlocked + s.readWoken
  }

  /** Nobody is lost: exactly the caller of wrlock() joins the writers, exactly the caller of wrUnlock()
      leaves them, likewise for readers, and nobody is ever both. */
  lemma StepKeepsThreads(s: State, step: Step)
    requires Inv(s) && Allowed(s, step)
    ensures Writers(Apply(s, step)) == if step.WrLock? then Writers(s) + {step.t}
                                       else if step.WrUnlock? then Writers(s) - {step.t}
                                       else Writers(s)
    ensures Readers(Apply(s, step)) == if step.RdLock? then Readers(s) + {step.t}
                                       else if step.RdUnlock? then Readers(s) - {step.t}
                                       else Readers(s)
    ensures Writers(s) !! Readers(s)
  {
    hide CountersRight, Exclusive, WakeupsKept, WriterMustWait, ReaderMustWait, WriterTests, ReaderTests, Wake,
      AfterWrUnlock, AfterRdUnlock;
    match step
    case WrLock(t) => WriterTestsIn(s.(fields := s.fields.(waitWriter := s.fields.waitWriter + 1)), t);
    case WrRetest(t) => WriterTestsIn(s.(writeWoken := s.writeWoken - {t}), t);
    case RdLock(t) => ReaderTestsIn(s, t);
    case RdRetest(t) => ReaderTestsIn(s.(readWoken := s.readWoken - {t}), t);
    case WrUnlock(t, w) =>
      var (m, n) := AfterWrUnlock(s.fields);
      WakeKeeps(s.(fields := m, writing := s.writing - {t}), n, w);
    case RdUnlock(t, w) =>
      var (m, n) := AfterRdUnlock(s.fields);
      WakeKeeps(s.(fields := m, reading := s.reading - {t}), n, w);
    case Spurious(t) =>
  }

  lemma WriterTestsIn(s: State, t: Thread)
    ensures Writers(WriterTests(s, t)) == Writers(s) + {t} && Readers(WriterTests(s, t)) == Readers(s)
  {
  }

  lemma ReaderTestsIn(s: State, t: Thread)
    ensures Readers(ReaderTests(s, t)) == Readers(s) + {t} && Writers(ReaderTests(s, t)) == Writers(s)
  {
  }

  /** Being notified moves threads, and nobody else. */
  lemma WakeKeeps(s: State, n: Notify, w: Thread)
    requires s.writeBlocked != {} ==> w in s.writeBlocked
    ensures Writers(Wake(s, n, w)) == Writers(s) && Readers(Wake(s, n, w)) == Readers(s)
  {
  }

  /** What the callers of a run did: the calls of a kind by thread t. */
  function Calls(steps: seq<Step>, call: Step -> bool): nat {
    if steps == [] then 0 else (if call(steps[0]) then 1 else 0) + Calls(steps[1..], call)
  }

  /** Over whole runs a thread is inside exactly if its calls of the lock exceed those of the unlock. */
  lemma {:induction false} RunKeepsThreads(s: State, steps: seq<Step>, t: Thread)
    requires Inv(s) && AllowedRun(s, steps)
    ensures (if t in Writers(Run(s, steps)) then 1 else 0) + Calls(steps, (c: Step) => c.WrUnlock? && c.t == t)
         == (if t in Writers(s) then 1 else 0) + Calls(steps, (c: Step) => c.WrLock? && c.t == t)
    ensures (if t in Readers(Run(s, steps)) then 1 else 0) + Calls(steps, (c: Step) => c.RdUnlock? && c.t == t)
         == (if t in Readers(s) then 1 else 0) + Calls(steps, (c: Step) => c.RdLock? && c.t == t)
    decreases |steps|
  {
    hide Inv, Apply;
    if steps != [] {
      StepKeepsThreads(s, steps[0]);
      CallersInside(s, steps[0]);
      StepKeepsInv(s, steps[0]);
      RunKeepsThreads(Apply(s, steps[0]), steps[1..], t);
    }
  }

  lemma CallersInside(s: State, step: Step)
    requires Allowed(s, step)
    ensures step.WrLock? || step.RdLock? ==> step.t !in Writers(s) && step.t !in Readers(s)
    ensures step.WrUnlock? ==> step.t in Writers(s)
    ensures step.RdUnlock? ==> step.t in Readers(s)
  {
  }

  /** Who gets in: a writer exactly if nobody holds the lock, a reader exactly if no writer is inside;
      whoever does not is blocked on its own condition variable. */
  lemma EntersExactly(s: State, step: Step)
    requires Inv(s) && Allowed(s, step)
    ensures step.WrLock? || step.WrRetest? ==>
              if Free(s) then step.t in Apply(s, step).writing else step.t in Apply(s, step).writeBlocked
    ensures step.RdLock? || step.RdRetest? ==>
              if Writers(s) == {} then step.t in Apply(s, step).reading else step.t in Apply(s, step).readBlocked
  {
    hide Inv, Free, Writers;
    TestsMean(s);
  }

  /** What the loop tests on the counters mean. */
  lemma TestsMean(s: State)
    requires Inv(s)
    ensures WriterMustWait(s.fields) <==> !Free(s)
    ensures ReaderMustWait(s.fields) <==> Writers(s) != {}
  {
    Nonempty(s.reading);
    Nonempty(s.writeBlocked);
    Nonempty(s.writeWoken);
  }

  /** Who is woken by an unlock: if it leaves the lock free and a writer waits, the one writer that
      notify_one picks, and no reader; otherwise all blocked readers, and no writer. */
  lemma UnlockNotifies(s: State, step: Step)
    requires Inv(s) && Allowed(s, step)
    ensures step.WrUnlock? || step.RdUnlock? ==>
              var s' := Apply(s, step); var one := if s.writeBlocked == {} then {} else {step.woken};
              if Free(s') && s.writeBlocked + s.writeWoken != {} then
                && s'.writeBlocked == s.writeBlocked - one && s'.writeWoken == s.writeWoken + one
                && s'.readBlocked == s.readBlocked && s'.readWoken == s.readWoken
              else
                && s'.readBlocked == {} && s'.readWoken == s.readWoken + s.readBlocked
                && s'.writeBlocked == s.writeBlocked && s'.writeWoken == s.writeWoken
  {
    hide OnePlaceEach, CountersRight, WakeupsKept, AfterWrUnlock, AfterRdUnlock;
    if step.WrUnlock? || step.RdUnlock? {
      UnlockFields(s, step.t, step.woken);
      HolderAlone(s, step.t);
    }
  }

  lemma HolderAlone(s: State, t: Thread)
    requires Inv(s)
    ensures t in s.writing ==> s.writing == {t} && s.reading == {}
    ensures t in s.reading ==> s.writing == {} && (s.reading - {t} == {} <==> s.reading == {t})
  {
    if t in s.writing {
      Removed(s.writing, t);
      Nonempty(s.writing - {t});
    }
  }

  /** After an unlock that leaves the lock free with no writer inside every reader that was blocked is
      awake, and all of them get in, in whatever order they test. */
  lemma ReadersReleased(s: State, step: Step, order: seq<Thread>)
    requires Inv(s) && Allowed(s, step) && (step.WrUnlock? || step.RdUnlock?)
    requires Free(Apply(s, step)) && Writers(Apply(s, step)) == {}
    requires (forall t | t in s.readBlocked :: t in order) && forall t | t in order :: t in Apply(s, step).readWoken
    requires forall i, j | 0 <= i < j < |order| :: order[i] != order[j]
    ensures AllowedRun(Apply(s, step), Retests(order))
    ensures forall t | t in s.readBlocked :: t in Run(Apply(s, step), Retests(order)).reading
  {
    StepKeepsInv(s, step);
    RetestsEnter(Apply(s, step), order);
  }

  function Retests(order: seq<Thread>): seq<Step> {
    if order == [] then [] else [RdRetest(order[0])] + Retests(order[1..])
  }

  lemma {:induction false} RetestsEnter(s: State, order: seq<Thread>)
    requires Inv(s) && Writers(s) == {} && forall t | t in order :: t in s.readWoken
    requires forall i, j | 0 <= i < j < |order| :: order[i] != order[j]
    ensures AllowedRun(s, Retests(order))
    ensures forall t | t in order || t in s.reading :: t in Run(s, Retests(order)).reading
    decreases |order|
  {
    hide Inv, Apply;
    if order != [] {
      var t, s' := order[0], Apply(s, RdRetest(order[0]));
      StepKeepsInv(s, RdRetest(t));
      RetestEnters(s, t);
      assert Retests(order)[1..] == Retests(order[1..]);
      RetestsEnter(s', order[1..]);
    }
  }

  lemma RetestEnters(s: State, t: Thread)
    requires Inv(s) && Writers(s) == {} && t in s.readWoken
    ensures var s' := Apply(s, RdRetest(t));
            Writers(s') == {} && s'.reading == s.reading + {t} && s'.readWoken == s.readWoken - {t}
  {
    EntersExactly(s, RdRetest(t));
  }

  /** A reader enters only at its own loop test, when no writer holds the lock or waits for it. */
  lemma ReadersEnterBehindWriters(s: State, step: Step, t: Thread)
    requires Inv(s) && Allowed(s, step)
    requires t !in s.reading && t in Apply(s, step).reading
    ensures step == RdLock(t) || step == RdRetest(t)
    ensures s.writing == {} && s.writeBlocked == {} && s.writeWoken == {}
  {
    Nonempty(s.writeBlocked);
    Nonempty(s.writeWoken);
  }

  /** No wake-up is lost: if nobody holds the lock and some thread is blocked, then some thread has
      been woken and its next test succeeds. It is a writer if any writer waits. */
  lemma NoLostWakeup(s: State) returns (step: Step)
    requires Inv(s) && Free(s) && (s.readBlocked != {} || s.writeBlocked != {})
    ensures Allowed(s, step) && step.WrRetest?
    ensures Apply(s, step).writing == {step.t}
  {
    assert s.writeWoken != {};
    var t :| t in s.writeWoken;
    step := WrRetest(t);
  }

  /** When the lock is free and some thread is inside wrlock() or rdlock(), one of them can get in at
      once: the lock never stands idle. */
  lemma NeverStuck(s: State) returns (step: Step)
    requires Inv(s) && Free(s) && Busy(s) != {}
    ensures Allowed(s, step) && (step.WrRetest? || step.RdRetest?) && !Free(Apply(s, step))
  {
    if s.writeWoken != {} {
      var t :| t in s.writeWoken;
      step := WrRetest(t);
      assert t in Apply(s, step).writing;
    } else {
      assert s.writeBlocked == {} && s.readBlocked == {};
      Nonempty(s.writeWoken);
      var t :| t in s.readWoken;
      step := RdRetest(t);
      assert t in Apply(s, step).reading;
    }
  }

  lemma {:induction false} RunKeepsInv(s: State, steps: seq<Step>)
    requires Inv(s) && AllowedRun(s, steps)
    ensures Inv(Run(s, steps))
    decreases |steps|
  {
    hide Inv, Apply, Allowed;
    if steps != [] {
      StepKeepsInv(s, steps[0]);
      RunKeepsInv(Apply(s, steps[0]), steps[1..]);
    }
  }

  /** In every run of a new lock: never two writers, never a writer together with a reader, the counters
      are the threads in each role, and a blocked thread has somebody to wait for. */
  lemma SafeFromTheStart(steps: seq<Step>)
    requires AllowedRun(INITIAL, steps)
    ensures var s := Run(INITIAL, steps);
            && |s.writing| <= 1 && (s.writing == {} || s.reading == {})
            && s.fields.activeReader == |s.reading| && (s.fields.activeWriter <==> s.writing != {})
            && s.fields.waitWriter == |s.writeBlocked| + |s.writeWoken|
            && (s.readBlocked != {} || s.writeBlocked != {} ==> !Free(s) || s.writeWoken != {})
  {
    InitialInv();
    RunKeepsInv(INITIAL, steps);
  }

  /** A writer starts to hold the lock somewhere in the run. */
  ghost predicate WriterEnters(s: State, steps: seq<Step>)
    decreases |steps|
  {
    steps != [] &&
    ((exists t :: t !in s.writing && t in Apply(s, steps[0]).writing) || WriterEnters(Apply(s, steps[0]), steps[1..]))
  }

  lemma WaitersStay(s: State, step: Step)
    requires Inv(s) && Allowed(s, step) && s.fields.waitWriter > 0
    requires forall t :: t in Apply(s, step).writing ==> t in s.writing
    ensures Apply(s, step).fields.waitWriter >= s.fields.waitWriter && Apply(s, step).reading <= s.reading
  {
    hide Inv;
    if step.WrRetest? {
      WokenNotWriting(s, step.t);
      assert !WriterMustWait(s.fields) ==> step.t in Apply(s, step).writing;
    }
  }

  lemma WokenNotWriting(s: State, t: Thread)
    requires Inv(s) && t in s.writeWoken
    ensures t !in s.writing
  {
  }

  /** Writer preference over whole runs: from the moment a writer waits until some writer gets the
      lock, no reader joins those that hold it, and no waiting writer gives up. */
  lemma {:induction false} WritersPreferred(s: State, steps: seq<Step>)
    requires Inv(s) && AllowedRun(s, steps) && s.fields.waitWriter > 0 && !WriterEnters(s, steps)
    ensures Inv(Run(s, steps))
    ensures Run(s, steps).reading <= s.reading && Run(s, steps).fields.waitWriter >= s.fields.waitWriter
    decreases |steps|
  {
    if steps != [] {
      StepKeepsInv(s, steps[0]);
      WaitersStay(s, steps[0]);
      WritersPreferred(Apply(s, steps[0]), steps[1..]);
    }
  }

  // ---------------------------------------------------------------------------------------
  // The object
  // ---------------------------------------------------------------------------------------

  lemma WrLockFields(s: State, t: Thread)
    requires Inv(s) && Allowed(s, WrLock(t))
    ensures var wait := WriterMustWait(s.fields); var s' := Apply(s, WrLock(t));
            && s'.fields == s.fields.(activeWriter := s.fields.activeWriter || !wait,
                                      waitWriter := s.fields.waitWriter + if wait then 1 else 0)
            && (t in s'.writing <==> !wait)
  {
  }

  /** Each method is one critical section; a method that returns false has called wait on its
      condition variable and is continued by the corresponding Again method. */
  class WPRWMutex {
    var activeReader: int
    var activeWriter: bool
    var waitWriter: int

    constructor ()
      ensures Value() == INITIAL.fields
    {
      activeReader, activeWriter, waitWriter := 0, false, 0;
    }

    function Value(): Fields
      reads this
    {
      Fields(activeReader, activeWriter, waitWriter)
    }

    method WrLock(t: Thread, ghost s: State) returns (acquired: bool)
      requires Inv(s) && Allowed(s, Step.WrLock(t)) && Value() == s.fields
      modifies this
      ensures var s' := Apply(s, Step.WrLock(t)); Inv(s') && Value() == s'.fields && (acquired <==> t in s'.writing)
    {
      hide Apply, Inv;
      StepKeepsInv(s, Step.WrLock(t));
      WrLockFields(s, t);
      waitWriter := waitWriter + 1;
      acquired := WrTest();
    }

    method WrLockAgain(t: Thread, ghost s: State) returns (acquired: bool)
      requires Inv(s) && Allowed(s, WrRetest(t)) && Value() == s.fields
      modifies this
      ensures var s' := Apply(s, WrRetest(t)); Inv(s') && Value() == s'.fields && (acquired <==> t in s'.writing)
    {
      StepKeepsInv(s, WrRetest(t));
      acquired := WrTest();
    }

    /** The loop test of wrlock() and what follows the loop. */
    method WrTest() returns (acquired: bool)
      modifies this
      ensures acquired <==> !WriterMustWait(old(Value()))
      ensures Value() == if acquired then old(Value()).(activeWriter := true, waitWriter := old(waitWriter) - 1)
                         else old(Value())
    {
      if activeReader != 0 || activeWriter {
        return false;
      }
      activeWriter := true;
      waitWriter := waitWriter - 1;
      acquired := true;
    }

    /** rdlock() from its loop test on, whether entered first or after a wake-up. */
    method RdTest(t: Thread, step: Step, ghost s: State) returns (acquired: bool)
      requires Inv(s) && Allowed(s, step) && (step == RdLock(t) || step == RdRetest(t)) && Value() == s.fields
      modifies this
      ensures var s' := Apply(s, step); Inv(s') && Value() == s'.fields && (acquired <==> t in s'.reading)
    {
      StepKeepsInv(s, step);
      if activeWriter || waitWriter != 0 {
        return false;
      }
      activeReader := activeReader + 1;
      acquired := true;
    }

    method WrUnlock(t: Thread, ghost w: Thread, ghost s: State) returns (notify: Notify)
      requires Inv(s) && Allowed(s, Step.WrUnlock(t, w)) && Value() == s.fields
      modifies this
      ensures var s' := Apply(s, Step.WrUnlock(t, w)); Inv(s') && Value() == s'.fields
      ensures notify == if s.writeBlocked + s.writeWoken != {} then NotifyOneWriter else NotifyAllReaders
    {
      hide Apply, Inv;
      StepKeepsInv(s, Step.WrUnlock(t, w));
      UnlockFields(s, t, w);
      activeWriter := false;
      if waitWriter != 0 {
        notify := NotifyOneWriter;
      } else {
        notify := NotifyAllReaders;
      }
    }

    method RdUnlock(t: Thread, ghost w: Thread, ghost s: State) returns (notify: Notify)
      requires Inv(s) && Allowed(s, Step.RdUnlock(t, w)) && Value() == s.fields
      modifies this
      ensures var s' := Apply(s, Step.RdUnlock(t, w)); Inv(s') && Value() == s'.fields
      ensures notify == if s.writeBlocked + s.writeWoken != {} && s.reading == {t} then NotifyOneWriter
                        else NotifyAllReaders
    {
      hide Apply, Inv;
      StepKeepsInv(s, Step.RdUnlock(t, w));
      UnlockFields(s, t, w);
      activeReader := activeReader - 1;
      if waitWriter != 0 && activeReader == 0 {
        notify := NotifyOneWriter;
      } else {
        notify := NotifyAllReaders;
      }
    }
  }
}
