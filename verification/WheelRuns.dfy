/**
 Whole runs of the timing wheel: timers are added, cancelled and refreshed between updates in any order.
 Every timer is followed by the number of the AddTimer call it goes back to.
 */
module WheelRuns {
  import opened Prelude
  import opened TimerWheel

  /** A delay of less than one tick files nothing. */
  type Delay = x: int | 1 <= x < 0x1_0000_0000 witness 1

  datatype Op =
    | Add(ticks: Delay, callback: nat, recurring: bool)
    | Cancel(id: nat)
    | Tock

  /** What AddTimer files `ticks` ticks ahead. */
  function TimerNode(time: Tick, ticks: Tick, callback: nat, recurring: bool, id: nat): Node {
    Node((time + ticks) % TICKS, ticks, callback, recurring, id, true)
  }

  /** Files a node and hands the next timer out. */
  function Issue(w: Wheel, n: Node): (r: Wheel)
    requires w.Shaped()
    ensures r.Shaped() && r.time == w.time && r.cancelled == w.cancelled && r.issued == w.issued + 1
  {
    AddNode(w, n).(issued := w.issued + 1)
  }

  /** A timer that was never handed out cannot be cancelled. */
  function Step(w: Wheel, op: Op): (r: (Wheel, seq<Node>))
    requires w.Shaped()
    ensures r.0.Shaped() && r.0.issued >= w.issued
  {
    match op
    case Add(ticks, callback, recurring) => (Issue(w, TimerNode(w.time, ticks, callback, recurring, w.issued)), [])
    case Cancel(id) => (if id < w.issued then w.(cancelled := w.cancelled + {id}) else w, [])
    case Tock => Update(w)
  }

  function Updates(ops: seq<Op>): nat {
    if ops == [] then 0 else (if ops[0].Tock? then 1 else 0) + Updates(ops[1..])
  }

  function TimerIs(c: nat): Node -> bool {
    (n: Node) => n.id == c
  }

  function Repeat(x: nat, count: nat): seq<nat> {
    if count == 0 then [] else [x] + Repeat(x, count - 1)
  }

  function After(w: Wheel, op: Op): (r: Wheel)
    requires w.Shaped()
    ensures r.Shaped()
  {
    Step(w, op).0
  }

  /** How often timer c or a successor of it is in a list of nodes. */
  function Times(list: seq<Node>, c: nat): nat {
    |Filter(TimerIs(c), list)|
  }

  /** How often a step collects timer c or a successor of it. */
  function CollectedBy(w: Wheel, op: Op, c: nat): nat
    requires w.Shaped()
  {
    Times(Step(w, op).1, c)
  }

  /** The updates of a run that collect timer c, or a successor of it, counted from 1 after the first
      `k` ones; an update that collects it twice is listed twice. */
  function Firings(w: Wheel, ops: seq<Op>, c: nat, k: nat): seq<nat>
    requires w.Shaped()
    decreases |ops|
  {
    if ops == [] then []
    else
      var next := if ops[0].Tock? then k + 1 else k;
      Repeat(next, CollectedBy(w, ops[0], c)) + Firings(After(w, ops[0]), ops[1..], c, next)
  }

  // ---------------------------------------------------------------------------------------
  // The plain specification
  // ---------------------------------------------------------------------------------------

  /** A Cancel of timer `id` comes before the m-th update of the run. */
  predicate CancelledBefore(ops: seq<Op>, id: nat, m: nat) {
    m > 0 && ops != [] &&
    (ops[0] == Cancel(id) || CancelledBefore(ops[1..], id, if ops[0].Tock? then m - 1 else m))
  }

  /** Firings that follow one at update `at`, when the tick was `time`, of a timer with period
      `sub`: every `sub` updates, up to the first successor that is filed into a dead slot. */
  function Later(time: Tick, sub: Tick, at: nat, remaining: nat): seq<nat>
    requires sub >= 1
    decreases remaining
  {
    if remaining < sub || Stranded(time, (time + sub) % TICKS) then []
    else [at + sub] + Later((time + sub) % TICKS, sub, at + sub, remaining - sub)
  }

  /** When a pending node should be collected: m updates from now unless it is cancelled before;
      then, if it recurs, as Later says. */
  function Expected(n: Node, m: nat, cancelled: set<nat>, ops: seq<Op>, k: nat): seq<nat>
    requires n.sub >= 1
  {
    if Updates(ops) < m || IsCancelled(cancelled, n) || (n.first && CancelledBefore(ops, n.id, m))
    then []
    else [k + m] + if n.recurring then Later(n.expire, n.sub, k + m, Updates(ops) - m) else []
  }

  // ---------------------------------------------------------------------------------------
  // Tracking one timer
  // ---------------------------------------------------------------------------------------

  ghost predicate NonePending(table: multiset<Node>, c: nat) {
    forall m: Node | m.id == c :: table[m] == 0
  }

  ghost predicate OnlyPending(table: multiset<Node>, n: Node) {
    forall m: Node | m.id == n.id :: table[m] == if m == n then 1 else 0
  }

  /** Of every timer handed out at most one node is pending: itself or one successor. */
  ghost predicate Tracked(w: Wheel)
    requires w.Shaped()
  {
    && (forall n: Node | Pending(w)[n] > 0 :: n.id < w.issued && OnlyPending(Pending(w), n))
    && (forall id | id in w.cancelled :: id < w.issued)
  }

  /** What every run keeps. */
  ghost predicate Sound(w: Wheel) {
    Settled(w) && Tracked(w)
  }

  lemma AddSettles(w: Wheel, n: Node)
    requires Settled(w) && n.sub >= 1 && n.expire == (w.time + n.sub) % TICKS
    ensures Settled(Issue(w, n))
  {
    hide SlotFor, Left;
    FiledIsPlaced(n, w.time);
    SuccessorAvoids(n, w.time);
    assert Successor(n, w.time).expire == n.expire;
    var w1 := AddNode(w, n);
    assert At(w, Near(w.time % TIME_NEAR)) == Due(w);
    assert At(w1, Near(w.time % TIME_NEAR)) == Due(w1);
    assert forall p | IsSlot(p) :: At(Issue(w, n), p) == At(w1, p);
  }

  /** Every step keeps the wheel settled: an invariant of all runs. */
  lemma StepSettles(w: Wheel, op: Op)
    requires Settled(w)
    ensures Settled(Step(w, op).0)
  {
    match op
    case Add(ticks, callback, recurring) =>
      AddSettles(w, TimerNode(w.time, ticks, callback, recurring, w.issued));
    case Cancel(h) =>
      var w' := Step(w, op).0;
      assert forall p | IsSlot(p) :: At(w', p) == At(w, p);
    case Tock => UpdateRefines(w, Update(w).0, Update(w).1);
  }

  lemma PendingHasLeft(w: Wheel, n: Node)
    requires Settled(w) && Pending(w)[n] > 0
    ensures Left(n.expire, w.time) > 0 && n.sub >= 1
  {
    if n.expire == w.time {
      DueIsExpired(w, n);
    }
    if n.sub < 1 {
      forall p | IsSlot(p) ensures n !in At(w, p) { }
      forall j | 0 <= j < TIME_NEAR ensures n !in w.near[j] { assert At(w, Near(j)) == w.near[j]; }
      forall i, k | 0 <= i < 4 && 0 <= k < TIME_LEVEL ensures n !in w.t[i][k] {
        assert At(w, Level(i, k)) == w.t[i][k];
      }
      SumOnly(w.near, 0, TIME_NEAR, n);
      SumOnly(w.t[0], 1, 0, n);
      SumOnly(w.t[1], 1, 0, n);
      SumOnly(w.t[2], 1, 0, n);
      SumOnly(w.t[3], 0, TIME_LEVEL, n);
    }
  }

  /** Adding another timer, or cancelling, leaves the pending nodes of timer c alone. */
  lemma OthersKeep(w: Wheel, op: Op, c: nat)
    requires w.Shaped() && !op.Tock? && c < w.issued
    ensures forall m: Node | m.id == c :: Pending(Step(w, op).0)[m] == Pending(w)[m]
  {
    if op.Add? {
      var n := TimerNode(w.time, op.ticks, op.callback, op.recurring, w.issued);
      forall m: Node | m.id == c ensures Pending(Issue(w, n))[m] == Pending(w)[m] {
        AddHolds(w, n, m);
      }
    }
  }

  lemma {:induction false} CountNone(list: seq<Node>, c: nat)
    requires forall m: Node | m in list :: m.id != c
    ensures Filter(TimerIs(c), list) == []
  {
    if list != [] {
      var front, x := list[..|list| - 1], list[|list| - 1];
      assert list == front + [x];
      CountNone(front, c);
    }
  }

  lemma {:induction false} CountOne(list: seq<Node>, n: Node)
    requires multiset(list)[n] == 1 && forall m: Node | m in list && m.id == n.id :: m == n
    ensures |Filter(TimerIs(n.id), list)| == 1
  {
    var front, x := list[..|list| - 1], list[|list| - 1];
    assert list == front + [x];
    if x == n {
      assert multiset(front)[n] == 0;
      forall m: Node | m in front ensures m.id != n.id { assert m in list; }
      CountNone(front, n.id);
    } else {
      assert x in list;
      CountOne(front, n);
    }
  }

  lemma {:induction false} SuccessorsOf(list: seq<Node>, time: Tick, n: Node, m: Node)
    requires multiset(list)[n] <= 1 && m.id == n.id
    requires forall x: Node | x in list && x.id == n.id :: x == n
    ensures multiset(Successors(list, time))[m]
         == if n in list && n.recurring && m == Successor(n, time) then 1 else 0
  {
    if list != [] {
      var front, x := list[..|list| - 1], list[|list| - 1];
      assert list == front + [x];
      assert x in list;
      SuccessorsOf(front, time, n, m);
    }
  }

  lemma QuietUpdate(table: multiset<Node>, cancelled: set<nat>, now: Tick,
                    fired: seq<Node>, table': multiset<Node>, c: nat)
    requires PlainUpdate(table, cancelled, now, fired, table')
    requires forall m: Node | m.id == c && m.expire == now :: table[m] == 0
    ensures Filter(TimerIs(c), fired) == []
    ensures forall m: Node | m.id == c :: table'[m] == table[m]
  {
    forall x: Node | x in fired ensures x.id != c {
      assert PlainAt(table, cancelled, now, fired, table', x) && multiset(fired)[x] > 0;
    }
    CountNone(fired, c);
    forall m: Node | m.id == c ensures table'[m] == table[m] {
      assert PlainAt(table, cancelled, now, fired, table', m);
      var succ := Successors(fired, now);
      FilterCount((n: Node) => !Stranded(now, n.expire), succ, m);
      SuccessorsOf(fired, now, m, m);
    }
  }

  /** The tick in which n is due: it is collected once unless cancelled, and what is pending
      afterwards is its successor, if there is one and it is not filed into a dead slot. */
  lemma FiringUpdate(table: multiset<Node>, cancelled: set<nat>, now: Tick,
                     fired: seq<Node>, table': multiset<Node>, n: Node)
    requires PlainUpdate(table, cancelled, now, fired, table')
    requires OnlyPending(table, n) && n.expire == now
    ensures var s := Successor(n, now); var dead := IsCancelled(cancelled, n);
            && |Filter(TimerIs(n.id), fired)| == (if dead then 0 else 1)
            && (if dead || !n.recurring || Stranded(now, s.expire) then NonePending(table', n.id)
                else OnlyPending(table', s))
  {
    var s := Successor(n, now);
    var dead := IsCancelled(cancelled, n);
    assert PlainAt(table, cancelled, now, fired, table', n);
    forall x: Node | x in fired && x.id == n.id ensures x == n {
      assert PlainAt(table, cancelled, now, fired, table', x) && multiset(fired)[x] > 0;
    }
    if dead {
      CountNone(fired, n.id);
    } else {
      CountOne(fired, n);
    }
    forall m: Node | m.id == n.id
      ensures table'[m] == if !dead && n.recurring && !Stranded(now, s.expire) && m == s then 1 else 0
    {
      assert PlainAt(table, cancelled, now, fired, table', m);
      var succ := Successors(fired, now);
      FilterCount((n: Node) => !Stranded(now, n.expire), succ, m);
      SuccessorsOf(fired, now, n, m);
    }
  }

  /** A timer that was handed out and is not pending any more is never collected again. */
  lemma {:induction false} NeverFires(w: Wheel, ops: seq<Op>, c: nat, k: nat)
    requires Settled(w) && NonePending(Pending(w), c) && c < w.issued
    ensures Firings(w, ops, c, k) == []
    decreases |ops|
  {
    if ops != [] {
      StepSettles(w, ops[0]);
      var (w', fired) := Step(w, ops[0]);
      if ops[0].Tock? {
        QuietTock(w, w', fired, c);
        FiringsTock(w, w', fired, ops, c, k, 0);
        NeverFires(w', ops[1..], c, k + 1);
      } else {
        OthersKeep(w, ops[0], c);
        FiringsOther(w, ops, c, k);
        NeverFires(w', ops[1..], c, k);
      }
    }
  }

  lemma QuietTock(w: Wheel, w': Wheel, fired: seq<Node>, c: nat)
    requires Settled(w) && (w', fired) == Update(w)
    requires forall m: Node | m.id == c && m.expire == w'.time :: Pending(w)[m] == 0
    ensures Times(fired, c) == 0
    ensures forall m: Node | m.id == c :: Pending(w')[m] == Pending(w)[m]
  {
    UpdateRefines(w, w', fired);
    QuietUpdate(Pending(w), w.cancelled, w'.time, fired, Pending(w'), c);
  }

  lemma CollectedTock(w: Wheel, w': Wheel, fired: seq<Node>, op: Op, c: nat)
    requires w.Shaped() && op.Tock? && (w', fired) == Update(w)
    ensures After(w, op) == w' && CollectedBy(w, op, c) == Times(fired, c)
  {
  }

  lemma FiringsTock(w: Wheel, w': Wheel, fired: seq<Node>, ops: seq<Op>, c: nat, k: nat, count: nat)
    requires w.Shaped() && ops != [] && ops[0].Tock? && (w', fired) == Update(w)
    requires count == Times(fired, c) && count <= 1
    ensures w'.Shaped()
    ensures Firings(w, ops, c, k) == (if count == 0 then [] else [k + 1]) + Firings(w', ops[1..], c, k + 1)
  {
    hide Update, After, CollectedBy, Times;
    CollectedTock(w, w', fired, ops[0], c);
    assert Repeat(k + 1, count) == if count == 0 then [] else [k + 1];
  }

  lemma FiringsOther(w: Wheel, ops: seq<Op>, c: nat, k: nat)
    requires w.Shaped() && ops != [] && !ops[0].Tock?
    ensures Firings(w, ops, c, k) == Firings(Step(w, ops[0]).0, ops[1..], c, k)
  {
    hide Update, Issue;
    assert CollectedBy(w, ops[0], c) == 0;
    assert [] + Firings(After(w, ops[0]), ops[1..], c, k) == Firings(After(w, ops[0]), ops[1..], c, k);
  }

  /** Expected follows a run one step at a time. */
  lemma ExpectedTock(n: Node, m: nat, cancelled: set<nat>, ops: seq<Op>, k: nat)
    requires n.sub >= 1 && m >= 1 && ops != [] && ops[0].Tock?
    ensures Expected(n, m, cancelled, ops, k) ==
              if m > 1 then Expected(n, m - 1, cancelled, ops[1..], k + 1)
              else if IsCancelled(cancelled, n) then []
              else [k + 1] + if n.recurring then Later(n.expire, n.sub, k + 1, Updates(ops[1..])) else []
  {
    assert Updates(ops) == 1 + Updates(ops[1..]);
    assert CancelledBefore(ops, n.id, m) == CancelledBefore(ops[1..], n.id, m - 1);
  }

  lemma ExpectedOther(n: Node, m: nat, cancelled: set<nat>, cancelled': set<nat>, ops: seq<Op>, k: nat)
    requires n.sub >= 1 && m >= 1 && ops != [] && !ops[0].Tock?
    requires n.id in cancelled' <==> n.id in cancelled || ops[0] == Cancel(n.id)
    ensures Expected(n, m, cancelled, ops, k) == Expected(n, m, cancelled', ops[1..], k)
  {
  }

  /** A node that comes due and is collected leaves a successor that will be fetched. */
  predicate HasSuccessor(n: Node, collected: bool) {
    collected && n.recurring && !Stranded(n.expire, Successor(n, n.expire).expire)
  }

  /** What is expected of a successor, which nobody can cancel. */
  lemma ExpectedSuccessor(s: Node, m: nat, cancelled: set<nat>, ops: seq<Op>, k: nat)
    requires s.sub >= 1 && s.recurring && !s.first
    ensures Expected(s, m, cancelled, ops, k)
            == if Updates(ops) < m then [] else [k + m] + Later(s.expire, s.sub, k + m, Updates(ops) - m)
  {
    hide Stranded;
  }

  lemma SuccessorIs(n: Node)
    requires n.sub >= 1
    ensures var s := Successor(n, n.expire);
            && s.sub == n.sub && s.recurring && !s.first && s.id == n.id && s.callback == n.callback
            && s.expire == (n.expire + n.sub) % TICKS && Left(s.expire, n.expire) == n.sub
  {
    LeftAfter(n.expire, n.sub);
  }

  /** Later is what is expected of the successor, if there is one. */
  lemma LaterUnfolds(n: Node, collected: bool, cancelled: set<nat>, ops: seq<Op>, k: nat)
    requires n.sub >= 1
    ensures var s := Successor(n, n.expire);
            && s.sub >= 1 && s.id == n.id && s.callback == n.callback
            && (if n.recurring && collected then Later(n.expire, n.sub, k, Updates(ops)) else [])
               == if HasSuccessor(n, collected) then Expected(s, Left(s.expire, n.expire), cancelled, ops, k) else []
  {
    hide Stranded, Left, Successor, Expected;
    SuccessorIs(n);
    ExpectedSuccessor(Successor(n, n.expire), n.sub, cancelled, ops, k);
  }

  /** A node that is the only one pending of its timer is collected at the updates that Expected lists. */
  lemma {:induction false} FiresAsExpected(w: Wheel, ops: seq<Op>, n: Node, k: nat)
    requires w.Shaped() && Settled(w) && OnlyPending(Pending(w), n) && n.id < w.issued && n.sub >= 1
    ensures Firings(w, ops, n.id, k) == Expected(n, Left(n.expire, w.time), w.cancelled, ops, k)
    decreases |ops|, 1
  {
    hide Step, Update, Pending, Left, Expected, Placed;
    PendingHasLeft(w, n);
    if ops == [] {
      NoneExpected(n, Left(n.expire, w.time), w.cancelled, k);
    } else {
      StepSettles(w, ops[0]);
      if ops[0].Tock? {
        TockStep(w, ops[0]);
        ExactTock(w, Update(w).0, Update(w).1, ops, n, k);
      } else {
        ExactOther(w, Step(w, ops[0]).0, ops, n, k);
      }
    }
  }

  lemma NoneExpected(n: Node, m: nat, cancelled: set<nat>, k: nat)
    requires n.sub >= 1 && m >= 1
    ensures Expected(n, m, cancelled, [], k) == []
  {
  }

  lemma TockStep(w: Wheel, op: Op)
    requires w.Shaped() && op.Tock?
    ensures Step(w, op) == Update(w)
  {
  }

  lemma OtherStep(w: Wheel, op: Op, w': Wheel, id: nat)
    requires w.Shaped() && !op.Tock? && id < w.issued && w' == Step(w, op).0
    ensures w'.Shaped() && w'.time == w.time && id < w'.issued
    ensures id in w'.cancelled <==> id in w.cancelled || op == Cancel(id)
  {
  }

  lemma ExactOther(w: Wheel, w': Wheel, ops: seq<Op>, n: Node, k: nat)
    requires w.Shaped() && Settled(w) && OnlyPending(Pending(w), n) && n.id < w.issued && n.sub >= 1
    requires ops != [] && !ops[0].Tock? && w' == Step(w, ops[0]).0 && Settled(w') && Left(n.expire, w.time) >= 1
    ensures Firings(w, ops, n.id, k) == Expected(n, Left(n.expire, w.time), w.cancelled, ops, k)
    decreases |ops|, 0
  {
    hide Step, Pending, Left, Expected, Placed;
    FiringsOther(w, ops, n.id, k);
    OtherStep(w, ops[0], w', n.id);
    ExpectedOther(n, Left(n.expire, w.time), w.cancelled, w'.cancelled, ops, k);
    OthersKeep(w, ops[0], n.id);
    FiresAsExpected(w', ops[1..], n, k);
  }

  lemma ExactTock(w: Wheel, w': Wheel, fired: seq<Node>, ops: seq<Op>, n: Node, k: nat)
    requires Settled(w) && OnlyPending(Pending(w), n) && n.id < w.issued && n.sub >= 1
    requires ops != [] && ops[0].Tock? && (w', fired) == Update(w) && Settled(w') && Left(n.expire, w.time) >= 1
    ensures Firings(w, ops, n.id, k) == Expected(n, Left(n.expire, w.time), w.cancelled, ops, k)
    decreases |ops|, 0
  {
    hide Update, Expected, Firings, Later, HasSuccessor, Successor, IsCancelled, Pending, Times;
    var c, rest := n.id, ops[1..];
    ExpectedTock(n, Left(n.expire, w.time), w.cancelled, ops, k);
    TickLeft(n.expire, w.time);
    if n.expire != w'.time {
      QuietTock(w, w', fired, c);
      FiringsTock(w, w', fired, ops, c, k, 0);
      FiresAsExpected(w', rest, n, k + 1);
    } else {
      FiresOnce(w, w', fired, n);
      FiringsTock(w, w', fired, ops, c, k, if IsCancelled(w.cancelled, n) then 0 else 1);
      AfterFiring(w', rest, n, !IsCancelled(w.cancelled, n), k);
    }
  }

  lemma FiresOnce(w: Wheel, w': Wheel, fired: seq<Node>, n: Node)
    requires Settled(w) && OnlyPending(Pending(w), n) && (w', fired) == Update(w) && n.expire == w'.time
    ensures Times(fired, n.id) == if IsCancelled(w.cancelled, n) then 0 else 1
    ensures if HasSuccessor(n, !IsCancelled(w.cancelled, n)) then OnlyPending(Pending(w'), Successor(n, n.expire))
            else NonePending(Pending(w'), n.id)
  {
    UpdateRefines(w, w', fired);
    FiringUpdate(Pending(w), w.cancelled, w'.time, fired, Pending(w'), n);
  }

  /** The run after the tick in which n came due. */
  lemma AfterFiring(w: Wheel, rest: seq<Op>, n: Node, collected: bool, k: nat)
    requires Settled(w) && n.id < w.issued && n.sub >= 1 && n.expire == w.time
    requires if HasSuccessor(n, collected) then OnlyPending(Pending(w), Successor(n, n.expire))
             else NonePending(Pending(w), n.id)
    ensures Firings(w, rest, n.id, k + 1)
         == if n.recurring && collected then Later(n.expire, n.sub, k + 1, Updates(rest)) else []
    decreases |rest|, 2
  {
    LaterUnfolds(n, collected, w.cancelled, rest, k + 1);
    hide *;
    if HasSuccessor(n, collected) {
      FiresAsExpected(w, rest, Successor(n, n.expire), k + 1);
    } else {
      NeverFires(w, rest, n.id, k + 1);
    }
  }

  // ---------------------------------------------------------------------------------------
  // Main results
  // ---------------------------------------------------------------------------------------

  /** Every step keeps it that at most one node of a timer is pending. */
  lemma StepTracks(w: Wheel, op: Op)
    requires Sound(w)
    ensures Sound(Step(w, op).0)
  {
    StepSettles(w, op);
    match op
    case Add(ticks, callback, recurring) =>
      AddTracks(w, TimerNode(w.time, ticks, callback, recurring, w.issued));
    case Cancel(id) =>
    case Tock =>
      UpdateRefines(w, Update(w).0, Update(w).1);
      TockTracks(w, Update(w).0, Update(w).1);
  }

  lemma AddTracks(w: Wheel, n: Node)
    requires w.Shaped() && Sound(w) && n.id == w.issued
    ensures Tracked(Issue(w, n))
    ensures if Stranded(w.time, n.expire) then NonePending(Pending(Issue(w, n)), n.id)
            else OnlyPending(Pending(Issue(w, n)), n)
  {
    hide SlotFor, Left, Placed, AddNode, Pending;
    var w' := Issue(w, n);
    forall m: Node ensures Pending(w')[m] == Pending(w)[m] + if m == n && !Stranded(w.time, n.expire) then 1 else 0 {
      AddHolds(w, n, m);
      PendingOnly(w', AddNode(w, n));
    }
  }

  lemma PendingOnly(w: Wheel, w': Wheel)
    requires w.Shaped() && w'.Shaped() && w.near == w'.near && w.t == w'.t
    ensures Pending(w) == Pending(w')
  {
  }

  lemma TockTracks(w: Wheel, w': Wheel, fired: seq<Node>)
    requires w.Shaped() && Sound(w) && (w', fired) == Update(w)
    ensures Tracked(w')
  {
    hide Update, Pending, Placed;
    UpdateRefines(w, w', fired);
    forall m: Node | Pending(w')[m] > 0 ensures m.id < w'.issued && OnlyPending(Pending(w'), m) {
      TockTracksAt(w, w', fired, m);
    }
  }

  lemma TockTracksAt(w: Wheel, w': Wheel, fired: seq<Node>, m: Node)
    requires w.Shaped() && Settled(w) && Tracked(w) && (w', fired) == Update(w) && w'.Shaped()
    requires PlainUpdate(Pending(w), w.cancelled, w'.time, fired, Pending(w')) && Pending(w')[m] > 0
    ensures m.id < w.issued && OnlyPending(Pending(w'), m)
  {
    hide Update, Pending, Placed;
    var table, now := Pending(w), w'.time;
    assert PlainAt(table, w.cancelled, now, fired, Pending(w'), m);
    if m.expire != now && table[m] > 0 {
      QuietUpdate(table, w.cancelled, now, fired, Pending(w'), m.id);
    } else {
      FilterCount((n: Node) => !Stranded(now, n.expire), Successors(fired, now), m);
      assert m in Successors(fired, now);
      var n :| n in fired && n.recurring && m == Successor(n, now);
      assert PlainAt(table, w.cancelled, now, fired, Pending(w'), n) && multiset(fired)[n] > 0;
      FiringUpdate(table, w.cancelled, now, fired, Pending(w'), n);
    }
  }

  lemma FreshSettled(w: Wheel, n: Node, w': Wheel)
    requires Settled(w) && n.sub >= 1 && n.expire == (w.time + n.sub) % TICKS && w' == Issue(w, n)
    ensures Settled(w') && Left(n.expire, w.time) == n.sub
  {
    AddSettles(w, n);
    LeftAfter(w.time, n.sub);
  }

  /** Exact firing: in every run from every reachable wheel, whatever is added, cancelled or refreshed
      around it, a pending node, and each of its successors, is collected at the updates that Expected
      lists and at no other. */
  lemma ExactFiring(w: Wheel, ops: seq<Op>, n: Node, k: nat)
    requires Sound(w) && Pending(w)[n] > 0
    ensures n.sub >= 1
    ensures Firings(w, ops, n.id, k) == Expected(n, Left(n.expire, w.time), w.cancelled, ops, k)
  {
    PendingHasLeft(w, n);
    FiresAsExpected(w, ops, n, k);
  }

  /** When a Cancel matters: it changes the firings of a timer exactly if it comes before the first of them,
      and then there are none. A timer that recurs cannot be cancelled once it has fired. */
  lemma CancelExactly(w: Wheel, n: Node, a: seq<Op>, b: seq<Op>, k: nat, plain: seq<nat>, cut: seq<nat>)
    requires Sound(w) && Pending(w)[n] > 0
    requires plain == Firings(w, a + b, n.id, k) && cut == Firings(w, a + [Cancel(n.id)] + b, n.id, k)
    ensures cut != plain <==> n.first && plain != [] && k + Updates(a) < plain[0]
    ensures cut != plain ==> cut == []
  {
    hide Sound, Firings, Pending;
    var m := Left(n.expire, w.time);
    ExactFiring(w, a + b, n, k);
    ExactFiring(w, a + [Cancel(n.id)] + b, n, k);
    CancelledWith(a, b, n.id, m);
    UpdatesWith(a, b, n.id);
  }

  lemma {:induction false} CancelledWith(a: seq<Op>, b: seq<Op>, id: nat, m: nat)
    ensures CancelledBefore(a + [Cancel(id)] + b, id, m) <==> Updates(a) < m || CancelledBefore(a + b, id, m)
    decreases |a|
  {
    if a == [] {
      assert ([] + [Cancel(id)] + b)[1..] == b && [] + b == b;
    } else {
      assert (a + [Cancel(id)] + b)[1..] == a[1..] + [Cancel(id)] + b && (a + b)[1..] == a[1..] + b;
      CancelledWith(a[1..], b, id, if a[0].Tock? && m > 0 then m - 1 else m);
    }
  }

  lemma {:induction false} UpdatesWith(a: seq<Op>, b: seq<Op>, id: nat)
    ensures Updates(a + b) == Updates(a) + Updates(b) == Updates(a + [Cancel(id)] + b)
    decreases |a|
  {
    if a == [] {
      assert ([] + [Cancel(id)] + b)[1..] == b && [] + b == b;
    } else {
      assert (a + [Cancel(id)] + b)[1..] == a[1..] + [Cancel(id)] + b && (a + b)[1..] == a[1..] + b;
      UpdatesWith(a[1..], b, id);
    }
  }

  /** A timer added `ticks` ahead, in whatever company and whatever happens afterwards: it is collected
      at exactly update `ticks` unless cancelled before, and then again as Later says, if and only if
      it was not filed into a dead slot; if it was, no update ever collects it. */
  lemma FreshTimer(w: Wheel, op: Op, ops: seq<Op>, n: Node)
    requires Sound(w) && op.Add? && n == TimerNode(w.time, op.ticks, op.callback, op.recurring, w.issued)
    ensures Firings(w, [op] + ops, n.id, 0)
         == if Stranded(w.time, n.expire) then [] else Expected(n, op.ticks, w.cancelled, ops, 0)
  {
    var w' := Issue(w, n);
    FreshSettled(w, n, w');
    AddTracks(w, n);
    FiringsOther(w, [op] + ops, n.id, 0);
    assert ([op] + ops)[1..] == ops;
    assert w'.time == w.time && n.sub >= 1 && n.id < w'.issued;
    hide *;
    if Stranded(w.time, n.expire) {
      NeverFires(w', ops, n.id, 0);
    } else {
      FiresAsExpected(w', ops, n, 0);
    }
  }

  /** The same of a timer from its AddTimer on. */
  lemma FreshCancel(w: Wheel, op: Op, a: seq<Op>, b: seq<Op>, plain: seq<nat>, cut: seq<nat>)
    requires Sound(w) && op.Add? && plain == Firings(w, [op] + (a + b), w.issued, 0)
    requires cut == Firings(w, [op] + (a + [Cancel(w.issued)] + b), w.issued, 0)
    ensures cut != plain <==> plain != [] && Updates(a) < plain[0]
    ensures cut != plain ==> cut == []
  {
    hide Tracked, Firings, Pending, Issue, Stranded, Expected;
    var n := TimerNode(w.time, op.ticks, op.callback, op.recurring, w.issued);
    if Stranded(w.time, n.expire) {
      FreshTimer(w, op, a + b, n);
      FreshTimer(w, op, a + [Cancel(w.issued)] + b, n);
    } else {
      FreshPending(w, op, n);
      FiringsOther(w, [op] + (a + b), w.issued, 0);
      FiringsOther(w, [op] + (a + [Cancel(w.issued)] + b), w.issued, 0);
      CancelExactly(Step(w, op).0, n, a, b, 0, plain, cut);
    }
  }

  lemma FreshPending(w: Wheel, op: Op, n: Node)
    requires Sound(w) && op.Add? && n == TimerNode(w.time, op.ticks, op.callback, op.recurring, w.issued)
    requires !Stranded(w.time, n.expire)
    ensures Sound(Step(w, op).0) && Pending(Step(w, op).0)[n] > 0
  {
    StepTracks(w, op);
    AddTracks(w, n);
  }

  /** Which delays are lost: those of level 0, 1 or 2 that end in the first block after a
      boundary of the level above. */
  lemma StrandedExactly(time: Tick, ticks: Tick)
    ensures Stranded(time, (time + ticks) % TICKS)
        <==> exists i | 0 <= i < 3 :: Span(i) <= ticks < Span(i + 1) && (time + ticks) % Span(i + 1) < Span(i)
  {
    var expire := (time + ticks) % TICKS;
    LeftAfter(time, ticks);
    var low, d0, d1, d2, d3 := Digits(expire);
    ReadDigits(expire, low, d0, d1, d2, d3);
    SameResidue(time + ticks);
    if 0x100 <= ticks < 0x4000 {
      assert Stranded(time, expire) <==> (time + ticks) % Span(1) < Span(0);
    } else if 0x4000 <= ticks < 0x10_0000 {
      assert Stranded(time, expire) <==> (time + ticks) % Span(2) < Span(1);
    } else if 0x10_0000 <= ticks < 0x400_0000 {
      assert Stranded(time, expire) <==> (time + ticks) % Span(3) < Span(2);
    }
  }

  lemma SameResidue(x: int)
    ensures x % TICKS % 0x4000 == x % 0x4000
    ensures x % TICKS % 0x10_0000 == x % 0x10_0000
    ensures x % TICKS % 0x400_0000 == x % 0x400_0000
  {
    var q := x / TICKS;
    assert x == x % TICKS + TICKS * q;
    Congruent(x, x % TICKS, 0x4000, 0x4_0000 * q);
    Congruent(x, x % TICKS, 0x10_0000, 0x1000 * q);
    Congruent(x, x % TICKS, 0x400_0000, 64 * q);
  }

  lemma Congruent(x: int, y: int, span: nat, k: int)
    requires span > 0 && x == y + span * k
    ensures x % span == y % span
  {
    var q := x / span - y / span - k;
    assert x % span + span * q == y % span by {
      assert span * q == span * (x / span) - span * (y / span) - span * k;
    }
    OneBlock(x % span, q, span);
  }

  /** For example a delay of 16383 ticks (under three minutes) asked for at tick 1: no run
      whatsoever collects it. */
  lemma StrandedExample(w: Wheel, op: Op, ops: seq<Op>)
    requires Sound(w) && w.time == 1 && op.Add? && op.ticks == 16383
    ensures Firings(w, [op] + ops, w.issued, 0) == []
  {
    var n := TimerNode(w.time, op.ticks, op.callback, op.recurring, w.issued);
    assert n.expire == 16384 && Stranded(1, 16384) by { assert SlotFor(16384, 1) == Level(0, 0); }
    hide *;
    FreshTimer(w, op, ops, n);
  }

  /** Of a timer asked for at `time` with period `sub`, the node that is due k + 1 periods later is filed
      into a dead slot. */
  predicate StrandedAt(time: Tick, sub: nat, k: nat) {
    Stranded(DueAt(time, sub, k), DueAt(time, sub, k + 1))
  }

  /** The tick k periods after `time`. */
  function DueAt(time: Tick, sub: nat, k: nat): Tick {
    (time + sub * k) % TICKS
  }

  lemma DueShift(time: Tick, sub: nat, k: nat)
    ensures DueAt((time + sub) % TICKS, sub, k) == DueAt(time, sub, k + 1)
  {
    MulNext(sub, k);
    WrapAdd(time + sub, sub * k);
  }

  lemma DueFirst(time: Tick, sub: nat)
    ensures DueAt(time, sub, 0) == time && DueAt(time, sub, 1) == (time + sub) % TICKS
  {
    MulNext(sub, 0);
  }

  lemma StrandedShift(time: Tick, sub: nat, k: nat)
    ensures StrandedAt((time + sub) % TICKS, sub, k) == StrandedAt(time, sub, k + 1)
    ensures StrandedAt(time, sub, 0) == Stranded(time, (time + sub) % TICKS)
  {
    hide Stranded, DueAt;
    DueShift(time, sub, k);
    DueShift(time, sub, k + 1);
    DueFirst(time, sub);
  }

  lemma MulNext(sub: nat, k: nat)
    ensures sub * 0 == 0 && sub * (k + 1) == sub + sub * k
  {
  }

  /** While no successor is filed into a dead slot a recurring timer fires every `sub` updates;
      the firings end only with the run or with such a successor. */
  lemma {:induction false} LaterIsPeriodic(time: Tick, sub: Tick, at: nat, remaining: nat)
    requires sub >= 1
    ensures var fs := Later(time, sub, at, remaining);
            && (forall i | 0 <= i < |fs| :: fs[i] == at + sub * (i + 1))
            && sub * |fs| <= remaining
            && (remaining < sub * (|fs| + 1) || StrandedAt(time, sub, |fs|))
            && (forall i: nat | i < |fs| :: !StrandedAt(time, sub, i))
    decreases remaining
  {
    hide Stranded, StrandedAt;
    var now := (time + sub) % TICKS;
    StrandedShift(time, sub, 0);
    MulNext(sub, 0);
    if !(remaining < sub || Stranded(time, now)) {
      LaterIsPeriodic(now, sub, at + sub, remaining - sub);
      var fs, rest := Later(time, sub, at, remaining), Later(now, sub, at + sub, remaining - sub);
      assert fs == [at + sub] + rest;
      StrandedShift(time, sub, |rest|);
      MulNext(sub, |rest|);
      MulNext(sub, |rest| + 1);
      forall i: nat | i < |fs| ensures fs[i] == at + sub * (i + 1) && !StrandedAt(time, sub, i) {
        MulNext(sub, i);
        if i > 0 {
          StrandedShift(time, sub, i - 1);
          assert fs[i] == rest[i - 1] && !StrandedAt(now, sub, i - 1);
        }
      }
    }
  }

  lemma WrapAdd(x: int, y: int)
    ensures (x % TICKS + y) % TICKS == (x + y) % TICKS
  {
  }

  /** Delays under 256 ticks or of at least 2^26 ticks are never lost. */
  lemma NearAndFarSafe(time: Tick, ticks: Tick)
    requires ticks < Span(0) || ticks >= Span(3)
    ensures !Stranded(time, (time + ticks) % TICKS)
  {
    LeftAfter(time, ticks);
  }
}
