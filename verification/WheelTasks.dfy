/**
 What the client of the wheel sees: at which updates a timer runs, told by the request alone, which
 callback it runs, and in what order the timers of one update run.
 */
module WheelTasks {
  import opened Prelude
  import opened TimerWheel
  import opened WheelRuns

  // ---------------------------------------------------------------------------------------
  // When a timer runs
  // ---------------------------------------------------------------------------------------

  /** A timer asked for with a delay of op.ticks, in whatever company: it runs at update op.ticks, unless the
      run is shorter, it is cancelled before, or it is filed into a dead slot; then never again if it is
      a one-shot timer, and as Later says if it recurs. */
  lemma AddFires(w: Wheel, op: Op, ops: seq<Op>)
    requires Sound(w) && op.Add?
    ensures Firings(w, [op] + ops, w.issued, 0) ==
              var due := (w.time + op.ticks) % TICKS;
              if Stranded(w.time, due) || Updates(ops) < op.ticks || CancelledBefore(ops, w.issued, op.ticks) then []
              else [op.ticks] + if op.recurring then Later(due, op.ticks, op.ticks, Updates(ops) - op.ticks) else []
  {
    hide Stranded, Tracked, Firings, Later, CancelledBefore;
    FreshTimer(w, op, ops, TimerNode(w.time, op.ticks, op.callback, op.recurring, w.issued));
    NotYetCancelled(w);
  }

  lemma NotYetCancelled(w: Wheel)
    requires Sound(w)
    ensures w.issued !in w.cancelled
  {
  }

  /** A one-shot timer runs once, at update op.ticks. */
  lemma OneShotFires(w: Wheel, op: Op, ops: seq<Op>)
    requires Sound(w) && op.Add? && !op.recurring && !Stranded(w.time, (w.time + op.ticks) % TICKS)
    requires !CancelledBefore(ops, w.issued, op.ticks)
    ensures Firings(w, [op] + ops, w.issued, 0) == if Updates(ops) >= op.ticks then [op.ticks] else []
  {
    hide Stranded, Sound, Firings, CancelledBefore;
    AddFires(w, op, ops);
  }

  // ---------------------------------------------------------------------------------------
  // Which callback it runs
  // ---------------------------------------------------------------------------------------

  /** Whatever is pending of timer c runs the callback cb. */
  ghost predicate Carries(w: Wheel, c: nat, cb: nat)
    requires w.Shaped()
  {
    forall n: Node | n.id == c && Pending(w)[n] > 0 :: n.callback == cb
  }

  lemma AddPending(w: Wheel, op: Op, m: Node)
    requires w.Shaped() && op.Add?
    ensures Pending(Step(w, op).0)[m] > 0 ==> Pending(w)[m] > 0 || (m.id == w.issued && m.callback == op.callback)
  {
    hide AddNode, SlotFor, Pending;
    var n := TimerNode(w.time, op.ticks, op.callback, op.recurring, w.issued);
    AddHolds(w, n, m);
    PendingOnly(Issue(w, n), AddNode(w, n));
  }

  /** A node collected was pending, and a node that is pending after an update was so before or succeeds one
      that was collected. */
  lemma UpdateOrigin(w: Wheel, w': Wheel, fired: seq<Node>, m: Node)
    requires w.Shaped() && Settled(w) && (w', fired) == Update(w)
    ensures m in fired ==> Pending(w)[m] > 0
    ensures Pending(w')[m] > 0 ==>
              || Pending(w)[m] > 0
              || exists n | n in fired :: m.id == n.id && m.callback == n.callback && Pending(w)[n] > 0
  {
    hide Update, Pending, Placed;
    UpdateRefines(w, w', fired);
    assert PlainAt(Pending(w), w.cancelled, w'.time, fired, Pending(w'), m);
    assert m in fired ==> multiset(fired)[m] > 0;
    if Pending(w')[m] > 0 && Pending(w)[m] == 0 {
      FilterCount((n: Node) => !Stranded(w'.time, n.expire), Successors(fired, w'.time), m);
      assert m in Successors(fired, w'.time);
      var n :| n in fired && n.recurring && m == Successor(n, w'.time);
      assert PlainAt(Pending(w), w.cancelled, w'.time, fired, Pending(w'), n) && multiset(fired)[n] > 0;
    }
  }

  lemma StepCarries(w: Wheel, op: Op, c: nat, cb: nat)
    requires w.Shaped() && Sound(w) && c < w.issued && Carries(w, c, cb)
    ensures Carries(Step(w, op).0, c, cb)
    ensures forall n | n in Step(w, op).1 && n.id == c :: n.callback == cb
  {
    hide Update, Pending, Placed, Tracked, Issue;
    var (w', fired) := Step(w, op);
    forall m: Node | m.id == c && Pending(w')[m] > 0 ensures m.callback == cb {
      Origin(w, op, w', fired, m);
    }
    forall n | n in fired && n.id == c ensures n.callback == cb {
      Origin(w, op, w', fired, n);
    }
  }

  lemma Origin(w: Wheel, op: Op, w': Wheel, fired: seq<Node>, m: Node)
    requires w.Shaped() && Sound(w) && (w', fired) == Step(w, op) && m.id < w.issued
    ensures m in fired ==> Pending(w)[m] > 0
    ensures Pending(w')[m] > 0 ==>
              || Pending(w)[m] > 0
              || exists n | n in fired :: m.id == n.id && m.callback == n.callback && Pending(w)[n] > 0
  {
    hide Update, Issue, Placed, Tracked;
    match op
    case Add(_, _, _) => AddPending(w, op, m);
    case Cancel(_) => PendingOnly(w, w');
    case Tock => UpdateOrigin(w, w', fired, m);
  }

  /** Everything that a run collects. */
  function Gathered(w: Wheel, ops: seq<Op>): seq<Node>
    requires w.Shaped()
    decreases |ops|
  {
    if ops == [] then [] else Step(w, ops[0]).1 + Gathered(Step(w, ops[0]).0, ops[1..])
  }

  lemma {:induction false} RunCarries(w: Wheel, ops: seq<Op>, c: nat, cb: nat)
    requires w.Shaped() && Sound(w) && c < w.issued && Carries(w, c, cb)
    ensures forall n | n in Gathered(w, ops) && n.id == c :: n.callback == cb
    decreases |ops|
  {
    hide Step, Carries, Settled, Tracked;
    if ops != [] {
      StepCarries(w, ops[0], c, cb);
      StepTracks(w, ops[0]);
      Issued(w, ops[0]);
      RunCarries(Step(w, ops[0]).0, ops[1..], c, cb);
    }
  }

  lemma Issued(w: Wheel, op: Op)
    requires w.Shaped()
    ensures Step(w, op).0.issued == w.issued + if op.Add? then 1 else 0
  {
  }

  /** Whenever a timer runs, in any run, it runs the callback it was asked for with. */
  lemma RunsOwnCallback(w: Wheel, op: Op, ops: seq<Op>)
    requires w.Shaped() && Sound(w) && op.Add?
    ensures forall n | n in Gathered(w, [op] + ops) && n.id == w.issued :: n.callback == op.callback
  {
    hide Step, Settled, Tracked, Pending;
    var w' := Step(w, op).0;
    StepTracks(w, op);
    Issued(w, op);
    AddsOwn(w, op);
    assert ([op] + ops)[1..] == ops;
    CollectsNothing(w, op);
    RunCarries(w', ops, w.issued, op.callback);
  }

  lemma AddsOwn(w: Wheel, op: Op)
    requires Sound(w) && op.Add?
    ensures Step(w, op).0.Shaped() && Carries(Step(w, op).0, w.issued, op.callback)
  {
    forall m: Node | m.id == w.issued && Pending(Step(w, op).0)[m] > 0 ensures m.callback == op.callback {
      AddPending(w, op, m);
    }
  }

  lemma CollectsNothing(w: Wheel, op: Op)
    requires w.Shaped() && op.Add?
    ensures Step(w, op).1 == []
  {
  }

  /** asked[c] is the callback that timer c was asked for with. */
  ghost predicate AskedFor(w: Wheel, asked: seq<nat>)
    requires w.Shaped()
  {
    |asked| == w.issued && forall c | 0 <= c < |asked| :: Carries(w, c, asked[c])
  }

  /** Every step keeps the record of what was asked for, and collects by it. */
  lemma StepAsked(w: Wheel, op: Op, asked: seq<nat>)
    requires w.Shaped() && Sound(w) && AskedFor(w, asked)
    ensures AskedFor(Step(w, op).0, if op.Add? then asked + [op.callback] else asked)
    ensures forall n | n in Step(w, op).1 :: n.id < |asked| && n.callback == asked[n.id]
  {
    hide Step, Settled, Pending, Carries;
    Issued(w, op);
    forall c: nat | c < |asked|
      ensures Carries(Step(w, op).0, c, asked[c])
      ensures forall n | n in Step(w, op).1 && n.id == c :: n.callback == asked[c] {
      StepCarries(w, op, c, asked[c]);
    }
    if op.Add? {
      AddsOwn(w, op);
    }
    forall n | n in Step(w, op).1 ensures n.id < |asked| {
      CollectedIssued(w, op, n);
    }
  }

  lemma CollectedIssued(w: Wheel, op: Op, n: Node)
    requires w.Shaped() && Sound(w) && n in Step(w, op).1
    ensures n.id < w.issued
  {
    hide Update, Pending, Placed;
    UpdateOrigin(w, Update(w).0, Update(w).1, n);
  }

  // ---------------------------------------------------------------------------------------
  // In what order timers run
  // ---------------------------------------------------------------------------------------

  /** Node a stands before node b in a list. */
  ghost predicate Precedes(list: seq<Node>, a: Node, b: Node) {
    exists i, j :: 0 <= i < j < |list| && list[i] == a && list[j] == b
  }

  lemma PrecedesMore(list: seq<Node>, more: seq<Node>, a: Node, b: Node)
    requires Precedes(list, a, b)
    ensures Precedes(list + more, a, b)
  {
    var i, j :| 0 <= i < j < |list| && list[i] == a && list[j] == b;
    assert (list + more)[i] == a && (list + more)[j] == b;
  }

  lemma PrecedesLast(list: seq<Node>, a: Node, b: Node)
    requires a in list
    ensures Precedes(list + [b], a, b)
  {
    var i :| 0 <= i < |list| && list[i] == a;
    assert (list + [b])[i] == a && (list + [b])[|list|] == b;
  }

  lemma PrecedesIn(list: seq<Node>, a: Node, b: Node)
    requires Precedes(list, a, b)
    ensures list != [] && a in list && b in list
  {
  }

  lemma PrecedesSplit(front: seq<Node>, n: Node, a: Node, b: Node)
    requires Precedes(front + [n], a, b)
    ensures Precedes(front, a, b) || (a in front && b == n)
  {
    var list := front + [n];
    var i, j :| 0 <= i < j < |list| && list[i] == a && list[j] == b;
    assert front[i] == a;
    if j < |front| {
      assert front[j] == b;
    }
  }

  /** A node that is filed goes behind those already in its slot. */
  lemma AddBehind(w: Wheel, n: Node, a: Node)
    requires w.Shaped() && a in At(w, SlotFor(n.expire, w.time))
    ensures Precedes(At(AddNode(w, n), SlotFor(n.expire, w.time)), a, n)
  {
    hide Precedes, SlotFor;
    PrecedesLast(At(w, SlotFor(n.expire, w.time)), a, n);
  }

  lemma AddKeepsOrder(w: Wheel, n: Node, p: Slot, a: Node, b: Node)
    requires w.Shaped() && IsSlot(p) && Precedes(At(w, p), a, b)
    ensures Precedes(At(AddNode(w, n), p), a, b)
  {
    hide Precedes;
    if SlotFor(n.expire, w.time) == p {
      PrecedesMore(At(w, p), [n], a, b);
    }
  }

  lemma {:induction false} AddAllKeepsOrder(w: Wheel, list: seq<Node>, p: Slot, a: Node, b: Node)
    requires w.Shaped() && IsSlot(p) && Precedes(At(w, p), a, b)
    ensures Precedes(At(AddAll(w, list), p), a, b)
    decreases |list|
  {
    hide Precedes, AddNode;
    if list != [] {
      var front, n := list[..|list| - 1], list[|list| - 1];
      AddAllKeepsOrder(w, front, p, a, b);
      AddKeepsOrder(AddAll(w, front), n, p, a, b);
    }
  }

  lemma {:induction false} AddAllHas(w: Wheel, list: seq<Node>, a: Node)
    requires w.Shaped() && a in list
    ensures a in At(AddAll(w, list), SlotFor(a.expire, w.time))
    decreases |list|
  {
    var front, n := list[..|list| - 1], list[|list| - 1];
    assert list == front + [n];
    if a in front {
      AddAllHas(w, front, a);
    }
  }

  /** Nodes of one expiry that are filed one after the other end up in one slot, in that order. */
  lemma {:induction false} AddAllInOrder(w: Wheel, list: seq<Node>, a: Node, b: Node)
    requires w.Shaped() && Precedes(list, a, b) && a.expire == b.expire
    ensures Precedes(At(AddAll(w, list), SlotFor(a.expire, w.time)), a, b)
    decreases |list|
  {
    hide Precedes, AddNode, SlotFor;
    PrecedesIn(list, a, b);
    var front, n := list[..|list| - 1], list[|list| - 1];
    var p := SlotFor(a.expire, w.time);
    assert list == front + [n];
    PrecedesSplit(front, n, a, b);
    if Precedes(front, a, b) {
      AddAllInOrder(w, front, a, b);
      AddKeepsOrder(AddAll(w, front), n, p, a, b);
    } else {
      AddAllHas(w, front, a);
      AddBehind(AddAll(w, front), n, a);
    }
  }

  lemma MoveKeepsOrder(w: Wheel, e: Slot, p: Slot, a: Node, b: Node) returns (q: Slot)
    requires w.Shaped() && IsSlot(e) && e.Level? && InBlock(w, e.i, e.k)
    requires IsSlot(p) && !IsDeadSlot(p) && Precedes(At(w, p), a, b) && a.expire == b.expire
    ensures IsSlot(q) && !IsDeadSlot(q) && Precedes(At(MoveList(w, e.i, e.k), q), a, b)
  {
    hide Precedes, SlotFor, AddAll;
    var list := At(w, e);
    if p == e {
      q := SlotFor(a.expire, w.time);
      PrecedesIn(list, a, b);
      Descends(a, w.time, e.i);
      AddAllInOrder(w, list, a, b);
    } else {
      q := p;
      AddAllKeepsOrder(w, list, p, a, b);
    }
  }

  lemma ShiftKeepsOrder(w: Wheel, p: Slot, a: Node, b: Node) returns (q: Slot)
    requires Settled(w) && IsSlot(p) && !IsDeadSlot(p) && Precedes(At(w, p), a, b) && a.expire == b.expire
    ensures IsSlot(q) && !IsDeadSlot(q) && Precedes(At(Shift(w), q), a, b)
  {
    hide Precedes, Placed, MoveList, Entered;
    AdvancePlaced(w);
    var w1 := Advance(w);
    assert At(w1, p) == At(w, p);
    match Entered(w1.time)
    case None => q := p;
    case Some(e) => q := MoveKeepsOrder(w1, e, p, a, b);
  }

  predicate BothLive(cancelled: set<nat>, a: Node, b: Node) {
    !IsCancelled(cancelled, a) && !IsCancelled(cancelled, b)
  }

  lemma {:induction false} LiveKeepsOrder(cancelled: set<nat>, list: seq<Node>, a: Node, b: Node)
    requires Precedes(list, a, b) && BothLive(cancelled, a, b)
    ensures Precedes(Live(cancelled, list), a, b)
    decreases |list|
  {
    hide Precedes;
    PrecedesIn(list, a, b);
    var front, n := list[..|list| - 1], list[|list| - 1];
    assert list == front + [n];
    PrecedesSplit(front, n, a, b);
    FilterLast((n: Node) => !IsCancelled(cancelled, n), front, n);
    if Precedes(front, a, b) {
      LiveKeepsOrder(cancelled, front, a, b);
      PrecedesMore(Live(cancelled, front), [n], a, b);
    } else {
      PrecedesLast(Live(cancelled, front), a, b);
    }
  }

  /** The slot that is drained holds them in order, or the drain leaves them in order where they are. */
  lemma ExecuteInOrder(w: Wheel, p: Slot, a: Node, b: Node)
    requires w.Shaped() && Placed(w) && IsSlot(p) && !IsDeadSlot(p) && Precedes(At(w, p), a, b) && a.expire == b.expire
    ensures a.expire == w.time ==> Precedes(Due(w), a, b)
    ensures a.expire != w.time ==> Precedes(At(Execute(w).0, p), a, b)
  {
    hide Precedes, AddAll;
    var near := Near(w.time % TIME_NEAR);
    PrecedesIn(At(w, p), a, b);
    assert PlacedIn(p, a, w.time);
    DueExpiresNow(w);
    if a.expire != w.time {
      assert p != near;
      AddAllKeepsOrder(Put(w, near, []), Successors(Live(w.cancelled, Due(w)), w.time), p, a, b);
    }
  }

  /** One update runs two such timers in their order, or leaves them in that order. */
  lemma UpdateInOrder(w: Wheel, p: Slot, a: Node, b: Node, w': Wheel, fired: seq<Node>) returns (q: Slot)
    requires w.Shaped() && Settled(w) && IsSlot(p) && !IsDeadSlot(p) && Precedes(At(w, p), a, b) && a.expire == b.expire
    requires (w', fired) == Update(w)
    ensures a.expire == w'.time && BothLive(w.cancelled, a, b) ==> Precedes(fired, a, b)
    ensures a.expire != w'.time ==> IsSlot(q) && !IsDeadSlot(q) && Precedes(At(w', q), a, b)
  {
    hide Precedes, Placed, Shift, Live;
    UpdateUnfolds(w);
    ShiftRefines(w, a);
    q := ShiftKeepsOrder(w, p, a, b);
    ExecuteInOrder(Shift(w), q, a, b);
    if a.expire == w'.time && BothLive(w.cancelled, a, b) {
      LiveKeepsOrder(w.cancelled, Due(Shift(w)), a, b);
    }
  }

  /** The wheel after a run. */
  function RunAll(w: Wheel, ops: seq<Op>): (r: Wheel)
    requires w.Shaped()
    ensures r.Shaped()
    decreases |ops|
  {
    if ops == [] then w else RunAll(Step(w, ops[0]).0, ops[1..])
  }

  lemma {:induction false} CancelledStays(w: Wheel, ops: seq<Op>, id: nat)
    requires w.Shaped() && id in w.cancelled
    ensures id in RunAll(w, ops).cancelled
    decreases |ops|
  {
    if ops != [] {
      CancelledStays(Step(w, ops[0]).0, ops[1..], id);
    }
  }

  /** Two timers in order in one slot, whatever happens until they come due: they run in that order. */
  lemma {:induction false} CollectedInOrder(w: Wheel, p: Slot, a: Node, b: Node, ops: seq<Op>, fired: seq<Node>)
    requires w.Shaped() && Sound(w) && IsSlot(p) && !IsDeadSlot(p) && Precedes(At(w, p), a, b) && a.expire == b.expire
    requires Left(a.expire, w.time) == Updates(ops) + 1 && fired == Update(RunAll(w, ops)).1
    requires a.id !in RunAll(w, ops).cancelled && b.id !in RunAll(w, ops).cancelled
    ensures Precedes(fired, a, b)
    decreases |ops|
  {
    hide Precedes, Tracked, Placed, Update, Issue, Left;
    if ops == [] {
      TickLeft(a.expire, w.time);
      NoneLeft(a.expire, Update(w).0.time);
      var q := UpdateInOrder(w, p, a, b, Update(w).0, fired);
    } else {
      var w' := Step(w, ops[0]).0;
      StepTracks(w, ops[0]);
      var q := p;
      match ops[0] {
        case Add(_, _, _) => AddOrder(w, ops[0], p, a, b);
        case Cancel(_) => assert At(w', p) == At(w, p);
        case Tock =>
          TickLeft(a.expire, w.time);
          NoneLeft(a.expire, w'.time);
          q := UpdateInOrder(w, p, a, b, w', Update(w).1);
      }
      CollectedInOrder(w', q, a, b, ops[1..], fired);
    }
  }

  lemma NoneLeft(expire: Tick, time: Tick)
    ensures Left(expire, time) == 0 <==> expire == time
  {
  }

  lemma AddOrder(w: Wheel, op: Op, p: Slot, a: Node, b: Node)
    requires w.Shaped() && op.Add? && IsSlot(p) && Precedes(At(w, p), a, b)
    ensures Precedes(At(Step(w, op).0, p), a, b)
  {
    hide Precedes, AddNode;
    var n := TimerNode(w.time, op.ticks, op.callback, op.recurring, w.issued);
    AddKeepsOrder(w, n, p, a, b);
    assert At(Issue(w, n), p) == At(AddNode(w, n), p);
  }

  lemma {:induction false} RunSound(w: Wheel, ops: seq<Op>)
    requires w.Shaped() && Sound(w)
    ensures Sound(RunAll(w, ops))
    decreases |ops|
  {
    hide Sound, Step;
    if ops != [] {
      StepTracks(w, ops[0]);
      RunSound(Step(w, ops[0]).0, ops[1..]);
    }
  }

  lemma {:induction false} RunAppend(w: Wheel, ops: seq<Op>, more: seq<Op>)
    requires w.Shaped()
    ensures RunAll(w, ops + more) == RunAll(RunAll(w, ops), more)
    decreases |ops|
  {
    hide Step;
    if ops == [] {
      assert ops + more == more;
    } else {
      assert (ops + more)[1..] == ops[1..] + more;
      RunAppend(Step(w, ops[0]).0, ops[1..], more);
    }
  }

  lemma {:induction false} GatheredAppend(w: Wheel, ops: seq<Op>, more: seq<Op>)
    requires w.Shaped()
    ensures Gathered(w, ops + more) == Gathered(w, ops) + Gathered(RunAll(w, ops), more)
    decreases |ops|
  {
    hide Step;
    if ops == [] {
      assert ops + more == more;
    } else {
      assert (ops + more)[1..] == ops[1..] + more;
      GatheredAppend(Step(w, ops[0]).0, ops[1..], more);
    }
  }

  /** Between two updates nothing leaves a slot. */
  lemma {:induction false} StaysFiled(w: Wheel, ops: seq<Op>, p: Slot, n: Node)
    requires w.Shaped() && IsSlot(p) && n in At(w, p) && Updates(ops) == 0
    ensures RunAll(w, ops).time == w.time && n in At(RunAll(w, ops), p)
    decreases |ops|
  {
    if ops != [] {
      var w' := Step(w, ops[0]).0;
      assert At(w', p) == At(w, p) || exists m :: At(w', p) == At(w, p) + [m] by {
        if ops[0].Add? {
          var m := TimerNode(w.time, ops[0].ticks, ops[0].callback, ops[0].recurring, w.issued);
          assert At(w', p) == At(AddNode(w, m), p);
        }
      }
      StaysFiled(w', ops[1..], p, n);
    }
  }

  /** Timer c runs before timer d among the nodes collected. */
  ghost predicate RunsBefore(fired: seq<Node>, c: nat, d: nat) {
    exists i, j :: 0 <= i < j < |fired| && fired[i].id == c && fired[j].id == d
  }

  /** The two timers of AskedInOrder are in one slot, in that order. */
  lemma BothFiled(w: Wheel, a: Op, between: seq<Op>, b: Op, w2: Wheel) returns (p: Slot, x: Node, y: Node, w3: Wheel)
    requires w.Shaped() && Sound(w) && a.Add? && b.Add? && a.ticks == b.ticks && Updates(between) == 0
    requires !Stranded(w.time, (w.time + a.ticks) % TICKS) && w2 == RunAll(w, [a] + between)
    ensures x.id == w.issued && y.id == w2.issued && x.expire == y.expire == (w.time + a.ticks) % TICKS
    ensures w3.Shaped() && Sound(w3) && w3 == Step(w2, b).0 && w3.time == w.time
    ensures IsSlot(p) && !IsDeadSlot(p) && Precedes(At(w3, p), x, y)
  {
    hide Sound, Step, Stranded, SlotFor, Precedes;
    x := TimerNode(w.time, a.ticks, a.callback, a.recurring, w.issued);
    p := SlotFor(x.expire, w.time);
    var w1 := Filed(w, a, x);
    assert ([a] + between)[1..] == between;
    StaysFiled(w1, between, p, x);
    y := TimerNode(w2.time, b.ticks, b.callback, b.recurring, w2.issued);
    w3 := FiledBehind(w2, b, x, y);
    RunSound(w, [a] + between);
    StepTracks(w2, b);
    NotDead(w.time, x.expire);
  }

  /** Two timers asked for in the same tick and with the same delay run in the order of asking. */
  lemma AskedInOrder(w: Wheel, a: Op, between: seq<Op>, b: Op, ops: seq<Op>, second: nat, r: Wheel, fired: seq<Node>)
    requires w.Shaped() && Sound(w) && a.Add? && b.Add? && a.ticks == b.ticks == Updates(ops) + 1
    requires Updates(between) == 0 && second == RunAll(w, [a] + between).issued
    requires r == RunAll(w, ([a] + between) + ([b] + ops)) && fired == Update(r).1
    requires !Stranded(w.time, (w.time + a.ticks) % TICKS) && w.issued !in r.cancelled && second !in r.cancelled
    ensures RunsBefore(fired, w.issued, second)
  {
    hide Sound, Step, Stranded, SlotFor, Update, Left, RunsBefore, Precedes, At, IsSlot, IsDeadSlot;
    var w2 := RunAll(w, [a] + between);
    var p, x, y, w3 := BothFiled(w, a, between, b, w2);
    RunAppend(w, [a] + between, [b] + ops);
    assert ([b] + ops)[1..] == ops;
    LeftAfter(w.time, a.ticks);
    CollectedInOrder(w3, p, x, y, ops, fired);
    OrderOfIds(fired, x, y);
  }

  lemma OrderOfIds(list: seq<Node>, a: Node, b: Node)
    requires Precedes(list, a, b)
    ensures RunsBefore(list, a.id, b.id)
  {
  }

  lemma NotDead(time: Tick, expire: Tick)
    requires !Stranded(time, expire)
    ensures !IsDeadSlot(SlotFor(expire, time))
  {
  }

  lemma Filed(w: Wheel, op: Op, n: Node) returns (r: Wheel)
    requires w.Shaped() && op.Add? && n == TimerNode(w.time, op.ticks, op.callback, op.recurring, w.issued)
    ensures r == Step(w, op).0 && r.time == w.time && r.Shaped() && n in At(r, SlotFor(n.expire, w.time))
  {
    r := Step(w, op).0;
    assert At(r, SlotFor(n.expire, w.time)) == At(AddNode(w, n), SlotFor(n.expire, w.time));
  }

  lemma FiledBehind(w: Wheel, op: Op, a: Node, n: Node) returns (r: Wheel)
    requires w.Shaped() && op.Add? && n == TimerNode(w.time, op.ticks, op.callback, op.recurring, w.issued)
    requires a in At(w, SlotFor(n.expire, w.time))
    ensures r == Step(w, op).0 && r.Shaped() && Precedes(At(r, SlotFor(n.expire, w.time)), a, n)
    ensures r.time == w.time
  {
    r := Step(w, op).0;
    AddBehind(w, n, a);
    assert At(r, SlotFor(n.expire, w.time)) == At(AddNode(w, n), SlotFor(n.expire, w.time));
  }
}
