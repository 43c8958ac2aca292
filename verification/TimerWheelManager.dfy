/** The timing wheel as the program keeps it: slot lists rewritten in place by loops. Every method is
    proved equal to the corresponding function of TimerWheel on the state of the object. */
module TimerWheelManagers {
  import opened Prelude
  import opened TimerWheel
  import opened WheelRuns
  import opened WheelTasks

  /** The callbacks of collected nodes, in the order in which they are handed out. */
  function Callbacks(list: seq<Node>): seq<nat> {
    seq(|list|, k requires 0 <= k < |list| => list[k].callback)
  }

  /** int division as C++ does it, towards zero. */
  function TruncatedDiv(x: int, d: nat): int
    requires d > 0
  {
    if x >= 0 then x / d else -(-x / d)
  }

  /** (uint32_t)clock. */
  function TickOf(clock: nat): Tick {
    clock % TICKS
  }

  /** (uint32_t)(cp - point) for 64-bit cp and point. */
  function TickGap(cp: nat, point: nat): Tick {
    (cp - point) % (TICKS * TICKS) % TICKS
  }

  lemma GapZero(cp: nat)
    ensures TickGap(cp, cp) == 0
  {
  }

  /** The ticks of a gap are all counted exactly when the clock did not go back and the gap fits 32 bits;
      otherwise whole turns of the 32-bit tick are lost, or gained. */
  lemma GapExact(cp: nat, point: nat)
    requires cp < TICKS * TICKS && point < TICKS * TICKS
    ensures TickGap(cp, point) == cp - point <==> 0 <= cp - point < TICKS
    ensures (TickGap(cp, point) - (cp - point)) % TICKS == 0
  {
    var gap, word := cp - point, TICKS * TICKS;
    var low := gap % word;
    assert gap == word * (gap / word) + low && low == TICKS * (low / TICKS) + low % TICKS;
    Congruent(low % TICKS - gap, 0, TICKS, -TICKS * (gap / word) - low / TICKS);
  }

  /** `count` updates in a row, and everything they collect. */
  function UpdateTimes(w: Wheel, count: nat): (r: (Wheel, seq<Node>))
    requires w.Shaped()
    ensures r.0.Shaped()
  {
    if count == 0 then (w, [])
    else
      var (w1, f1) := UpdateTimes(w, count - 1);
      var (w2, f2) := Update(w1);
      (w2, f1 + f2)
  }

  class TimerWheelManager {
    var near: seq<seq<Node>>
    var t: seq<seq<seq<Node>>>
    var time: Tick
    var current: nat
    var currentPoint: nat
    /** The timers whose _cancel flag is set, and how many have been handed out. */
    var cancelled: set<nat>
    var issued: nat
    /** The callback that each timer was asked for with. */
    ghost var asked: seq<nat>

    function State(): Wheel
      reads this
    {
      Wheel(near, t, time, cancelled, issued)
    }

    ghost predicate Valid()
      reads this
    {
      && State().Shaped()
      && Sound(State())
      && AskedFor(State(), asked)
      && TickOf(current) == time
      && currentPoint < TICKS * TICKS
    }

    constructor (now: nat)
      requires now < TICKS * TICKS
      ensures Valid() && time == 0 && current == 0 && currentPoint == now
      ensures cancelled == {} && asked == [] && Pending(State()) == multiset{} && Stuck(State()) == multiset{}
    {
      near := seq(TIME_NEAR, _ => []);
      t := seq(4, _ => seq(TIME_LEVEL, _ => []));
      time, current, currentPoint := 0, 0, now;
      cancelled, issued, asked := {}, 0, [];
      new;
      EmptySound(State());
    }

    /** Files a node by its distance to expiry. */
    method AddNode(n: Node)
      requires State().Shaped()
      modifies `near, `t
      ensures State() == TimerWheel.AddNode(old(State()), n)
    {
      var msec := (n.expire - time) % TICKS;
      if msec < TIME_NEAR {
        near := near[n.expire % TIME_NEAR := near[n.expire % TIME_NEAR] + [n]];
      } else if msec < 0x4000 {
        var k := n.expire / 0x100 % TIME_LEVEL;
        t := t[0 := t[0][k := t[0][k] + [n]]];
      } else if msec < 0x10_0000 {
        var k := n.expire / 0x4000 % TIME_LEVEL;
        t := t[1 := t[1][k := t[1][k] + [n]]];
      } else if msec < 0x400_0000 {
        var k := n.expire / 0x10_0000 % TIME_LEVEL;
        t := t[2 := t[2][k := t[2][k] + [n]]];
      } else {
        var k := n.expire / 0x400_0000 % TIME_LEVEL;
        t := t[3 := t[3][k := t[3][k] + [n]]];
      }
    }

    /** Refiles every node of a slot while walking the slot itself, then clears it. The walk ends
        because no node goes back into the list being walked. */
    method MoveList(i: nat, idx: nat)
      requires State().Shaped() && IsSlot(Level(i, idx)) && InBlock(State(), i, idx)
      modifies `near, `t
      ensures State() == TimerWheel.MoveList(old(State()), i, idx)
    {
      ghost var w, list := State(), t[i][idx];
      DescendAll(list, time, i);
      var j := 0;
      while j < |t[i][idx]|
        invariant j <= |list| && State() == AddAll(w, list[..j])
        invariant t[i][idx] == list
        decreases |list| - j
      {
        MoveStep(w, State(), i, idx, list, j);
        AddNode(t[i][idx][j]);
        j := j + 1;
      }
      assert list[..j] == list;
      assert At(w, Level(i, idx)) == list;
      t := t[i := t[i][idx := []]];
    }

    /** Drains the near slot of the current tick from the front, filing the successor of every
        recurring node it collects while the slot is still being drained. */
    method TimerExecute(tasks: seq<nat>) returns (r: seq<nat>)
      requires State().Shaped() && Placed(State())
      modifies `near, `t
      ensures State() == Execute(old(State())).0
      ensures r == tasks + Callbacks(Execute(old(State())).1)
    {
      hide Drained, Execute, Placed, Handled, TimerWheel.AddNode, Live;
      ghost var w, list := State(), Due(State());
      DueExpiresNow(w);
      DrainBegins(w);
      var idx := time % TIME_NEAR;
      r := tasks;
      ghost var j := 0;
      while near[idx] != []
        invariant State().Shaped() && time == w.time && cancelled == w.cancelled
        invariant j <= |list| && Drained(w, State(), j)
        invariant r == tasks + Callbacks(Live(w.cancelled, list[..j]))
        decreases |list| - j
      {
        ghost var before := State();
        DrainHead(w, before, j);
        var n := near[idx][0];
        LiveNext(w.cancelled, list, j);
        if !(n.first && n.id in cancelled) {
          r := r + [n.callback];
          if n.recurring {
            var next := Successor(n, time);
            AddNode(next);
            assert State() == TimerWheel.AddNode(before, next);
          }
        }
        ghost var filed := State();
        HandledBy(w, before, filed, n);
        DrainKeeps(w, before, filed, j);
        near := near[idx := near[idx][1..]];
        DrainNext(w, before, filed, State(), j);
        j := j + 1;
      }
      DrainHead(w, State(), j);
      DrainEnds(w, State(), j);
    }

    /** Advances the tick and, at a carry, finds the slot entered as an odometer would. */
    method TimerShift()
      requires State().Shaped() && Settled(State())
      modifies `near, `t, `time
      ensures State() == Shift(old(State()))
    {
      hide Settled, Placed, TimerWheel.MoveList, Entered, Carrying;
      AdvancePlaced(State());
      time := (time + 1) % TICKS;
      var ct := time;
      EnteredZero();
      if ct == 0 {
        MoveList(3, 0);
      } else {
        var mask, rest, i := TIME_NEAR, ct / TIME_NEAR, 0;
        CarryBegins(ct);
        while ct % mask == 0
          invariant i < 4 && mask > 0 && rest >= 0 && Carrying(ct, i, mask, rest)
          invariant State() == Advance(old(State()))
          decreases 4 - i
        {
          CarryStep(ct, i, mask, rest);
          var idx := rest % TIME_LEVEL;
          if idx != 0 {
            MoveList(i, idx);
            return;
          }
          mask := mask * TIME_LEVEL;
          rest := rest / TIME_LEVEL;
          i := i + 1;
        }
        CarryEnds(ct, i, mask, rest);
      }
    }

    method TimerUpdate() returns (tasks: seq<nat>)
      requires State().Shaped() && Settled(State())
      modifies `near, `t, `time
      ensures State() == Update(old(State())).0 && State().Shaped() && Settled(State())
      ensures tasks == Callbacks(Update(old(State())).1)
    {
      hide Execute, Shift, Placed, Stranded, Kept, PlainUpdate;
      ghost var w := State();
      FirstExecuteIdle(w);
      UpdateUnfolds(w);
      UpdateRefines(w, Update(w).0, Update(w).1);
      ShiftRefines(w, TimerWheel.Node(0, 0, 0, false, 0, false));
      tasks := TimerExecute([]);
      TimerShift();
      tasks := TimerExecute(tasks);
    }

    /** Asks for `callback` in timeMs milliseconds, ten of which are one tick. Less than one tick
        runs it on the spot and files nothing. */
    method AddTimer(timeMs: int, callback: nat, recurring: bool) returns (timer: Option<nat>, ranNow: seq<nat>)
      requires Valid() && -0x8000_0000 <= timeMs < 0x8000_0000
      modifies `near, `t, `issued, `asked
      ensures Valid()
      ensures if timeMs < 10 then
                timer == None && ranNow == [callback] && State() == old(State()) && asked == old(asked)
              else
                && timer == Some(old(issued)) && ranNow == [] && asked == old(asked) + [callback]
                && State() == Step(old(State()), Add(timeMs / 10, callback, recurring)).0
    {
      hide Settled, Tracked, TimerWheel.AddNode, AskedFor;
      var ticks := TruncatedDiv(timeMs, 10);
      timer, ranNow := None, [];
      if ticks <= 0 {
        ranNow := [callback];
        return;
      }
      StepTracks(State(), Add(ticks, callback, recurring));
      StepAsked(State(), Add(ticks, callback, recurring), asked);
      asked := asked + [callback];
      timer := Some(issued);
      AddNode(TimerNode(time, ticks, callback, recurring, issued));
      issued := issued + 1;
    }

    /** DelTimer and TimerW::Cancel: the node stays where it is and is skipped when it comes due. */
    method DelTimer(timer: nat)
      requires Valid() && timer < issued
      modifies `cancelled
      ensures Valid() && State() == Step(old(State()), Cancel(timer)).0
    {
      hide Settled, Tracked, AskedFor;
      StepTracks(State(), Cancel(timer));
      StepAsked(State(), Cancel(timer), asked);
      cancelled := cancelled + {timer};
    }

    /** TimerW::Refresh: cancels the timer and asks for a new one with the same delay and callback. */
    method Refresh(n: Node) returns (timer: Option<nat>)
      requires Valid() && n.first && n.id < issued && 1 <= n.sub <= 214748364
      modifies `near, `t, `issued, `cancelled, `asked
      ensures Valid() && timer == Some(old(issued)) && asked == old(asked) + [n.callback]
      ensures State() == Step(Step(old(State()), Cancel(n.id)).0, Add(n.sub, n.callback, n.recurring)).0
    {
      hide Settled, Tracked, Step, AskedFor;
      DelTimer(n.id);
      var ranNow;
      timer, ranNow := AddTimer(n.sub * 10, n.callback, n.recurring);
    }

    method ClearTimer()
      requires Valid()
      modifies `near, `t
      ensures Valid() && time == old(time)
      ensures Pending(State()) == multiset{} && Stuck(State()) == multiset{}
    {
      hide Settled, At, Pending, Stuck, OnlyPending, AskedFor;
      ghost var w := State();
      var j := 0;
      while j < TIME_NEAR
        invariant State().Shaped() && j <= TIME_NEAR
        invariant forall k | 0 <= k < j :: near[k] == []
      {
        near := near[j := []];
        j := j + 1;
      }
      ghost var cleared := near;
      var i := 0;
      while i < 4
        invariant State().Shaped() && i <= 4 && near == cleared
        invariant forall l, k | 0 <= l < i && 0 <= k < TIME_LEVEL :: t[l][k] == []
      {
        var k := 0;
        while k < TIME_LEVEL
          invariant State().Shaped() && k <= TIME_LEVEL && near == cleared
          invariant forall m | 0 <= m < k :: t[i][m] == []
          invariant forall l, m | 0 <= l < i && 0 <= m < TIME_LEVEL :: t[l][m] == []
        {
          t := t[i := t[i][k := []]];
          k := k + 1;
        }
        i := i + 1;
      }
      EmptySound(State());
      EmptyAsked(w, State(), asked);
    }

    /** The loop of ExpireTimer. */
    method UpdateBy(diff: nat) returns (tasks: seq<nat>)
      requires State().Shaped() && Sound(State()) && AskedFor(State(), asked)
      modifies `near, `t, `time
      ensures State().Shaped() && Sound(State()) && AskedFor(State(), asked)
      ensures Updated(old(State()), diff, State(), tasks) && RunsAsked(old(State()), diff, tasks, asked)
    {
      hide Update, StateAfter, Collected, Settled, Tracked, AskedFor, RunsAsked;
      ghost var w := State();
      UpdatedZero(w);
      AskedZero(w, asked);
      tasks := [];
      var i := 0;
      while i < diff
        invariant i <= diff && State().Shaped() && Sound(State()) && Updated(w, i, State(), tasks)
        invariant AskedFor(State(), asked) && RunsAsked(w, i, tasks, asked)
      {
        ghost var before := State();
        StepTracks(before, Tock);
        StepAsked(before, Tock, asked);
        var more := TimerUpdate();
        UpdatedNext(w, i, before, State(), tasks, more);
        AskedNext(w, i, before, tasks, more, asked);
        tasks := tasks + more;
        i := i + 1;
      }
    }

    /** Catches up with the system clock `cp`: one update for every tick of the gap, counted in 32
        bits. The tick stays `current` modulo 2^32 always. */
    method ExpireTimer(cp: nat) returns (tasks: seq<nat>)
      requires Valid() && cp < TICKS * TICKS
      modifies `near, `t, `time, `current, `currentPoint
      ensures Valid() && currentPoint == cp
      ensures Updated(old(State()), TickGap(cp, old(currentPoint)), State(), tasks)
      ensures RunsAsked(old(State()), TickGap(cp, old(currentPoint)), tasks, asked)
      ensures current == old(current) + TickGap(cp, old(currentPoint))
    {
      hide TickOf, TickGap, StateAfter, Collected, Settled, Tracked, AskedFor;
      tasks := [];
      GapZero(cp);
      UpdatedZero(State());
      if cp != currentPoint {
        ghost var w := State();
        var diff := TickGap(cp, currentPoint);
        ClockKept(w, diff, current);
        currentPoint := cp;
        current := current + diff;
        tasks := UpdateBy(diff);
      }
    }
  }

  lemma EmptySound(w: Wheel)
    requires w.Shaped() && forall id | id in w.cancelled :: id < w.issued
    requires (forall k | 0 <= k < TIME_NEAR :: w.near[k] == [])
    requires forall i, k | 0 <= i < 4 && 0 <= k < TIME_LEVEL :: w.t[i][k] == []
    ensures Sound(w) && Pending(w) == multiset{} && Stuck(w) == multiset{}
  {
    EmptyHolds(w);
    forall p | IsSlot(p) ensures At(w, p) == [] { }
  }

  lemma EmptyAsked(w: Wheel, w': Wheel, asked: seq<nat>)
    requires w.Shaped() && AskedFor(w, asked)
    requires w'.Shaped() && Pending(w') == multiset{} && w'.issued == w.issued
    ensures AskedFor(w', asked)
  {
  }

  lemma EmptyHolds(w: Wheel)
    requires w.Shaped()
    requires (forall k | 0 <= k < TIME_NEAR :: w.near[k] == [])
    requires forall i, k | 0 <= i < 4 && 0 <= k < TIME_LEVEL :: w.t[i][k] == []
    ensures Pending(w) == multiset{} && Stuck(w) == multiset{}
  {
    SumEmpty(w.near, 0);
    SumEmpty(w.t[0], 1);
    SumEmpty(w.t[1], 1);
    SumEmpty(w.t[2], 1);
    SumEmpty(w.t[3], 0);
  }

  /** State and tasks after i updates from w. */
  ghost predicate Updated(w: Wheel, i: nat, s: Wheel, tasks: seq<nat>)
    requires w.Shaped()
  {
    s == StateAfter(w, i) && tasks == Collected(w, i)
  }

  /** The tasks of i updates from w: one for every node collected, in order, and each the callback that its
      timer was asked for with. */
  ghost predicate RunsAsked(w: Wheel, i: nat, tasks: seq<nat>, asked: seq<nat>)
    requires w.Shaped()
  {
    var nodes := UpdateTimes(w, i).1;
    && |tasks| == |nodes|
    && forall k | 0 <= k < |nodes| :: nodes[k].id < |asked| && tasks[k] == asked[nodes[k].id]
  }

  lemma AskedZero(w: Wheel, asked: seq<nat>)
    requires w.Shaped()
    ensures RunsAsked(w, 0, [], asked)
  {
  }

  lemma AskedNext(w: Wheel, i: nat, s: Wheel, tasks: seq<nat>, more: seq<nat>, asked: seq<nat>)
    requires w.Shaped() && RunsAsked(w, i, tasks, asked) && s == StateAfter(w, i)
    requires more == Callbacks(Update(s).1)
    requires forall n | n in Update(s).1 :: n.id < |asked| && n.callback == asked[n.id]
    ensures RunsAsked(w, i + 1, tasks + more, asked)
  {
    hide Update;
    var nodes: seq<Node>, fired: seq<Node> := UpdateTimes(w, i).1, Update(s).1;
    assert UpdateTimes(w, i + 1).1 == nodes + fired;
    forall k | 0 <= k < |nodes + fired|
      ensures (nodes + fired)[k].id < |asked| && (tasks + more)[k] == asked[(nodes + fired)[k].id] {
      assert k >= |nodes| ==> (nodes + fired)[k] == fired[k - |nodes|] && fired[k - |nodes|] in fired;
    }
  }

  /** Catching up is a run of updates and nothing else, so all that is said of runs holds of it. */
  lemma {:induction false} CatchUpIsRun(w: Wheel, i: nat)
    requires w.Shaped()
    ensures UpdateTimes(w, i) == (RunAll(w, Tocks(i)), Gathered(w, Tocks(i)))
  {
    hide Update, Step;
    if i > 0 {
      CatchUpIsRun(w, i - 1);
      RunAppend(w, Tocks(i - 1), [Tock]);
      GatheredAppend(w, Tocks(i - 1), [Tock]);
      GatheredTock(RunAll(w, Tocks(i - 1)));
    }
  }

  function Tocks(i: nat): seq<Op> {
    if i == 0 then [] else Tocks(i - 1) + [Tock]
  }

  lemma GatheredTock(w: Wheel)
    requires w.Shaped()
    ensures RunAll(w, [Tock]) == Update(w).0 && Gathered(w, [Tock]) == Update(w).1
  {
    hide Update;
    assert [Tock][1..] == [];
    assert Step(w, Tock) == Update(w);
  }

  function StateAfter(w: Wheel, i: nat): (r: Wheel)
    requires w.Shaped()
    ensures r.Shaped()
  {
    UpdateTimes(w, i).0
  }

  function Collected(w: Wheel, i: nat): seq<nat>
    requires w.Shaped()
  {
    Callbacks(UpdateTimes(w, i).1)
  }

  lemma UpdatedNext(w: Wheel, i: nat, s: Wheel, s': Wheel, tasks: seq<nat>, more: seq<nat>)
    requires w.Shaped() && Updated(w, i, s, tasks) && s.Shaped()
    requires s' == Update(s).0 && more == Callbacks(Update(s).1)
    ensures Updated(w, i + 1, s', tasks + more)
  {
    hide Update;
    CallbacksAppend(UpdateTimes(w, i).1, Update(s).1);
  }

  lemma UpdatedZero(w: Wheel)
    requires w.Shaped()
    ensures Updated(w, 0, w, [])
  {
  }

  /** The tick stays the clock modulo 2^32. */
  lemma {:induction false} ClockKept(w: Wheel, i: nat, clock: nat)
    requires w.Shaped() && TickOf(clock) == w.time
    ensures TickOf(clock + i) == StateAfter(w, i).time
  {
    hide Update;
    if i > 0 {
      ClockKept(w, i - 1, clock);
      WrapAdd(clock + i - 1, 1);
    }
  }

  lemma CallbacksAppend(a: seq<Node>, b: seq<Node>)
    ensures Callbacks(a + b) == Callbacks(a) + Callbacks(b)
  {
  }

  lemma {:induction false} SumEmpty(slots: seq<seq<Node>>, from: nat)
    requires forall k | 0 <= k < |slots| :: slots[k] == []
    ensures Sum(slots, from) == multiset{}
    decreases |slots| - from
  {
    if from < |slots| {
      SumEmpty(slots, from + 1);
    }
  }

  lemma AddAvoids(w: Wheel, n: Node, p: Slot)
    requires w.Shaped() && IsSlot(p) && SlotFor(n.expire, w.time) != p
    ensures At(AddNode(w, n), p) == At(w, p)
    ensures forall content :: Put(AddNode(w, n), p, content) == AddNode(Put(w, p, content), n)
  {
    forall content ensures Put(AddNode(w, n), p, content) == AddNode(Put(w, p, content), n) {
      SameWheel(Put(AddNode(w, n), p, content), AddNode(Put(w, p, content), n));
    }
  }

  /** Refiling node j of a list leaves the list alone. */
  lemma MoveStep(w: Wheel, s: Wheel, i: nat, idx: nat, list: seq<Node>, j: nat)
    requires w.Shaped() && IsSlot(Level(i, idx)) && j < |list| && s == AddAll(w, list[..j]) && s.t[i][idx] == list
    requires SlotFor(list[j].expire, w.time) != Level(i, idx)
    ensures AddNode(s, list[j]) == AddAll(w, list[..j + 1]) && AddNode(s, list[j]).t[i][idx] == list
  {
    hide AddAll, AddNode, SlotFor, Put;
    AddAvoids(s, list[j], Level(i, idx));
    AddAllLast(w, list[..j], list[j]);
    assert list[..j + 1] == list[..j] + [list[j]];
    assert At(s, Level(i, idx)) == list && At(AddNode(s, list[j]), Level(i, idx)) == list;
  }

  lemma AddAllLast(w: Wheel, list: seq<Node>, n: Node)
    requires w.Shaped()
    ensures AddAll(w, list + [n]) == AddNode(AddAll(w, list), n)
  {
    assert (list + [n])[..|list|] == list;
  }

  /** State s of the drain of the near slot of wheel w after j nodes: the rest is still in the slot,
      and the successors of those of the j that were collected are filed. */
  ghost predicate Drained(w: Wheel, s: Wheel, j: nat)
    requires w.Shaped() && j <= |Due(w)|
  {
    && s.Shaped() && s.time == w.time && s.cancelled == w.cancelled
    && Due(s) == Due(w)[j..]
    && Put(s, Near(w.time % TIME_NEAR), [])
       == AddAll(Put(w, Near(w.time % TIME_NEAR), []), Successors(Live(w.cancelled, Due(w)[..j]), w.time))
  }

  lemma DrainBegins(w: Wheel)
    requires w.Shaped()
    ensures Drained(w, w, 0) && Callbacks(Live(w.cancelled, Due(w)[..0])) == []
  {
  }

  lemma LiveNext(cancelled: set<nat>, list: seq<Node>, j: nat)
    requires j < |list|
    ensures var fired := Live(cancelled, list[..j]); var n := list[j];
            && Live(cancelled, list[..j + 1]) == (if IsCancelled(cancelled, n) then fired else fired + [n])
            && Callbacks(fired + [n]) == Callbacks(fired) + [n.callback]
            && forall time :: Successors(fired + [n], time)
                              == Successors(fired, time) + if n.recurring then [Successor(n, time)] else []
  {
    var fired, n := Live(cancelled, list[..j]), list[j];
    assert list[..j + 1][..j] == list[..j];
    assert (fired + [n])[..|fired|] == fired;
  }

  /** The state after node j is handled and before it is erased. */
  ghost predicate Handled(w: Wheel, s: Wheel, s1: Wheel, n: Node)
    requires s.Shaped()
  {
    s1 == if n.recurring && !IsCancelled(w.cancelled, n) then AddNode(s, Successor(n, w.time)) else s
  }

  lemma HandledBy(w: Wheel, s: Wheel, s1: Wheel, n: Node)
    requires s.Shaped()
    requires n.recurring && !IsCancelled(w.cancelled, n) ==> s1 == AddNode(s, Successor(n, w.time))
    requires !(n.recurring && !IsCancelled(w.cancelled, n)) ==> s1 == s
    ensures Handled(w, s, s1, n)
  {
  }

  lemma DrainHead(w: Wheel, s: Wheel, j: nat)
    requires w.Shaped() && j <= |Due(w)| && Drained(w, s, j)
    ensures s.Shaped() && Due(s) == Due(w)[j..]
    ensures Due(s) != [] ==> j < |Due(w)| && Due(s)[0] == Due(w)[j] && Due(w)[j] in Due(w)
  {
  }

  /** Handling a node does not touch the list being drained. */
  lemma DrainKeeps(w: Wheel, s: Wheel, s1: Wheel, j: nat)
    requires w.Shaped() && j < |Due(w)| && Drained(w, s, j) && Due(w)[j].sub >= 1 && Handled(w, s, s1, Due(w)[j])
    ensures s1.Shaped() && s1.time == w.time && s1.cancelled == w.cancelled && Due(s1) == Due(w)[j..]
  {
    var n, p := Due(w)[j], Near(w.time % TIME_NEAR);
    SuccessorAvoids(n, w.time);
    AddAvoids(s, Successor(n, w.time), p);
    assert At(s, p) == Due(s) && At(s1, p) == Due(s1);
  }

  lemma DrainNext(w: Wheel, s: Wheel, s1: Wheel, s2: Wheel, j: nat)
    requires w.Shaped() && j < |Due(w)| && Drained(w, s, j) && Due(w)[j].sub >= 1 && Handled(w, s, s1, Due(w)[j])
    requires s1.Shaped() && s1.time == w.time && Due(s1) == Due(w)[j..]
    requires s2 == s1.(near := s1.near[w.time % TIME_NEAR := Due(s1)[1..]])
    ensures Drained(w, s2, j + 1)
  {
    var n, p := Due(w)[j], Near(w.time % TIME_NEAR);
    DrainErases(s1, s2);
    LiveNext(w.cancelled, Due(w), j);
    if n.recurring && !IsCancelled(w.cancelled, n) {
      DrainFiles(w, s, s1, Successors(Live(w.cancelled, Due(w)[..j]), w.time), n);
    }
  }

  lemma DrainErases(s1: Wheel, s2: Wheel)
    requires s1.Shaped() && Due(s1) != [] && s2 == s1.(near := s1.near[s1.time % TIME_NEAR := Due(s1)[1..]])
    ensures s2.Shaped() && Due(s2) == Due(s1)[1..]
    ensures Put(s2, Near(s1.time % TIME_NEAR), []) == Put(s1, Near(s1.time % TIME_NEAR), [])
  {
    SameWheel(Put(s2, Near(s1.time % TIME_NEAR), []), Put(s1, Near(s1.time % TIME_NEAR), []));
  }

  lemma DrainFiles(w: Wheel, s: Wheel, s1: Wheel, filed: seq<Node>, n: Node)
    requires w.Shaped() && s.Shaped() && s.time == w.time && n.sub >= 1 && s1 == AddNode(s, Successor(n, w.time))
    requires Put(s, Near(w.time % TIME_NEAR), []) == AddAll(Put(w, Near(w.time % TIME_NEAR), []), filed)
    ensures Put(s1, Near(w.time % TIME_NEAR), [])
         == AddAll(Put(w, Near(w.time % TIME_NEAR), []), filed + [Successor(n, w.time)])
  {
    SuccessorAvoids(n, w.time);
    AddAvoids(s, Successor(n, w.time), Near(w.time % TIME_NEAR));
    AddAllLast(Put(w, Near(w.time % TIME_NEAR), []), filed, Successor(n, w.time));
  }

  lemma DrainEnds(w: Wheel, s: Wheel, j: nat)
    requires w.Shaped() && j <= |Due(w)| && Drained(w, s, j) && Due(s) == []
    ensures Execute(w) == (s, Live(w.cancelled, Due(w)[..j]))
  {
    assert Due(w)[..j] == Due(w);
    SameWheel(Put(s, Near(w.time % TIME_NEAR), []), s);
  }

  lemma EnteredZero()
    ensures Entered(0) == Some(Level(3, 0))
  {
  }

  /** The carry has reached level i: all lower digits of the tick are zero. */
  ghost predicate Carrying(ct: Tick, i: nat, mask: nat, rest: nat) {
    && i < 4 && mask == Span(i) && rest == ct / Span(i)
    && (i > 0 ==> ct % Span(0) == 0 && ct % Span(i) == 0)
    && forall l | 0 <= l < i :: Digit(ct, l) == 0
  }

  lemma CarryBegins(ct: Tick)
    ensures Carrying(ct, 0, TIME_NEAR, ct / TIME_NEAR)
  {
  }

  /** The carry stops at the first digit other than 0; there is one by level 3, because the tick is
      not 0, so the mask never outgrows the tick. */
  lemma CarryStep(ct: Tick, i: nat, mask: nat, rest: nat)
    requires Carrying(ct, i, mask, rest) && ct % mask == 0 && ct != 0
    ensures if rest % TIME_LEVEL != 0 then Entered(ct) == Some(Level(i, rest % TIME_LEVEL))
            else i < 3 && Carrying(ct, i + 1, mask * TIME_LEVEL, rest / TIME_LEVEL)
  {
  }

  lemma CarryEnds(ct: Tick, i: nat, mask: nat, rest: nat)
    requires Carrying(ct, i, mask, rest) && ct % mask != 0 && ct != 0
    ensures Entered(ct) == None
  {
  }
}
