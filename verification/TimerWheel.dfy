/**
 The hierarchical timing wheel: its slots, how a node is filed by its distance to expiry,
 how the slots cascade when the tick advances, and what one update collects.

 A tick is a uint32_t. The shifts and masks of the source are divisions and remainders by
 powers of two here: x & (2^k - 1) is x % 2^k and x >> k is x / 2^k.
 */
module TimerWheel {
  import opened Prelude

  const TIME_NEAR := 256
  const TIME_LEVEL := 64
  const TICKS := 0x1_0000_0000

  type Tick = x: int | 0 <= x < 0x1_0000_0000

  /** A timer task. `id` says which call of AddTimer it goes back to; `first` that it is the node this
      call returned. The successor that a recurring task files for itself is known to nobody outside
      the wheel. */
  datatype Node = Node(expire: Tick, sub: Tick, callback: nat, recurring: bool, id: nat, first: bool)

  datatype Slot = Near(j: nat) | Level(i: nat, k: nat)

  /** The slots, the tick, the timers whose _cancel flag is set, and how many timers were handed out. */
  datatype Wheel = Wheel(near: seq<seq<Node>>, t: seq<seq<seq<Node>>>, time: Tick, cancelled: set<nat>, issued: nat)
  {
    ghost predicate Shaped() {
      |near| == TIME_NEAR && |t| == 4 && forall i | 0 <= i < 4 :: |t[i]| == TIME_LEVEL
    }
  }

  predicate IsSlot(p: Slot) {
    match p
    case Near(j) => j < TIME_NEAR
    case Level(i, k) => i < 4 && k < TIME_LEVEL
  }

  function At(w: Wheel, p: Slot): seq<Node>
    requires w.Shaped() && IsSlot(p)
  {
    match p
    case Near(j) => w.near[j]
    case Level(i, k) => w.t[i][k]
  }

  function Put(w: Wheel, p: Slot, list: seq<Node>): (r: Wheel)
    requires w.Shaped() && IsSlot(p)
    ensures r.Shaped() && r.time == w.time && r.cancelled == w.cancelled && r.issued == w.issued
    ensures forall q | IsSlot(q) :: At(r, q) == if q == p then list else At(w, q)
  {
    match p
    case Near(j) => w.(near := w.near[j := list])
    case Level(i, k) => w.(t := w.t[i := w.t[i][k := list]])
  }

  /** The number of ticks one slot of level i stands for; Span(4) is the whole clock. */
  function Span(i: nat): nat
    requires i <= 4
  {
    match i
    case 0 => 0x100
    case 1 => 0x4000
    case 2 => 0x10_0000
    case 3 => 0x400_0000
    case _ => 0x1_0000_0000
  }

  function Digit(x: Tick, i: nat): (d: nat)
    requires i < 4
    ensures d < TIME_LEVEL
  {
    x / Span(i) % TIME_LEVEL
  }

  /** Ticks left until `expire` is next reached, in 32-bit arithmetic. */
  function Left(expire: Tick, time: Tick): Tick {
    (expire - time) % TICKS
  }

  function SlotFor(expire: Tick, time: Tick): (p: Slot)
    ensures IsSlot(p)
  {
    var msec := Left(expire, time);
    if msec < Span(0) then Near(expire % TIME_NEAR)
    else if msec < Span(1) then Level(0, Digit(expire, 0))
    else if msec < Span(2) then Level(1, Digit(expire, 1))
    else if msec < Span(3) then Level(2, Digit(expire, 2))
    else Level(3, Digit(expire, 3))
  }

  function AddNode(w: Wheel, n: Node): (r: Wheel)
    requires w.Shaped()
    ensures r.Shaped() && r.time == w.time && r.cancelled == w.cancelled && r.issued == w.issued
  {
    var p := SlotFor(n.expire, w.time);
    Put(w, p, At(w, p) + [n])
  }

  /** add_node applied to each node of a list in turn. */
  function AddAll(w: Wheel, list: seq<Node>): (r: Wheel)
    requires w.Shaped()
    ensures r.Shaped() && r.time == w.time && r.cancelled == w.cancelled && r.issued == w.issued
  {
    if list == [] then w else AddNode(AddAll(w, list[..|list| - 1]), list[|list| - 1])
  }

  function MoveList(w: Wheel, i: nat, k: nat): (r: Wheel)
    requires w.Shaped() && IsSlot(Level(i, k))
    ensures r.Shaped() && r.time == w.time && r.cancelled == w.cancelled && r.issued == w.issued
  {
    Put(AddAll(w, At(w, Level(i, k))), Level(i, k), [])
  }

  /** The slot whose block of ticks begins at ct, if that is a slot above the near wheel
      that the shift moves. */
  function Entered(ct: Tick): (r: Option<Slot>)
    ensures r.Some? ==> r.value.Level? && IsSlot(r.value)
  {
    if ct == 0 then Some(Level(3, 0))
    else if ct % Span(0) != 0 then None
    else if Digit(ct, 0) != 0 then Some(Level(0, Digit(ct, 0)))
    else if Digit(ct, 1) != 0 then Some(Level(1, Digit(ct, 1)))
    else if Digit(ct, 2) != 0 then Some(Level(2, Digit(ct, 2)))
    else Some(Level(3, Digit(ct, 3)))
  }

  function Advance(w: Wheel): (r: Wheel)
    requires w.Shaped()
    ensures r.Shaped()
  {
    w.(time := (w.time + 1) % TICKS)
  }

  function Shift(w: Wheel): (r: Wheel)
    requires w.Shaped()
    ensures r.Shaped() && r.time == (w.time + 1) % TICKS && r.cancelled == w.cancelled && r.issued == w.issued
  {
    var w1 := Advance(w);
    match Entered(w1.time)
    case None => w1
    case Some(p) => MoveList(w1, p.i, p.k)
  }

  predicate IsCancelled(cancelled: set<nat>, n: Node) {
    n.first && n.id in cancelled
  }

  function Successor(n: Node, time: Tick): Node {
    Node((time + n.sub) % TICKS, n.sub, n.callback, true, n.id, false)
  }

  /** The nodes of a list that are not cancelled. */
  function Live(cancelled: set<nat>, list: seq<Node>): seq<Node> {
    Filter((n: Node) => !IsCancelled(cancelled, n), list)
  }

  /** One new node for every recurring node of the list. */
  function Successors(list: seq<Node>, time: Tick): (r: seq<Node>)
    ensures forall m | m in r :: exists n | n in list :: n.recurring && m == Successor(n, time)
  {
    if list == [] then []
    else
      var n := list[|list| - 1];
      var r := Successors(list[..|list| - 1], time);
      assert list == list[..|list| - 1] + [n];
      if n.recurring then
        assert n in list && Successor(n, time) == Successor(n, time);
        r + [Successor(n, time)]
      else r
  }

  /** What timer_execute collects, and the wheel it leaves. */
  function Due(w: Wheel): seq<Node>
    requires w.Shaped()
  {
    w.near[w.time % TIME_NEAR]
  }

  function Execute(w: Wheel): (r: (Wheel, seq<Node>))
    requires w.Shaped()
    ensures r.0.Shaped() && r.0.time == w.time && r.0.cancelled == w.cancelled && r.0.issued == w.issued
  {
    var fired := Live(w.cancelled, Due(w));
    (AddAll(Put(w, Near(w.time % TIME_NEAR), []), Successors(fired, w.time)), fired)
  }

  function Update(w: Wheel): (r: (Wheel, seq<Node>))
    requires w.Shaped()
    ensures r.0.Shaped() && r.0.time == (w.time + 1) % TICKS && r.0.cancelled == w.cancelled && r.0.issued == w.issued
  {
    var (w1, f1) := Execute(w);
    var (w2, f2) := Execute(Shift(w1));
    (w2, f1 + f2)
  }

  // ---------------------------------------------------------------------------------------
  // Where nodes may be
  // ---------------------------------------------------------------------------------------

  /** Slot 0 of the three lower levels: timer_shift never moves one of these. */
  predicate IsDeadSlot(p: Slot) {
    p.Level? && p.i < 3 && p.k == 0
  }

  /** The guard under which add_node files a node where nothing will ever fetch it. */
  predicate Stranded(time: Tick, expire: Tick) {
    IsDeadSlot(SlotFor(expire, time))
  }

  /** A node may be in p at `time`: near nodes are within one turn of the near wheel; a node
      of level i is in the slot of its own digit, and the block of that slot is not entered yet. */
  ghost predicate PlacedIn(p: Slot, n: Node, time: Tick)
    requires IsSlot(p)
  {
    match p
    case Near(j) => n.expire % TIME_NEAR == j && Left(n.expire, time) < Span(0)
    case Level(i, k) =>
      IsDeadSlot(p) || (Digit(n.expire, i) == k && n.expire % Span(i) < Left(n.expire, time) < Span(i + 1))
  }

  ghost predicate Placed(w: Wheel) {
    w.Shaped() && forall p, n | IsSlot(p) && n in At(w, p) :: n.sub >= 1 && PlacedIn(p, n, w.time)
  }

  /** What holds between two updates. */
  ghost predicate Settled(w: Wheel) {
    Placed(w) && Due(w) == []
  }

  // ---------------------------------------------------------------------------------------
  // Arithmetic of one tick
  // ---------------------------------------------------------------------------------------

  lemma LeftAfter(time: Tick, k: Tick)
    ensures Left((time + k) % TICKS, time) == k
  {
    assert (time + k) % TICKS == if time + k < TICKS then time + k else time + k - TICKS;
  }

  lemma FiledIsPlaced(n: Node, time: Tick)
    ensures PlacedIn(SlotFor(n.expire, time), n, time)
  {
  }

  lemma TickLeft(expire: Tick, time: Tick)
    requires Left(expire, time) > 0
    ensures Left(expire, (time + 1) % TICKS) == Left(expire, time) - 1
  {
  }

  lemma TickNear(n: Node, time: Tick, j: nat)
    requires j < TIME_NEAR && PlacedIn(Near(j), n, time) && Left(n.expire, time) > 0
    ensures PlacedIn(Near(j), n, (time + 1) % TICKS)
  {
    TickLeft(n.expire, time);
  }

  /** A node above the near wheel either stays well placed for one more tick or the tick just
      entered its block; then the slot is the one that is moved and what is left is less
      than the block. */
  lemma TickLevel(n: Node, time: Tick, i: nat, k: nat)
    requires i < 4 && k < TIME_LEVEL && !IsDeadSlot(Level(i, k)) && PlacedIn(Level(i, k), n, time)
    ensures var now := (time + 1) % TICKS;
            if Entered(now) == Some(Level(i, k)) then Left(n.expire, now) == n.expire % Span(i)
            else PlacedIn(Level(i, k), n, now)
  {
    var now := (time + 1) % TICKS;
    TickLeft(n.expire, time);
    if Left(n.expire, now) == n.expire % Span(i) {
      EntersBlock(n.expire, now, i);
    } else if Entered(now) == Some(Level(i, k)) {
      EnteredBlock(now, i, k);
      SameBlock(n.expire, now, i);
    }
  }

  /** A tick is its five digits: one of 256 and four of 64. */
  ghost predicate HasDigits(x: Tick, low: nat, d0: nat, d1: nat, d2: nat, d3: nat) {
    && low < 256 && d0 < 64 && d1 < 64 && d2 < 64 && d3 < 64
    && x == low + 0x100 * d0 + 0x4000 * d1 + 0x10_0000 * d2 + 0x400_0000 * d3
  }

  lemma Digits(x: Tick) returns (low: nat, d0: nat, d1: nat, d2: nat, d3: nat)
    ensures HasDigits(x, low, d0, d1, d2, d3)
  {
    low, d0, d1, d2, d3 := x % 256, x / 256 % 64, x / 0x4000 % 64, x / 0x10_0000 % 64, x / 0x400_0000 % 64;
    assert x == x % 256 + 256 * (x / 256);
    var y := x / 256;
    assert y == y % 64 + 64 * (y / 64) && y / 64 == x / 0x4000;
    var z := y / 64;
    assert z == z % 64 + 64 * (z / 64) && z / 64 == x / 0x10_0000;
    var u := z / 64;
    assert u == u % 64 + 64 * (u / 64) && u / 64 == x / 0x400_0000;
  }

  lemma ReadDigits(x: Tick, low: nat, d0: nat, d1: nat, d2: nat, d3: nat)
    requires HasDigits(x, low, d0, d1, d2, d3)
    ensures x % 0x100 == low && Digit(x, 0) == d0
    ensures x % 0x4000 == low + 0x100 * d0 && Digit(x, 1) == d1
    ensures x % 0x10_0000 == low + 0x100 * d0 + 0x4000 * d1 && Digit(x, 2) == d2
    ensures x % 0x400_0000 == low + 0x100 * d0 + 0x4000 * d1 + 0x10_0000 * d2 && Digit(x, 3) == d3
  {
    var y := d0 + 64 * d1 + 4096 * d2 + 262144 * d3;
    assert x == low + 0x100 * y && x / 0x100 == y;
    var z := d1 + 64 * d2 + 4096 * d3;
    assert x == (low + 0x100 * d0) + 0x4000 * z && x / 0x4000 == z;
    var u := d2 + 64 * d3;
    assert x == (low + 0x100 * d0 + 0x4000 * d1) + 0x10_0000 * u && x / 0x10_0000 == u;
    assert x / 0x400_0000 == d3;
  }

  lemma BlockStart(expire: Tick, now: Tick, i: nat)
    requires i < 4 && Left(expire, now) == expire % Span(i)
    ensures now == expire - expire % Span(i)
  {
  }

  /** The tick enters a block of the first level with a digit other than 0. */
  lemma EnteredFrom(now: Tick, i: nat)
    requires i < 4 && now % 0x100 == 0 && (i == 3 || Digit(now, i) != 0)
    requires (i > 0 ==> Digit(now, 0) == 0) && (i > 1 ==> Digit(now, 1) == 0) && (i > 2 ==> Digit(now, 2) == 0)
    ensures Entered(now) == Some(Level(i, Digit(now, i)))
  {
  }

  lemma EntersBlock(expire: Tick, now: Tick, i: nat)
    requires i < 4 && Left(expire, now) == expire % Span(i)
    requires i == 3 || Digit(expire, i) != 0
    ensures Entered(now) == Some(Level(i, Digit(expire, i)))
  {
    hide Entered, Left, Digit;
    BlockStart(expire, now, i);
    var low, d0, d1, d2, d3 := Digits(expire);
    ReadDigits(expire, low, d0, d1, d2, d3);
    match i {
      case 0 => ReadDigits(now, 0, d0, d1, d2, d3);
      case 1 => ReadDigits(now, 0, 0, d1, d2, d3);
      case 2 => ReadDigits(now, 0, 0, 0, d2, d3);
      case 3 => ReadDigits(now, 0, 0, 0, 0, d3);
    }
    EnteredFrom(now, i);
  }

  lemma EnteredBlock(now: Tick, i: nat, k: nat)
    requires i < 4 && k < TIME_LEVEL && Entered(now) == Some(Level(i, k))
    ensures now % Span(i) == 0 && Digit(now, i) == k
  {
    var low, d0, d1, d2, d3 := Digits(now);
    ReadDigits(now, low, d0, d1, d2, d3);
  }

  lemma SameBlock(expire: Tick, now: Tick, i: nat)
    requires i < 4 && now % Span(i) == 0 && Digit(expire, i) == Digit(now, i)
    requires Left(expire, now) < Span(i + 1)
    ensures Left(expire, now) == expire % Span(i)
  {
    var turns := (expire - now) / TICKS;
    assert Left(expire, now) == expire - now - TICKS * turns;
    var e := Split(expire, i);
    var m := Split(now, i);
    match i
    case 0 => OneBlock(expire % Span(0), e - m - 0x4_0000 * turns, 0x4000);
    case 1 => OneBlock(expire % Span(1), e - m - 0x1000 * turns, 0x10_0000);
    case 2 => OneBlock(expire % Span(2), e - m - 64 * turns, 0x400_0000);
    case 3 => OneBlock(expire % Span(3), e - m - turns, 0x1_0000_0000);
  }

  /** x in terms of its block of level i + 1, its digit and its place in the block of level i. */
  lemma Split(x: Tick, i: nat) returns (block: int)
    requires i < 4
    ensures x == Span(i + 1) * block + Span(i) * Digit(x, i) + x % Span(i)
  {
    var q := x / Span(i);
    block := q / TIME_LEVEL;
    assert q == TIME_LEVEL * block + Digit(x, i);
    match i
    case 0 => assert x == Span(0) * q + x % Span(0);
    case 1 => assert x == Span(1) * q + x % Span(1);
    case 2 => assert x == Span(2) * q + x % Span(2);
    case 3 => assert x == Span(3) * q + x % Span(3);
  }

  lemma OneBlock(r: int, q: int, span: int)
    requires 0 <= r < span
    ensures 0 <= r + span * q < span ==> q == 0
  {
  }

  /** A moved node goes strictly down and never to a dead slot. */
  lemma Descends(n: Node, now: Tick, i: nat)
    requires i < 4 && Left(n.expire, now) == n.expire % Span(i)
    ensures var p := SlotFor(n.expire, now);
            !IsDeadSlot(p) && (p.Level? ==> p.i < i)
  {
    var low, d0, d1, d2, d3 := Digits(n.expire);
    ReadDigits(n.expire, low, d0, d1, d2, d3);
  }

  // ---------------------------------------------------------------------------------------
  // What the wheel holds
  // ---------------------------------------------------------------------------------------

  /** All nodes of the slots from index `from` on. */
  ghost function Sum(slots: seq<seq<Node>>, from: nat): multiset<Node>
    decreases |slots| - from
  {
    if from >= |slots| then multiset{} else multiset(slots[from]) + Sum(slots, from + 1)
  }

  lemma {:induction false} SumPut(slots: seq<seq<Node>>, from: nat, j: nat, list: seq<Node>, n: Node)
    requires j < |slots|
    ensures Sum(slots[j := list], from)[n] + (if from <= j then multiset(slots[j])[n] else 0)
         == Sum(slots, from)[n] + (if from <= j then multiset(list)[n] else 0)
    decreases |slots| - from
  {
    if from < |slots| {
      SumPut(slots, from + 1, j, list, n);
    }
  }

  /** A node that only slot j may hold occurs in the sum as often as in slot j. */
  lemma {:induction false} SumOnly(slots: seq<seq<Node>>, from: nat, j: nat, n: Node)
    requires forall k | from <= k < |slots| && k != j :: n !in slots[k]
    ensures Sum(slots, from)[n] == if from <= j < |slots| then multiset(slots[j])[n] else 0
    decreases |slots| - from
  {
    if from < |slots| {
      SumOnly(slots, from + 1, j, n);
    }
  }

  /** Nodes the wheel will still fetch. */
  ghost function Pending(w: Wheel): multiset<Node>
    requires w.Shaped()
  {
    Sum(w.near, 0) + Sum(w.t[0], 1) + Sum(w.t[1], 1) + Sum(w.t[2], 1) + Sum(w.t[3], 0)
  }

  /** Nodes in the slots that nothing fetches. */
  ghost function Stuck(w: Wheel): multiset<Node>
    requires w.Shaped()
  {
    multiset(w.t[0][0]) + multiset(w.t[1][0]) + multiset(w.t[2][0])
  }

  /** How often level i holds n where it will be fetched, and where it will not. */
  ghost function PendingIn(w: Wheel, i: nat, n: Node): nat
    requires w.Shaped() && i < 4
  {
    Sum(w.t[i], if i == 3 then 0 else 1)[n]
  }

  ghost function StuckIn(w: Wheel, i: nat, n: Node): nat
    requires w.Shaped() && i < 4
  {
    if i == 3 then 0 else multiset(w.t[i][0])[n]
  }

  lemma HeldAt(w: Wheel, n: Node)
    requires w.Shaped()
    ensures Pending(w)[n] == Sum(w.near, 0)[n] + PendingIn(w, 0, n) + PendingIn(w, 1, n) + PendingIn(w, 2, n)
                             + PendingIn(w, 3, n)
    ensures Stuck(w)[n] == StuckIn(w, 0, n) + StuckIn(w, 1, n) + StuckIn(w, 2, n)
  {
  }

  lemma PutInLevel(w: Wheel, i: nat, k: nat, list: seq<Node>, n: Node, r: Wheel)
    requires w.Shaped() && IsSlot(Level(i, k)) && r == Put(w, Level(i, k), list)
    ensures r.near == w.near
    ensures forall j | 0 <= j < 4 && j != i ::
              PendingIn(r, j, n) == PendingIn(w, j, n) && StuckIn(r, j, n) == StuckIn(w, j, n)
    ensures var before, after := multiset(w.t[i][k])[n], multiset(list)[n];
            if IsDeadSlot(Level(i, k)) then
              PendingIn(r, i, n) == PendingIn(w, i, n) && StuckIn(r, i, n) + before == StuckIn(w, i, n) + after
            else
              PendingIn(r, i, n) + before == PendingIn(w, i, n) + after && StuckIn(r, i, n) == StuckIn(w, i, n)
  {
    SumPut(w.t[i], if i == 3 then 0 else 1, k, list, n);
  }

  lemma PutLevelHolds(w: Wheel, i: nat, k: nat, list: seq<Node>, n: Node)
    requires w.Shaped() && IsSlot(Level(i, k))
    ensures var before, after := multiset(w.t[i][k])[n], multiset(list)[n]; var r := Put(w, Level(i, k), list);
            if IsDeadSlot(Level(i, k)) then
              Pending(r)[n] == Pending(w)[n] && Stuck(r)[n] + before == Stuck(w)[n] + after
            else
              Pending(r)[n] + before == Pending(w)[n] + after && Stuck(r)[n] == Stuck(w)[n]
  {
    hide Pending, Stuck, Put, PendingIn, StuckIn;
    var r := Put(w, Level(i, k), list);
    PutInLevel(w, i, k, list, n, r);
    HeldAt(w, n);
    HeldAt(r, n);
    StuckLast(w, n);
    StuckLast(r, n);
  }

  lemma StuckLast(w: Wheel, n: Node)
    requires w.Shaped()
    ensures StuckIn(w, 3, n) == 0
  {
  }

  lemma PutHolds(w: Wheel, p: Slot, list: seq<Node>, n: Node)
    requires w.Shaped() && IsSlot(p)
    ensures var before, after := multiset(At(w, p))[n], multiset(list)[n];
            if IsDeadSlot(p) then
              Pending(Put(w, p, list))[n] == Pending(w)[n] && Stuck(Put(w, p, list))[n] + before == Stuck(w)[n] + after
            else
              Pending(Put(w, p, list))[n] + before == Pending(w)[n] + after && Stuck(Put(w, p, list))[n] == Stuck(w)[n]
  {
    match p
    case Near(j) => SumPut(w.near, 0, j, list, n);
    case Level(i, k) => PutLevelHolds(w, i, k, list, n);
  }

  lemma AddHolds(w: Wheel, m: Node, n: Node)
    requires w.Shaped()
    ensures var change := multiset{m}[n]; var lost := Stranded(w.time, m.expire);
            && Pending(AddNode(w, m))[n] == Pending(w)[n] + (if lost then 0 else change)
            && Stuck(AddNode(w, m))[n] == Stuck(w)[n] + (if lost then change else 0)
  {
    var p := SlotFor(m.expire, w.time);
    PutHolds(w, p, At(w, p) + [m], n);
    assert multiset(At(w, p) + [m]) == multiset(At(w, p)) + multiset{m};
  }

  function Kept(list: seq<Node>, time: Tick): seq<Node> {
    Filter((n: Node) => !Stranded(time, n.expire), list)
  }

  function Lost(list: seq<Node>, time: Tick): seq<Node> {
    Filter((n: Node) => Stranded(time, n.expire), list)
  }

  lemma {:induction false} AddAllHolds(w: Wheel, list: seq<Node>, n: Node)
    requires w.Shaped()
    ensures Pending(AddAll(w, list))[n] == Pending(w)[n] + multiset(Kept(list, w.time))[n]
    ensures Stuck(AddAll(w, list))[n] == Stuck(w)[n] + multiset(Lost(list, w.time))[n]
  {
    if list != [] {
      AddAllHolds(w, list[..|list| - 1], n);
      AddHolds(AddAll(w, list[..|list| - 1]), list[|list| - 1], n);
    }
  }

  lemma {:induction false} AddAllPlaced(w: Wheel, list: seq<Node>)
    requires Placed(w) && forall n | n in list :: n.sub >= 1
    ensures Placed(AddAll(w, list))
  {
    if list != [] {
      var front, n := list[..|list| - 1], list[|list| - 1];
      assert list == front + [n];
      AddAllPlaced(w, front);
      FiledIsPlaced(n, w.time);
    }
  }

  /** Slots that none of the added nodes belong to keep their list. */
  lemma {:induction false} AddAllAvoids(w: Wheel, list: seq<Node>, p: Slot)
    requires w.Shaped() && IsSlot(p) && forall n | n in list :: SlotFor(n.expire, w.time) != p
    ensures At(AddAll(w, list), p) == At(w, p)
  {
    if list != [] {
      var front, n := list[..|list| - 1], list[|list| - 1];
      assert list == front + [n];
      AddAllAvoids(w, front, p);
    }
  }

  // ---------------------------------------------------------------------------------------
  // One update
  // ---------------------------------------------------------------------------------------

  /** At a settled wheel every near node has ticks left. */
  lemma NearHasLeft(w: Wheel, j: nat, n: Node)
    requires Settled(w) && j < TIME_NEAR && n in w.near[j]
    ensures Left(n.expire, w.time) > 0
  {
    assert n in At(w, Near(j));
  }

  /** Every node of the slot that timer_shift moves lies in the block just entered. */
  ghost predicate InBlock(w: Wheel, i: nat, k: nat)
    requires w.Shaped() && IsSlot(Level(i, k))
  {
    forall n | n in w.t[i][k] :: n.sub >= 1 && Left(n.expire, w.time) == n.expire % Span(i)
  }

  /** After ++_time all nodes but those of the entered slot are well placed for the new tick. */
  lemma AdvancePlaced(w: Wheel)
    requires Settled(w)
    ensures var w1 := Advance(w); var e := Entered(w1.time);
            && (e.None? ==> Placed(w1))
            && (e.Some? ==> !IsDeadSlot(e.value) && InBlock(w1, e.value.i, e.value.k) && Placed(Put(w1, e.value, [])))
  {
    var w1 := Advance(w);
    var e := Entered(w1.time);
    forall p, n | IsSlot(p) && n in At(w1, p)
      ensures n.sub >= 1
      ensures if p.Level? && e == Some(p) then Left(n.expire, w1.time) == n.expire % Span(p.i)
              else PlacedIn(p, n, w1.time)
    {
      assert n in At(w, p);
      match p
      case Near(j) => NearHasLeft(w, j, n); TickNear(n, w.time, j);
      case Level(i, k) => if !IsDeadSlot(p) { TickLevel(n, w.time, i, k); }
    }
    if e.Some? {
      assert At(w1, e.value) == w1.t[e.value.i][e.value.k];
    }
  }

  lemma {:induction false} DescendAll(list: seq<Node>, now: Tick, i: nat)
    requires i < 4 && forall n | n in list :: Left(n.expire, now) == n.expire % Span(i)
    ensures forall n, k | n in list :: SlotFor(n.expire, now) != Level(i, k)
    ensures Kept(list, now) == list && Lost(list, now) == []
  {
    if list != [] {
      var front, n := list[..|list| - 1], list[|list| - 1];
      assert list == front + [n];
      DescendAll(front, now, i);
      Descends(n, now, i);
    }
  }

  lemma SameWheel(w: Wheel, w': Wheel)
    requires w.Shaped() && w'.Shaped() && w.time == w'.time && w.cancelled == w'.cancelled && w.issued == w'.issued
    requires forall p | IsSlot(p) :: At(w, p) == At(w', p)
    ensures w == w'
  {
    forall j | 0 <= j < TIME_NEAR ensures w.near[j] == w'.near[j] {
      assert At(w, Near(j)) == At(w', Near(j));
    }
    forall i | 0 <= i < 4 ensures w.t[i] == w'.t[i] {
      forall k | 0 <= k < TIME_LEVEL ensures w.t[i][k] == w'.t[i][k] {
        assert At(w, Level(i, k)) == At(w', Level(i, k));
      }
    }
  }

  /** Filing a list of nodes elsewhere and overwriting slot p can be done in either order. */
  lemma {:induction false} AddAllPut(w: Wheel, list: seq<Node>, p: Slot, content: seq<Node>)
    requires w.Shaped() && IsSlot(p) && forall n | n in list :: SlotFor(n.expire, w.time) != p
    ensures Put(AddAll(w, list), p, content) == AddAll(Put(w, p, content), list)
  {
    if list != [] {
      var front, n := list[..|list| - 1], list[|list| - 1];
      assert list == front + [n];
      AddAllPut(w, front, p, content);
      SameWheel(Put(AddAll(w, list), p, content), AddAll(Put(w, p, content), list));
    }
  }

  lemma MoveRefines(w: Wheel, p: Slot, n: Node)
    requires w.Shaped() && IsSlot(p) && p.Level? && !IsDeadSlot(p) && InBlock(w, p.i, p.k) && Placed(Put(w, p, []))
    ensures var r := MoveList(w, p.i, p.k);
            Placed(r) && Pending(r)[n] == Pending(w)[n] && Stuck(r)[n] == Stuck(w)[n]
  {
    var list := At(w, p);
    DescendAll(list, w.time, p.i);
    AddAllAvoids(w, list, p);
    AddAllHolds(w, list, n);
    PutHolds(AddAll(w, list), p, [], n);
    AddAllPut(w, list, p, []);
    AddAllPlaced(Put(w, p, []), list);
  }

  /** The cascade loses no node, strands none, and leaves every node where it may be. */
  lemma ShiftRefines(w: Wheel, n: Node)
    requires Settled(w)
    ensures Placed(Shift(w)) && Pending(Shift(w))[n] == Pending(w)[n] && Stuck(Shift(w))[n] == Stuck(w)[n]
  {
    var w1 := Advance(w);
    AdvancePlaced(w);
    match Entered(w1.time)
    case None =>
    case Some(p) => MoveRefines(w1, p, n);
  }

  lemma SameNearSlot(expire: Tick, time: Tick)
    requires expire % TIME_NEAR == time % TIME_NEAR && Left(expire, time) < TIME_NEAR
    ensures expire == time
  {
  }

  lemma DueExpiresNow(w: Wheel)
    requires Placed(w)
    ensures forall n | n in Due(w) :: n.expire == w.time && n.sub >= 1
  {
    forall n | n in Due(w) ensures n.expire == w.time && n.sub >= 1 {
      assert n in At(w, Near(w.time % TIME_NEAR));
      SameNearSlot(n.expire, w.time);
    }
  }

  /** The near slot of the current tick holds exactly the pending nodes that expire now. */
  lemma DueIsExpired(w: Wheel, n: Node)
    requires Placed(w)
    ensures multiset(Due(w))[n] == if n.expire == w.time then Pending(w)[n] else 0
  {
    var idx := w.time % TIME_NEAR;
    if n.expire == w.time {
      forall p | IsSlot(p) && !IsDeadSlot(p) && n in At(w, p) ensures p == Near(idx) {
        assert PlacedIn(p, n, w.time);
      }
      forall j | 0 <= j < TIME_NEAR && j != idx ensures n !in w.near[j] {
        assert At(w, Near(j)) == w.near[j];
      }
      forall i, k | 0 <= i < 4 && (if i == 3 then 0 else 1) <= k < TIME_LEVEL ensures n !in w.t[i][k] {
        assert At(w, Level(i, k)) == w.t[i][k];
      }
      SumOnly(w.near, 0, idx, n);
      SumOnly(w.t[0], 1, 0, n);
      SumOnly(w.t[1], 1, 0, n);
      SumOnly(w.t[2], 1, 0, n);
      SumOnly(w.t[3], 0, TIME_LEVEL, n);
    } else {
      DueExpiresNow(w);
    }
  }

  /** A successor, at least one tick away, is not filed into the slot being drained. */
  lemma SuccessorAvoids(n: Node, time: Tick)
    requires n.sub >= 1
    ensures SlotFor(Successor(n, time).expire, time) != Near(time % TIME_NEAR)
  {
    hide Left, Digit;
    LeftAfter(time, n.sub);
    if n.sub < Span(0) {
      NearMoves(time, n.sub);
    }
  }

  lemma NearMoves(time: Tick, sub: Tick)
    requires 1 <= sub < TIME_NEAR
    ensures (time + sub) % TICKS % TIME_NEAR != time % TIME_NEAR
  {
    assert time + sub < TICKS || (time + sub) % TICKS == time + sub - TICKS;
  }

  lemma SuccessorsAvoid(list: seq<Node>, time: Tick)
    requires forall n | n in list :: n.sub >= 1
    ensures forall m | m in Successors(list, time) :: m.sub >= 1 && SlotFor(m.expire, time) != Near(time % TIME_NEAR)
  {
    forall m | m in Successors(list, time) ensures m.sub >= 1 && SlotFor(m.expire, time) != Near(time % TIME_NEAR) {
      var n :| n in list && n.recurring && m == Successor(n, time);
      SuccessorAvoids(n, time);
    }
  }

  /** What one tick does to node n of a plain table of nodes: collect the nodes whose expiry is the
      new tick, leaving out cancelled ones; drop all of those, keep all others, and add the
      successors of what was collected, less those that would be filed into a dead slot. */
  ghost predicate PlainAt(table: multiset<Node>, cancelled: set<nat>, now: Tick,
                          fired: seq<Node>, table': multiset<Node>, n: Node)
  {
    && multiset(fired)[n] == (if n.expire == now && !IsCancelled(cancelled, n) then table[n] else 0)
    && table'[n] == (if n.expire == now then 0 else table[n]) + multiset(Kept(Successors(fired, now), now))[n]
  }

  ghost predicate PlainUpdate(table: multiset<Node>, cancelled: set<nat>, now: Tick,
                              fired: seq<Node>, table': multiset<Node>)
  {
    forall n: Node :: PlainAt(table, cancelled, now, fired, table', n)
  }

  lemma ExecuteSettles(w: Wheel)
    requires Placed(w)
    ensures Settled(Execute(w).0)
  {
    var idx := w.time % TIME_NEAR;
    var fired, w1 := Live(w.cancelled, Due(w)), Put(w, Near(idx), []);
    DueExpiresNow(w);
    SuccessorsAvoid(fired, w.time);
    assert Placed(w1);
    AddAllPlaced(w1, Successors(fired, w.time));
    AddAllAvoids(w1, Successors(fired, w.time), Near(idx));
  }

  lemma ExecuteRefines(w: Wheel, w': Wheel, fired: seq<Node>, n: Node)
    requires Placed(w) && (w', fired) == Execute(w)
    ensures Settled(w')
    ensures PlainAt(Pending(w), w.cancelled, w.time, fired, Pending(w'), n)
    ensures Stuck(w')[n] == Stuck(w)[n] + multiset(Lost(Successors(fired, w.time), w.time))[n]
  {
    var due, idx := Due(w), w.time % TIME_NEAR;
    ExecuteSettles(w);
    DueIsExpired(w, n);
    FilterCount((n: Node) => !IsCancelled(w.cancelled, n), due, n);
    PutHolds(w, Near(idx), [], n);
    AddAllHolds(Put(w, Near(idx), []), Successors(fired, w.time), n);
  }

  /** The wheel refines the plain table: one update is one PlainUpdate of the pending nodes. */
  lemma UpdateRefines(w: Wheel, w': Wheel, fired: seq<Node>)
    requires Settled(w) && (w', fired) == Update(w)
    ensures Settled(w')
    ensures PlainUpdate(Pending(w), w.cancelled, w'.time, fired, Pending(w'))
  {
    forall n: Node ensures PlainAt(Pending(w), w.cancelled, w'.time, fired, Pending(w'), n) {
      UpdateRefinesAt(w, w', fired, n);
    }
    UpdateRefinesAt(w, w', fired, Node(0, 0, 0, false, 0, false));
  }

  lemma UpdateRefinesAt(w: Wheel, w': Wheel, fired: seq<Node>, n: Node)
    requires Settled(w) && (w', fired) == Update(w)
    ensures Settled(w')
    ensures PlainAt(Pending(w), w.cancelled, w'.time, fired, Pending(w'), n)
    ensures Stuck(w')[n] == Stuck(w)[n] + multiset(Lost(Successors(fired, w'.time), w'.time))[n]
  {
    UpdateUnfolds(w);
    ShiftRefines(w, n);
    ExecuteRefines(Shift(w), w', fired, n);
  }

  lemma UpdateUnfolds(w: Wheel)
    requires Settled(w)
    ensures Update(w) == Execute(Shift(w))
  {
    FirstExecuteIdle(w);
    assert [] + Execute(Shift(w)).1 == Execute(Shift(w)).1;
  }

  /** Between updates the near slot of the current tick is empty, so the first timer_execute of
      an update changes nothing and collects nothing. */
  lemma FirstExecuteIdle(w: Wheel)
    requires Settled(w)
    ensures Execute(w) == (w, [])
  {
    SameWheel(Put(w, Near(w.time % TIME_NEAR), []), w);
  }

  /** In one update the nodes held change only by those collected or dropped as cancelled, and by
      one successor for every recurring node collected. */
  lemma UpdateConserves(w: Wheel, w': Wheel, fired: seq<Node>, gone: seq<Node>)
    requires Settled(w) && (w', fired) == Update(w) && gone == Due(Shift(w))
    ensures Pending(w') + Stuck(w') + multiset(gone) == Pending(w) + Stuck(w) + multiset(Successors(fired, w'.time))
    ensures fired == Live(w.cancelled, gone)
    ensures forall n | n in gone :: n.expire == w'.time
  {
    UpdateUnfolds(w);
    ShiftRefines(w, Node(0, 0, 0, false, 0, false));
    DueExpiresNow(Shift(w));
    UpdateConservesAll(w, w', fired, gone);
  }

  lemma UpdateConservesAll(w: Wheel, w': Wheel, fired: seq<Node>, gone: seq<Node>)
    requires Settled(w) && (w', fired) == Update(w) && gone == Due(Shift(w))
    ensures Pending(w') + Stuck(w') + multiset(gone) == Pending(w) + Stuck(w) + multiset(Successors(fired, w'.time))
  {
    hide Pending, Stuck, Update, Shift, Due;
    var before := Pending(w) + Stuck(w) + multiset(Successors(fired, w'.time));
    var after := Pending(w') + Stuck(w') + multiset(gone);
    forall n ensures before[n] == after[n] {
      UpdateConservesAt(w, w', fired, gone, n);
    }
  }

  lemma UpdateConservesAt(w: Wheel, w': Wheel, fired: seq<Node>, gone: seq<Node>, n: Node)
    requires Settled(w) && (w', fired) == Update(w) && gone == Due(Shift(w))
    ensures Pending(w')[n] + Stuck(w')[n] + multiset(gone)[n]
         == Pending(w)[n] + Stuck(w)[n] + multiset(Successors(fired, w'.time))[n]
  {
    var succ := Successors(fired, w'.time);
    UpdateRefinesAt(w, w', fired, n);
    ShiftRefines(w, n);
    DueIsExpired(Shift(w), n);
    FilterCount((n: Node) => !Stranded(w'.time, n.expire), succ, n);
    FilterCount((n: Node) => Stranded(w'.time, n.expire), succ, n);
  }
}
