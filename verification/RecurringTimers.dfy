/**
 The life of a recurring timer: in closed form, which periods asked for at which tick go on for ever,
 and which end in a successor that is filed into a slot nothing fetches.
 */
module RecurringTimers {
  import opened Prelude
  import opened TimerWheel
  import opened WheelRuns

  // ---------------------------------------------------------------------------------------
  // Greatest common divisors
  // ---------------------------------------------------------------------------------------

  function Gcd(a: nat, b: nat): (g: nat)
    requires a > 0 || b > 0
    ensures g > 0
    decreases b
  {
    if b == 0 then a else Gcd(b, a % b)
  }

  /** The greatest common divisor is a combination of the two numbers. */
  lemma {:induction false} Bezout(a: nat, b: nat) returns (x: int, y: int)
    requires a > 0 || b > 0
    ensures a * x + b * y == Gcd(a, b)
    decreases b
  {
    if b == 0 {
      x, y := 1, 0;
    } else {
      var q, r := a / b, a % b;
      var u, v := Bezout(b, r);
      x, y := v, u - q * v;
      Combine(a, b, q, r, u, v);
    }
  }

  lemma Combine(a: int, b: int, q: int, r: int, u: int, v: int)
    requires a == b * q + r
    ensures a * v + b * (u - q * v) == b * u + r * v
  {
    assert a * v == b * q * v + r * v;
    assert b * (u - q * v) == b * u - b * (q * v);
    assert b * (q * v) == b * q * v;
  }

  lemma {:induction false} GcdDivides(a: nat, b: nat) returns (m: nat, n: nat)
    requires a > 0 || b > 0
    ensures a == Gcd(a, b) * m && b == Gcd(a, b) * n
    decreases b
  {
    if b == 0 {
      m, n := 1, 0;
    } else {
      var q, r := a / b, a % b;
      var u, v := GcdDivides(b, r);
      m, n := u * q + v, u;
      DivideStep(a, b, q, r, Gcd(b, r), u, v);
    }
  }

  lemma DivideStep(a: int, b: int, q: int, r: int, g: int, u: int, v: int)
    requires a == b * q + r && b == g * u && r == g * v
    ensures a == g * (u * q + v)
  {
    assert g * (u * q + v) == (g * u) * q + g * v;
  }

  // ---------------------------------------------------------------------------------------
  // The residues that a period runs through
  // ---------------------------------------------------------------------------------------

  /** x is r plus some turns of m. */
  lemma RemainderIs(x: int, m: int, turns: int, r: int)
    requires m > 0 && x == m * turns + r && 0 <= r < m
    ensures x % m == r
  {
    Congruent(x, r, m, turns);
    assert r % m == r;
  }

  /** Every multiple of the period away, the residue is at least the residue by the common divisor. */
  lemma ResidueKept(time: nat, sub: nat, span: nat, k: nat)
    requires sub > 0 && span > 0
    ensures (time + sub * k) % span >= time % Gcd(sub, span)
  {
    var g := Gcd(sub, span);
    var m, n := GcdDivides(sub, span);
    var x := time + sub * k;
    Divided(x, span);
    Divided(time, g);
    ResidueFactor(time, sub, span, k, g, m, n, x / span, time / g, x % span, time % g);
    RemainderIs(x % span, g, time / g + m * k - n * (x / span), time % g);
    AtLeastRemainder(x % span, g);
  }

  lemma Divided(x: nat, d: nat)
    requires d > 0
    ensures x == d * (x / d) + x % d && 0 <= x % d < d
  {
  }

  lemma ResidueFactor(time: int, sub: int, span: int, k: int, g: int, m: int, n: int, q: int, p: int, r: int, t: int)
    requires sub == g * m && span == g * n && time + sub * k == span * q + r && time == g * p + t
    ensures r == g * (p + m * k - n * q) + t
  {
    MulThree(g, m, k);
    MulThree(g, n, q);
    Spread(g, p, m * k, n * q);
  }

  lemma MulThree(a: int, b: int, c: int)
    ensures (a * b) * c == a * (b * c)
  {
  }

  lemma Spread(g: int, p: int, a: int, b: int)
    ensures g * (p + a - b) == g * p + g * a - g * b
  {
  }

  lemma AtLeastRemainder(r: nat, g: nat)
    requires g > 0
    ensures r >= r % g
  {
  }

  /** And some multiple away it is just that. */
  lemma ResidueReached(time: nat, sub: nat, span: nat) returns (k: nat)
    requires sub > 0 && span > 0
    ensures k >= 1 && (time + sub * k) % span == time % Gcd(sub, span)
  {
    var g := Gcd(sub, span);
    var x, y := Bezout(sub, span);
    var m, n := GcdDivides(sub, span);
    var q, t := time / g, time % g;
    assert time == g * q + t;
    var j := (if q * x >= 0 then q * x else 0 - q * x) + 1;
    Enough(span, j, q * x);
    k := span * j - q * x;
    Turns(sub, span, x, y, g, q, j);
    Below(g, n, span);
    RemainderIs(time + sub * k, span, q * y + sub * j, t);
  }

  lemma Enough(span: nat, j: nat, z: int)
    requires span > 0 && j > z && j > 0 - z && j >= 1
    ensures span * j - z >= 1
  {
    assert span * j >= j;
  }

  lemma Turns(sub: int, span: int, x: int, y: int, g: int, q: int, j: int)
    requires sub * x + span * y == g
    ensures g * q + sub * (span * j - q * x) == span * (q * y + sub * j)
  {
    assert g * q == (sub * x) * q + (span * y) * q;
    assert sub * (span * j - q * x) == sub * (span * j) - sub * (q * x);
    assert sub * (q * x) == (sub * x) * q && sub * (span * j) == span * (sub * j);
    assert (span * y) * q == span * (q * y) && span * (q * y + sub * j) == span * (q * y) + span * (sub * j);
  }

  lemma Below(g: nat, n: nat, span: nat)
    requires span > 0 && span == g * n
    ensures g <= span
  {
  }

  // ---------------------------------------------------------------------------------------
  // Which timers survive
  // ---------------------------------------------------------------------------------------

  /** The level at which delays of `sub` ticks are filed, if it has a dead slot. */
  function LevelOf(sub: Delay): (i: Option<nat>)
    ensures i.Some? ==> i.value < 3 && Span(i.value) <= sub < Span(i.value + 1)
    ensures i.None? ==> sub < Span(0) || sub >= Span(3)
  {
    if sub < Span(0) || sub >= Span(3) then None
    else if sub < Span(1) then Some(0)
    else if sub < Span(2) then Some(1)
    else Some(2)
  }

  /** The tick asked at, by the common divisor of the period and the wheel of its level, lies behind the
      first slot. */
  predicate Survives(time: Tick, sub: Delay) {
    var i := LevelOf(sub);
    i.None? || time % Gcd(sub, Span(i.value + 1)) >= Span(i.value)
  }

  /** A successor is stranded when it comes due in the first slot of its wheel. */
  lemma StrandedAtResidue(time: Tick, sub: Delay, k: nat)
    ensures var i := LevelOf(sub);
            StrandedAt(time, sub, k)
            <==> i.Some? && (time + sub * (k + 1)) % Span(i.value + 1) < Span(i.value)
  {
    hide DueAt, Stranded;
    var now := DueAt(time, sub, k);
    DueStep(time, sub, k);
    StrandedExactly(now, sub);
    if LevelOf(sub).Some? {
      DueResidue(time, sub, k, LevelOf(sub).value);
    }
  }

  lemma DueStep(time: Tick, sub: Delay, k: nat)
    ensures (DueAt(time, sub, k) + sub) % TICKS == DueAt(time, sub, k + 1)
  {
    MulNext(sub, k);
    WrapAdd(time + sub * k, sub);
  }

  lemma DueResidue(time: Tick, sub: Delay, k: nat, i: nat)
    requires i < 3
    ensures (DueAt(time, sub, k) + sub) % Span(i + 1) == (time + sub * (k + 1)) % Span(i + 1)
  {
    hide DueAt;
    DueStep(time, sub, k);
    DueIs(time, sub, k + 1);
    SameSpan(DueAt(time, sub, k) + sub, time + sub * (k + 1), i);
  }

  /** The ticks wrap at a multiple of every span. */
  lemma SameSpan(x: int, y: int, i: nat)
    requires x % TICKS == y % TICKS && i < 3
    ensures x % Span(i + 1) == y % Span(i + 1)
  {
    SameResidue(x);
    SameResidue(y);
  }

  lemma DueIs(time: Tick, sub: Delay, k: nat)
    ensures DueAt(time, sub, k) == (time + sub * k) % TICKS
  {
  }

  /** A recurring timer asked for at `time` never has a successor filed into a dead slot if and only if
      it survives. */
  lemma SurvivesExactly(time: Tick, sub: Delay)
    ensures Survives(time, sub) <==> forall k: nat :: !StrandedAt(time, sub, k)
  {
    hide StrandedAt, Survives;
    if Survives(time, sub) {
      forall k: nat ensures !StrandedAt(time, sub, k) {
        SurvivesAt(time, sub, k);
      }
    } else {
      var k := LostAt(time, sub);
    }
  }

  lemma SurvivesAt(time: Tick, sub: Delay, k: nat)
    requires Survives(time, sub)
    ensures !StrandedAt(time, sub, k)
  {
    hide StrandedAt, Gcd;
    var level := LevelOf(sub);
    StrandedAtResidue(time, sub, k);
    if level.Some? {
      ResidueKept(time, sub, Span(level.value + 1), k + 1);
    }
  }

  lemma LostAt(time: Tick, sub: Delay) returns (k: nat)
    requires !Survives(time, sub)
    ensures StrandedAt(time, sub, k)
  {
    hide StrandedAt;
    var turns := ResidueReached(time, sub, Span(LevelOf(sub).value + 1));
    k := turns - 1;
    StrandedAtResidue(time, sub, k);
  }

  /** It fires in every period, however long the run, if and only if it survives. */
  lemma FiresForever(time: Tick, sub: Delay, at: nat)
    ensures Survives(time, sub) <==> forall remaining: nat :: |Later(time, sub, at, remaining)| == remaining / sub
  {
    hide StrandedAt, Survives;
    SurvivesExactly(time, sub);
    forall remaining: nat | Survives(time, sub) ensures |Later(time, sub, at, remaining)| == remaining / sub {
      SurvivorFires(time, sub, at, remaining);
    }
    if !Survives(time, sub) {
      var k: nat :| StrandedAt(time, sub, k);
      StrandedStops(time, sub, at, k, sub * (k + 1));
    }
  }

  lemma SurvivorFires(time: Tick, sub: Delay, at: nat, remaining: nat)
    requires forall k: nat :: !StrandedAt(time, sub, k)
    ensures |Later(time, sub, at, remaining)| == remaining / sub
  {
    hide StrandedAt;
    LaterIsPeriodic(time, sub, at, remaining);
    QuotientIs(remaining, sub, |Later(time, sub, at, remaining)|);
  }

  lemma StrandedStops(time: Tick, sub: Delay, at: nat, k: nat, remaining: nat)
    requires StrandedAt(time, sub, k) && remaining == sub * (k + 1)
    ensures |Later(time, sub, at, remaining)| <= k < remaining / sub
  {
    hide StrandedAt;
    LaterIsPeriodic(time, sub, at, remaining);
    MulNext(sub, k + 1);
    QuotientIs(remaining, sub, k + 1);
  }

  lemma QuotientIs(x: nat, d: nat, q: nat)
    requires d > 0 && d * q <= x < d * (q + 1)
    ensures x / d == q
  {
    RemainderIs(x, d, q, x - d * q);
    assert x == d * (x / d) + x % d;
  }

  /** Nobody cancels the timer. */
  predicate NeverCancelled(ops: seq<Op>, id: nat) {
    forall i | 0 <= i < |ops| :: ops[i] != Cancel(id)
  }

  lemma {:induction false} NotCancelledBefore(ops: seq<Op>, id: nat, m: nat)
    requires NeverCancelled(ops, id)
    ensures !CancelledBefore(ops, id, m)
    decreases |ops|
  {
    if ops != [] && m > 0 {
      NotCancelledBefore(ops[1..], id, if ops[0].Tock? then m - 1 else m);
    }
  }

  /** A recurring timer that nobody cancels fires as Later says from the tick it was asked for on; so, by
      FiresForever, in every period of every run if and only if it survives. */
  lemma RecurringFires(w: Wheel, op: Op, ops: seq<Op>)
    requires Sound(w) && op.Add? && op.recurring && NeverCancelled(ops, w.issued)
    ensures Firings(w, [op] + ops, w.issued, 0) == Later(w.time, op.ticks, 0, Updates(ops))
  {
    hide Stranded, Sound, Firings, NeverCancelled;
    var n := TimerNode(w.time, op.ticks, op.callback, true, w.issued);
    FreshTimer(w, op, ops, n);
    NotCancelledBefore(ops, w.issued, op.ticks);
    FreshNotCancelled(w);
  }

  /** Refresh, a Cancel and an Add with the same delay, once a recurring timer has fired: the old timer goes
      on beside the new one. */
  lemma LateRefresh(w: Wheel, s: Node, ops: seq<Op>, run: seq<Op>)
    requires Sound(w) && Pending(w)[s] > 0 && s.recurring && !s.first && NeverCancelled(ops, w.issued)
    requires 1 <= s.sub && run == [Cancel(s.id), Add(s.sub, s.callback, true)] + ops
    ensures Firings(w, run, s.id, 0) == Firings(w, run[1..], s.id, 0)
    ensures Firings(w, run, w.issued, 0) == Later(w.time, s.sub, 0, Updates(ops))
  {
    hide Tracked, Firings, Pending, NeverCancelled, Later, Stranded;
    assert [] + run[1..] == run[1..] && [] + [Cancel(s.id)] + run[1..] == run;
    CancelExactly(w, s, [], run[1..], 0, Firings(w, run[1..], s.id, 0), Firings(w, run, s.id, 0));
    RefreshedFires(w, s.id, Add(s.sub, s.callback, true), ops, run);
  }

  lemma RefreshedFires(w: Wheel, id: nat, op: Op, ops: seq<Op>, run: seq<Op>)
    requires Sound(w) && op.Add? && op.recurring && NeverCancelled(ops, w.issued) && run == [Cancel(id), op] + ops
    ensures Firings(w, run, w.issued, 0) == Later(w.time, op.ticks, 0, Updates(ops))
  {
    hide Tracked, Firings, Pending, NeverCancelled, Later, Stranded, Step;
    StepTracks(w, Cancel(id));
    FiringsOther(w, run, w.issued, 0);
    assert run[1..] == [op] + ops;
    CancelOnly(w, id);
    RecurringFires(Step(w, Cancel(id)).0, op, ops);
  }

  lemma CancelOnly(w: Wheel, id: nat)
    requires Sound(w)
    ensures var w' := Step(w, Cancel(id)).0; w'.issued == w.issued && w'.time == w.time
  {
  }

  lemma FreshNotCancelled(w: Wheel)
    requires Sound(w)
    ensures w.Shaped() && w.issued !in w.cancelled
  {
  }

  /** For example a timer of three seconds, 300 ticks, asked for at tick 0: it fires 54 times, and at tick
      16200 its successor is lost. */
  lemma ThreeSecondsLost(remaining: nat)
    requires remaining >= 300 * 55
    ensures !Survives(0, 300) && |Later(0, 300, 0, remaining)| == 54
  {
    hide StrandedAt;
    ThreeSecondsGcd();
    ThreeSecondsStranded();
    LaterIsPeriodic(0, 300, 0, remaining);
    var count := |Later(0, 300, 0, remaining)|;
    assert count < 54 ==> 300 * (count + 1) <= remaining;
  }

  lemma ThreeSecondsGcd()
    ensures Gcd(300, Span(1)) == 4
  {
    assert Gcd(300, 16384) == Gcd(16384, 300) == Gcd(300, 184) == Gcd(184, 116) == Gcd(116, 68) == Gcd(68, 48);
    assert Gcd(68, 48) == Gcd(48, 20) == Gcd(20, 8) == Gcd(8, 4) == Gcd(4, 0) == 4;
  }

  lemma ThreeSecondsStranded()
    ensures StrandedAt(0, 300, 54) && forall k: nat | k < 54 :: !StrandedAt(0, 300, k)
  {
    hide StrandedAt;
    StrandedAtResidue(0, 300, 54);
    forall k: nat | k < 54 ensures !StrandedAt(0, 300, k) {
      StrandedAtResidue(0, 300, k);
    }
  }

  /** And one of 512 ticks asked for at tick 300 goes on for ever. */
  lemma FiveHundredTwelveSurvives()
    ensures Survives(300, 512)
  {
    assert Gcd(512, 16384) == Gcd(16384, 512) == Gcd(512, 0) == 512;
  }

  /** For example that timer with a Cancel somewhere in the first 2000 ticks: unless it comes in the first
      512 ticks it changes nothing. */
  lemma CancelExample(w: Wheel, op: Op, a: seq<Op>, b: seq<Op>)
    requires Sound(w) && w.time == 300 && op.Add? && op.recurring && op.ticks == 512
    requires NeverCancelled(a + b, w.issued) && Updates(a + b) == 2000
    ensures Firings(w, [op] + (a + [Cancel(w.issued)] + b), w.issued, 0)
            == if Updates(a) < 512 then [] else [512, 1024, 1536]
  {
    hide Tracked, Firings, Pending, NeverCancelled, Later, Stranded, Survives;
    RecurringFires(w, op, a + b);
    FiveHundredTwelveSurvives();
    FiresForever(300, 512, 0);
    LaterIsPeriodic(300, 512, 0, 2000);
    assert Later(300, 512, 0, 2000) == [512, 1024, 1536];
    FreshCancel(w, op, a, b, Firings(w, [op] + (a + b), w.issued, 0),
                Firings(w, [op] + (a + [Cancel(w.issued)] + b), w.issued, 0));
  }
}
