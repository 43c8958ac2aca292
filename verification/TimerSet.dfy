/**
 The ordered timer set: a search tree whose keys, the expiry times, are mutable fields of the timers
 in it. Every locked section is one method; the clock is an input.
 */
module TimerSets {
  import opened Prelude

  /** Unsigned 64-bit arithmetic. */
  function Wrap(x: int): UInt64 {
    x % WORD
  }

  /** Within a word nothing changes, and a sum or difference of two words wraps once at most. */
  lemma WrapIs(x: int)
    ensures 0 <= x < 0x1_0000_0000_0000_0000 ==> Wrap(x) == x
    ensures 0x1_0000_0000_0000_0000 <= x < 0x2_0000_0000_0000_0000 ==> Wrap(x) == x - 0x1_0000_0000_0000_0000
    ensures 0 - 0x1_0000_0000_0000_0000 <= x < 0 ==> Wrap(x) == x + 0x1_0000_0000_0000_0000
  {
  }

  const HOUR: nat := 60 * 60 * 1000

  /** detectClockRollover: the clock is behind the last one by more than an hour, in unsigned
      arithmetic. */
  predicate Rollover(previous: UInt64, now: UInt64) {
    now < previous && now < Wrap(previous - HOUR)
  }

  /** Within an hour of the epoch the subtraction wraps, and any step back is taken for a rollover. */
  lemma RolloverExact(previous: UInt64, now: UInt64)
    ensures Rollover(previous, now) <==> if previous < 3_600_000 then now < previous else previous - now > 3_600_000
  {
  }

  class Timer {
    /** The address, which breaks ties. */
    const addr: nat
    const recurring: bool
    /** Whether it was made with a callback. */
    ghost const callable: bool
    var ms: UInt64
    var next: UInt64
    var cb: Option<int>

    constructor (addr: nat, ms: UInt64, cb: Option<int>, recurring: bool, now: UInt64)
      ensures this.addr == addr && this.recurring == recurring && callable == cb.Some?
      ensures this.ms == ms && next == Wrap(now + ms) && this.cb == cb
    {
      this.addr, this.recurring, this.callable := addr, recurring, cb.Some?;
      this.ms, this.next, this.cb := ms, Wrap(now + ms), cb;
    }
  }

  /** The comparator, on a timer and a key. */
  predicate Before(next: UInt64, addr: nat, next': UInt64, addr': nat) {
    if next < next' then true else if next' < next then false else addr < addr'
  }

  predicate Less(s: Timer, t: Timer)
    reads s, t
  {
    Before(s.next, s.addr, t.next, t.addr)
  }

  ghost predicate Ordered(s: seq<Timer>)
    reads s
  {
    forall i, j | 0 <= i < j < |s| :: Less(s[i], s[j])
  }

  /** Addresses tell timers apart. */
  ghost predicate Distinct(ts: set<Timer>) {
    forall s, t | s in ts && t in ts && s.addr == t.addr :: s == t
  }

  lemma BeforeOrder(n0: UInt64, a0: nat, n1: UInt64, a1: nat, n2: UInt64, a2: nat)
    ensures Before(n0, a0, n1, a1) && Before(n1, a1, n2, a2) ==> Before(n0, a0, n2, a2)
    ensures !(Before(n0, a0, n1, a1) && Before(n1, a1, n0, a0))
    ensures Before(n0, a0, n1, a1) || Before(n1, a1, n0, a0) || (n0 == n1 && a0 == a1)
  {
  }

  /** The order of the set: by expiry time, and among equal ones by address. */
  lemma OrderIs(s: seq<Timer>, i: nat, j: nat)
    requires Ordered(s) && i < j < |s|
    ensures s[i].next < s[j].next || (s[i].next == s[j].next && s[i].addr < s[j].addr)
  {
    assert Less(s[i], s[j]);
  }

  lemma InsertOrdered(s: seq<Timer>, k: nat, t: Timer)
    requires Ordered(s) && k <= |s| && (forall i | 0 <= i < k :: Less(s[i], t))
    requires forall i | k <= i < |s| :: Less(t, s[i])
    ensures Ordered(s[..k] + [t] + s[k..])
  {
  }

  lemma SliceOrdered(s: seq<Timer>, a: nat, b: nat)
    requires Ordered(s) && a <= b <= |s|
    ensures Ordered(s[a..b]) && Ordered(s[..a] + s[b..])
  {
  }

  class TimerManager {
    var timers: seq<Timer>
    var tickled: bool
    var previous: UInt64
    /** The timers somebody still holds. */
    ghost var live: set<Timer>

    /** In every reachable state: the set is strictly ordered by its mutable keys, every timer that can
        still be called is in it, and a timer made with a callback is in it only while it has one. */
    ghost predicate Valid()
      reads this, live
    {
      && (forall t | t in timers :: t in live)
      && Distinct(live) && Ordered(timers)
      && (forall t | t in live :: t.cb.Some? ==> t in timers && t.callable)
      && (forall t | t in timers :: t.callable ==> t.cb.Some?)
    }

    constructor (now: UInt64)
      ensures Valid() && timers == [] && previous == now && live == {} && !tickled
    {
      timers, tickled, previous, live := [], false, now, {};
    }

    /** The tree search: the first timer not before a key. */
    method LowerBound(next: UInt64, addr: nat) returns (k: nat)
      requires Ordered(timers)
      ensures k <= |timers|
      ensures forall i | 0 <= i < k :: Before(timers[i].next, timers[i].addr, next, addr)
      ensures forall i | k <= i < |timers| :: !Before(timers[i].next, timers[i].addr, next, addr)
    {
      k := 0;
      while k < |timers| && Before(timers[k].next, timers[k].addr, next, addr)
        invariant k <= |timers|
        invariant forall i | 0 <= i < k :: Before(timers[i].next, timers[i].addr, next, addr)
      {
        k := k + 1;
      }
      forall i | k <= i < |timers| ensures !Before(timers[i].next, timers[i].addr, next, addr) {
        if k < i {
          assert Less(timers[k], timers[i]);
          BeforeOrder(timers[k].next, timers[k].addr, timers[i].next, timers[i].addr, next, addr);
        }
      }
    }

    /** `m_timers.find`: by key, yet it finds the timer exactly if it is there. */
    method Find(t: Timer) returns (k: nat)
      requires Ordered(timers) && Distinct(live) && t in live && (forall s | s in timers :: s in live)
      ensures k <= |timers|
      ensures if t in timers then k < |timers| && timers[k] == t else k == |timers|
    {
      k := LowerBound(t.next, t.addr);
      if t in timers {
        ghost var i :| 0 <= i < |timers| && timers[i] == t;
        BeforeOrder(t.next, t.addr, t.next, t.addr, t.next, t.addr);
        assert k <= i;
      }
      if k < |timers| && Before(t.next, t.addr, timers[k].next, timers[k].addr) {
        k := |timers|;
      } else if k < |timers| {
        BeforeOrder(timers[k].next, timers[k].addr, t.next, t.addr, t.next, t.addr);
      }
    }

    /** `m_timers.insert` of a timer that is not in the set. */
    method Insert(t: Timer) returns (k: nat)
      requires Ordered(timers) && Distinct(live) && t in live && (forall s | s in timers :: s in live)
      requires t !in timers
      modifies `timers
      ensures k <= |old(timers)| && timers == old(timers)[..k] + [t] + old(timers)[k..]
      ensures Ordered(timers) && forall s :: s in timers <==> s in old(timers) || s == t
    {
      k := LowerBound(t.next, t.addr);
      forall i | k <= i < |timers| ensures Less(t, timers[i]) {
        BeforeOrder(timers[i].next, timers[i].addr, t.next, t.addr, t.next, t.addr);
      }
      InsertOrdered(timers, k, t);
      timers := timers[..k] + [t] + timers[k..];
    }

    /** `m_timers.erase(it)`. */
    method Erase(k: nat)
      requires Ordered(timers) && k < |timers|
      modifies `timers
      ensures Ordered(timers) && timers == old(timers)[..k] + old(timers)[k + 1..]
      ensures forall s :: s in timers <==> s in old(timers) && s != old(timers[k])
    {
      SliceOrdered(timers, k, k + 1);
      ErasedMembers(timers, k);
      timers := timers[..k] + timers[k + 1..];
    }

    /** addTimer under the lock: whether the front has changed and the sleeping poller must be woken. */
    method InsertFront(t: Timer) returns (front: bool)
      requires Ordered(timers) && Distinct(live) && t in live && (forall s | s in timers :: s in live)
      requires t !in timers
      modifies `timers, `tickled
      ensures Ordered(timers) && forall s :: s in timers <==> s in old(timers) || s == t
      ensures front <==> !old(tickled) && timers[0] == t
      ensures tickled == (old(tickled) || front)
    {
      var k := Insert(t);
      front := k == 0 && !tickled;
      if front {
        tickled := true;
      }
    }

    /** Makes a timer. Timers outside the set that nobody holds any more, `gone`, have given their
        addresses free; the new timer has an address that no other timer has. */
    method AddTimer(ms: UInt64, cb: Option<int>, recurring: bool, now: UInt64, addr: nat, ghost gone: set<Timer>)
      returns (t: Timer, front: bool)
      requires Valid() && (forall s | s in gone :: s !in timers) && forall s | s in live - gone :: s.addr != addr
      modifies this
      ensures Valid() && fresh(t) && live == old(live) - gone + {t} && previous == old(previous)
      ensures t.addr == addr && t.recurring == recurring && t.ms == ms && t.cb == cb && t.next == Wrap(now + ms)
      ensures forall s :: s in timers <==> s in old(timers) || s == t
      ensures front <==> !old(tickled) && timers[0] == t
      ensures tickled == (old(tickled) || front)
    {
      t := new Timer(addr, ms, cb, recurring, now);
      live := live - gone + {t};
      front := InsertFront(t);
    }

    /** Takes the callback and the timer away; a second call does nothing. */
    method Cancel(t: Timer) returns (ok: bool)
      requires Valid() && t in live
      modifies `timers, t`cb
      ensures Valid() && ok == old(t.cb.Some?)
      ensures t.cb == None
      ensures forall s :: s in timers <==> s in old(timers) && !(ok && s == t)
    {
      if t.cb.None? {
        return false;
      }
      t.cb := None;
      var it := Find(t);
      assert it < |timers|;
      Erase(it);
      ok := true;
    }

    /** Starts the period of a timer anew from now: its key changes while it is out of the set. */
    method Refresh(t: Timer, now: UInt64) returns (ok: bool)
      requires Valid() && t in live
      modifies `timers, t`next
      ensures Valid() && ok == t.cb.Some?
      ensures t.next == if ok then Wrap(now + t.ms) else old(t.next)
      ensures forall s :: s in timers <==> s in old(timers)
    {
      if t.cb.None? {
        return false;
      }
      var it := Find(t);
      if it == |timers| {
        return false;
      }
      Erase(it);
      t.next := Wrap(now + t.ms);
      var k := Insert(t);
      ok := true;
    }

    /** Gives a timer another period, from now or from the start of the running one. The period it has
        already is accepted without a look at the timer, also of a cancelled one. */
    method Reset(t: Timer, ms: UInt64, fromNow: bool, now: UInt64) returns (ok: bool, front: bool)
      requires Valid() && t in live
      modifies `timers, `tickled, t`next, t`ms
      ensures Valid() && (ok <==> (old(t.ms) == ms && !fromNow) || t.cb.Some?)
      ensures forall s :: s in timers <==> s in old(timers)
      ensures t.ms == if ok then ms else old(t.ms)
      ensures t.next == if !ok || (old(t.ms) == ms && !fromNow) then old(t.next)
                        else if fromNow then Wrap(now + ms) else Wrap(old(t.next) - old(t.ms) + ms)
      ensures front <==> t.cb.Some? && !(old(t.ms) == ms && !fromNow) && !old(tickled) && timers[0] == t
      ensures tickled == (old(tickled) || front)
    {
      hide Wrap, Before, Less;
      front := false;
      if ms == t.ms && !fromNow {
        return true, front;
      }
      if t.cb.None? {
        return false, front;
      }
      var it := Find(t);
      if it == |timers| {
        return false, front;
      }
      Erase(it);
      var start := if fromNow then now else Wrap(t.next - t.ms);
      WrapTwice(t.next - t.ms, ms);
      t.ms := ms;
      t.next := Wrap(start + ms);
      front := InsertFront(t);
      ok := true;
    }

    /** The wait to the earliest timer, and the largest word when there is none. */
    method GetNextTimer(now: UInt64) returns (wait: UInt64)
      requires Valid()
      modifies `tickled
      ensures Valid() && !tickled
      ensures timers == [] ==> wait == WORD - 1
      ensures timers != [] ==> forall s | s in timers :: wait <= (if now >= s.next then 0 else s.next - now)
      ensures timers != [] ==> exists t | t in timers :: wait == if now >= t.next then 0 else t.next - now
    {
      tickled := false;
      if timers == [] {
        return WORD - 1;
      }
      var next := timers[0];
      wait := if now >= next.next then 0 else next.next - now;
      forall s | s in timers ensures next.next <= s.next {
        var i :| 0 <= i < |timers| && timers[i] == s;
        assert i > 0 ==> Less(timers[0], timers[i]);
      }
    }

    /** How many timers from the front are due: all of them after a rollover. `probe` is the address of
        the search key made for this. */
    method DueCount(now: UInt64, rollover: bool, probe: nat) returns (k: nat)
      requires Ordered(timers)
      ensures k <= |timers|
      ensures forall i | 0 <= i < |timers| :: i < k <==> rollover || timers[i].next <= now
    {
      if rollover {
        return |timers|;
      }
      k := LowerBound(now, probe);
      while k < |timers| && timers[k].next == now
        invariant k <= |timers|
        invariant forall i | 0 <= i < k :: timers[i].next <= now
        invariant forall i | k <= i < |timers| :: now <= timers[i].next
      {
        k := k + 1;
      }
      forall i | k <= i < |timers| ensures now < timers[i].next {
        assert k < i ==> Less(timers[k], timers[i]);
      }
    }

    /** `m_timers.erase(m_timers.begin(), it)`. */
    method EraseFront(k: nat) returns (due: seq<Timer>)
      requires Ordered(timers) && k <= |timers|
      modifies `timers
      ensures due == old(timers)[..k] && timers == old(timers)[k..] && Ordered(timers)
      ensures forall t :: t in old(timers) <==> t in due || t in timers
      ensures forall t | t in due :: t !in timers
      ensures forall i, j | 0 <= i < j < |due| :: due[i] != due[j]
      ensures forall t | t in due :: exists i :: 0 <= i < k && old(timers)[i] == t
      ensures forall t | t in timers :: exists i :: k <= i < |old(timers)| && old(timers)[i] == t
    {
      SplitMembers(timers, k);
      SliceOrdered(timers, k, |timers|);
      due, timers := timers[..k], timers[k..];
    }

    /** Takes the due timers out of the set. */
    method TakeDue(now: UInt64, rollover: bool, probe: nat) returns (due: seq<Timer>)
      requires Ordered(timers)
      modifies `timers
      ensures due <= old(timers) && Ordered(timers)
      ensures forall t | t in old(timers) :: t in due <==> rollover || t.next <= now
      ensures forall t :: t in old(timers) <==> t in due || t in timers
      ensures forall t | t in due :: t !in timers
      ensures forall i, j | 0 <= i < j < |due| :: due[i] != due[j]
    {
      var k := DueCount(now, rollover, probe);
      due := EraseFront(k);
    }

    /** One turn of the loop over the expired timers, which are out of the set while their keys
        change. */
    method Renew(t: Timer, now: UInt64)
      requires Ordered(timers) && Distinct(live) && t in live && (forall s | s in timers :: s in live)
      requires t !in timers
      modifies `timers, t`next, t`cb
      ensures Ordered(timers) && forall s :: s in timers <==> s in old(timers) || (s == t && t.recurring)
      ensures Renewed(t, old(t.next), old(t.cb), now)
    {
      if t.recurring {
        t.next := Wrap(now + t.ms);
        var k := Insert(t);
      } else {
        t.cb := None;
      }
    }

    /** The loop over the expired timers. */
    method RenewAll(expired: seq<Timer>, now: UInt64) returns (cbs: seq<Option<int>>)
      requires Ordered(timers) && Distinct(live) && (forall s | s in timers :: s in live)
      requires forall t | t in expired :: t in live && t !in timers
      requires forall i, j | 0 <= i < j < |expired| :: expired[i] != expired[j]
      modifies `timers, expired
      ensures Ordered(timers) && |cbs| == |expired|
      ensures forall i | 0 <= i < |expired| :: cbs[i] == old(expired[i].cb)
      ensures forall s :: s in timers <==> s in old(timers) || (s in expired && s.recurring)
      ensures forall t | t in expired :: Renewed(t, old(t.next), old(t.cb), now) && t.ms == old(t.ms)
    {
      cbs := [];
      var i := 0;
      while i < |expired|
        invariant i <= |expired| && |cbs| == i && Ordered(timers)
        invariant forall j | 0 <= j < i :: cbs[j] == old(expired[j].cb)
        invariant forall s :: s in timers <==> s in old(timers) || (s in expired[..i] && s.recurring)
        invariant forall t | t in expired[..i] :: Renewed(t, old(t.next), old(t.cb), now)
        invariant forall t | t in expired[i..] :: t.next == old(t.next) && t.cb == old(t.cb)
        invariant forall t | t in expired :: t.ms == old(t.ms)
      {
        var t := expired[i];
        cbs := cbs + [t.cb];
        assert t !in expired[..i];
        Renew(t, now);
        assert expired[..i + 1] == expired[..i] + [t];
        i := i + 1;
      }
      assert expired[..i] == expired;
    }

    /** Takes out the expired timers: exactly those due by now, in the order of their keys, or all of
        them after a rollover. One-shot timers leave for good and lose their callback; recurring ones
        go back in, due one period from now; all others are as they were. */
    method ListExpiredCb(now: UInt64, probe: nat) returns (cbs: seq<Option<int>>, ghost expired: seq<Timer>)
      requires Valid()
      modifies `timers, `previous, timers
      ensures Valid() && expired <= old(timers)
      ensures forall t | t in old(timers) ::
                t in expired <==> old(Rollover(previous, now)) || old(t.next) <= now
      ensures |cbs| == |expired| && forall i | 0 <= i < |cbs| :: cbs[i] == old(expired[i].cb)
      ensures forall s :: s in timers <==> s in old(timers) && (s in expired ==> s.recurring)
      ensures forall t | t in expired :: Renewed(t, old(t.next), old(t.cb), now) && t.ms == old(t.ms)
      ensures forall t | t in old(timers) && t !in expired :: unchanged(t)
      ensures previous == if old(timers) == [] then old(previous) else now
    {
      expired := [];
      if timers == [] {
        return [], expired;
      }
      var rollover := Rollover(previous, now);
      previous := now;
      if !rollover && timers[0].next > now {
        NoneDue(timers, now);
        return [], expired;
      }
      var due := TakeDue(now, rollover, probe);
      expired := due;
      cbs := RenewAll(due, now);
    }
  }

  /** What becomes of a timer that has expired. */
  predicate Renewed(t: Timer, next: UInt64, cb: Option<int>, now: UInt64)
    reads t
  {
    if t.recurring then t.next == Wrap(now + t.ms) && t.cb == cb else t.next == next && t.cb == None
  }

  /** A recurring timer is due one period from now, whatever its old key was, and keeps its callback; any
      other has lost it and keeps its key. */
  lemma RenewedIs(t: Timer, next: UInt64, cb: Option<int>, now: UInt64)
    requires Renewed(t, next, cb, now)
    ensures t.recurring && now + t.ms < 0x1_0000_0000_0000_0000 ==> t.next == now + t.ms
    ensures t.recurring && now + t.ms >= 0x1_0000_0000_0000_0000 ==> t.next == now + t.ms - 0x1_0000_0000_0000_0000
    ensures t.cb == if t.recurring then cb else None
    ensures !t.recurring ==> t.next == next
  {
    WrapIs(now + t.ms);
  }

  lemma NoneDue(s: seq<Timer>, now: UInt64)
    requires Ordered(s) && s != [] && s[0].next > now
    ensures forall t | t in s :: t.next > now
  {
  }

  /** In an ordered list nothing is both before and behind a place. */
  lemma SplitMembers(s: seq<Timer>, k: nat)
    requires Ordered(s) && k <= |s|
    ensures forall t :: t in s <==> t in s[..k] || t in s[k..]
    ensures forall t | t in s[..k] :: t !in s[k..]
    ensures forall i, j | 0 <= i < j < k :: s[..k][i] != s[..k][j]
  {
  }

  lemma WrapTwice(x: int, y: int)
    ensures Wrap(Wrap(x) + y) == Wrap(x + y)
  {
    assert (x % WORD + y) % WORD == (x + y) % WORD;
  }

  lemma ErasedMembers(s: seq<Timer>, k: nat)
    requires Ordered(s) && k < |s|
    ensures forall t :: t in s[..k] + s[k + 1..] <==> t in s && t != s[k]
  {
  }
}
