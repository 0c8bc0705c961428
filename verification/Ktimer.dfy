/** The timer wheel: 256 slots of pending timers, one slot looked at per tick. */
module Ktimer {
  import opened Basics
  import opened WaitList

  const SLOTS := 256

  datatype Timer = Timer(expires: nat, interval: nat, active: bool)

  /** The timers, the wheel, the count of active timers, the tick counter, and for each timer the
      ticks at which its callback was called. */
  datatype State = State(timers: seq<Timer>, wheel: seq<seq<nat>>, count: int, ticks: nat, log: seq<seq<nat>>)

  /** The slot an active timer belongs in. */
  function SlotOf(u: Timer): (k: nat) {
    if u.active then u.expires % SLOTS else SLOTS
  }

  function Places(timers: seq<Timer>): (p: seq<nat>)
    ensures |p| == |timers| && forall t | 0 <= t < |timers| :: p[t] == SlotOf(timers[t])
  {
    seq(|timers|, i requires 0 <= i < |timers| => SlotOf(timers[i]))
  }

  lemma PlacesUpdate(timers: seq<Timer>, t: nat, u: Timer)
    requires t < |timers|
    ensures Places(timers[t := u]) == Places(timers)[t := SlotOf(u)]
  {
  }

  function Total(wheel: seq<seq<nat>>): nat {
    if wheel == [] then 0 else Total(wheel[..|wheel| - 1]) + |wheel[|wheel| - 1]|
  }

  lemma {:induction false} TotalUpdate(wheel: seq<seq<nat>>, k: nat, q: seq<nat>)
    requires k < |wheel|
    ensures Total(wheel[k := q]) == Total(wheel) - |wheel[k]| + |q|
  {
    var n := |wheel| - 1;
    if k == n {
      assert wheel[k := q][..n] == wheel[..n];
    } else {
      assert wheel[k := q][..n] == wheel[..n][k := q];
      TotalUpdate(wheel[..n], k, q);
    }
  }

  predicate Sized(s: State) {
    |s.wheel| == SLOTS && |s.log| == |s.timers|
  }

  /** Every active timer is on the list of its slot, once, and on no other; the count is the sum of
      the lists' lengths. */
  ghost predicate Wheel(s: State) {
    && Sized(s) && s.count == Total(s.wheel)
    && (forall k | 0 <= k < SLOTS :: Sleepers(s.wheel[k], Places(s.timers), k))
  }

  // ---------------------------------------------------------------- linking and unlinking

  /** Take the i-th timer of slot k off the wheel. */
  function Unlink(s: State, k: nat, i: nat): State
    requires k < |s.wheel| && i < |s.wheel[k]| && s.wheel[k][i] < |s.timers|
  {
    var t := s.wheel[k][i];
    s.(wheel := s.wheel[k := Without(s.wheel[k], i)], timers := s.timers[t := s.timers[t].(active := false)],
       count := s.count - 1)
  }

  /** Put a timer at the back of its slot. */
  function Link(s: State, t: nat, expires: nat, interval: nat): State
    requires Sized(s) && t < |s.timers|
  {
    var k := expires % SLOTS;
    s.(wheel := s.wheel[k := s.wheel[k] + [t]], timers := s.timers[t := Timer(expires, interval, true)],
       count := s.count + 1)
  }

  lemma Member(s: State, k: nat, i: nat)
    requires Wheel(s) && k < SLOTS && i < |s.wheel[k]|
    ensures s.wheel[k][i] < |s.timers| && s.timers[s.wheel[k][i]].active && s.timers[s.wheel[k][i]].expires % SLOTS == k
  {
    assert Sleepers(s.wheel[k], Places(s.timers), k);
  }

  lemma OnList(s: State, t: nat)
    requires Wheel(s) && t < |s.timers| && s.timers[t].active
    ensures t in s.wheel[s.timers[t].expires % SLOTS]
  {
    var k := s.timers[t].expires % SLOTS;
    assert Sleepers(s.wheel[k], Places(s.timers), k);
    assert Places(s.timers)[t] == k;
  }

  lemma UnlinkKeepsWheel(s: State, k: nat, i: nat)
    requires Wheel(s) && k < SLOTS && i < |s.wheel[k]|
    ensures s.wheel[k][i] < |s.timers| && Wheel(Unlink(s, k, i))
  {
    hide Sleepers, Places, Total;
    Member(s, k, i);
    var t := s.wheel[k][i];
    var n := Unlink(s, k, i);
    PlacesUpdate(s.timers, t, n.timers[t]);
    TotalUpdate(s.wheel, k, Without(s.wheel[k], i));
    SleepersCut(s.wheel[k], Places(s.timers), k, i, SLOTS);
    forall j | 0 <= j < SLOTS
      ensures Sleepers(n.wheel[j], Places(n.timers), j)
    {
      if j != k {
        SleepersKept(s.wheel[j], Places(s.timers), j, t, SLOTS);
      }
    }
  }

  lemma LinkKeepsWheel(s: State, t: nat, expires: nat, interval: nat)
    requires Wheel(s) && t < |s.timers| && !s.timers[t].active
    ensures Wheel(Link(s, t, expires, interval))
  {
    hide Sleepers, Places, Total;
    var k := expires % SLOTS;
    var n := Link(s, t, expires, interval);
    PlacesUpdate(s.timers, t, n.timers[t]);
    TotalUpdate(s.wheel, k, s.wheel[k] + [t]);
    SleepersAdd(s.wheel[k], Places(s.timers), k, t);
    forall j | 0 <= j < SLOTS
      ensures Sleepers(n.wheel[j], Places(n.timers), j)
    {
      if j != k {
        SleepersKept(s.wheel[j], Places(s.timers), j, t, k);
      }
    }
  }

  // ---------------------------------------------------------------- the operations

  /** Off the wheel, wherever it is. */
  function Cancelled(s: State, t: nat): State
    requires t < |s.timers|
  {
    var k := SlotOf(s.timers[t]);
    if s.timers[t].active && k < |s.wheel| && t in s.wheel[k] then Unlink(s, k, Find(s.wheel[k], t)) else s
  }

  function Started(s: State, t: nat, ticks: nat, interval: nat): State
    requires t < |s.timers|
  {
    var n := Cancelled(s, t);
    if Sized(n) && t < |n.timers| then Link(n, t, s.ticks + ticks, interval) else n
  }

  /** The first n nodes of slot k that are not due. */
  function Waiting(s: State, k: nat, n: nat): (r: seq<nat>)
    requires k < |s.wheel| && n <= |s.wheel[k]|
    ensures |r| <= n
  {
    if n == 0 then []
    else
      var t := s.wheel[k][n - 1];
      Waiting(s, k, n - 1) + if t < |s.timers| && s.ticks >= s.timers[t].expires then [] else [t]
  }

  /** Call back the i-th timer of slot k, and arm it again if it repeats. */
  function Fire(s: State, k: nat, i: nat): State
    requires Sized(s) && k < SLOTS && i < |s.wheel[k]| && s.wheel[k][i] < |s.timers|
  {
    var t := s.wheel[k][i];
    var u := s.timers[t];
    var off := Unlink(s, k, i).(log := s.log[t := s.log[t] + [s.ticks]]);
    if u.interval > 0 then Link(off, t, s.ticks + u.interval, u.interval) else off
  }

  /** The walk over slot k after n of its nodes. */
  function FireSome(s: State, k: nat, n: nat): State
    requires Sized(s) && k < SLOTS && n <= |s.wheel[k]|
  {
    if n == 0 then s
    else
      var w := FireSome(s, k, n - 1);
      var i := |Waiting(s, k, n - 1)|;
      if Sized(w) && i < |w.wheel[k]| && w.wheel[k][i] < |w.timers| && w.ticks >= w.timers[w.wheel[k][i]].expires
      then Fire(w, k, i) else w
  }

  function Tick(s: State): State
    requires Sized(s)
  {
    var now := s.(ticks := s.ticks + 1);
    var k := now.ticks % SLOTS;
    FireSome(now, k, |now.wheel[k]|)
  }

  datatype Event = TickEvent | Start(t: nat, ms: nat) | StartRepeating(t: nat, ms: nat) | Cancel(t: nat)

  function Apply(s: State, e: Event): State {
    match e
    case TickEvent => if Sized(s) then Tick(s) else s
    case Start(t, ms) => if t < |s.timers| then Started(s, t, Ticks(ms), 0) else s
    case StartRepeating(t, ms) => if t < |s.timers| then Started(s, t, Ticks(ms), Ticks(ms)) else s
    case Cancel(t) => if t < |s.timers| then Cancelled(s, t) else s
  }

  function Exec(s: State, es: seq<Event>): State {
    if es == [] then s else Apply(Exec(s, es[..|es| - 1]), es[|es| - 1])
  }

  // ---------------------------------------------------------------- the simple form: scan every timer

  predicate DueAt(u: Timer, now: nat) {
    u.active && now >= u.expires
  }

  /** What a tick does to a timer when every timer is looked at. */
  function Scan(u: Timer, now: nat): Timer {
    if !DueAt(u, now) then u
    else if u.interval > 0 then Timer(now + u.interval, u.interval, true)
    else u.(active := false)
  }

  function ScanLog(u: Timer, log: seq<nat>, now: nat): seq<nat> {
    if DueAt(u, now) then log + [now] else log
  }

  /** No active timer is overdue. */
  ghost predicate NoneOverdue(s: State) {
    forall t | 0 <= t < |s.timers| && s.timers[t].active :: s.timers[t].expires > s.ticks
  }

  ghost predicate Inv(s: State) {
    Wheel(s) && NoneOverdue(s)
  }

  lemma FireKeepsWheel(s: State, k: nat, i: nat)
    requires Wheel(s) && k < SLOTS && i < |s.wheel[k]|
    ensures s.wheel[k][i] < |s.timers| && Wheel(Fire(s, k, i))
  {
    hide Sleepers, Places, Total;
    UnlinkKeepsWheel(s, k, i);
    var t := s.wheel[k][i];
    var off := Unlink(s, k, i).(log := s.log[t := s.log[t] + [s.ticks]]);
    assert Wheel(off);
    if s.timers[t].interval > 0 {
      LinkKeepsWheel(off, t, s.ticks + s.timers[t].interval, s.timers[t].interval);
    }
  }

  lemma FireEffect(s: State, k: nat, i: nat)
    requires Wheel(s) && k < SLOTS && i < |s.wheel[k]|
    requires s.wheel[k][i] < |s.timers| && DueAt(s.timers[s.wheel[k][i]], s.ticks)
    ensures var t := s.wheel[k][i];
            var n := Fire(s, k, i);
            && n.timers == s.timers[t := Scan(s.timers[t], s.ticks)]
            && n.log == s.log[t := ScanLog(s.timers[t], s.log[t], s.ticks)]
            && n.ticks == s.ticks && |n.wheel| == SLOTS && Without(s.wheel[k], i) <= n.wheel[k]
  {
    hide Sleepers, Places, Total;
  }

  /** After n nodes of slot k: those nodes are as a scan leaves them, all else is untouched. */
  ghost predicate Progress(s: State, w: State, k: nat, n: nat)
    requires Sized(s) && k < SLOTS && n <= |s.wheel[k]|
  {
    && Wheel(w) && w.ticks == s.ticks && |w.timers| == |s.timers|
    && Waiting(s, k, n) + s.wheel[k][n..] <= w.wheel[k]
    && (forall t | 0 <= t < |s.timers| :: ScannedIf(s, w, t, t in s.wheel[k][..n]))
  }

  ghost predicate ScannedIf(s: State, w: State, t: nat, visited: bool)
    requires t < |s.timers| == |s.log| && t < |w.timers| == |w.log|
  {
    && w.timers[t] == (if visited then Scan(s.timers[t], s.ticks) else s.timers[t])
    && w.log[t] == (if visited then ScanLog(s.timers[t], s.log[t], s.ticks) else s.log[t])
  }

  /** The node the walk is at, and how the slot splits around it. */
  lemma NextNode(s: State, w: State, k: nat, n: nat)
    requires Wheel(s) && k < SLOTS && 0 < n <= |s.wheel[k]| && Progress(s, w, k, n - 1)
    ensures var i := |Waiting(s, k, n - 1)|;
            var t := s.wheel[k][n - 1];
            && i < |w.wheel[k]| && w.wheel[k][i] == t && t < |s.timers| && s.timers[t].active
            && w.timers[t] == s.timers[t] && t !in s.wheel[k][..n - 1]
            && Waiting(s, k, n - 1) + s.wheel[k][n..] <= Without(w.wheel[k], i)
            && Waiting(s, k, n - 1) + [t] + s.wheel[k][n..] <= w.wheel[k]
    ensures forall x :: x in s.wheel[k][..n] <==> x in s.wheel[k][..n - 1] || x == s.wheel[k][n - 1]
  {
    hide Waiting, Total;
    var q, r, t := s.wheel[k], w.wheel[k], s.wheel[k][n - 1];
    Member(s, k, n - 1);
    assert Sleepers(q, Places(s.timers), k);
    assert q[n - 1..] == [t] + q[n..] && q[..n] == q[..n - 1] + [t];
    assert ScannedIf(s, w, t, t in q[..n - 1]);
    var a := Waiting(s, k, n - 1);
    assert a + q[n - 1..] == a + [t] + q[n..];
    PrefixCut(a, t, q[n..], r);
  }

  lemma PrefixCut(a: seq<nat>, t: nat, b: seq<nat>, r: seq<nat>)
    requires a + [t] + b <= r
    ensures |a| < |r| && r[|a|] == t && a + b <= Without(r, |a|)
  {
    assert r[..|a|] == a;
    assert forall i | 0 <= i < |b| :: r[|a| + 1 + i] == (a + [t] + b)[|a| + 1 + i] == b[i];
  }

  lemma FireStep(s: State, w: State, k: nat, n: nat)
    requires Wheel(s) && k < SLOTS && 0 < n <= |s.wheel[k]| && Progress(s, w, k, n - 1)
    ensures var i := |Waiting(s, k, n - 1)|;
            && i < |w.wheel[k]| && w.wheel[k][i] < |w.timers|
            && Progress(s, if w.ticks >= w.timers[w.wheel[k][i]].expires then Fire(w, k, i) else w, k, n)
  {
    hide Sleepers, Total, Places, Fire, Without;
    NextNode(s, w, k, n);
    var i, t := |Waiting(s, k, n - 1)|, s.wheel[k][n - 1];
    var v := if w.ticks >= w.timers[t].expires then Fire(w, k, i) else w;
    if w.ticks >= w.timers[t].expires {
      FireKeepsWheel(w, k, i);
      FireEffect(w, k, i);
    }
    forall x | 0 <= x < |s.timers|
      ensures ScannedIf(s, v, x, x in s.wheel[k][..n])
    {
      assert ScannedIf(s, w, x, x in s.wheel[k][..n - 1]);
    }
  }

  lemma {:induction false} FireSomeProgress(s: State, k: nat, n: nat)
    requires Wheel(s) && k < SLOTS && n <= |s.wheel[k]|
    ensures Progress(s, FireSome(s, k, n), k, n)
  {
    hide Sleepers, Total, Places, Fire;
    if n > 0 {
      FireSomeProgress(s, k, n - 1);
      FireStep(s, FireSome(s, k, n - 1), k, n);
    }
  }

  /** A tick of the wheel does to every timer exactly what a scan of all timers would do. */
  lemma TickIsScan(s: State)
    requires Inv(s)
    ensures var w := Tick(s);
            && Inv(w) && w.ticks == s.ticks + 1 && |w.timers| == |s.timers|
            && (forall t | 0 <= t < |s.timers| ::
                  && w.timers[t] == Scan(s.timers[t], s.ticks + 1)
                  && w.log[t] == ScanLog(s.timers[t], s.log[t], s.ticks + 1))
  {
    hide Sleepers, Total, Places, FireSome, Waiting;
    var now := s.(ticks := s.ticks + 1);
    var k := now.ticks % SLOTS;
    var n := |s.wheel[k]|;
    FireSomeProgress(now, k, n);
    var w := Tick(s);
    assert now.wheel[k][..n] == now.wheel[k];
    forall t | 0 <= t < |s.timers|
      ensures w.timers[t] == Scan(s.timers[t], s.ticks + 1)
      ensures w.log[t] == ScanLog(s.timers[t], s.log[t], s.ticks + 1)
    {
      assert ScannedIf(now, w, t, t in now.wheel[k][..n]);
      if s.timers[t].active && s.timers[t].expires == now.ticks {
        OnList(now, t);
      }
    }
  }

  // ---------------------------------------------------------------- every run

  lemma CancelledExact(s: State, t: nat)
    requires Inv(s) && t < |s.timers|
    ensures var n := Cancelled(s, t);
            && Inv(n) && n.ticks == s.ticks && n.log == s.log
            && n.timers == s.timers[t := s.timers[t].(active := false)]
  {
    hide Sleepers, Total, Places;
    if s.timers[t].active {
      OnList(s, t);
      var k := SlotOf(s.timers[t]);
      UnlinkKeepsWheel(s, k, Find(s.wheel[k], t));
    }
  }

  lemma StartedExact(s: State, t: nat, ticks: nat, interval: nat)
    requires Inv(s) && t < |s.timers| && ticks >= 1
    ensures var n := Started(s, t, ticks, interval);
            && Inv(n) && n.ticks == s.ticks && n.log == s.log
            && n.timers == s.timers[t := Timer(s.ticks + ticks, interval, true)]
  {
    hide Sleepers, Total, Places, Cancelled;
    CancelledExact(s, t);
    LinkKeepsWheel(Cancelled(s, t), t, s.ticks + ticks, interval);
  }

  predicate Touches(e: Event, t: nat) {
    !e.TickEvent? && e.t == t
  }

  lemma StepKeepsInv(s: State, e: Event)
    requires Inv(s)
    ensures Inv(Apply(s, e)) && |Apply(s, e).timers| == |s.timers|
  {
    hide Wheel, Tick, Started, Cancelled;
    match e
    case TickEvent => TickSized(s); TickIsScan(s);
    case Start(t, ms) => if t < |s.timers| { StartedExact(s, t, Ticks(ms), 0); }
    case StartRepeating(t, ms) => if t < |s.timers| { StartedExact(s, t, Ticks(ms), Ticks(ms)); }
    case Cancel(t) => if t < |s.timers| { CancelledExact(s, t); }
  }

  lemma TickSized(s: State)
    requires Inv(s)
    ensures Sized(s)
  {
  }

  /** What one step does to a timer it does not name. */
  lemma StepOnOthers(s: State, e: Event, t: nat)
    requires Inv(s) && t < |s.timers| && !Touches(e, t)
    ensures var n := Apply(s, e);
            && |n.timers| == |n.log| == |s.timers| == |s.log|
            && (if e.TickEvent? then
                  n.ticks == s.ticks + 1 && n.timers[t] == Scan(s.timers[t], n.ticks) &&
                  n.log[t] == ScanLog(s.timers[t], s.log[t], n.ticks)
                else n.ticks == s.ticks && n.timers[t] == s.timers[t] && n.log[t] == s.log[t])
  {
    hide Sleepers, Total, Places, Tick, Started, Cancelled;
    match e
    case TickEvent => TickIsScan(s);
    case Start(u, ms) => if u < |s.timers| { StartedExact(s, u, Ticks(ms), 0); }
    case StartRepeating(u, ms) => if u < |s.timers| { StartedExact(s, u, Ticks(ms), Ticks(ms)); }
    case Cancel(u) => if u < |s.timers| { CancelledExact(s, u); }
  }

  function Init(n: nat): State {
    State(seq(n, _ => Timer(0, 0, false)), seq(SLOTS, _ => []), 0, 0, seq(n, _ => []))
  }

  lemma InitInv(n: nat)
    ensures Inv(Init(n))
  {
    EmptyTotal(Init(n).wheel);
  }

  lemma {:induction false} EmptyTotal(wheel: seq<seq<nat>>)
    requires forall k | 0 <= k < |wheel| :: wheel[k] == []
    ensures Total(wheel) == 0
  {
    if wheel != [] {
      EmptyTotal(wheel[..|wheel| - 1]);
    }
  }

  /** On every run the wheel is sound: each active timer is in its slot alone, none is overdue, and
      the count is right. */
  lemma {:induction false} RunKeepsInv(s: State, es: seq<Event>)
    requires Inv(s)
    ensures Inv(Exec(s, es)) && |Exec(s, es).timers| == |s.timers|
  {
    hide Inv, Apply;
    if es != [] {
      RunKeepsInv(s, es[..|es| - 1]);
      StepKeepsInv(Exec(s, es[..|es| - 1]), es[|es| - 1]);
    }
  }

  ghost predicate Untouched(es: seq<Event>, t: nat) {
    forall i | 0 <= i < |es| :: !Touches(es[i], t)
  }

  /** A one-shot timer not touched again is called back exactly once, at its start plus its delay. */
  lemma {:induction false} OneShotFiresOnce(s: State, t: nat, ms: nat, es: seq<Event>)
    requires Inv(s) && t < |s.timers| && Untouched(es, t)
    ensures var n := Exec(Apply(s, Start(t, ms)), es);
            var at := s.ticks + Ticks(ms);
            && |n.timers| == |n.log| == |s.timers| == |s.log|
            && n.log[t] == s.log[t] + (if n.ticks >= at then [at] else [])
            && n.timers[t] == Timer(at, 0, n.ticks < at) && n.ticks >= s.ticks
  {
    hide Inv, Started, Ticks;
    var first := Apply(s, Start(t, ms));
    StartedExact(s, t, Ticks(ms), 0);
    InvSized(s); InvSized(first);
    if es != [] {
      hide Apply;
      var front := es[..|es| - 1];
      OneShotFiresOnce(s, t, ms, front);
      RunKeepsInv(first, front);
      StepOnOthers(Exec(first, front), es[|es| - 1], t);
    }
  }

  lemma InvSized(s: State)
    requires Inv(s)
    ensures |s.log| == |s.timers|
  {
  }

  /** The first k multiples of d after `start`. */
  function Times(start: nat, d: nat, k: nat): (r: seq<nat>)
    ensures |r| == k && forall i | 0 <= i < k :: r[i] == start + d * (i + 1)
  {
    if k == 0 then [] else Times(start, d, k - 1) + [start + d * k]
  }

  /** A repeating timer not touched again is called back at every multiple of its interval, without
      drift, however long the run and whatever the interval. */
  lemma {:induction false} RepeatingFiresAtMultiples(s: State, t: nat, ms: nat, es: seq<Event>)
    requires Inv(s) && t < |s.timers| && Untouched(es, t)
    ensures var n := Exec(Apply(s, StartRepeating(t, ms)), es);
            var d := Ticks(ms);
            && |n.timers| == |n.log| == |s.timers| == |s.log| && n.ticks >= s.ticks
            && var k := (n.ticks - s.ticks) / d;
               && n.log[t] == s.log[t] + Times(s.ticks, d, k)
               && n.timers[t] == Timer(s.ticks + d * (k + 1), d, true)
  {
    hide Inv, Started, Ticks, Times;
    var d := Ticks(ms);
    var first := Apply(s, StartRepeating(t, ms));
    StartedExact(s, t, d, d);
    InvSized(s); InvSized(first);
    if es == [] {
      NoTimes(s.ticks, d);
      assert s.log[t] + [] == s.log[t];
    } else {
      hide Apply;
      var front := es[..|es| - 1];
      RepeatingFiresAtMultiples(s, t, ms, front);
      RunKeepsInv(first, front);
      var before := Exec(first, front);
      StepOnOthers(before, es[|es| - 1], t);
      if es[|es| - 1].TickEvent? {
        NextMultiple(s.ticks, d, before.ticks - s.ticks);
        var k := (before.ticks - s.ticks) / d;
        assert (s.log[t] + Times(s.ticks, d, k)) + [s.ticks + d * (k + 1)] == s.log[t] + (Times(s.ticks, d, k) + [s.ticks + d * (k + 1)]);
      }
    }
  }

  lemma NoTimes(start: nat, d: nat)
    requires d >= 1
    ensures Times(start, d, 0) == [] && 0 / d == 0 && d * 1 == d
  {
  }

  /** One tick later the quotient is the next one exactly when a multiple is reached. */
  lemma NextMultiple(start: nat, d: nat, x: nat)
    requires d >= 1
    ensures var k := x / d;
            && x < d * (k + 1)
            && (if x + 1 == d * (k + 1) then
                  (x + 1) / d == k + 1 && Times(start, d, k + 1) == Times(start, d, k) + [start + d * (k + 1)]
                  && start + (x + 1) + d == start + d * (k + 1 + 1)
                else (x + 1) / d == k)
  {
    hide Times;
    var k := x / d;
    assert x == d * k + x % d;
    assert d * (k + 1) == d * k + d && d * (k + 1 + 1) == d * k + d + d by { Distribute(d, k); }
    if x + 1 == d * (k + 1) {
      DivUnique(x + 1, d, k + 1, 0);
      TimesStep(start, d, k);
    } else {
      DivUnique(x + 1, d, k, x % d + 1);
    }
  }

  lemma TimesStep(start: nat, d: nat, k: nat)
    ensures Times(start, d, k + 1) == Times(start, d, k) + [start + d * (k + 1)]
  {
  }

  lemma Distribute(d: nat, k: nat)
    ensures d * (k + 1) == d * k + d && d * (k + 1 + 1) == d * k + d + d
  {
  }
}
