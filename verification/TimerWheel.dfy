/** The timer wheel as the object its operations update in place. */
module TimerWheel {
  import opened Basics
  import opened Ktimer
  import opened WaitList

  class Wheels {
    var timers: seq<Timer>
    var wheel: seq<seq<nat>>
    var count: int
    var ticks: nat
    var log: seq<seq<nat>>

    ghost function View(): State
      reads this
    {
      State(timers, wheel, count, ticks, log)
    }

    constructor (n: nat)
      ensures View() == Init(n) && Inv(View())
    {
      timers, wheel, count := seq(n, _ => Timer(0, 0, false)), seq(SLOTS, _ => []), 0;
      ticks, log := 0, seq(n, _ => []);
      new;
      InitInv(n);
    }

    /** Unlink a timer that is on the wheel. */
    method Remove(t: nat)
      requires Inv(View()) && t < |timers| && timers[t].active
      modifies this
      ensures View() == Cancelled(old(View()), t)
    {
      hide Sleepers, Places, Total;
      OnList(View(), t);
      var k := timers[t].expires % SLOTS;
      var i := Find(wheel[k], t);
      wheel := wheel[k := Without(wheel[k], i)];
      timers := timers[t := timers[t].(active := false)];
      count := count - 1;
    }

    method Insert(t: nat, expires: nat, interval: nat)
      requires Sized(View()) && t < |timers|
      modifies this
      ensures View() == Link(old(View()), t, expires, interval)
    {
      timers := timers[t := Timer(expires, interval, true)];
      var slot := expires % SLOTS;
      wheel := wheel[slot := wheel[slot] + [t]];
      count := count + 1;
    }

    /** Arm a timer, cancelling it first if it is pending. */
    method Arm(t: nat, ms: nat, repeating: bool)
      requires Inv(View()) && t < |timers|
      modifies this
      ensures View() == Apply(old(View()), if repeating then StartRepeating(t, ms) else Start(t, ms))
      ensures Inv(View())
    {
      hide Inv, Cancelled, Link;
      InvSized(View());
      StepKeepsInv(View(), if repeating then StartRepeating(t, ms) else Start(t, ms));
      CancelledExact(View(), t);
      if timers[t].active {
        Remove(t);
      }
      assert View() == Cancelled(old(View()), t) by { CancelledIdle(old(View()), t); }
      var delay := ms / 10;
      if delay == 0 {
        delay := 1;
      }
      TickSized(View());
      Insert(t, ticks + delay, if repeating then delay else 0);
    }

    method CancelTimer(t: nat)
      requires Inv(View()) && t < |timers|
      modifies this
      ensures View() == Apply(old(View()), Cancel(t)) && Inv(View())
    {
      hide Inv, Cancelled;
      StepKeepsInv(View(), Cancel(t));
      CancelledIdle(View(), t);
      if timers[t].active {
        Remove(t);
      }
    }

    /** Call back the i-th timer of slot k, and arm it again if it repeats. */
    method FireAt(k: nat, i: nat)
      requires Sized(View()) && k < SLOTS && i < |wheel[k]| && wheel[k][i] < |timers|
      modifies this
      ensures View() == Fire(old(View()), k, i)
    {
      var t := wheel[k][i];
      wheel := wheel[k := Without(wheel[k], i)];
      timers := timers[t := timers[t].(active := false)];
      count := count - 1;
      log := log[t := log[t] + [ticks]];
      if timers[t].interval > 0 {
        Insert(t, ticks + timers[t].interval, timers[t].interval);
      }
    }

    /** One tick: walk the slot of the new time and call back the timers that are due.  `more` is whether
        the node after the current one is another timer, and is read before the current one is handled.
        A timer armed again into the same slot goes to the end, so the walk can come to it a second time;
        it is not due then. */
    method OnTick()
      requires Inv(View())
      modifies this
      ensures View() == Tick(old(View())) && Inv(View())
    {
      hide Inv, Wheel, Fire, FireSome, Waiting, Progress;
      TickSized(View());
      TickIsScan(View());
      ticks := ticks + 1;
      ghost var s := View();
      TickWheel(old(View()));
      var k := ticks % SLOTS;
      ghost var n, all := 0, |wheel[k]|;
      var i := 0;
      var at := |wheel[k]| > 0;
      Round(s, k, 0);
      while at
        invariant n <= all && View() == FireSome(s, k, n) && Sized(View())
        invariant n < all ==> at && i == |Waiting(s, k, n)|
        invariant n == all ==> i <= |wheel[k]| && (at ==> i < |wheel[k]|)
        decreases all - n, |wheel[k]| - i
      {
        if n < all {
          Round(s, k, n);
          Round(s, k, n + 1);
        } else {
          SecondVisit(View(), k, i);
        }
        var more := i + 1 < |wheel[k]|;
        if ticks >= timers[wheel[k][i]].expires {
          FireLength(View(), k, i);
          FireAt(k, i);
        } else {
          i := i + 1;
        }
        n := if n < all then n + 1 else n;
        at := more;
      }
    }
  }

  /** A timer that the walk comes to again is armed for a later time. */
  lemma SecondVisit(s: State, k: nat, i: nat)
    requires Inv(s) && k < SLOTS && Sized(s) && i < |s.wheel[k]|
    ensures s.wheel[k][i] < |s.timers| && s.ticks < s.timers[s.wheel[k][i]].expires
  {
    hide Sleepers, Total, Places;
    Member(s, k, i);
  }

  lemma FireLength(s: State, k: nat, i: nat)
    requires Sized(s) && k < SLOTS && i < |s.wheel[k]| && s.wheel[k][i] < |s.timers|
    ensures |Fire(s, k, i).wheel| == SLOTS && |Fire(s, k, i).wheel[k]| >= |s.wheel[k]| - 1
  {
  }

  lemma CancelledIdle(s: State, t: nat)
    requires t < |s.timers|
    ensures !s.timers[t].active ==> Cancelled(s, t) == s
  {
  }

  lemma TickWheel(s: State)
    requires Inv(s)
    ensures Wheel(s.(ticks := s.ticks + 1))
  {
  }

  /** One round of the walk: where it stands, and what it does there. */
  lemma Round(s: State, k: nat, n: nat)
    requires Wheel(s) && Sized(s) && k < SLOTS && n <= |s.wheel[k]|
    ensures Sized(FireSome(s, k, n)) && (n == 0 ==> FireSome(s, k, n) == s && |Waiting(s, k, n)| == 0)
    ensures |FireSome(s, k, n).wheel[k]| >= |Waiting(s, k, n)| + |s.wheel[k]| - n
    ensures n < |s.wheel[k]| ==>
              var w := FireSome(s, k, n);
              var i := |Waiting(s, k, n)|;
              && i < |w.wheel[k]| && w.wheel[k][i] < |w.timers|
              && (if w.ticks >= w.timers[w.wheel[k][i]].expires
                  then FireSome(s, k, n + 1) == Fire(w, k, i) && |Waiting(s, k, n + 1)| == i
                  else FireSome(s, k, n + 1) == w && |Waiting(s, k, n + 1)| == i + 1)
  {
    hide Sleepers, Total, Places, Fire;
    FireSomeProgress(s, k, n);
    if n < |s.wheel[k]| {
      NextNode(s, FireSome(s, k, n), k, n + 1);
    }
  }
}
