/** The scheduler as the object whose variables its operations update in place. */
module Scheduler {
  import opened Basics
  import opened Sched
  import opened SchedRun

  class ReadyQueues {
    var tasks: seq<Task>
    var bitmap: set<nat>
    var queues: seq<seq<nat>>
    var deadlines: seq<nat>
    var sleepers: seq<nat>
    var dead: seq<nat>
    var waiting: set<nat>
    var tcbFree: set<nat>
    var current: nat
    var idle: nat
    var now: nat
    ghost var where: seq<Place>
    ghost var stamp: seq<nat>
    ghost var clock: nat

    ghost function View(): State
      reads this
    {
      State(tasks, bitmap, queues, deadlines, sleepers, dead, waiting, tcbFree, current, idle, now, where, stamp, clock)
    }

    /** Put a task with a deadline before the first later one. */
    method DeadlineEnqueue(t: nat)
      requires Sized(View()) && t < MAX_TASKS && tasks[t].deadline > 0
      modifies this
      ensures View() == Enqueue(old(View()), t)
    {
      var i := 0;
      while i < |deadlines| && !(tasks[t].deadline < tasks[deadlines[i]].deadline)
        invariant i <= |deadlines| && View() == old(View())
        invariant Slot(tasks, deadlines, tasks[t].deadline, i) == Slot(tasks, deadlines, tasks[t].deadline, 0)
      {
        i := i + 1;
      }
      deadlines := deadlines[..i] + [t] + deadlines[i..];
      where, stamp, clock := where[t := InDeadline], stamp[t := clock], clock + 1;
    }

    /** Make a task ready: on the deadline queue, or at the back of its priority's queue with its bit set. */
    method BitmapEnqueue(t: nat)
      requires Sized(View()) && t < MAX_TASKS
      modifies this
      ensures View() == Enqueue(old(View()), t)
    {
      if tasks[t].deadline > 0 {
        DeadlineEnqueue(t);
      } else {
        var p := tasks[t].priority;
        queues := queues[p := queues[p] + [t]];
        bitmap := bitmap + {p};
        where, stamp, clock := where[t := InQueue(p)], stamp[t := clock], clock + 1;
      }
    }

    /** The head of the queue of the lowest set bit; the bit is cleared when the queue empties. */
    method BitmapDequeue() returns (t: nat)
      requires Lists(View()) && deadlines == [] && bitmap != {}
      modifies this
      ensures t == Pick(old(View())) && View() == TakeOff(old(View()))
    {
      ghost var was := View();
      PickPlace(was);
      AnyBit();
      var p := Lowest(bitmap, 0);
      t := queues[p][0];
      queues := queues[p := queues[p][1..]];
      if queues[p] == [] {
        bitmap := bitmap - {p};
      }
      where := where[t := Nowhere];
    }

    lemma AnyBit()
      requires Lists(View()) && bitmap != {}
      ensures HasBit(View())
    {
      var b :| b in bitmap;
    }

    /** The next task to run, off its queue. */
    method TakeNext() returns (t: nat)
      requires Lists(View())
      modifies this
      ensures t == Pick(old(View())) && View() == TakeOff(old(View()))
    {
      if deadlines != [] {
        PickPlace(View());
        t := deadlines[0];
        deadlines := deadlines[1..];
        where := where[t := Nowhere];
      } else if bitmap != {} {
        t := BitmapDequeue();
      } else {
        t := idle;
      }
    }

    /** Move the k-th sleeper to the ready structures. */
    method WakeSleeper(k: nat)
      requires Sized(View()) && k < |sleepers|
      modifies this
      ensures View() == WakeAt(old(View()), k)
    {
      hide Enqueue;
      var t := sleepers[k];
      sleepers := Without(sleepers, k);
      where := where[t := Nowhere];
      tasks := tasks[t := tasks[t].(state := Ready)];
      BitmapEnqueue(t);
    }

    /** Wake every sleeper whose time has come. */
    method WakeSleepers()
      requires Inv(View())
      modifies this
      ensures View() == WakeDue(old(View()))
    {
      hide Inv, NotDue, WakeAt, WakeSome, Sized;
      ghost var was := View();
      ghost var n := 0;
      var k := 0;
      InvSized(was);
      NotDueNone(was);
      WakeNone(was);
      WakeRound(was, 0);
      while k < |sleepers|
        invariant n <= |was.sleepers| && View() == WakeSome(was, n) && k == |NotDue(was, n)|
        invariant |sleepers| == k + |was.sleepers| - n && Sized(View())
        decreases |was.sleepers| - n
      {
        WakeRound(was, n);
        WakeRound(was, n + 1);
        SleeperInRange(View(), k);
        if now >= tasks[sleepers[k]].wakeAt {
          WakeSleeper(k);
        } else {
          k := k + 1;
        }
        n := n + 1;
      }
    }

    /** Switch from the current task to another. */
    method SwitchTask(next: nat)
      requires Sized(View()) && next < MAX_TASKS
      modifies this
      ensures View() == SwitchTo(old(View()), next)
    {
      var was := current;
      if tasks[was].state == Running {
        tasks := tasks[was := tasks[was].(state := Ready)];
        BitmapEnqueue(was);
      }
      tasks := tasks[next := tasks[next].(state := Running)];
      current := next;
    }

    /** Pick the next task and switch to it; the old one, if still running, is made ready again. */
    method Reschedule()
      requires Inv(View())
      modifies this
      ensures View() == Schedule(old(View()))
    {
      hide Listed, BitmapOk, Ordered, States, Conserved, TakeOff, WakeDue, Pick, SwitchTo;
      WakeDueExact(View());
      WakeSleepers();
      TakeOffEffect(View());
      var next := TakeNext();
      if next == current {
        return;
      }
      SwitchTask(next);
    }

    /** Put the current task to sleep for ms milliseconds, ten to a tick and one tick at least. */
    method TaskSleep(ms: nat)
      requires Inv(View()) && Executing(View()) && current != idle
      modifies this
      ensures View() == Apply(old(View()), Sleep(ms)) && Inv(View())
    {
      StepKeepsInv(View(), Sleep(ms));
      var ticks := ms / 10;
      if ticks == 0 {
        ticks := 1;
      }
      tasks := tasks[current := tasks[current].(state := Sleeping, wakeAt := now + ticks)];
      sleepers := sleepers + [current];
      where := where[current := InSleep];
    }

    /** Free the control blocks of all exited tasks. */
    method ReapDead()
      requires Inv(View()) && Executing(View())
      modifies this
      ensures Inv(View()) && dead == [] && Executing(View())
      ensures forall t | 0 <= t < MAX_TASKS ::
                t in tcbFree <==> t in old(tcbFree) || old(where)[t] == InDead
      ensures tasks == old(tasks) && queues == old(queues) && bitmap == old(bitmap) && deadlines == old(deadlines)
      ensures sleepers == old(sleepers) && waiting == old(waiting) && current == old(current) && idle == old(idle)
    {
      while dead != []
        invariant Inv(View()) && Executing(View())
        invariant forall t | 0 <= t < MAX_TASKS ::
                    t in tcbFree <==> t in old(tcbFree) || (old(where)[t] == InDead && where[t] != InDead)
        invariant forall t | 0 <= t < MAX_TASKS && where[t] == InDead :: old(where)[t] == InDead
        invariant tasks == old(tasks) && queues == old(queues) && bitmap == old(bitmap) && deadlines == old(deadlines)
        invariant sleepers == old(sleepers) && waiting == old(waiting) && current == old(current) && idle == old(idle)
        decreases |dead|
      {
        hide Listed, BitmapOk, Ordered, States, Conserved;
        ReapKeepsInv(View());
        LeaveDeadLists(View());
        var t := dead[0];
        dead := dead[1..];
        tcbFree := tcbFree + {t};
        where := where[t := Nowhere];
      }
      NobodyDead(View());
    }
  }

  lemma InvSized(s: State)
    requires Inv(s)
    ensures Sized(s)
  {
  }

  lemma SleeperInRange(s: State, k: nat)
    requires Sized(s) && k < |s.sleepers|
    ensures s.sleepers[k] < |s.tasks|
  {
  }

  lemma NobodyDead(s: State)
    requires Lists(s) && s.dead == []
    ensures forall t | 0 <= t < MAX_TASKS :: s.where[t] != InDead
  {
    forall t | 0 <= t < MAX_TASKS
      ensures s.where[t] != InDead
    {
      if s.where[t] == InDead {
        var j := Position(s, t);
      }
    }
  }
}
