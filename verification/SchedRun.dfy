/** The scheduler's steps, and what every run of them keeps.  A step is one locked section. */
module SchedRun {
  import opened Basics
  import opened WaitList
  import opened Sched

  // ---------------------------------------------------------------- moves between the other lists

  function LeaveSleep(s: State, k: nat): State
    requires k < |s.sleepers| && s.sleepers[k] < |s.where|
  {
    s.(sleepers := Without(s.sleepers, k), where := s.where[s.sleepers[k] := Nowhere])
  }

  function EnterSleep(s: State, t: nat): State
    requires t < |s.where|
  {
    s.(sleepers := s.sleepers + [t], where := s.where[t := InSleep])
  }

  function EnterWait(s: State, t: nat): State
    requires t < |s.where|
  {
    s.(waiting := s.waiting + {t}, where := s.where[t := InWait])
  }

  function LeaveWait(s: State, t: nat): State
    requires t < |s.where|
  {
    s.(waiting := s.waiting - {t}, where := s.where[t := Nowhere])
  }

  function EnterDead(s: State, t: nat): State
    requires t < |s.where|
  {
    s.(dead := s.dead + [t], where := s.where[t := InDead])
  }

  function LeaveDead(s: State): State
    requires s.dead != [] && s.dead[0] < |s.where|
  {
    s.(dead := s.dead[1..], where := s.where[s.dead[0] := Nowhere])
  }

  lemma LeaveSleepLists(s: State, k: nat)
    requires Lists(s) && k < |s.sleepers|
    ensures Lists(LeaveSleep(s, k)) && s.where[s.sleepers[k]] == InSleep
  {
    hide Sleepers, QueueSorted, DeadlinesSorted;
    Member(s, InSleep, k);
    assert Sleepers(List(s, InSleep), s.where, InSleep);
    SleepersCut(s.sleepers, s.where, InSleep, k, Nowhere);
    MovedListed(s, LeaveSleep(s, k), s.sleepers[k], Nowhere);
    SameOrder(s, LeaveSleep(s, k));
  }

  lemma EnterSleepLists(s: State, t: nat)
    requires Lists(s) && t < MAX_TASKS && s.where[t] == Nowhere
    ensures Lists(EnterSleep(s, t))
  {
    hide Sleepers, QueueSorted, DeadlinesSorted;
    assert Sleepers(List(s, InSleep), s.where, InSleep);
    SleepersAdd(s.sleepers, s.where, InSleep, t);
    MovedListed(s, EnterSleep(s, t), t, InSleep);
    SameOrder(s, EnterSleep(s, t));
  }

  lemma WaitLists(s: State, t: nat)
    requires Lists(s) && t < MAX_TASKS
    ensures s.where[t] == Nowhere ==> Lists(EnterWait(s, t))
    ensures s.where[t] == InWait ==> Lists(LeaveWait(s, t))
  {
    hide Sleepers, QueueSorted, DeadlinesSorted;
    if s.where[t] == Nowhere {
      MovedListed(s, EnterWait(s, t), t, InWait);
      SameOrder(s, EnterWait(s, t));
    } else if s.where[t] == InWait {
      MovedListed(s, LeaveWait(s, t), t, Nowhere);
      SameOrder(s, LeaveWait(s, t));
    }
  }

  lemma EnterDeadLists(s: State, t: nat)
    requires Lists(s) && t < MAX_TASKS && s.where[t] == Nowhere
    ensures Lists(EnterDead(s, t))
  {
    hide Sleepers, QueueSorted, DeadlinesSorted;
    assert Sleepers(List(s, InDead), s.where, InDead);
    SleepersAdd(s.dead, s.where, InDead, t);
    MovedListed(s, EnterDead(s, t), t, InDead);
    SameOrder(s, EnterDead(s, t));
  }

  lemma LeaveDeadLists(s: State)
    requires Lists(s) && s.dead != []
    ensures s.dead[0] < MAX_TASKS && s.where[s.dead[0]] == InDead && Lists(LeaveDead(s))
  {
    hide Sleepers, QueueSorted, DeadlinesSorted;
    Member(s, InDead, 0);
    assert Sleepers(List(s, InDead), s.where, InDead);
    SleepersPop(s.dead, s.where, InDead, Nowhere);
    MovedListed(s, LeaveDead(s), s.dead[0], Nowhere);
    SameOrder(s, LeaveDead(s));
  }

  /** The order of the ready structures depends only on their contents, stamps and deadlines. */
  lemma SameOrder(s: State, n: State)
    requires Sized(s) && Ordered(s) && Sized(n)
    requires n.deadlines == s.deadlines && n.queues == s.queues && n.stamp == s.stamp && n.clock == s.clock
    requires forall i | 0 <= i < |s.deadlines| :: n.tasks[s.deadlines[i]].deadline == s.tasks[s.deadlines[i]].deadline
    ensures Ordered(n)
  {
    assert forall i, j | 0 <= i < j < |s.deadlines| :: Before(s, s.deadlines[i], s.deadlines[j]);
    assert forall p | 0 <= p < LEVELS :: QueueSorted(s, s.queues[p]);
  }

  /** The lists do not depend on the other variables, nor on a task record but for the deadline of a
      task on the deadline queue. */
  lemma SameLists(s: State, n: State)
    requires Lists(s) && Sized(n)
    requires n.deadlines == s.deadlines && n.queues == s.queues && n.sleepers == s.sleepers && n.dead == s.dead
    requires n.waiting == s.waiting && n.bitmap == s.bitmap
    requires n.where == s.where && n.stamp == s.stamp && n.clock == s.clock
    requires forall t | 0 <= t < MAX_TASKS && s.where[t] == InDeadline :: n.tasks[t].deadline == s.tasks[t].deadline
    ensures Lists(n)
  {
    hide Sleepers, QueueSorted, DeadlinesSorted;
    forall i | 0 <= i < |s.deadlines|
      ensures n.tasks[s.deadlines[i]].deadline == s.tasks[s.deadlines[i]].deadline
    {
      Member(s, InDeadline, i);
    }
    assert Listed(n) by {
      assert forall a: Place | Kept(a) :: List(n, a) == List(s, a) && Sleepers(List(s, a), s.where, a);
    }
    SameOrder(s, n);
  }

  // ---------------------------------------------------------------- the steps

  predicate Executing(s: State)
    requires Sized(s)
  {
    s.where[s.current] == Nowhere
  }

  predicate Due(s: State, t: nat)
    requires Sized(s) && t < MAX_TASKS
  {
    s.now >= s.tasks[t].wakeAt
  }

  /** The sleepers among the first n that are not due. */
  function NotDue(s: State, n: nat): (r: seq<nat>)
    requires Sized(s) && n <= |s.sleepers|
    ensures |r| <= n
    ensures forall t :: t in r <==> t in s.sleepers[..n] && !Due(s, t)
  {
    if n == 0 then []
    else
      assert s.sleepers[..n] == s.sleepers[..n - 1] + [s.sleepers[n - 1]];
      NotDue(s, n - 1) + if Due(s, s.sleepers[n - 1]) then [] else [s.sleepers[n - 1]]
  }

  /** Take the k-th sleeper off the sleep queue and make it ready. */
  function WakeAt(s: State, k: nat): State
    requires Sized(s) && k < |s.sleepers|
  {
    MakeReady(LeaveSleep(s, k), s.sleepers[k])
  }

  /** The walk over the sleep queue that wakes those whose time has come, after n nodes. */
  function WakeSome(s: State, n: nat): State
    requires Sized(s) && n <= |s.sleepers|
  {
    if n == 0 then s
    else
      var w := WakeSome(s, n - 1);
      var k := |NotDue(s, n - 1)|;
      if Sized(w) && k < |w.sleepers| && Due(w, w.sleepers[k]) then WakeAt(w, k) else w
  }

  function WakeDue(s: State): State
    requires Sized(s)
  {
    WakeSome(s, |s.sleepers|)
  }

  /** Switch from the current task to t: the current one, if still running, is made ready. */
  function SwitchTo(s: State, t: nat): State
    requires Sized(s) && t < MAX_TASKS
  {
    var n := if s.tasks[s.current].state == Running then MakeReady(s, s.current) else s;
    n.(tasks := n.tasks[t := n.tasks[t].(state := Running)], current := t)
  }

  function Schedule(s: State): State
    requires Sized(s)
  {
    var w := WakeDue(s);
    if !Sized(w) then w
    else
      var r := TakeOff(w);
      if Pick(w) == s.current || !Sized(r) || Pick(w) >= MAX_TASKS then r else SwitchTo(r, Pick(w))
  }

  datatype Event =
    | Tick                        // the clock advances
    | Resched                     // schedule(), from a task or from the timer interrupt
    | Sleep(ms: nat)              // the current task calls task_sleep
    | Block                       // it goes to sleep on a wait list
    | Exit
    | WakeUp(t: nat)              // a task on a wait list is made ready
    | Create(stack: bool)         // task_create; stack says whether a stack could be had
    | SetDeadline(d: nat)
    | SetPriority(t: nat, p: nat) // a mutex lends or takes back priority
    | Reap                        // one round of sched_reap_dead

  function SetTask(s: State, t: nat, u: Task): State
    requires t < |s.tasks|
  {
    s.(tasks := s.tasks[t := u])
  }

  /** A new task takes the lowest free control block. */
  function CreateTask(s: State, stack: bool): State
    requires Sized(s)
  {
    if !(exists b :: b in s.tcbFree && 0 <= b < MAX_TASKS) then s
    else
      var t := Lowest(s.tcbFree, 0);
      if !stack then SetTask(s, t, Task(Ready, 0, 0, 0))
      else Enqueue(SetTask(s, t, Task(Ready, NORMAL, 0, 0)).(tcbFree := s.tcbFree - {t}), t)
  }

  /** One step; a step the current task cannot make leaves the state alone. */
  function Apply(s: State, e: Event): State {
    if !Sized(s) then s
    else
      var c := s.current;
      var u := s.tasks[c];
      var acts := Executing(s) && c != s.idle;
      match e
      case Tick => s.(now := s.now + 1)
      case Resched => Schedule(s)
      case Sleep(ms) =>
        if acts then EnterSleep(SetTask(s, c, u.(state := Sleeping, wakeAt := s.now + Ticks(ms))), c) else s
      case Block => if acts then EnterWait(SetTask(s, c, u.(state := Sleeping)), c) else s
      case Exit => if acts then EnterDead(SetTask(s, c, u.(state := Dead)), c) else s
      case WakeUp(t) => if t < MAX_TASKS && t in s.waiting then MakeReady(LeaveWait(s, t), t) else s
      case Create(stack) => if acts then CreateTask(s, stack) else s
      case SetDeadline(d) => if acts then SetTask(s, c, u.(deadline := d)) else s
      case SetPriority(t, p) => if t < MAX_TASKS && p < LEVELS then SetTask(s, t, s.tasks[t].(priority := p)) else s
      case Reap =>
        if Executing(s) && s.dead != [] && s.dead[0] < MAX_TASKS then LeaveDead(s).(tcbFree := s.tcbFree + {s.dead[0]}) else s
  }

  function Exec(s: State, es: seq<Event>): State {
    if es == [] then s else Apply(Exec(s, es[..|es| - 1]), es[|es| - 1])
  }

  // ---------------------------------------------------------------- conservation

  /** A listed task's state and deadline fit its list; only the current task runs. */
  ghost predicate States(s: State)
    requires Sized(s)
  {
    && (forall t | 0 <= t < MAX_TASKS :: Fits(s.tasks[t], s.where[t]))
    && (forall t | 0 <= t < MAX_TASKS && s.tasks[t].state == Running :: t == s.current && s.where[t] == Nowhere)
    && (Executing(s) ==> s.tasks[s.current].state in {Running, Ready})
    && (s.where[s.idle] == Nowhere || s.where[s.idle].InQueue?) && s.tasks[s.idle].deadline == 0
    && (s.current == s.idle ==> s.tasks[s.idle].state == Running)
  }

  predicate Fits(u: Task, a: Place) {
    match a
    case Nowhere => true
    case InQueue(_) => u.state == Ready && u.deadline == 0
    case InDeadline => u.state == Ready && u.deadline > 0
    case InSleep => u.state == Sleeping
    case InWait => u.state == Sleeping
    case InDead => u.state == Dead
  }

  /** Neither current nor idle nor on any list. */
  predicate Stray(s: State, t: nat)
    requires Sized(s) && t < MAX_TASKS
  {
    s.where[t] == Nowhere && t != s.current && t != s.idle
  }

  /** Every task in use is current, or idle, or on a list, but for the lost ones; every free control block
      and every lost task is none of these. */
  ghost predicate Conserved(s: State, lost: set<nat> := {})
    requires Sized(s)
  {
    && s.tcbFree !! lost
    && (forall t | 0 <= t < MAX_TASKS :: Stray(s, t) <==> t in s.tcbFree || t in lost)
  }

  ghost predicate Inv(s: State, lost: set<nat> := {}) {
    Lists(s) && States(s) && Conserved(s, lost)
  }

  /** A task that executes is marked running. */
  predicate Steady(s: State)
    requires Sized(s)
  {
    Executing(s) ==> s.tasks[s.current].state == Running
  }

  // ---------------------------------------------------------------- each step

  lemma MakeReadyLists(s: State, t: nat)
    requires Lists(s) && t < MAX_TASKS && s.where[t] == Nowhere
    ensures Lists(MakeReady(s, t))
    ensures MakeReady(s, t).where[t] == if s.tasks[t].deadline > 0 then InDeadline else InQueue(s.tasks[t].priority)
  {
    hide Listed, BitmapOk, Ordered;
    SameLists(s, SetState(s, t, Ready));
    EnqueueKeepsLists(SetState(s, t, Ready), t);
  }

  lemma WakeAtKeepsInv(s: State, k: nat, lost: set<nat> := {})
    requires Inv(s, lost) && k < |s.sleepers|
    ensures Inv(WakeAt(s, k), lost)
  {
    hide Listed, BitmapOk, Ordered;
    LeaveSleepLists(s, k);
    MakeReadyLists(LeaveSleep(s, k), s.sleepers[k]);
  }

  /** What waking has done after n nodes: the due ones are ready, the others untouched. */
  ghost predicate Woken(s: State, w: State, n: nat)
    requires Sized(s) && Sized(w) && n <= |s.sleepers|
  {
    && w.sleepers == NotDue(s, n) + s.sleepers[n..]
    && w.current == s.current && w.idle == s.idle && w.now == s.now && w.tcbFree == s.tcbFree
    && w.dead == s.dead && w.waiting == s.waiting
    && (forall t | 0 <= t < MAX_TASKS :: WokenTask(s, w, n, t))
  }

  ghost predicate WokenTask(s: State, w: State, n: nat, t: nat)
    requires Sized(s) && Sized(w) && n <= |s.sleepers| && t < MAX_TASKS
  {
    if t in s.sleepers[..n] && Due(s, t) then
      && w.tasks[t] == s.tasks[t].(state := Ready)
      && w.where[t] == if s.tasks[t].deadline > 0 then InDeadline else InQueue(s.tasks[t].priority)
    else w.tasks[t] == s.tasks[t] && w.where[t] == s.where[t]
  }

  /** The node the walk is at, and how the sleep queue splits around it. */
  lemma NextSleeper(s: State, w: State, n: nat)
    requires Lists(s) && Sized(w) && 0 < n <= |s.sleepers| && w.sleepers == NotDue(s, n - 1) + s.sleepers[n - 1..]
    ensures var k := |NotDue(s, n - 1)|;
            && k < |w.sleepers| && w.sleepers[k] == s.sleepers[n - 1]
            && Without(w.sleepers, k) == NotDue(s, n - 1) + s.sleepers[n..]
            && w.sleepers == NotDue(s, n - 1) + [s.sleepers[n - 1]] + s.sleepers[n..]
    ensures s.sleepers[n - 1] !in s.sleepers[..n - 1]
    ensures forall t :: t in s.sleepers[..n] <==> t in s.sleepers[..n - 1] || t == s.sleepers[n - 1]
  {
    hide NotDue, Ordered, BitmapOk;
    assert Sleepers(List(s, InSleep), s.where, InSleep);
    assert s.sleepers[n - 1..] == [s.sleepers[n - 1]] + s.sleepers[n..];
    assert s.sleepers[..n] == s.sleepers[..n - 1] + [s.sleepers[n - 1]];
  }

  lemma WakeAtEffect(s: State, k: nat)
    requires Sized(s) && k < |s.sleepers|
    ensures var t := s.sleepers[k];
            var u := s.tasks[t];
            var n := WakeAt(s, k);
            && n.sleepers == Without(s.sleepers, k) && n.tasks == s.tasks[t := u.(state := Ready)]
            && n.where == s.where[t := if u.deadline > 0 then InDeadline else InQueue(u.priority)]
            && n.current == s.current && n.idle == s.idle && n.now == s.now && n.tcbFree == s.tcbFree
            && n.dead == s.dead && n.waiting == s.waiting
  {
  }

  lemma WakeStepTasks(s: State, w: State, n: nat, lost: set<nat> := {})
    requires Inv(s, lost) && Sized(w) && 0 < n <= |s.sleepers| && Woken(s, w, n - 1)
    ensures |NotDue(s, n - 1)| < |w.sleepers|
    ensures var k := |NotDue(s, n - 1)|;
            Due(w, w.sleepers[k]) == Due(s, s.sleepers[n - 1])
    ensures var k := |NotDue(s, n - 1)|;
            var v := if Due(w, w.sleepers[k]) then WakeAt(w, k) else w;
            Sized(v) ==> Woken(s, v, n)
  {
    hide Listed, BitmapOk, Ordered, States, Conserved, NotDue, WakeAt;
    var t := s.sleepers[n - 1];
    var k := |NotDue(s, n - 1)|;
    NextSleeper(s, w, n);
    assert WokenTask(s, w, n - 1, t);
    NotDueStep(s, n);
    WakeAtEffect(w, k);
    var v := if Due(w, w.sleepers[k]) then WakeAt(w, k) else w;
    if Sized(v) {
      assert v.sleepers == NotDue(s, n) + s.sleepers[n..];
      forall x | 0 <= x < MAX_TASKS
        ensures WokenTask(s, v, n, x)
      {
        assert WokenTask(s, w, n - 1, x);
      }
    }
  }

  lemma NotDueStep(s: State, n: nat)
    requires Sized(s) && 0 < n <= |s.sleepers|
    ensures NotDue(s, n) == NotDue(s, n - 1) + if Due(s, s.sleepers[n - 1]) then [] else [s.sleepers[n - 1]]
  {
  }

  lemma {:induction false} WakeSomeKeepsInv(s: State, n: nat, lost: set<nat> := {})
    requires Inv(s, lost) && n <= |s.sleepers|
    ensures Inv(WakeSome(s, n), lost) && Woken(s, WakeSome(s, n), n)
  {
    hide Listed, BitmapOk, Ordered, States, Conserved, NotDue, WakeAt;
    if n == 0 {
      assert NotDue(s, 0) == [] by { NotDueNone(s); }
      assert Woken(s, s, 0);
    } else {
      hide Woken;
      var w := WakeSome(s, n - 1);
      WakeSomeKeepsInv(s, n - 1, lost);
      WakeStepTasks(s, w, n, lost);
      WakeAtKeepsInv(w, |NotDue(s, n - 1)|, lost);
    }
  }

  lemma WakeSomeStep(s: State, n: nat)
    requires Sized(s) && 0 < n <= |s.sleepers|
    ensures var w := WakeSome(s, n - 1);
            var k := |NotDue(s, n - 1)|;
            WakeSome(s, n) == if Sized(w) && k < |w.sleepers| && Due(w, w.sleepers[k]) then WakeAt(w, k) else w
  {
  }

  /** One round of the walk: where it stands, and what it does there. */
  lemma WakeRound(s: State, n: nat, lost: set<nat> := {})
    requires Inv(s, lost) && n <= |s.sleepers|
    ensures var w := WakeSome(s, n);
            var k := |NotDue(s, n)|;
            && Sized(w) && |w.sleepers| == k + |s.sleepers| - n
            && (n < |s.sleepers| ==>
                  if Due(w, w.sleepers[k]) then WakeSome(s, n + 1) == WakeAt(w, k) && |NotDue(s, n + 1)| == k
                  else WakeSome(s, n + 1) == w && |NotDue(s, n + 1)| == k + 1)
  {
    hide Listed, BitmapOk, Ordered, States, Conserved, NotDue, WakeAt, WakeSome;
    WakeSomeKeepsInv(s, n, lost);
    if n < |s.sleepers| {
      WakeStepTasks(s, WakeSome(s, n), n + 1, lost);
      NotDueStep(s, n + 1);
      WakeSomeStep(s, n + 1);
    }
  }

  lemma WakeNone(s: State)
    requires Sized(s)
    ensures WakeSome(s, 0) == s
  {
  }

  lemma NotDueNone(s: State)
    requires Sized(s)
    ensures NotDue(s, 0) == []
  {
  }

  /** Waking leaves exactly the sleepers that are not due, in order, and makes the others ready. */
  lemma WakeDueExact(s: State, lost: set<nat> := {})
    requires Inv(s, lost)
    ensures Inv(WakeDue(s), lost) && Woken(s, WakeDue(s), |s.sleepers|)
    ensures WakeDue(s).sleepers == NotDue(s, |s.sleepers|)
  {
    hide Listed, BitmapOk, Ordered, States, Conserved, WakeSome, NotDue;
    WakeSomeKeepsInv(s, |s.sleepers|, lost);
  }

  // ---------------------------------------------------------------- schedule

  /** The still current task is on a ready list and schedule picks it again. */
  predicate Repicks(s: State)
    requires Sized(s)
  {
    var w := WakeDue(s);
    Sized(w) && Pick(w) == s.current && w.where[s.current] != Nowhere
  }

  /** The current task executes without being marked running, and schedule picks another. */
  predicate Loses(s: State)
    requires Sized(s)
  {
    var w := WakeDue(s);
    Sized(w) && Pick(w) != s.current && Executing(s) && s.tasks[s.current].state == Ready
  }

  lemma SwitchLists(s: State, t: nat)
    requires Lists(s) && States(s) && t < MAX_TASKS && t != s.current && s.where[t] == Nowhere
    ensures Lists(SwitchTo(s, t))
  {
    hide Listed, BitmapOk, Ordered, Enqueue;
    var n := if s.tasks[s.current].state == Running then MakeReady(s, s.current) else s;
    if s.tasks[s.current].state == Running {
      MakeReadyLists(s, s.current);
    }
    SameLists(n, SwitchTo(s, t));
  }

  function ReadyPlace(u: Task): Place {
    if u.deadline > 0 then InDeadline else InQueue(u.priority)
  }

  lemma SwitchEffect(s: State, t: nat)
    requires Sized(s) && t < MAX_TASKS && t != s.current
    ensures var c := s.current;
            var runs := s.tasks[c].state == Running;
            var n := SwitchTo(s, t);
            && n.current == t && n.idle == s.idle && n.tcbFree == s.tcbFree
            && n.where == (if runs then s.where[c := ReadyPlace(s.tasks[c])] else s.where)
            && n.tasks == (if runs then s.tasks[c := s.tasks[c].(state := Ready)] else s.tasks)[t := s.tasks[t].(state := Running)]
  {
  }

  /** Taking the picked task off leaves it on no list, and touches nothing else but the lists. */
  lemma TakeOffEffect(s: State)
    requires Lists(s)
    ensures Lists(TakeOff(s)) && Pick(s) < MAX_TASKS
    ensures TakeOff(s).tasks == s.tasks && TakeOff(s).current == s.current && TakeOff(s).idle == s.idle
    ensures TakeOff(s).tcbFree == s.tcbFree
    ensures TakeOff(s).where == s.where[Pick(s) := Nowhere] || (Pick(s) == s.idle && TakeOff(s).where == s.where)
    ensures s.where[Pick(s)] == InDeadline || s.where[Pick(s)].InQueue? || Pick(s) == s.idle
    ensures s.where[s.idle] == Nowhere || s.where[s.idle].InQueue? ==> TakeOff(s).where[Pick(s)] == Nowhere
  {
    hide Listed, Ordered, Lowest;
    TakeOffKeepsLists(s);
    PickPlace(s);
    if s.deadlines == [] && !HasBit(s) && s.where[s.idle].InQueue? {
      var j := Position(s, s.idle);
    }
  }

  /** The switch keeps the state rules, and puts the old task back on a list if it was running. */
  lemma SwitchStates(w: State, r: State, t: nat)
    requires Sized(w) && States(w) && Sized(r) && t < MAX_TASKS && t != w.current
    requires r.tasks == w.tasks && r.current == w.current && r.idle == w.idle && r.tcbFree == w.tcbFree
    requires r.where == w.where[t := Nowhere]
    requires Sized(SwitchTo(r, t))
    ensures States(r) && States(SwitchTo(r, t))
  {
    hide SwitchTo;
    SwitchEffect(r, t);
  }

  lemma SwitchConserves(w: State, r: State, t: nat, lost: set<nat> := {})
    requires Sized(w) && States(w) && Conserved(w, lost) && Sized(r) && t < MAX_TASKS && t != w.current
    requires r.tasks == w.tasks && r.current == w.current && r.idle == w.idle && r.tcbFree == w.tcbFree
    requires r.where == w.where[t := Nowhere] && t !in w.tcbFree && t !in lost
    requires Sized(SwitchTo(r, t))
    ensures var exposed := Executing(w) && w.tasks[w.current].state == Ready;
            && (Conserved(SwitchTo(r, t), lost) <==> !exposed)
            && (exposed ==> Conserved(SwitchTo(r, t), lost + {w.current}))
  {
    hide SwitchTo;
    SwitchEffect(r, t);
    if Executing(w) && w.tasks[w.current].state == Ready {
      assert Stray(SwitchTo(r, t), w.current) && !Stray(w, w.current);
    }
  }

  /** Schedule loses a task exactly when the current one executes without being marked running and
      another is picked; that task is then the only one lost, and the invariant holds of the others. */
  lemma ScheduleConservesIff(s: State, lost: set<nat> := {})
    requires Inv(s, lost)
    ensures Sized(Schedule(s)) && (Conserved(Schedule(s), lost) <==> !Loses(s))
    ensures Inv(Schedule(s), if Loses(s) then lost + {s.current} else lost)
  {
    hide Listed, BitmapOk, Ordered, States, Conserved, WakeDue, TakeOff, Pick, SwitchTo, Woken;
    var w := WakeDue(s);
    WakeDueExact(s, lost);
    WokenCurrent(s, w, lost);
    IdlePlace(w);
    TakeOffEffect(w);
    var r, t := TakeOff(w), Pick(w);
    if t == s.current {
      RepickInv(w, r, lost);
    } else {
      LivePick(w, t, lost);
      assert r.where == w.where[t := Nowhere];
      StatesAfterTakeOff(w, r, t);
      SwitchLists(r, t);
      SwitchStates(w, r, t);
      SwitchConserves(w, r, t, lost);
    }
  }

  lemma IdlePlace(s: State)
    requires Sized(s) && States(s)
    ensures s.where[s.idle] == Nowhere || s.where[s.idle].InQueue?
  {
  }

  lemma WokenCurrent(s: State, w: State, lost: set<nat> := {})
    requires Inv(s, lost) && Sized(w) && Woken(s, w, |s.sleepers|)
    ensures w.current == s.current && w.idle == s.idle && w.now == s.now && w.tcbFree == s.tcbFree
    ensures Executing(s) ==> Executing(w) && w.tasks[s.current] == s.tasks[s.current]
    ensures Executing(w) ==> Executing(s)
  {
    assert WokenTask(s, w, |s.sleepers|, s.current);
    assert s.sleepers[..|s.sleepers|] == s.sleepers;
    assert Sleepers(List(s, InSleep), s.where, InSleep);
  }

  lemma LivePick(s: State, t: nat, lost: set<nat> := {})
    requires Sized(s) && Conserved(s, lost) && t < MAX_TASKS && (Kept(s.where[t]) || t == s.idle)
    ensures t !in s.tcbFree && t !in lost
  {
  }

  lemma StatesAfterTakeOff(w: State, r: State, t: nat)
    requires Sized(w) && States(w) && Sized(r) && t < MAX_TASKS && t != w.current
    requires r.tasks == w.tasks && r.current == w.current && r.idle == w.idle && r.where == w.where[t := Nowhere]
    ensures States(r)
  {
  }

  /** When the current task is picked again it is taken off its list and goes on executing. */
  lemma RepickInv(w: State, r: State, lost: set<nat> := {})
    requires Lists(w) && States(w) && Conserved(w, lost) && Lists(r)
    requires w.where[w.current] in {InDeadline} || w.where[w.current].InQueue? || w.current == w.idle
    requires r.tasks == w.tasks && r.current == w.current && r.idle == w.idle && r.tcbFree == w.tcbFree
    requires r.where == w.where[w.current := Nowhere] || (w.current == w.idle && r.where == w.where)
    ensures Inv(r, lost)
    ensures Steady(r) <==> w.where[w.current] == Nowhere
  {
    hide Listed, BitmapOk, Ordered;
  }

  /** Schedule leaves a task executing without being marked running exactly when it picks the still
      current task off a ready list. */
  lemma ScheduleSteadyIff(s: State, lost: set<nat> := {})
    requires Inv(s, lost) && Steady(s)
    ensures !Loses(s) && Sized(Schedule(s))
    ensures Steady(Schedule(s)) <==> !Repicks(s)
  {
    hide Listed, BitmapOk, Ordered, States, Conserved, WakeDue, TakeOff, Pick, SwitchTo, Woken;
    var w := WakeDue(s);
    WakeDueExact(s, lost);
    WokenCurrent(s, w, lost);
    IdlePlace(w);
    TakeOffEffect(w);
    ScheduleConservesIff(s, lost);
    var r, t := TakeOff(w), Pick(w);
    if t == s.current {
      RepickInv(w, r, lost);
    } else {
      SwitchEffect(r, t);
    }
  }

  // ---------------------------------------------------------------- the other steps, and every run

  lemma ParkKeepsInv(s: State, u: Task, lost: set<nat> := {})
    requires Inv(s, lost) && Executing(s) && s.current != s.idle && u.priority < LEVELS
    ensures u.state == Sleeping ==> Inv(EnterSleep(SetTask(s, s.current, u), s.current), lost)
    ensures u.state == Sleeping ==> Inv(EnterWait(SetTask(s, s.current, u), s.current), lost)
    ensures u.state == Dead ==> Inv(EnterDead(SetTask(s, s.current, u), s.current), lost)
  {
    hide Listed, BitmapOk, Ordered;
    var n := SetTask(s, s.current, u);
    SameLists(s, n);
    EnterSleepLists(n, s.current);
    WaitLists(n, s.current);
    EnterDeadLists(n, s.current);
  }

  lemma WakeUpKeepsInv(s: State, t: nat, lost: set<nat> := {})
    requires Inv(s, lost) && t < MAX_TASKS && t in s.waiting
    ensures Inv(MakeReady(LeaveWait(s, t), t), lost)
  {
    hide BitmapOk, Ordered, Sleepers;
    assert s.where[t] == InWait;
    WaitLists(s, t);
    MakeReadyLists(LeaveWait(s, t), t);
  }

  lemma StartTaskKeepsInv(s: State, t: nat, lost: set<nat> := {})
    requires Inv(s, lost) && t < MAX_TASKS && t in s.tcbFree
    ensures Inv(Enqueue(SetTask(s, t, Task(Ready, NORMAL, 0, 0)).(tcbFree := s.tcbFree - {t}), t), lost)
  {
    hide Listed, BitmapOk, Ordered, Slot, Insert;
    var n := SetTask(s, t, Task(Ready, NORMAL, 0, 0)).(tcbFree := s.tcbFree - {t});
    SameLists(s, n);
    EnqueueKeepsLists(n, t);
  }

  lemma CreateKeepsInv(s: State, stack: bool, lost: set<nat> := {})
    requires Inv(s, lost)
    ensures Inv(CreateTask(s, stack), lost)
  {
    hide Listed, BitmapOk, Ordered, Lowest, Enqueue;
    if exists b :: b in s.tcbFree && 0 <= b < MAX_TASKS {
      var t := Lowest(s.tcbFree, 0);
      if stack {
        StartTaskKeepsInv(s, t, lost);
      } else {
        SameLists(s, SetTask(s, t, Task(Ready, 0, 0, 0)));
      }
    }
  }

  lemma ReapKeepsInv(s: State, lost: set<nat> := {})
    requires Inv(s, lost) && Executing(s) && s.dead != []
    ensures s.dead[0] < MAX_TASKS && Inv(LeaveDead(s).(tcbFree := s.tcbFree + {s.dead[0]}), lost)
  {
    hide Listed, BitmapOk, Ordered;
    LeaveDeadLists(s);
    SameLists(LeaveDead(s), LeaveDead(s).(tcbFree := s.tcbFree + {s.dead[0]}));
  }

  lemma RecordKeepsInv(s: State, t: nat, u: Task, lost: set<nat> := {})
    requires Inv(s, lost) && t < MAX_TASKS && u.priority < LEVELS && u.state == s.tasks[t].state
    requires u.deadline == s.tasks[t].deadline || (t == s.current && Executing(s) && t != s.idle)
    ensures Inv(SetTask(s, t, u), lost)
    ensures Steady(s) ==> Steady(SetTask(s, t, u))
  {
    hide Listed, BitmapOk, Ordered;
    SameLists(s, SetTask(s, t, u));
  }

  lemma TickKeepsInv(s: State, lost: set<nat> := {})
    requires Inv(s, lost)
    ensures Inv(s.(now := s.now + 1), lost)
  {
    hide Listed, BitmapOk, Ordered;
    SameLists(s, s.(now := s.now + 1));
  }

  lemma StepKeepsInv(s: State, e: Event, lost: set<nat> := {})
    requires Inv(s, lost) && (e.Resched? ==> !Loses(s))
    ensures Inv(Apply(s, e), lost)
  {
    hide Listed, BitmapOk, Ordered, States, Conserved, Schedule, CreateTask, Loses;
    var c, u := s.current, s.tasks[s.current];
    match e
    case Tick => TickKeepsInv(s, lost);
    case Resched => ScheduleConservesIff(s, lost);
    case Sleep(ms) => if Executing(s) && c != s.idle { ParkKeepsInv(s, u.(state := Sleeping, wakeAt := s.now + Ticks(ms)), lost); }
    case Block => if Executing(s) && c != s.idle { ParkKeepsInv(s, u.(state := Sleeping), lost); }
    case Exit => if Executing(s) && c != s.idle { ParkKeepsInv(s, u.(state := Dead), lost); }
    case WakeUp(t) => if t < MAX_TASKS && t in s.waiting { WakeUpKeepsInv(s, t, lost); }
    case Create(stack) => CreateKeepsInv(s, stack, lost);
    case SetDeadline(d) => if Executing(s) && c != s.idle { RecordKeepsInv(s, c, u.(deadline := d), lost); }
    case SetPriority(t, p) => if t < MAX_TASKS && p < LEVELS { RecordKeepsInv(s, t, s.tasks[t].(priority := p), lost); }
    case Reap => if Executing(s) && s.dead != [] { ReapKeepsInv(s, lost); }
  }

  lemma StepKeepsSteady(s: State, e: Event)
    requires Inv(s) && Steady(s) && (e.Resched? ==> !Repicks(s))
    ensures Inv(Apply(s, e)) && Steady(Apply(s, e))
  {
    hide BitmapOk, Ordered, Sleepers, Loses, Repicks, Schedule, Lowest, Slot, Insert;
    if e.Resched? {
      ScheduleSteadyIff(s);
    }
    StepKeepsInv(s, e);
  }

  /** No schedule of the run picks the still current task off a ready list. */
  ghost predicate NeverRepicks(s: State, es: seq<Event>) {
    es == [] ||
    var before := Exec(s, es[..|es| - 1]);
    NeverRepicks(s, es[..|es| - 1]) && (es[|es| - 1].Resched? && Sized(before) ==> !Repicks(before))
  }

  /** Every such run conserves tasks: each task in use is current, idle, or on exactly one list, and
      its control block is not free. */
  lemma {:induction false} RunKeepsInv(s: State, es: seq<Event>)
    requires Inv(s) && Steady(s) && NeverRepicks(s, es)
    ensures Inv(Exec(s, es)) && Steady(Exec(s, es))
  {
    hide Listed, BitmapOk, Ordered, States, Conserved, Repicks, Apply;
    if es != [] {
      var front := es[..|es| - 1];
      RunKeepsInv(s, front);
      StepKeepsSteady(Exec(s, front), es[|es| - 1]);
    }
  }

  /** The current task executes although it is not marked running. */
  ghost predicate Exposed(s: State, lost: set<nat> := {}) {
    Inv(s, lost) && Executing(s) && s.tasks[s.current].state == Ready
  }

  /** In use, but neither current nor idle nor on any list. */
  predicate Lost(s: State, t: nat)
    requires Sized(s) && t < MAX_TASKS
  {
    t !in s.tcbFree && t != s.current && t != s.idle && s.where[t] == Nowhere
  }

  /** An exposed task is lost by the very next schedule: being on no list, it cannot be picked. */
  lemma ExposedIsLost(s: State, lost: set<nat> := {})
    requires Exposed(s, lost)
    ensures Loses(s) && Sized(Schedule(s)) && Lost(Schedule(s), s.current)
  {
    hide Listed, BitmapOk, Ordered, Conserved, WakeDue, TakeOff, Pick, SwitchTo, Woken;
    var w := WakeDue(s);
    WakeDueExact(s, lost);
    WokenCurrent(s, w, lost);
    TakeOffEffect(w);
    ScheduleConservesIff(s, lost);
    LivePick(s, s.idle, lost);
    InUse(s, lost);
    SwitchEffect(TakeOff(w), Pick(w));
  }

  lemma InUse(s: State, lost: set<nat> := {})
    requires Sized(s) && Conserved(s, lost)
    ensures s.current !in s.tcbFree
  {
  }

  /** The task a step loses. */
  ghost function Dropped(s: State, e: Event): set<nat> {
    if e.Resched? && Sized(s) && Executing(s) && s.tasks[s.current].state == Ready then {s.current} else {}
  }

  lemma StepAccounts(s: State, e: Event, lost: set<nat> := {})
    requires Inv(s, lost)
    ensures Inv(Apply(s, e), lost + Dropped(s, e))
    ensures Conserved(Apply(s, e), lost) <==> Dropped(s, e) == {}
  {
    hide Listed, BitmapOk, Ordered, States, Conserved, Schedule, WakeDue, Pick, CreateTask, Enqueue;
    assert lost + {} == lost;
    if e.Resched? {
      ScheduleConservesIff(s, lost);
      if Executing(s) && s.tasks[s.current].state == Ready {
        ExposedIsLost(s, lost);
      }
    } else {
      StepKeepsInv(s, e, lost);
    }
  }

  /** The tasks that were current, without being marked running, when the run called schedule. */
  ghost function LostBy(s: State, es: seq<Event>): set<nat> {
    if es == [] then {} else LostBy(s, es[..|es| - 1]) + Dropped(Exec(s, es[..|es| - 1]), es[|es| - 1])
  }

  lemma {:induction false} RunAccounts(s: State, es: seq<Event>, lost: set<nat> := {})
    requires Inv(s, lost)
    ensures Inv(Exec(s, es), lost + LostBy(s, es))
  {
    hide Inv, Apply, Dropped;
    if es == [] {
      assert lost + {} == lost;
    } else {
      var front := es[..|es| - 1];
      RunAccounts(s, front, lost);
      StepAccounts(Exec(s, front), es[|es| - 1], lost + LostBy(s, front));
      assert lost + LostBy(s, es) == lost + LostBy(s, front) + Dropped(Exec(s, front), es[|es| - 1]);
    }
  }

  /** The tasks a run loses are exactly those, and a lost task stays lost whatever is done next. */
  lemma RunLosesExactly(s: State, es: seq<Event>, more: seq<Event>)
    requires Inv(s)
    ensures Sized(Exec(s, es)) && Sized(Exec(Exec(s, es), more))
    ensures forall t | 0 <= t < MAX_TASKS :: Lost(Exec(s, es), t) <==> t in LostBy(s, es)
    ensures forall t | 0 <= t < MAX_TASKS && Lost(Exec(s, es), t) :: Lost(Exec(Exec(s, es), more), t)
  {
    hide Listed, BitmapOk, Ordered, States, Exec, LostBy;
    var lost := LostBy(s, es);
    assert {} + lost == lost;
    RunAccounts(s, es);
    RunAccounts(Exec(s, es), more, lost);
    forall t | 0 <= t < MAX_TASKS
      ensures Lost(Exec(s, es), t) <==> t in lost
      ensures Lost(Exec(s, es), t) ==> Lost(Exec(Exec(s, es), more), t)
    {
      assert Lost(Exec(s, es), t) <==> Stray(Exec(s, es), t) && t !in Exec(s, es).tcbFree;
    }
  }

  /** Every state of the run is conserved. */
  ghost predicate AlwaysConserved(s: State, es: seq<Event>) {
    && (es == [] || AlwaysConserved(s, es[..|es| - 1]))
    && Sized(Exec(s, es)) && Conserved(Exec(s, es))
  }

  /** Schedule is never called while the current task executes without being marked running. */
  ghost predicate NeverExposed(s: State, es: seq<Event>) {
    es == [] ||
    var before := Exec(s, es[..|es| - 1]);
    && NeverExposed(s, es[..|es| - 1])
    && (es[|es| - 1].Resched? && Sized(before) && Executing(before) ==> before.tasks[before.current].state == Running)
  }

  /** That is the exact condition: a run conserves tasks throughout if and only if it meets it. */
  lemma {:induction false} RunConservesIff(s: State, es: seq<Event>)
    requires Inv(s)
    ensures AlwaysConserved(s, es) <==> NeverExposed(s, es)
    ensures NeverExposed(s, es) ==> Inv(Exec(s, es))
  {
    hide Listed, BitmapOk, Ordered, States, Conserved, Apply, Loses;
    if es != [] {
      var before, e := Exec(s, es[..|es| - 1]), es[|es| - 1];
      RunConservesIff(s, es[..|es| - 1]);
      if NeverExposed(s, es[..|es| - 1]) {
        StepAccounts(before, e);
        assert {} + Dropped(before, e) == Dropped(before, e);
        ReadyOrRunning(before);
      }
    }
  }

  /** A schedule wakes a sleeper exactly when its time has come. */
  lemma ScheduleOnSleeper(s: State, t: nat, lost: set<nat> := {})
    requires Inv(s, lost) && t < MAX_TASKS && s.where[t] == InSleep
    ensures Sized(Schedule(s)) && Schedule(s).now == s.now
    ensures Schedule(s).where[t] == InSleep <==> !Due(s, t)
    ensures !Due(s, t) ==> Schedule(s).tasks[t] == s.tasks[t]
  {
    hide Listed, BitmapOk, Ordered, Conserved, WakeDue, TakeOff, Pick, SwitchTo, Sleepers;
    var w := WakeDue(s);
    WakeDueExact(s, lost);
    ScheduleConservesIff(s, lost);
    var j := Position(s, t);
    assert s.sleepers[..|s.sleepers|] == s.sleepers;
    assert WokenTask(s, w, |s.sleepers|, t);
    TakeOffEffect(w);
    TakeOffClock(w);
    if Pick(w) != s.current {
      SwitchEffect(TakeOff(w), Pick(w));
      SwitchClock(TakeOff(w), Pick(w));
    }
  }

  lemma TakeOffClock(s: State)
    requires Sized(s)
    ensures TakeOff(s).now == s.now
  {
  }

  lemma SwitchClock(s: State, t: nat)
    requires Sized(s) && t < MAX_TASKS
    ensures SwitchTo(s, t).now == s.now
  {
  }

  lemma StepOnSleeper(s: State, e: Event, t: nat, lost: set<nat> := {})
    requires Inv(s, lost) && t < MAX_TASKS && s.where[t] == InSleep
    ensures Sized(Apply(s, e)) && Apply(s, e).now == s.now + (if e.Tick? then 1 else 0)
    ensures if e.Resched? && Due(s, t) then Apply(s, e).where[t] != InSleep
            else Apply(s, e).where[t] == InSleep && Apply(s, e).tasks[t].wakeAt == s.tasks[t].wakeAt
  {
    hide BitmapOk, Ordered, Sleepers, Schedule, Lowest, Slot, Insert, Loses;
    if e.Resched? {
      ScheduleOnSleeper(s, t, lost);
    } else {
      StepKeepsInv(s, e, lost);
      if e.Reap? && s.dead != [] {
        LeaveDeadLists(s);
      }
    }
  }

  /** A task asleep until a tick is not woken before it, on any run. */
  lemma {:induction false} SleepIsNotCutShort(s: State, es: seq<Event>, t: nat, lost: set<nat> := {})
    requires Inv(s, lost) && t < MAX_TASKS && s.where[t] == InSleep
    requires Exec(s, es).now < s.tasks[t].wakeAt
    ensures Sized(Exec(s, es)) && Exec(s, es).where[t] == InSleep && Exec(s, es).tasks[t].wakeAt == s.tasks[t].wakeAt
    ensures s.now <= Exec(s, es).now
  {
    hide Listed, BitmapOk, Ordered, States, Conserved, Apply;
    if es != [] {
      var front := es[..|es| - 1];
      RunAccounts(s, front, lost);
      ClockNeverBack(Exec(s, front), es[|es| - 1], lost + LostBy(s, front));
      SleepIsNotCutShort(s, front, t, lost);
      StepOnSleeper(Exec(s, front), es[|es| - 1], t, lost + LostBy(s, front));
    }
  }

  lemma ClockNeverBack(s: State, e: Event, lost: set<nat> := {})
    requires Inv(s, lost)
    ensures Apply(s, e).now >= s.now
  {
    hide Listed, BitmapOk, Ordered, States, Conserved, WakeDue, TakeOff, Pick, SwitchTo, Lowest, Slot;
    if e.Resched? {
      var w := WakeDue(s);
      WakeDueExact(s, lost);
      TakeOffEffect(w);
      TakeOffClock(w);
      SwitchClock(TakeOff(w), Pick(w));
    }
  }

  /** All the control blocks below n but the first two. */
  function FreeBlocks(n: nat): (r: set<nat>)
    ensures forall t :: t in r <==> 2 <= t < n
  {
    if n <= 2 then {} else FreeBlocks(n - 1) + {n - 1}
  }

  /** After sched_init: task 0 runs, task 1 is the idle task, parked. */
  function Init(): State {
    State(seq(MAX_TASKS, t => Task(if t == 0 then Running else Ready, if t == 1 then NORMAL else 0, 0, 0)),
          {}, seq(LEVELS, _ => []), [], [], [], {}, FreeBlocks(MAX_TASKS), 0, 1, 0,
          seq(MAX_TASKS, _ => Nowhere), seq(MAX_TASKS, _ => 0), 1)
  }

  lemma InitInv()
    ensures Inv(Init()) && Steady(Init())
  {
    var s := Init();
    assert forall a: Place | Kept(a) :: List(s, a) == [];
  }

  /** A schedule that picks the still current task off a ready list leaves it exposed. */
  lemma RepickExposes(s: State)
    requires Inv(s) && Steady(s) && Repicks(s)
    ensures Exposed(Schedule(s)) && Schedule(s).current == s.current
  {
    hide Listed, BitmapOk, Ordered, States, Conserved, WakeDue, TakeOff, Pick, SwitchTo, Woken;
    ScheduleSteadyIff(s);
    ScheduleConservesIff(s);
    var w := WakeDue(s);
    WakeDueExact(s);
    WokenCurrent(s, w);
    TakeOffEffect(w);
    ReadyUnlessRunning(Schedule(s));
  }

  lemma ReadyOrRunning(s: State)
    requires Sized(s) && States(s)
    ensures Executing(s) ==> s.tasks[s.current].state in {Running, Ready}
  {
  }

  lemma ReadyUnlessRunning(s: State)
    requires Sized(s) && States(s) && !Steady(s)
    ensures Executing(s) && s.tasks[s.current].state == Ready
  {
  }

  lemma NobodyDue(s: State)
    requires Sized(s) && s.sleepers == []
    ensures WakeDue(s) == s
  {
  }

  /** The current task goes to sleep on a wait list and is woken before it has called schedule. */
  lemma WokenBeforeSwitch(s: State)
    requires Inv(s) && Steady(s) && Executing(s) && s.current != s.idle && s.tasks[s.current].deadline == 0
    requires s.sleepers == [] && s.deadlines == [] && s.bitmap == {}
    ensures var n := Apply(Apply(s, Block), WakeUp(s.current));
            Inv(n) && Steady(n) && n.current == s.current && Repicks(n)
  {
    hide Listed, Ordered, Conserved, Slot, Sleepers, Lowest, WakeDue;
    StepKeepsSteady(s, Block);
    StepKeepsSteady(Apply(s, Block), WakeUp(s.current));
    var n := Apply(Apply(s, Block), WakeUp(s.current));
    var p := s.tasks[s.current].priority;
    NobodyDue(n);
    assert n.bitmap == {p} && s.queues[p] == [];
    assert p in n.bitmap;
  }

  /** So a task that blocks with nothing else ready, and is woken before it has switched away, is lost:
      schedule returns to it, and the next schedule drops it. */
  lemma WakeBeforeSwitchLoses(s: State)
    requires Inv(s) && Steady(s) && Executing(s) && s.current != s.idle && s.tasks[s.current].deadline == 0
    requires s.sleepers == [] && s.deadlines == [] && s.bitmap == {}
    ensures var n := Apply(Apply(Apply(Apply(s, Block), WakeUp(s.current)), Resched), Resched);
            Sized(n) && Lost(n, s.current)
  {
    hide Schedule, Repicks, WakeDue, Listed, BitmapOk, Ordered, States, Conserved, Lost, Loses;
    WokenBeforeSwitch(s);
    var n := Apply(Apply(s, Block), WakeUp(s.current));
    RepickExposes(n);
    ExposedIsLost(Schedule(n));
  }

  lemma FourSteps(s: State, a: Event, b: Event, c: Event, d: Event)
    ensures Exec(s, [a, b, c, d]) == Apply(Apply(Apply(Apply(s, a), b), c), d)
  {
    hide Apply;
    assert Exec(s, [a]) == Apply(s, a) by { assert [a][..0] == []; }
    assert Exec(s, [a, b]) == Apply(Exec(s, [a]), b) by { assert [a, b][..1] == [a]; }
    assert Exec(s, [a, b, c]) == Apply(Exec(s, [a, b]), c) by { assert [a, b, c][..2] == [a, b]; }
    assert [a, b, c, d][..3] == [a, b, c];
  }

  lemma InitAlone()
    ensures var s := Init();
            && Sized(s) && Executing(s) && s.current == 0 && s.idle == 1 && s.tasks[0].deadline == 0
            && s.sleepers == [] && s.deadlines == [] && s.bitmap == {}
  {
  }

  /** It happens from the boot state. */
  lemma BootTaskCanBeLost()
    ensures Sized(Exec(Init(), [Block, WakeUp(0), Resched, Resched]))
    ensures Lost(Exec(Init(), [Block, WakeUp(0), Resched, Resched]), 0)
  {
    hide Apply, Exec, Init, Lost, Inv;
    InitInv();
    InitAlone();
    WakeBeforeSwitchLoses(Init());
    FourSteps(Init(), Block, WakeUp(0), Resched, Resched);
  }
}
