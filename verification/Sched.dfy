/** The scheduler's state as a value, and each of its locked sections as a function on it. */
module Sched {
  import opened WaitList

  const LEVELS := 64
  const MAX_TASKS := 64
  const NORMAL := 32

  datatype Status = Ready | Running | Sleeping | Dead
  datatype Task = Task(state: Status, priority: nat, deadline: nat, wakeAt: nat)

  /** Which list a task's node is on. */
  datatype Place = Nowhere | InQueue(level: nat) | InDeadline | InSleep | InDead | InWait

  /** The scheduler's variables.  A 64-bit map is the set of its set bits.  `where`, `stamp` and `clock`
      are kept beside them: which list a task is on, and when it was last made ready. */
  datatype State = State(tasks: seq<Task>, bitmap: set<nat>, queues: seq<seq<nat>>, deadlines: seq<nat>,
                         sleepers: seq<nat>, dead: seq<nat>, waiting: set<nat>, tcbFree: set<nat>,
                         current: nat, idle: nat, now: nat,
                         where: seq<Place>, stamp: seq<nat>, clock: nat)

  predicate Sized(s: State) {
    && |s.tasks| == |s.where| == |s.stamp| == MAX_TASKS && |s.queues| == LEVELS
    && s.current < MAX_TASKS && s.idle < MAX_TASKS
    && (forall t | 0 <= t < MAX_TASKS :: s.tasks[t].priority < LEVELS)
    && (forall i | 0 <= i < |s.deadlines| :: s.deadlines[i] < MAX_TASKS)
    && (forall i | 0 <= i < |s.sleepers| :: s.sleepers[i] < MAX_TASKS)
  }

  // ---------------------------------------------------------------- the ready structures

  /** The lowest set bit. */
  function Lowest(bits: set<nat>, from: nat): (p: nat)
    requires exists b :: b in bits && from <= b < LEVELS
    ensures p in bits && from <= p < LEVELS && (forall b | b in bits && from <= b :: p <= b)
    decreases LEVELS - from
  {
    if from in bits then from else Lowest(bits, from + 1)
  }

  /** The first place in the deadline queue held by a later deadline. */
  function Slot(tasks: seq<Task>, q: seq<nat>, d: nat, from: nat): (i: nat)
    requires from <= |q| && forall j | 0 <= j < |q| :: q[j] < |tasks|
    ensures from <= i <= |q|
    ensures forall j | from <= j < i :: tasks[q[j]].deadline <= d
    ensures i < |q| ==> d < tasks[q[i]].deadline
    decreases |q| - from
  {
    if from == |q| || d < tasks[q[from]].deadline then from else Slot(tasks, q, d, from + 1)
  }

  function Insert(q: seq<nat>, i: nat, t: nat): (r: seq<nat>)
    requires i <= |q|
  {
    q[..i] + [t] + q[i..]
  }

  function Enqueue(s: State, t: nat): State
    requires Sized(s) && t < MAX_TASKS
  {
    var u := s.tasks[t];
    var now := s.(stamp := s.stamp[t := s.clock], clock := s.clock + 1);
    if u.deadline > 0 then
      now.(deadlines := Insert(s.deadlines, Slot(s.tasks, s.deadlines, u.deadline, 0), t), where := s.where[t := InDeadline])
    else
      now.(queues := s.queues[u.priority := s.queues[u.priority] + [t]], bitmap := s.bitmap + {u.priority},
           where := s.where[t := InQueue(u.priority)])
  }

  function SetState(s: State, t: nat, r: Status): State
    requires Sized(s) && t < MAX_TASKS
  {
    s.(tasks := s.tasks[t := s.tasks[t].(state := r)])
  }

  function MakeReady(s: State, t: nat): State
    requires Sized(s) && t < MAX_TASKS
  {
    Enqueue(SetState(s, t, Ready), t)
  }

  predicate HasBit(s: State) {
    exists b :: b in s.bitmap && 0 <= b < LEVELS
  }

  /** What schedule picks: the head of the deadline queue, else the head of the queue of the lowest
      set bit, else the idle task. */
  function Pick(s: State): nat
    requires Sized(s)
  {
    if s.deadlines != [] then s.deadlines[0]
    else if HasBit(s) && s.queues[Lowest(s.bitmap, 0)] != [] then s.queues[Lowest(s.bitmap, 0)][0]
    else s.idle
  }

  /** The state with the picked task off its queue. */
  function TakeOff(s: State): State
    requires Sized(s)
  {
    var t := Pick(s);
    if s.deadlines != [] then s.(deadlines := s.deadlines[1..], where := s.where[t := Nowhere])
    else if HasBit(s) && s.queues[Lowest(s.bitmap, 0)] != [] then
      var p := Lowest(s.bitmap, 0);
      var rest := s.queues[p][1..];
      if t < MAX_TASKS then
        s.(queues := s.queues[p := rest], bitmap := if rest == [] then s.bitmap - {p} else s.bitmap,
           where := s.where[t := Nowhere])
      else s
    else s
  }

  // ---------------------------------------------------------------- what the lists keep

  function List(s: State, a: Place): seq<nat> {
    match a
    case InQueue(p) => if p < |s.queues| then s.queues[p] else []
    case InDeadline => s.deadlines
    case InSleep => s.sleepers
    case InDead => s.dead
    case _ => []
  }

  predicate Kept(a: Place) {
    a != Nowhere && a != InWait
  }

  /** Every task is on the list its place names, once, and on no other. */
  ghost predicate Listed(s: State) {
    && (forall a: Place | Kept(a) :: Sleepers(List(s, a), s.where, a))
    && (forall t | 0 <= t < |s.where| :: t in s.waiting <==> s.where[t] == InWait)
  }

  /** A bit is set exactly when its queue is not empty. */
  ghost predicate BitmapOk(s: State) {
    forall p: nat :: p in s.bitmap <==> p < |s.queues| && s.queues[p] != []
  }

  /** Earlier deadline first, and of equal deadlines the one made ready first. */
  predicate Before(s: State, t: nat, u: nat)
    requires t < |s.tasks| == |s.stamp| && u < |s.tasks|
  {
    s.tasks[t].deadline < s.tasks[u].deadline ||
    (s.tasks[t].deadline == s.tasks[u].deadline && s.stamp[t] < s.stamp[u])
  }

  ghost predicate DeadlinesSorted(s: State)
    requires Sized(s)
  {
    forall i, j | 0 <= i < j < |s.deadlines| :: Before(s, s.deadlines[i], s.deadlines[j])
  }

  ghost predicate QueueSorted(s: State, q: seq<nat>)
    requires Sized(s)
  {
    && (forall i | 0 <= i < |q| :: q[i] < MAX_TASKS)
    && (forall i, j | 0 <= i < j < |q| :: s.stamp[q[i]] < s.stamp[q[j]])
  }

  ghost predicate Ordered(s: State)
    requires Sized(s)
  {
    && DeadlinesSorted(s)
    && (forall p | 0 <= p < LEVELS :: QueueSorted(s, s.queues[p]))
    && (forall t | 0 <= t < MAX_TASKS :: s.stamp[t] < s.clock)
  }

  ghost predicate Lists(s: State) {
    Sized(s) && Listed(s) && BitmapOk(s) && Ordered(s)
  }

  lemma MovedListed(s: State, n: State, t: nat, to: Place)
    requires Listed(s) && t < |s.where| && n.where == s.where[t := to] && to != s.where[t]
    requires forall a: Place | Kept(a) && a != to && a != s.where[t] :: List(n, a) == List(s, a)
    requires Kept(to) ==> Sleepers(List(n, to), n.where, to)
    requires Kept(s.where[t]) ==> Sleepers(List(n, s.where[t]), n.where, s.where[t])
    requires n.waiting == if to == InWait then s.waiting + {t} else s.waiting - {t}
    ensures Listed(n)
  {
    hide Sleepers;
    forall a: Place | Kept(a)
      ensures Sleepers(List(n, a), n.where, a)
    {
      if a != to && a != s.where[t] {
        SleepersKept(List(s, a), s.where, a, t, to);
      }
    }
  }

  lemma Member(s: State, a: Place, i: nat)
    requires Listed(s) && Kept(a) && i < |List(s, a)|
    ensures List(s, a)[i] < |s.where| && s.where[List(s, a)[i]] == a
  {
    assert Sleepers(List(s, a), s.where, a);
  }

  lemma InsertDeadline(s: State, t: nat)
    requires Lists(s) && t < MAX_TASKS && s.where[t] == Nowhere && s.tasks[t].deadline > 0
    ensures Lists(Enqueue(s, t))
  {
    hide Sleepers, Slot;
    var n := Enqueue(s, t);
    var i := Slot(s.tasks, s.deadlines, s.tasks[t].deadline, 0);
    assert Sleepers(List(s, InDeadline), s.where, InDeadline);
    SleepersInsert(s.deadlines, s.where, InDeadline, t, i);
    assert Listed(n) by {
      MovedListed(s, n, t, InDeadline);
    }
    assert Ordered(n) by {
      InsertSorted(s, t, i);
      QueuesUntouched(s, n, t);
    }
  }

  /** The tasks on the queues are not the task being made ready, so their stamps stay. */
  lemma QueuesUntouched(s: State, n: State, t: nat)
    requires Lists(s) && Sized(n) && t < MAX_TASKS && s.where[t] == Nowhere
    requires n.stamp == s.stamp[t := s.clock]
    ensures forall p | 0 <= p < LEVELS :: QueueSorted(n, s.queues[p])
  {
    forall p | 0 <= p < LEVELS
      ensures QueueSorted(n, s.queues[p])
    {
      assert QueueSorted(s, s.queues[p]);
      assert Sleepers(List(s, InQueue(p)), s.where, InQueue(p));
    }
  }

  lemma InsertSorted(s: State, t: nat, i: nat)
    requires Lists(s) && t < MAX_TASKS && s.where[t] == Nowhere && s.tasks[t].deadline > 0
    requires i == Slot(s.tasks, s.deadlines, s.tasks[t].deadline, 0)
    ensures DeadlinesSorted(Enqueue(s, t))
  {
    hide Slot;
    var n := Enqueue(s, t);
    var q := s.deadlines;
    assert Sleepers(List(s, InDeadline), s.where, InDeadline);
    forall j, k | 0 <= j < k < |n.deadlines|
      ensures Before(n, n.deadlines[j], n.deadlines[k])
    {
      if j != i && k != i {
        var j0 := if j < i then j else j - 1;
        var k0 := if k < i then k else k - 1;
        assert Before(s, q[j0], q[k0]);
      } else if j == i && k != i + 1 {
        assert Before(s, q[i], q[k - 1]);
      }
    }
  }

  lemma AppendSorted(s: State, n: State, t: nat, p: nat)
    requires Lists(s) && Sized(n) && t < MAX_TASKS && p < LEVELS && s.where[t] == Nowhere
    requires n.stamp == s.stamp[t := s.clock]
    ensures QueueSorted(n, s.queues[p] + [t])
  {
    var q := s.queues[p];
    assert QueueSorted(s, q);
    assert Sleepers(List(s, InQueue(p)), s.where, InQueue(p));
  }

  lemma AppendQueue(s: State, t: nat)
    requires Lists(s) && t < MAX_TASKS && s.where[t] == Nowhere && s.tasks[t].deadline == 0
    ensures Lists(Enqueue(s, t))
  {
    hide Sleepers, Slot;
    var n := Enqueue(s, t);
    var p := s.tasks[t].priority;
    assert Sleepers(List(s, InQueue(p)), s.where, InQueue(p));
    SleepersAdd(s.queues[p], s.where, InQueue(p), t);
    MovedListed(s, n, t, InQueue(p));
    assert Ordered(n) by {
      QueuesUntouched(s, n, t);
      AppendSorted(s, n, t, p);
      assert forall k | 0 <= k < LEVELS && k != p :: n.queues[k] == s.queues[k];
      DeadlinesUntouched(s, n, t);
    }
  }

  lemma DeadlinesUntouched(s: State, n: State, t: nat)
    requires Lists(s) && Sized(n) && t < MAX_TASKS && s.where[t] == Nowhere
    requires n.stamp == s.stamp[t := s.clock] && n.deadlines == s.deadlines && n.tasks == s.tasks
    ensures DeadlinesSorted(n)
  {
    assert Sleepers(List(s, InDeadline), s.where, InDeadline);
    assert forall i, j | 0 <= i < j < |s.deadlines| :: Before(s, s.deadlines[i], s.deadlines[j]);
  }

  /** Making an unlisted task ready keeps every list right: the queue order, the sorted deadlines
      and the bitmap. */
  lemma EnqueueKeepsLists(s: State, t: nat)
    requires Lists(s) && t < MAX_TASKS && s.where[t] == Nowhere
    ensures Lists(Enqueue(s, t))
  {
    hide Enqueue, Listed, BitmapOk, Ordered;
    if s.tasks[t].deadline > 0 { InsertDeadline(s, t); } else { AppendQueue(s, t); }
  }

  /** Taking the picked task off keeps every list right, and leaves it on none. */
  lemma TakeOffKeepsLists(s: State)
    requires Lists(s)
    ensures Lists(TakeOff(s)) && Pick(s) < MAX_TASKS
    ensures TakeOff(s).where == s.where || TakeOff(s).where == s.where[Pick(s) := Nowhere]
  {
    hide Sleepers, Lowest;
    var n := TakeOff(s);
    if s.deadlines != [] {
      Member(s, InDeadline, 0);
      assert Sleepers(List(s, InDeadline), s.where, InDeadline);
      SleepersPop(s.deadlines, s.where, InDeadline, Nowhere);
      MovedListed(s, n, s.deadlines[0], Nowhere);
      assert DeadlinesSorted(n) by {
        forall i, j | 0 <= i < j < |n.deadlines|
          ensures Before(n, n.deadlines[i], n.deadlines[j])
        {
          assert Before(s, s.deadlines[i + 1], s.deadlines[j + 1]);
        }
      }
    } else if HasBit(s) {
      var p := Lowest(s.bitmap, 0);
      Member(s, InQueue(p), 0);
      assert Sleepers(List(s, InQueue(p)), s.where, InQueue(p));
      SleepersPop(s.queues[p], s.where, InQueue(p), Nowhere);
      MovedListed(s, n, s.queues[p][0], Nowhere);
    }
  }

  /** The picked task is on the deadline queue, on the lowest queue that is not empty, or idle. */
  lemma PickPlace(s: State)
    requires Lists(s)
    ensures Pick(s) < MAX_TASKS
    ensures s.deadlines != [] ==> s.where[Pick(s)] == InDeadline
    ensures s.deadlines == [] && HasBit(s) ==> s.where[Pick(s)] == InQueue(Lowest(s.bitmap, 0))
    ensures s.deadlines == [] && !HasBit(s) ==> Pick(s) == s.idle
  {
    hide Sleepers, Lowest, Ordered;
    if s.deadlines != [] {
      Member(s, InDeadline, 0);
    } else if HasBit(s) {
      Member(s, InQueue(Lowest(s.bitmap, 0)), 0);
    }
  }

  /** Where a listed task stands in its list. */
  lemma Position(s: State, u: nat) returns (j: nat)
    requires Listed(s) && u < |s.where| && Kept(s.where[u])
    ensures j < |List(s, s.where[u])| && List(s, s.where[u])[j] == u
  {
    assert Sleepers(List(s, s.where[u]), s.where, s.where[u]);
    j :| 0 <= j < |List(s, s.where[u])| && List(s, s.where[u])[j] == u;
  }

  /** Schedule picks what a search of every task would: of the tasks ready with a deadline the one
      with the earliest, first come first; else of the queued tasks the one at the lowest level, first
      come first; else the idle task. */
  lemma PickIsExhaustive(s: State, u: nat)
    requires Lists(s) && u < MAX_TASKS
    ensures Pick(s) < MAX_TASKS
    ensures s.where[u] == InDeadline ==>
              s.where[Pick(s)] == InDeadline && (u == Pick(s) || Before(s, Pick(s), u))
    ensures s.where[u].InQueue? && s.where[Pick(s)] != InDeadline ==>
              var at := s.where[Pick(s)];
              at.InQueue? && (u == Pick(s) || at.level < s.where[u].level ||
                (at.level == s.where[u].level && s.stamp[Pick(s)] < s.stamp[u]))
    ensures s.where[Pick(s)] == InDeadline || s.where[Pick(s)].InQueue? || Pick(s) == s.idle
  {
    hide Lowest, Sleepers, Listed;
    PickPlace(s);
    if s.where[u] == InDeadline {
      var j := Position(s, u);
    } else if s.where[u].InQueue? {
      var j := Position(s, u);
      var p := s.where[u].level;
      assert p in s.bitmap;
      if s.deadlines == [] && p == Lowest(s.bitmap, 0) {
        assert QueueSorted(s, s.queues[p]);
      }
    }
  }
}
