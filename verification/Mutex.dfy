/** The mutex with priority inheritance.  A smaller number is a higher priority. */
module Mutex {
  import opened WaitList

  datatype At = Idle | Trying | Asleep | Holding

  /** The mutex, the phase and priority of every thread, and how many sleepers there were when the
      present owner took the mutex: the sleepers after those blocked during its tenure. */
  datatype State = State(locked: bool, owner: nat, saved: int, boosted: bool, sleepers: seq<nat>,
                         at: seq<At>, prio: seq<int>, since: nat)

  datatype Event =
    | Start(t: nat)      // a thread calls mutex_lock
    | Try(t: nat)        // one pass of its loop, under the lock
    | Unlock(t: nat)     // by the owner
    | TryLock(t: nat)

  function Init(base: seq<int>): State {
    State(false, 0, 32, false, [], seq(|base|, _ => Idle), base, 0)
  }

  function Acquire(s: State, t: nat): State
    requires t < |s.at| && t < |s.prio|
  {
    s.(locked := true, owner := t, saved := s.prio[t], boosted := false, at := s.at[t := Holding],
       since := |s.sleepers|)
  }

  /** Block on the owner, lending it the caller's priority if that is higher. */
  function Block(s: State, t: nat): State
    requires t < |s.at| && t < |s.prio|
  {
    var now := s.(at := s.at[t := Asleep], sleepers := s.sleepers + [t]);
    if s.owner < |s.prio| && s.prio[t] < s.prio[s.owner] then
      now.(boosted := true, prio := s.prio[s.owner := s.prio[t]])
    else now
  }

  /** Take back what was lent, release the mutex and wake the first sleeper. */
  function Release(s: State, t: nat): State
    requires t < |s.at| && t < |s.prio|
  {
    var back := if s.boosted then s.prio[t := s.saved] else s.prio;
    var now := s.(locked := false, owner := 0, boosted := false, prio := back, at := s.at[t := Idle], since := 0);
    if s.sleepers == [] || s.sleepers[0] >= |s.at| then now
    else now.(sleepers := s.sleepers[1..], at := now.at[s.sleepers[0] := Trying])
  }

  function Apply(s: State, e: Event): State {
    if e.t >= |s.at| || e.t >= |s.prio| then s
    else
      match e
      case Start(t) => if s.at[t].Idle? then s.(at := s.at[t := Trying]) else s
      case Try(t) => if !s.at[t].Trying? then s else if !s.locked then Acquire(s, t) else Block(s, t)
      case Unlock(t) => if s.at[t].Holding? then Release(s, t) else s
      case TryLock(t) => if s.at[t].Idle? && !s.locked then Acquire(s, t) else s
  }

  function Exec(s: State, es: seq<Event>): State {
    if es == [] then s else Apply(Exec(s, es[..|es| - 1]), es[|es| - 1])
  }

  // ---------------------------------------------------------------- what every run keeps

  /** The highest priority among `own` and the base priorities of the threads in q. */
  function Highest(own: int, base: seq<int>, q: seq<nat>): (h: int)
    ensures h <= own && (forall i | 0 <= i < |q| && q[i] < |base| :: h <= base[q[i]])
    ensures h == own || exists i :: 0 <= i < |q| && q[i] < |base| && h == base[q[i]]
  {
    if q == [] then own
    else
      var rest := Highest(own, base, q[..|q| - 1]);
      var last := q[|q| - 1];
      if last < |base| && base[last] < rest then base[last] else rest
  }

  ghost predicate OneOwner(s: State) {
    forall t | 0 <= t < |s.at| :: s.at[t].Holding? <==> s.locked && t == s.owner
  }

  ghost predicate Priorities(s: State, base: seq<int>) {
    && |s.prio| == |base| == |s.at|
    && (forall t | 0 <= t < |base| && !(s.locked && t == s.owner) :: s.prio[t] == base[t])
    && (s.locked ==>
          && s.owner < |base| && s.saved == base[s.owner] && s.since <= |s.sleepers|
          && s.prio[s.owner] == Highest(base[s.owner], base, s.sleepers[s.since..])
          && (s.boosted <==> s.prio[s.owner] < base[s.owner]))
  }

  /** One owner at most; everybody but the owner runs at its own priority, and the owner at the
      highest of its own and of those that blocked during its tenure; and while the mutex is free
      with threads asleep, a woken thread is about to try. */
  ghost predicate Inv(s: State, base: seq<int>) {
    && OneOwner(s) && Priorities(s, base) && Sleepers(s.sleepers, s.at, Asleep)
    && (!s.locked && s.sleepers != [] ==> Number(s.at, Trying) > 0)
  }

  lemma AcquireKeepsInv(s: State, t: nat, base: seq<int>)
    requires Inv(s, base) && t < |s.at| && !s.locked && s.at[t] in {Idle, Trying}
    ensures Inv(Acquire(s, t), base)
  {
    hide Sleepers, Number;
    SleepersKept(s.sleepers, s.at, Asleep, t, Holding);
    assert s.sleepers[|s.sleepers|..] == [];
  }

  lemma BlockKeepsInv(s: State, t: nat, base: seq<int>)
    requires Inv(s, base) && t < |s.at| && s.locked && s.at[t].Trying?
    ensures Inv(Block(s, t), base)
  {
    hide Sleepers, Number;
    SleepersAdd(s.sleepers, s.at, Asleep, t);
    var q := (s.sleepers + [t])[s.since..];
    assert q[..|q| - 1] == s.sleepers[s.since..] && q[|q| - 1] == t;
  }

  lemma ReleaseKeepsInv(s: State, t: nat, base: seq<int>)
    requires Inv(s, base) && t < |s.at| && s.at[t].Holding?
    ensures Inv(Release(s, t), base)
  {
    hide Sleepers, Number;
    var mid := s.at[t := Idle];
    SleepersKept(s.sleepers, s.at, Asleep, t, Idle);
    if s.sleepers != [] {
      FirstSleeper(s.sleepers, mid, Asleep);
      SleepersPop(s.sleepers, mid, Asleep, Trying);
      MoveCounts(mid, s.sleepers[0], Trying);
      MoveCounts(mid[s.sleepers[0] := Trying], s.sleepers[0], Trying);
    }
  }

  lemma StartKeepsInv(s: State, t: nat, base: seq<int>)
    requires Inv(s, base) && t < |s.at| && s.at[t].Idle?
    ensures Inv(s.(at := s.at[t := Trying]), base)
  {
    hide Sleepers, Number;
    SleepersKept(s.sleepers, s.at, Asleep, t, Trying);
    MoveCounts(s.at, t, Trying);
  }

  lemma StepKeepsInv(s: State, e: Event, base: seq<int>)
    requires Inv(s, base)
    ensures Inv(Apply(s, e), base)
  {
    hide OneOwner, Priorities, Sleepers, Number, Acquire, Block, Release;
    if e.t < |s.at| && e.t < |s.prio| {
      match e
      case Start(t) => if s.at[t].Idle? { StartKeepsInv(s, t, base); }
      case Try(t) =>
        if s.at[t].Trying? && !s.locked { AcquireKeepsInv(s, t, base); }
        else if s.at[t].Trying? { BlockKeepsInv(s, t, base); }
      case Unlock(t) => if s.at[t].Holding? { ReleaseKeepsInv(s, t, base); }
      case TryLock(t) => if s.at[t].Idle? && !s.locked { AcquireKeepsInv(s, t, base); }
    }
  }

  lemma {:induction false} RunKeepsInv(base: seq<int>, es: seq<Event>)
    ensures Inv(Exec(Init(base), es), base)
  {
    hide Apply;
    if es != [] {
      hide Inv;
      RunKeepsInv(base, es[..|es| - 1]);
      StepKeepsInv(Exec(Init(base), es[..|es| - 1]), es[|es| - 1], base);
    }
  }

  // ---------------------------------------------------------------- the promises, on every run

  lemma {:induction false} AtMostOneOwner(base: seq<int>, es: seq<Event>, t: nat, u: nat)
    requires var s := Exec(Init(base), es);
             t < |s.at| && u < |s.at| && s.at[t].Holding? && s.at[u].Holding?
    ensures t == u
  {
    hide Apply, Exec, Sleepers, Number;
    RunKeepsInv(base, es);
  }

  /** Releasing gives the owner back exactly the priority it had when it took the mutex, and no
      other thread's priority is touched. */
  lemma {:induction false} UnlockRestores(base: seq<int>, es: seq<Event>, t: nat)
    requires var s := Exec(Init(base), es); t < |s.at| && s.at[t].Holding?
    ensures Apply(Exec(Init(base), es), Unlock(t)).prio == base
  {
    hide Exec, Sleepers, Number;
    RunKeepsInv(base, es);
  }

  /** The owner runs at no lower a priority than any thread that blocked during its tenure, and at
      a raised priority only if one of those has it. */
  lemma {:induction false} OwnerInherits(base: seq<int>, es: seq<Event>)
    requires Exec(Init(base), es).locked
    ensures var s := Exec(Init(base), es);
            && s.owner < |base| == |s.prio| && s.since <= |s.sleepers|
            && (forall i | s.since <= i < |s.sleepers| :: s.sleepers[i] < |base| && s.prio[s.owner] <= base[s.sleepers[i]])
            && (s.prio[s.owner] == base[s.owner] ||
                exists i :: s.since <= i < |s.sleepers| && s.sleepers[i] < |base| && s.prio[s.owner] == base[s.sleepers[i]])
  {
    hide Apply, Exec, Number;
    RunKeepsInv(base, es);
    var s := Exec(Init(base), es);
    var q := s.sleepers[s.since..];
    assert forall i | s.since <= i < |s.sleepers| :: s.sleepers[i] == q[i - s.since];
  }

  lemma {:induction false} NoLostWakeup(base: seq<int>, es: seq<Event>)
    ensures var s := Exec(Init(base), es);
            !s.locked && s.sleepers != [] ==> exists t :: 0 <= t < |s.at| && s.at[t].Trying?
  {
    hide Apply, Exec, Sleepers, Number, Priorities, OneOwner;
    RunKeepsInv(base, es);
    var s := Exec(Init(base), es);
    if !s.locked && s.sleepers != [] {
      FindThread(s.at, Trying, Trying);
    }
  }

  // ---------------------------------------------------------------- where inheritance stops

  /** Some sleeper has a higher priority than the owner runs at. */
  ghost predicate Inverted(s: State) {
    s.locked && s.owner < |s.prio| &&
    exists i :: 0 <= i < |s.sleepers| && s.sleepers[i] < |s.prio| && s.prio[s.sleepers[i]] < s.prio[s.owner]
  }

  /** The event takes the mutex, by mutex_lock or by mutex_trylock. */
  predicate Acquires(s: State, e: Event) {
    e.t < |s.at| && e.t < |s.prio| && !s.locked && ((e.Try? && s.at[e.t].Trying?) || (e.TryLock? && s.at[e.t].Idle?))
  }

  /** A thread asleep has a higher priority than thread t. */
  ghost predicate Outranked(s: State, base: seq<int>, t: nat) {
    exists u :: 0 <= u < |s.at| && u < |base| && t < |base| && s.at[u].Asleep? && base[u] < base[t]
  }

  /** Taking the mutex leaves its owner outranked by a sleeper exactly when a thread that was already
      asleep has a higher priority than the new owner. */
  lemma AcquireInvertsIff(s: State, e: Event, base: seq<int>)
    requires Inv(s, base) && Acquires(s, e)
    ensures Inverted(Apply(s, e)) <==> Outranked(s, base, e.t)
  {
    hide Number;
    var after := Apply(s, e);
    assert after.sleepers == s.sleepers && after.prio == s.prio == base;
    if u :| 0 <= u < |s.at| && u < |base| && e.t < |base| && s.at[u].Asleep? && base[u] < base[e.t] {
      var i :| 0 <= i < |s.sleepers| && s.sleepers[i] == u;
      assert after.prio[after.sleepers[i]] < after.prio[after.owner];
    }
  }

  /** Blocking on an owner that nobody outranks leaves it outranked by nobody. */
  lemma BlockNeverInverts(s: State, t: nat, base: seq<int>)
    requires Inv(s, base) && t < |s.at| && s.at[t].Trying? && s.locked && !Inverted(s)
    ensures !Inverted(Apply(s, Try(t)))
  {
    hide Number;
    var after := Apply(s, Try(t));
    assert forall i | 0 <= i < |s.sleepers| :: after.sleepers[i] == s.sleepers[i];
  }

  /** So only an acquisition can bring an inversion about, and then exactly as above. */
  lemma StepInvertsIff(s: State, e: Event, base: seq<int>)
    requires Inv(s, base) && !Inverted(s)
    ensures Inverted(Apply(s, e)) <==> Acquires(s, e) && Outranked(s, base, e.t)
  {
    hide Sleepers, Number, Highest;
    if Acquires(s, e) {
      AcquireInvertsIff(s, e, base);
    } else if e.Try? && e.t < |s.at| && e.t < |s.prio| && s.at[e.t].Trying? {
      BlockNeverInverts(s, e.t, base);
    }
  }

  ghost predicate NeverInverted(base: seq<int>, es: seq<Event>) {
    (es == [] || NeverInverted(base, es[..|es| - 1])) && !Inverted(Exec(Init(base), es))
  }

  /** No event of the run takes the mutex while a thread of higher priority is asleep. */
  ghost predicate NeverJumped(base: seq<int>, es: seq<Event>) {
    es == [] ||
    var s, e := Exec(Init(base), es[..|es| - 1]), es[|es| - 1];
    NeverJumped(base, es[..|es| - 1]) && !(Acquires(s, e) && Outranked(s, base, e.t))
  }

  /** Over runs: no sleeper ever outranks the owner if and only if the mutex is never taken while a thread
      of higher priority is asleep. */
  lemma {:induction false} RunInvertsIff(base: seq<int>, es: seq<Event>)
    ensures NeverInverted(base, es) <==> NeverJumped(base, es)
  {
    hide Apply, Acquires, Outranked;
    if es != [] {
      hide Inverted;
      var front := es[..|es| - 1];
      RunInvertsIff(base, front);
      RunKeepsInv(base, front);
      if NeverInverted(base, front) {
        LastNotInverted(base, front);
        StepInvertsIff(Exec(Init(base), front), es[|es| - 1], base);
      }
    }
  }

  lemma LastNotInverted(base: seq<int>, es: seq<Event>)
    requires NeverInverted(base, es)
    ensures !Inverted(Exec(Init(base), es))
  {
  }

  const BASE := [10, 20, 5]
  const RUN := [Start(0), Try(0), Start(1), Try(1), Start(2), Try(2), Unlock(0), Try(1)]

  // The states of that run, every second event.
  const ONE_HOLDS := State(true, 0, 10, false, [], [Holding, Idle, Idle], [10, 20, 5], 0)
  const LOW_SLEEPS := State(true, 0, 10, false, [1], [Holding, Asleep, Idle], [10, 20, 5], 0)
  const BOTH_SLEEP := State(true, 0, 10, true, [1, 2], [Holding, Asleep, Asleep], [5, 20, 5], 0)
  const LOW_HOLDS := State(true, 1, 20, false, [2], [Idle, Holding, Asleep], [10, 20, 5], 1)

  lemma RunStates()
    ensures Apply(Apply(Init(BASE), Start(0)), Try(0)) == ONE_HOLDS
    ensures Apply(Apply(ONE_HOLDS, Start(1)), Try(1)) == LOW_SLEEPS
    ensures Apply(Apply(LOW_SLEEPS, Start(2)), Try(2)) == BOTH_SLEEP
  {
    assert Init(BASE).at == [Idle, Idle, Idle];
    assert Init(BASE).at[0 := Trying][0 := Holding] == [Holding, Idle, Idle];
    assert ONE_HOLDS.at[1 := Trying][1 := Asleep] == [Holding, Asleep, Idle];
    assert LOW_SLEEPS.at[2 := Trying][2 := Asleep] == [Holding, Asleep, Asleep];
    assert BASE[0 := 5] == [5, 20, 5];
  }

  lemma LowTakesOver()
    ensures Apply(Apply(BOTH_SLEEP, Unlock(0)), Try(1)) == LOW_HOLDS
  {
    var freed := Apply(BOTH_SLEEP, Unlock(0));
    assert freed.at == [Idle, Trying, Asleep] && freed.prio == [10, 20, 5];
  }

  /** Two sleepers of different priority are enough: the low one is woken first and takes the mutex,
      while the high one, asleep since the earlier tenure, lends it nothing. */
  lemma InheritanceForgetsOldSleepers()
    ensures Inverted(Exec(Init(BASE), RUN))
  {
    hide Init, Apply;
    RunStates();
    LowTakesOver();
    ExecStep(BASE, RUN, 1); ExecStep(BASE, RUN, 2); ExecStep(BASE, RUN, 3); ExecStep(BASE, RUN, 4);
    ExecStep(BASE, RUN, 5); ExecStep(BASE, RUN, 6); ExecStep(BASE, RUN, 7); ExecStep(BASE, RUN, 8);
    assert RUN[..8] == RUN;
    assert LOW_HOLDS.prio[LOW_HOLDS.sleepers[0]] < LOW_HOLDS.prio[LOW_HOLDS.owner];
  }

  lemma ExecStep(base: seq<int>, es: seq<Event>, n: nat)
    requires 0 < n <= |es|
    ensures Exec(Init(base), es[..n]) == Apply(Exec(Init(base), es[..n - 1]), es[n - 1])
  {
    assert es[..n][..n - 1] == es[..n - 1];
  }

  /** mutex_trylock does the same: the owner that has just released the mutex takes it back over both. */
  lemma TryLockForgetsOldSleepers()
    ensures Inverted(Apply(Apply(BOTH_SLEEP, Unlock(0)), TryLock(0)))
  {
    var freed := Apply(BOTH_SLEEP, Unlock(0));
    assert freed.at == [Idle, Trying, Asleep] && freed.prio == [10, 20, 5] && freed.sleepers == [2];
    var s := Apply(freed, TryLock(0));
    assert s.prio[s.sleepers[0]] < s.prio[s.owner];
  }
}
