/** The counting semaphore: the count, and the protocol of its sleepers. */
module Semaphore {
  import opened WaitList

  datatype At = Idle | Trying | Asleep

  /** The count, the sleepers in order, each thread's phase, and the operations completed so far. */
  datatype State = State(count: int, sleepers: seq<nat>, at: seq<At>, posts: nat, waits: nat)

  datatype Event =
    | Start(t: nat)      // a thread calls sem_wait
    | Try(t: nat)        // one pass of its loop, under the lock
    | Post(t: nat)       // by any thread, or an interrupt while t runs
    | TryWait(t: nat)

  function Init(n: nat, count: nat): State {
    State(count, [], seq(n, _ => Idle), 0, 0)
  }

  function Apply(s: State, e: Event): State {
    if e.t >= |s.at| then s
    else
      match e
      case Start(t) => if s.at[t].Idle? then s.(at := s.at[t := Trying]) else s
      case Try(t) =>
        if !s.at[t].Trying? then s
        else if s.count > 0 then s.(count := s.count - 1, at := s.at[t := Idle], waits := s.waits + 1)
        else s.(at := s.at[t := Asleep], sleepers := s.sleepers + [t])
      case Post(t) =>
        var now := s.(count := s.count + 1, posts := s.posts + 1);
        if s.sleepers == [] || s.sleepers[0] >= |s.at| then now
        else now.(sleepers := s.sleepers[1..], at := s.at[s.sleepers[0] := Trying])
      case TryWait(t) =>
        if s.at[t].Idle? && s.count > 0 then s.(count := s.count - 1, waits := s.waits + 1) else s
  }

  function Exec(s: State, es: seq<Event>): State {
    if es == [] then s else Apply(Exec(s, es[..|es| - 1]), es[|es| - 1])
  }

  /** The count balances and is never negative; while anybody sleeps, every unit of the count is
      matched by a thread about to try for it. */
  ghost predicate Inv(s: State, initial: nat) {
    && s.count == initial + s.posts - s.waits && s.count >= 0
    && Sleepers(s.sleepers, s.at, Asleep)
    && (s.sleepers != [] ==> s.count <= Number(s.at, Trying))
  }

  lemma StepKeepsInv(s: State, e: Event, initial: nat)
    requires Inv(s, initial)
    ensures Inv(Apply(s, e), initial) && |Apply(s, e).at| == |s.at|
  {
    hide Sleepers, Number;
    if e.t < |s.at| {
      var t := e.t;
      match e
      case Start(_) =>
        if s.at[t].Idle? {
          SleepersKept(s.sleepers, s.at, Asleep, t, Trying);
          MoveCounts(s.at, t, Trying);
        }
      case Try(_) =>
        if s.at[t].Trying? && s.count > 0 {
          SleepersKept(s.sleepers, s.at, Asleep, t, Idle);
          MoveCounts(s.at, t, Idle);
        } else if s.at[t].Trying? {
          SleepersAdd(s.sleepers, s.at, Asleep, t);
          MoveCounts(s.at, t, Asleep);
        }
      case Post(_) =>
        if s.sleepers != [] {
          FirstSleeper(s.sleepers, s.at, Asleep);
          SleepersPop(s.sleepers, s.at, Asleep, Trying);
          MoveCounts(s.at, s.sleepers[0], Trying);
        }
      case TryWait(_) =>
    }
  }

  lemma {:induction false} RunKeepsInv(n: nat, initial: nat, es: seq<Event>)
    ensures Inv(Exec(Init(n, initial), es), initial) && |Exec(Init(n, initial), es).at| == n
  {
    hide Inv, Apply;
    if es == [] {
      InitInv(n, initial);
    } else {
      RunKeepsInv(n, initial, es[..|es| - 1]);
      StepKeepsInv(Exec(Init(n, initial), es[..|es| - 1]), es[|es| - 1], initial);
    }
  }

  lemma InitInv(n: nat, initial: nat)
    ensures Inv(Init(n, initial), initial)
  {
  }

  /** On every run the count is the initial count plus posts less completed waits, and is not negative. */
  lemma {:induction false} CountBalances(n: nat, initial: nat, es: seq<Event>)
    ensures var s := Exec(Init(n, initial), es); s.count == initial + s.posts - s.waits >= 0
  {
    hide Apply, Exec, Sleepers, Number;
    RunKeepsInv(n, initial, es);
  }

  /** On every run, a thread asleep while the count is positive implies one about to try. */
  lemma {:induction false} NoLostWakeup(n: nat, initial: nat, es: seq<Event>)
    ensures var s := Exec(Init(n, initial), es);
            s.sleepers != [] && s.count > 0 ==> exists t :: 0 <= t < |s.at| && s.at[t].Trying?
  {
    hide Apply, Exec, Sleepers, Number;
    RunKeepsInv(n, initial, es);
    var s := Exec(Init(n, initial), es);
    if s.sleepers != [] && s.count > 0 {
      FindThread(s.at, Trying, Trying);
    }
  }
}
