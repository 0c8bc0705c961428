/** The ticket spinlock: every interleaving of its atomic operations, with 16-bit tickets that wrap. */
module TicketLock {

  const WRAP: nat := 0x1_0000

  /** Where a thread is.  `ticket` numbers are unbounded; the thread itself sees them modulo 2^16.
      `Loaded` is a trylock between its load and its compare-and-swap. */
  datatype Phase = Idle | Waiting(ticket: nat) | Holding(ticket: nat) | Loaded(served: nat) {
    predicate Contends() {
      Waiting? || Holding?
    }
  }

  /** The two 16-bit words of the lock, the unbounded counters behind them, the phase of each thread
      and the tickets in the order in which they entered. */
  datatype State = State(next: nat, serving: nat, issued: nat, served: nat, threads: seq<Phase>, entered: seq<nat>)

  datatype Event =
    | Take(t: nat)       // lock: fetch-and-add of next
    | Poll(t: nat)       // lock: one load of serving
    | Unlock(t: nat)
    | TryLoad(t: nat)    // trylock: load of serving
    | TrySwap(t: nat)    // trylock: compare-and-swap of next

  function Init(n: nat): State {
    State(0, 0, 0, 0, seq(n, _ => Idle), [])
  }

  /** One atomic operation; an event that its thread cannot make leaves the state alone. */
  function Apply(s: State, e: Event): State {
    if e.t >= |s.threads| then s
    else
      var ph := s.threads[e.t];
      match e
      case Take(t) =>
        if !ph.Idle? then s
        else s.(next := (s.next + 1) % WRAP, issued := s.issued + 1, threads := s.threads[t := Waiting(s.issued)])
      case Poll(t) =>
        if !ph.Waiting? || s.serving != ph.ticket % WRAP then s
        else s.(threads := s.threads[t := Holding(ph.ticket)], entered := s.entered + [ph.ticket])
      case Unlock(t) =>
        if !ph.Holding? then s
        else s.(serving := (s.serving + 1) % WRAP, served := s.served + 1, threads := s.threads[t := Idle])
      case TryLoad(t) =>
        if !ph.Idle? then s
        else s.(threads := s.threads[t := Loaded(s.served)])
      case TrySwap(t) =>
        if !ph.Loaded? then s
        else if s.next != ph.served % WRAP then s.(threads := s.threads[t := Idle])
        else s.(next := (s.next + 1) % WRAP, issued := s.issued + 1,
                threads := s.threads[t := Holding(s.issued)], entered := s.entered + [s.issued])
  }

  function Exec(s: State, es: seq<Event>): State {
    if es == [] then s else Apply(Exec(s, es[..|es| - 1]), es[|es| - 1])
  }

  // ---------------------------------------------------------------- the invariant

  function Contenders(threads: seq<Phase>): (n: nat)
    ensures n <= |threads|
  {
    if threads == [] then 0
    else Contenders(threads[..|threads| - 1]) + if threads[|threads| - 1].Contends() then 1 else 0
  }

  lemma {:induction false} ContendersUpdate(threads: seq<Phase>, t: nat, ph: Phase)
    requires t < |threads|
    ensures Contenders(threads[t := ph]) ==
            Contenders(threads) - (if threads[t].Contends() then 1 else 0) + (if ph.Contends() then 1 else 0)
  {
    var n := |threads| - 1;
    if t < n {
      assert threads[t := ph][..n] == threads[..n][t := ph];
      ContendersUpdate(threads[..n], t, ph);
    } else {
      assert threads[t := ph][..n] == threads[..n];
    }
  }

  function Count(n: nat): seq<nat> {
    seq(n, i requires 0 <= i < n => i)
  }

  ghost predicate SomeHolder(threads: seq<Phase>) {
    exists t :: 0 <= t < |threads| && threads[t].Holding?
  }

  /** Tickets in play are exactly those from the one served up to the last issued, each with one
      thread; only the ticket served may be inside; and tickets have entered in order. */
  ghost predicate Inv(s: State) {
    && s.next == s.issued % WRAP && s.serving == s.served % WRAP
    && s.issued == s.served + Contenders(s.threads)
    && (forall t | 0 <= t < |s.threads| && s.threads[t].Contends() :: s.served <= s.threads[t].ticket < s.issued)
    && (forall t, u | 0 <= t < u < |s.threads| && s.threads[t].Contends() && s.threads[u].Contends() ::
          s.threads[t].ticket != s.threads[u].ticket)
    && (forall t | 0 <= t < |s.threads| && s.threads[t].Holding? :: s.threads[t].ticket == s.served)
    && (forall t | 0 <= t < |s.threads| && s.threads[t].Loaded? :: s.threads[t].served <= s.served)
    && s.entered == Count(if SomeHolder(s.threads) then s.served + 1 else s.served)
  }

  /** The swap of a trylock is about to succeed although the lock's two words differ. */
  ghost predicate Stale(s: State, e: Event) {
    e.TrySwap? && e.t < |s.threads| && s.threads[e.t].Loaded? && s.next == s.threads[e.t].served % WRAP && s.next != s.serving
  }

  ghost predicate NeverStale(s: State, es: seq<Event>) {
    es == [] || (NeverStale(s, es[..|es| - 1]) && !Stale(Exec(s, es[..|es| - 1]), es[|es| - 1]))
  }

  /** Numbers less than 2^16 apart that agree modulo 2^16 are equal. */
  lemma SameModulo(a: nat, b: nat)
    requires a <= b < a + WRAP && a % WRAP == b % WRAP
    ensures a == b
  {
  }

  lemma NextModulo(a: nat)
    ensures (a % WRAP + 1) % WRAP == (a + 1) % WRAP
  {
  }

  /** The lock is free, nobody holding or waiting, exactly when its two words are equal. */
  lemma FreeIffWordsEqual(s: State)
    requires Inv(s) && |s.threads| < WRAP
    ensures Contenders(s.threads) == 0 <==> s.next == s.serving
    ensures s.next == s.serving ==> s.issued == s.served && !SomeHolder(s.threads)
  {
    hide SomeHolder, Count;
    if s.next == s.serving {
      SameModulo(s.served, s.issued);
      NoHolder(s.threads);
    }
  }

  lemma {:induction false} NoHolder(threads: seq<Phase>)
    requires Contenders(threads) == 0
    ensures !SomeHolder(threads)
  {
    forall t | 0 <= t < |threads|
      ensures !threads[t].Holding?
    {
      ContendersUpdate(threads, t, Idle);
    }
  }

  /** A swap that matches takes a free lock exactly when the two words are equal: that, and no count of
      tickets, is what keeps the lock sound. */
  lemma TrylockTakesFreeLock(s: State, t: nat)
    requires Inv(s) && |s.threads| < WRAP && t < |s.threads|
    requires s.threads[t].Loaded? && s.next == s.threads[t].served % WRAP
    ensures Contenders(s.threads) == 0 <==> s.next == s.serving
    ensures Inv(Apply(s, TrySwap(t))) <==> s.next == s.serving
  {
    hide Contenders, Count, SomeHolder;
    FreeIffWordsEqual(s);
    if s.next == s.serving {
      FreeSwapKeepsInv(s, t);
    } else {
      assert Apply(s, TrySwap(t)).threads[t] == Holding(s.issued);
    }
  }

  lemma FreeSwapKeepsInv(s: State, t: nat)
    requires Inv(s) && |s.threads| < WRAP && t < |s.threads|
    requires s.threads[t].Loaded? && s.next == s.threads[t].served % WRAP && s.next == s.serving
    ensures Inv(Apply(s, TrySwap(t)))
  {
    hide Contenders;
    FreeIffWordsEqual(s);
    ContendersUpdate(s.threads, t, Holding(s.issued));
    NextModulo(s.issued);
    assert s.threads[t := Holding(s.issued)][t].Holding?;
  }

  /** Fewer than 2^16 tickets issued since the one the trylock read as served are enough. */
  lemma TimelyIsNotStale(s: State, t: nat)
    requires Inv(s) && t < |s.threads| && s.threads[t].Loaded? && s.issued < s.threads[t].served + WRAP
    ensures !Stale(s, TrySwap(t))
  {
    if s.next == s.threads[t].served % WRAP {
      SameModulo(s.threads[t].served, s.issued);
    }
  }

  lemma TakeKeepsInv(s: State, t: nat)
    requires Inv(s) && t < |s.threads| && s.threads[t].Idle?
    ensures Inv(Apply(s, Take(t)))
  {
    hide Contenders;
    ContendersUpdate(s.threads, t, Waiting(s.issued));
    NextModulo(s.issued);
    SameHolders(s.threads, t, Waiting(s.issued));
  }

  lemma SameHolders(threads: seq<Phase>, t: nat, ph: Phase)
    requires t < |threads| && !threads[t].Holding? && !ph.Holding?
    ensures SomeHolder(threads[t := ph]) <==> SomeHolder(threads)
  {
    if SomeHolder(threads) {
      var u :| 0 <= u < |threads| && threads[u].Holding?;
      assert threads[t := ph][u].Holding?;
    }
    if SomeHolder(threads[t := ph]) {
      var u :| 0 <= u < |threads| && threads[t := ph][u].Holding?;
      assert threads[u].Holding?;
    }
  }

  lemma PollKeepsInv(s: State, t: nat)
    requires Inv(s) && |s.threads| < WRAP && t < |s.threads| && s.threads[t].Waiting?
    requires s.serving == s.threads[t].ticket % WRAP
    ensures Inv(Apply(s, Poll(t)))
  {
    hide Contenders;
    var ph := Holding(s.threads[t].ticket);
    ContendersUpdate(s.threads, t, ph);
    SameModulo(s.served, s.threads[t].ticket);
    assert s.threads[t := ph][t].Holding?;
  }

  lemma UnlockKeepsInv(s: State, t: nat)
    requires Inv(s) && t < |s.threads| && s.threads[t].Holding?
    ensures Inv(Apply(s, Unlock(t)))
  {
    hide Contenders;
    ContendersUpdate(s.threads, t, Idle);
    NextModulo(s.served);
    assert SomeHolder(s.threads);
    assert !SomeHolder(s.threads[t := Idle]);
  }

  lemma TrySwapKeepsInv(s: State, t: nat)
    requires Inv(s) && |s.threads| < WRAP && t < |s.threads| && s.threads[t].Loaded? && !Stale(s, TrySwap(t))
    ensures Inv(Apply(s, TrySwap(t)))
  {
    hide Contenders;
    if s.next == s.threads[t].served % WRAP {
      TrylockTakesFreeLock(s, t);
    } else {
      ContendersUpdate(s.threads, t, Idle);
      SameHolders(s.threads, t, Idle);
    }
  }

  lemma StepKeepsInv(s: State, e: Event)
    requires Inv(s) && |s.threads| < WRAP && !Stale(s, e)
    ensures Inv(Apply(s, e)) && |Apply(s, e).threads| == |s.threads|
  {
    hide Inv, Contenders, Stale;
    if e.t < |s.threads| {
      match e
      case Take(t) => if s.threads[t].Idle? { TakeKeepsInv(s, t); }
      case Poll(t) => if s.threads[t].Waiting? && s.serving == s.threads[t].ticket % WRAP { PollKeepsInv(s, t); }
      case Unlock(t) => if s.threads[t].Holding? { UnlockKeepsInv(s, t); }
      case TryLoad(t) => if s.threads[t].Idle? { TryLoadKeepsInv(s, t); }
      case TrySwap(t) => if s.threads[t].Loaded? { TrySwapKeepsInv(s, t); }
    }
  }

  lemma TryLoadKeepsInv(s: State, t: nat)
    requires Inv(s) && t < |s.threads| && s.threads[t].Idle?
    ensures Inv(Apply(s, TryLoad(t)))
  {
    hide Contenders;
    ContendersUpdate(s.threads, t, Loaded(s.served));
    SameHolders(s.threads, t, Loaded(s.served));
  }

  lemma {:induction false} NoContenders(n: nat)
    ensures Contenders(seq(n, _ => Idle)) == 0
  {
    if n > 0 {
      NoContenders(n - 1);
      assert seq(n, _ => Idle)[..n - 1] == seq(n - 1, _ => Idle);
    }
  }

  /** Every run of fewer than 2^16 threads without a stale swap keeps the invariant. */
  lemma {:induction false} RunKeepsInv(n: nat, es: seq<Event>)
    requires n < WRAP && NeverStale(Init(n), es)
    ensures Inv(Exec(Init(n), es)) && |Exec(Init(n), es).threads| == n
  {
    if es == [] {
      NoContenders(n);
    } else {
      hide Inv, Apply, Stale;
      RunKeepsInv(n, es[..|es| - 1]);
      StepKeepsInv(Exec(Init(n), es[..|es| - 1]), es[|es| - 1]);
    }
  }

  ghost predicate AlwaysInv(n: nat, es: seq<Event>) {
    (es == [] || AlwaysInv(n, es[..|es| - 1])) && Inv(Exec(Init(n), es))
  }

  /** Exactly: the invariant holds throughout a run if and only if no swap of it is stale. */
  lemma {:induction false} RunSoundIff(n: nat, es: seq<Event>)
    requires n < WRAP
    ensures AlwaysInv(n, es) <==> NeverStale(Init(n), es)
  {
    hide Inv, Apply;
    if es == [] {
      RunKeepsInv(n, es);
    } else {
      var front, e := es[..|es| - 1], es[|es| - 1];
      RunSoundIff(n, front);
      if NeverStale(Init(n), front) {
        RunKeepsInv(n, front);
        var s := Exec(Init(n), front);
        if Stale(s, e) {
          TrylockTakesFreeLock(s, e.t);
        } else {
          StepKeepsInv(s, e);
        }
      }
    }
  }

  // ---------------------------------------------------------------- what the lock promises

  ghost predicate Inside(s: State, t: nat) {
    t < |s.threads| && s.threads[t].Holding?
  }

  /** At most one thread is inside, at every point of every run. */
  lemma {:induction false} MutualExclusion(n: nat, es: seq<Event>, t: nat, u: nat)
    requires n < WRAP && NeverStale(Init(n), es)
    requires Inside(Exec(Init(n), es), t) && Inside(Exec(Init(n), es), u)
    ensures t == u
  {
    RunKeepsInv(n, es);
  }

  /** Tickets enter in the order in which they were issued, across any number of wraps. */
  lemma {:induction false} FirstComeFirstServed(n: nat, es: seq<Event>, i: nat)
    requires n < WRAP && NeverStale(Init(n), es) && i < |Exec(Init(n), es).entered|
    ensures Exec(Init(n), es).entered[i] == i
  {
    RunKeepsInv(n, es);
  }

  /** While anybody contends, somebody is inside or can enter at the next poll. */
  lemma SomebodyCanGo(s: State)
    requires Inv(s) && |s.threads| < WRAP && Contenders(s.threads) > 0
    ensures exists t :: 0 <= t < |s.threads| && s.threads[t].Contends() && s.threads[t].ticket == s.served
  {
    if forall t | 0 <= t < |s.threads| && s.threads[t].Contends() :: s.threads[t].ticket != s.served {
      FewerTickets(s.threads, s.served + 1, s.issued);
    }
  }

  /** Distinct tickets in an interval are no more than its numbers. */
  lemma {:induction false} FewerTickets(threads: seq<Phase>, lo: nat, hi: nat)
    requires lo <= hi
    requires forall t | 0 <= t < |threads| && threads[t].Contends() :: lo <= threads[t].ticket < hi
    requires forall t, u | 0 <= t < u < |threads| && threads[t].Contends() && threads[u].Contends() ::
               threads[t].ticket != threads[u].ticket
    ensures Contenders(threads) <= hi - lo
    decreases hi - lo
  {
    if lo == hi {
      NobodyContends(threads);
    } else if t :| 0 <= t < |threads| && threads[t].Contends() && threads[t].ticket == hi - 1 {
      ContendersUpdate(threads, t, Idle);
      FewerTickets(threads[t := Idle], lo, hi - 1);
    } else {
      FewerTickets(threads, lo, hi - 1);
    }
  }

  lemma {:induction false} NobodyContends(threads: seq<Phase>)
    requires forall t | 0 <= t < |threads| :: !threads[t].Contends()
    ensures Contenders(threads) == 0
  {
    if threads != [] {
      NobodyContends(threads[..|threads| - 1]);
    }
  }

  /** A stale swap lets two threads in, at the latest when the thread being served polls. */
  lemma StaleSwapLetsTwoIn(s: State, t: nat) returns (u: nat)
    requires Inv(s) && |s.threads| < WRAP && Stale(s, TrySwap(t))
    ensures u != t && Inside(Apply(Apply(s, TrySwap(t)), Poll(u)), t) && Inside(Apply(Apply(s, TrySwap(t)), Poll(u)), u)
  {
    hide Contenders, Count;
    FreeIffWordsEqual(s);
    SomebodyCanGo(s);
    u :| 0 <= u < |s.threads| && s.threads[u].Contends() && s.threads[u].ticket == s.served;
  }

  // ---------------------------------------------------------------- stale trylocks

  /** Thread 1 locks and unlocks k times. */
  function Cycles(k: nat): seq<Event> {
    if k == 0 then [TryLoad(0)] else Cycles(k - 1) + [Take(1), Poll(1), Unlock(1)]
  }

  /** Thread 0 has loaded 0, thread 1 is in phase ph, and so many tickets are issued and served. */
  ghost predicate Loop(s: State, ph: Phase, issued: nat, served: nat) {
    && s.threads == [Loaded(0), ph] && s.issued == issued && s.served == served
    && s.next == issued % WRAP && s.serving == served % WRAP
  }

  lemma TakeStep(s: State, k: nat)
    requires Loop(s, Idle, k, k)
    ensures Loop(Apply(Apply(s, Take(1)), Poll(1)), Holding(k), k + 1, k)
  {
    NextModulo(k);
    assert [Loaded(0), Idle][1 := Waiting(k)] == [Loaded(0), Waiting(k)];
    assert [Loaded(0), Waiting(k)][1 := Holding(k)] == [Loaded(0), Holding(k)];
  }

  lemma UnlockStep(s: State, k: nat)
    requires Loop(s, Holding(k), k + 1, k)
    ensures Loop(Apply(s, Unlock(1)), Idle, k + 1, k + 1)
  {
    NextModulo(k);
    assert [Loaded(0), Holding(k)][1 := Idle] == [Loaded(0), Idle];
  }

  lemma {:induction false} AfterCycles(k: nat)
    ensures Loop(Exec(Init(2), Cycles(k)), Idle, k, k)
  {
    if k == 0 {
      assert Cycles(0)[..0] == [];
      assert Init(2).threads[0 := Loaded(0)] == [Loaded(0), Idle];
    } else {
      hide Apply, Exec, Loop;
      AfterCycles(k - 1);
      var s := Exec(Init(2), Cycles(k - 1));
      ExecThree(Init(2), Cycles(k - 1), Take(1), Poll(1), Unlock(1));
      TakeStep(s, k - 1);
      UnlockStep(Apply(Apply(s, Take(1)), Poll(1)), k - 1);
    }
  }

  lemma ExecOne(s: State, es: seq<Event>, a: Event)
    ensures Exec(s, es + [a]) == Apply(Exec(s, es), a)
  {
    hide Apply;
    assert (es + [a])[..|es|] == es;
  }

  lemma ExecThree(s: State, es: seq<Event>, a: Event, b: Event, c: Event)
    ensures Exec(s, es + [a, b, c]) == Apply(Apply(Apply(Exec(s, es), a), b), c)
  {
    hide Apply, Exec;
    ExecOne(s, es, a);
    ExecOne(s, es + [a], b);
    ExecOne(s, es + [a] + [b], c);
    assert es + [a] + [b] + [c] == es + [a, b, c];
  }

  /** With exactly 2^16 tickets issued between its load and its swap, a trylock enters a lock that
      another thread holds. */
  lemma WrappedTrylockBreaksExclusion()
    ensures exists es: seq<Event> :: Exec(Init(2), es).threads == [Holding(WRAP), Holding(WRAP - 1)]
  {
    AfterCycles(WRAP - 1);
    var es := Cycles(WRAP - 1);
    ExecThree(Init(2), es, Take(1), Poll(1), TrySwap(0));
    TakeStep(Exec(Init(2), es), WRAP - 1);
    assert [Loaded(0), Holding(WRAP - 1)][0 := Holding(WRAP)] == [Holding(WRAP), Holding(WRAP - 1)];
    assert Exec(Init(2), es + [Take(1), Poll(1), TrySwap(0)]).threads == [Holding(WRAP), Holding(WRAP - 1)];
  }

  /** With as many tickets issued but the lock free again, the same trylock is harmless: the number of
      tickets does not decide. */
  lemma WrappedTrylockMayBeHarmless()
    ensures var s := Exec(Init(2), Cycles(WRAP));
            && s.threads == [Loaded(0), Idle] && s.next == 0 && !Stale(s, TrySwap(0)) && s.issued == WRAP
  {
    AfterCycles(WRAP);
  }

  /** Thread 1 holds the lock while thread 0 loads, and then passes it on to itself k times. */
  function Relays(k: nat): seq<Event> {
    if k == 0 then [Take(1), Poll(1), TryLoad(0)] else Relays(k - 1) + [Unlock(1), Take(1), Poll(1)]
  }

  lemma {:induction false} AfterRelays(k: nat)
    ensures Loop(Exec(Init(2), Relays(k)), Holding(k), k + 1, k)
  {
    if k == 0 {
      FirstRelay();
    } else {
      hide Apply, Exec, Loop;
      AfterRelays(k - 1);
      var s := Exec(Init(2), Relays(k - 1));
      ExecThree(Init(2), Relays(k - 1), Unlock(1), Take(1), Poll(1));
      UnlockStep(s, k - 1);
      TakeStep(Apply(s, Unlock(1)), k);
    }
  }

  lemma FirstRelay()
    ensures Loop(Exec(Init(2), Relays(0)), Holding(0), 1, 0)
  {
    assert [] + [Take(1), Poll(1), TryLoad(0)] == Relays(0);
    ExecThree(Init(2), [], Take(1), Poll(1), TryLoad(0));
    assert Init(2).threads[1 := Waiting(0)][1 := Holding(0)][0 := Loaded(0)] == [Loaded(0), Holding(0)];
  }

  /** Counting from the load is not enough: 2^16 - 1 tickets after it, a trylock that loaded while the
      lock was held enters the held lock. */
  lemma FewerTicketsSinceLoadBreakExclusion()
    ensures Relays(0)[2] == TryLoad(0)
    ensures var loaded, now := Exec(Init(2), Relays(0)), Exec(Init(2), Relays(WRAP - 1));
            && now.issued - loaded.issued == WRAP - 1
            && Apply(now, TrySwap(0)).threads == [Holding(WRAP), Holding(WRAP - 1)]
  {
    AfterRelays(0);
    AfterRelays(WRAP - 1);
  }
}
