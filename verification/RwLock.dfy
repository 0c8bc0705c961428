/** The reader/writer lock that prefers writers. */
module RwLock {
  import opened WaitList

  /** `Announced` is a writer counted as waiting. */
  datatype At = Idle | WantsRead | Reading | Announced | Writing

  datatype State = State(readers: int, writer: int, waiting: int, at: seq<At>)

  datatype Event =
    | StartRead(t: nat) | TryRead(t: nat) | EndRead(t: nat)
    | StartWrite(t: nat) | TryWrite(t: nat) | EndWrite(t: nat)

  function Init(n: nat): State {
    State(0, 0, 0, seq(n, _ => Idle))
  }

  /** One section under the inner lock. */
  function Apply(s: State, e: Event): State {
    if e.t >= |s.at| then s
    else
      var a := s.at[e.t];
      match e
      case StartRead(t) => if a.Idle? then s.(at := s.at[t := WantsRead]) else s
      case TryRead(t) =>
        if a.WantsRead? && s.writer == 0 && s.waiting == 0 then s.(readers := s.readers + 1, at := s.at[t := Reading])
        else s
      case EndRead(t) => if a.Reading? then s.(readers := s.readers - 1, at := s.at[t := Idle]) else s
      case StartWrite(t) => if a.Idle? then s.(waiting := s.waiting + 1, at := s.at[t := Announced]) else s
      case TryWrite(t) =>
        if a.Announced? && s.readers == 0 && s.writer == 0 then
          s.(writer := 1, waiting := s.waiting - 1, at := s.at[t := Writing])
        else s
      case EndWrite(t) => if a.Writing? then s.(writer := 0, at := s.at[t := Idle]) else s
  }

  function Exec(s: State, es: seq<Event>): State {
    if es == [] then s else Apply(Exec(s, es[..|es| - 1]), es[|es| - 1])
  }

  /** The three fields count the threads they speak of, and a writer is alone. */
  ghost predicate Inv(s: State) {
    && s.readers == Number(s.at, Reading) && s.waiting == Number(s.at, Announced)
    && s.writer == Number(s.at, Writing) && s.writer <= 1
    && (s.writer == 1 ==> s.readers == 0)
  }

  lemma StepKeepsInv(s: State, e: Event)
    requires Inv(s)
    ensures Inv(Apply(s, e))
  {
    hide Number;
    if e.t < |s.at| {
      var to := Apply(s, e).at[e.t];
      MoveCounts(s.at, e.t, to);
      assert Apply(s, e).at == s.at[e.t := to];
    }
  }

  lemma {:induction false} RunKeepsInv(n: nat, es: seq<Event>)
    ensures Inv(Exec(Init(n), es))
  {
    hide Apply;
    if es != [] {
      hide Number, Inv;
      RunKeepsInv(n, es[..|es| - 1]);
      StepKeepsInv(Exec(Init(n), es[..|es| - 1]), es[|es| - 1]);
    }
  }

  lemma {:induction false} Pair<A(!new)>(at: seq<A>, t: nat, u: nat)
    requires t < |at| && u < |at| && t != u && at[t] == at[u]
    ensures Number(at, at[t]) >= 2
  {
    var lo, hi := if t < u then t else u, if t < u then u else t;
    assert at == at[..lo + 1] + at[lo + 1..];
    assert at[lo] in multiset(at[..lo + 1]) && at[lo + 1..][hi - lo - 1] in multiset(at[lo + 1..]);
  }

  lemma Counted<A>(at: seq<A>, t: nat)
    requires t < |at|
    ensures Number(at, at[t]) >= 1
  {
    assert at[t] in multiset(at);
  }

  /** On every run a writer excludes everybody else. */
  lemma {:induction false} WriterIsAlone(n: nat, es: seq<Event>, t: nat, u: nat)
    requires var s := Exec(Init(n), es);
             t < |s.at| && u < |s.at| && s.at[t].Writing? && (s.at[u].Writing? || s.at[u].Reading?)
    ensures t == u
  {
    hide Exec, Number, Apply;
    RunKeepsInv(n, es);
    var s := Exec(Init(n), es);
    Counted(s.at, t);
    Counted(s.at, u);
    if t != u && s.at[u].Writing? {
      Pair(s.at, t, u);
    }
  }

  // ---------------------------------------------------------------- writers first

  /** A writer waits whenever a step of the run is taken. */
  ghost predicate WriterWaits(s: State, es: seq<Event>) {
    es == [] || (WriterWaits(s, es[..|es| - 1]) && Exec(s, es[..|es| - 1]).waiting > 0)
  }

  /** While a writer waits no reader enters: whoever reads at the end read at the start. */
  lemma {:induction false} NoReaderEnters(s: State, es: seq<Event>, t: nat)
    requires WriterWaits(s, es)
    requires t < |Exec(s, es).at| && Exec(s, es).at[t].Reading?
    ensures t < |s.at| && s.at[t].Reading?
  {
    if es != [] {
      NoReaderEnters(s, es[..|es| - 1], t);
    }
  }

  ghost function Load(s: State): int {
    s.readers + s.writer
  }

  /** A waiting writer is let in exactly when nobody holds the lock; until then no step adds a holder,
      and every release brings that moment one step closer. */
  lemma LoadDrains(s: State, e: Event)
    requires Inv(s) && s.waiting > 0 && e.t < |s.at|
    ensures Load(s) >= 0
    ensures e.TryWrite? && s.at[e.t].Announced? ==>
              (Apply(s, e).at[e.t].Writing? <==> Load(s) == 0)
    ensures Load(s) > 0 ==> Load(Apply(s, e)) <= Load(s)
    ensures (e.EndRead? && s.at[e.t].Reading?) || (e.EndWrite? && s.at[e.t].Writing?) ==> Load(Apply(s, e)) == Load(s) - 1
    ensures Load(s) > 0 ==> exists t :: 0 <= t < |s.at| && (s.at[t].Reading? || s.at[t].Writing?)
  {
    hide Number;
    Counted(s.at, e.t);
    if Load(s) > 0 {
      FindThread(s.at, Reading, Writing);
    }
  }
}
