/** Threads on a wait list: the list holds exactly the threads that sleep there, each once. */
module WaitList {
  import opened Basics

  /** How many threads are in phase a. */
  ghost function Number<A>(at: seq<A>, a: A): nat {
    multiset(at)[a]
  }

  /** `q` lists the threads in phase a, each once. */
  ghost predicate Sleepers<A>(q: seq<nat>, at: seq<A>, a: A) {
    && (forall i | 0 <= i < |q| :: q[i] < |at| && at[q[i]] == a)
    && (forall i, j | 0 <= i < j < |q| :: q[i] != q[j])
    && (forall t | 0 <= t < |at| && at[t] == a :: t in q)
  }

  /** Moving a thread between two phases neither of which sleeps leaves the wait list right. */
  lemma SleepersKept<A>(q: seq<nat>, at: seq<A>, a: A, t: nat, to: A)
    requires Sleepers(q, at, a) && t < |at| && at[t] != a && to != a
    ensures Sleepers(q, at[t := to], a)
  {
  }

  lemma SleepersAdd<A>(q: seq<nat>, at: seq<A>, a: A, t: nat)
    requires Sleepers(q, at, a) && t < |at| && at[t] != a
    ensures Sleepers(q + [t], at[t := a], a)
  {
  }

  lemma FirstSleeper<A>(q: seq<nat>, at: seq<A>, a: A)
    requires Sleepers(q, at, a) && q != []
    ensures q[0] < |at| && at[q[0]] == a
  {
  }

  /** Waking the first sleeper takes it, and only it, off the list. */
  lemma SleepersPop<A>(q: seq<nat>, at: seq<A>, a: A, to: A)
    requires Sleepers(q, at, a) && q != [] && to != a
    ensures Sleepers(q[1..], at[q[0] := to], a)
  {
    forall t | 0 <= t < |at| && at[q[0] := to][t] == a
      ensures t in q[1..]
    {
      var i :| 0 <= i < |q| && q[i] == t;
      assert q[1..][i - 1] == t;
    }
  }

  /** Putting a thread at any place of the list. */
  lemma SleepersInsert<A>(q: seq<nat>, at: seq<A>, a: A, t: nat, i: nat)
    requires Sleepers(q, at, a) && t < |at| && at[t] != a && i <= |q|
    ensures Sleepers(q[..i] + [t] + q[i..], at[t := a], a)
  {
    var r := q[..i] + [t] + q[i..];
    assert r[i] == t;
    forall u | 0 <= u < |at| && at[t := a][u] == a
      ensures u in r
    {
      if u != t {
        var j :| 0 <= j < |q| && q[j] == u;
        assert r[if j < i then j else j + 1] == u;
      }
    }
  }

  /** Taking a thread from any place of the list. */
  lemma SleepersCut<A>(q: seq<nat>, at: seq<A>, a: A, i: nat, to: A)
    requires Sleepers(q, at, a) && i < |q| && to != a
    ensures Sleepers(Without(q, i), at[q[i] := to], a)
  {
    var r := Without(q, i);
    forall u | 0 <= u < |at| && at[q[i] := to][u] == a
      ensures u in r
    {
      var j :| 0 <= j < |q| && q[j] == u;
      assert r[if j < i then j else j - 1] == u;
    }
  }

  lemma MoveCounts<A(!new)>(at: seq<A>, t: nat, to: A)
    requires t < |at|
    ensures Number(at, at[t]) > 0
    ensures forall x: A :: Number(at[t := to], x) ==
              Number(at, x) - (if x == at[t] then 1 else 0) + (if x == to then 1 else 0)
  {
    assert at[t] in multiset(at);
    assert multiset(at[t := to]) == multiset(at) - multiset{at[t]} + multiset{to};
  }

  lemma FindThread<A>(at: seq<A>, a: A, b: A)
    requires Number(at, a) + Number(at, b) > 0
    ensures exists t :: 0 <= t < |at| && (at[t] == a || at[t] == b)
  {
    assert a in multiset(at) || b in multiset(at);
    assert a in at || b in at;
  }
}
