/** The IPC message queue: a circular buffer of sixteen messages, and the protocol by which senders
    and receivers sleep and wake each other. */
module MsgQueue {
  import opened WaitList

  const CAPACITY: nat := 16
  const MSG_SIZE: nat := 64

  datatype Message = Message(data: seq<int>, sender: nat)

  // ---------------------------------------------------------------- the circular buffer

  function Slot(head: nat, i: nat): nat {
    (head + i) % CAPACITY
  }

  lemma SlotsDiffer(head: nat, i: nat, j: nat)
    requires i < j < i + CAPACITY
    ensures Slot(head, i) != Slot(head, j)
  {
  }

  lemma SlotShift(head: nat, i: nat)
    ensures Slot((head + 1) % CAPACITY, i) == Slot(head, i + 1)
  {
  }

  lemma TailIsSlot(head: nat, tail: nat, count: nat)
    requires tail == (head + count) % CAPACITY
    ensures tail == Slot(head, count) && tail < CAPACITY
    ensures forall i: nat :: Slot(head, i) < CAPACITY
  {
  }

  lemma TailMoves(head: nat, tail: nat, count: nat)
    requires tail == (head + count) % CAPACITY
    ensures (tail + 1) % CAPACITY == (head + (count + 1)) % CAPACITY
  {
  }

  class MessageBuffer {
    const buf: array<Message>
    var head: nat
    var tail: nat
    var count: nat

    ghost predicate Valid()
      reads this
    {
      buf.Length == CAPACITY && head < CAPACITY && count <= CAPACITY && tail == (head + count) % CAPACITY
    }

    /** The messages held, oldest first. */
    ghost function Contents(): seq<Message>
      reads this, buf
      requires Valid()
    {
      seq(count, i requires 0 <= i < count reads this, buf requires Valid() => buf[Slot(head, i)])
    }

    constructor ()
      ensures Valid() && Contents() == [] && fresh(buf)
    {
      buf := new Message[CAPACITY](_ => Message([], 0));
      head, tail, count := 0, 0, 0;
    }

    /** Append a message; data beyond the slot size is cut off. */
    method Enqueue(data: seq<int>, sender: nat)
      requires Valid() && count < CAPACITY
      modifies this, buf
      ensures Valid()
      ensures Contents() == old(Contents()) + [Message(if |data| > MSG_SIZE then data[..MSG_SIZE] else data, sender)]
    {
      hide Slot;
      ghost var was := Contents();
      TailIsSlot(head, tail, count);
      var copied := if |data| > MSG_SIZE then data[..MSG_SIZE] else data;
      forall i | 0 <= i < count
        ensures Slot(head, i) != tail
      {
        SlotsDiffer(head, i, count);
      }
      buf[tail] := Message(copied, sender);
      tail := (tail + 1) % CAPACITY;
      count := count + 1;
      TailMoves(head, old(tail), old(count));
      assert Contents() == was + [Message(copied, sender)];
    }

    /** Remove the oldest message. */
    method Dequeue() returns (m: Message)
      requires Valid() && count > 0
      modifies this
      ensures Valid()
      ensures m == old(Contents())[0] && Contents() == old(Contents())[1..]
    {
      ghost var was := Contents();
      m := buf[head];
      assert m == was[0] by {
        assert Slot(head, 0) == head;
      }
      head := (head + 1) % CAPACITY;
      count := count - 1;
      forall i | 0 <= i < count
        ensures Slot(head, i) == Slot(old(head), i + 1)
      {
        SlotShift(old(head), i);
      }
      assert Contents() == was[1..];
    }
  }

  // ---------------------------------------------------------------- the blocking protocol

  /** Where a thread is.  `Sending` and `Receiving` are about to try, for the first time or after
      being woken; `WakesReceiver` and `WakesSender` have moved a message and still owe a wake-up. */
  datatype At = Idle | Sending | SendAsleep | Receiving | RecvAsleep | WakesReceiver | WakesSender

  /** The queue, the sleepers of both kinds in order, what each thread is doing and carrying,
      everything sent and received so far, and which thread put each message. */
  datatype State = State(queue: seq<Message>, senders: seq<nat>, receivers: seq<nat>,
                         at: seq<At>, carry: seq<Message>, sent: seq<Message>, received: seq<Message>,
                         putters: seq<nat>)

  datatype Event =
    | StartSend(t: nat, data: seq<int>) | StartRecv(t: nat)
    | TrySend(t: nat)                        // one pass of the send loop, under the queue lock
    | TryRecv(t: nat)                        // one pass of the receive loop
    | Wake(t: nat)                           // the wake-up owed after a message moved
    | SendNow(t: nat, data: seq<int>)        // non-blocking send
    | RecvNow(t: nat)                        // non-blocking receive

  function Init(n: nat): State {
    State([], [], [], seq(n, _ => Idle), seq(n, _ => Message([], 0)), [], [], [])
  }

  function Put(s: State, t: nat, m: Message): State
    requires t < |s.at|
  {
    s.(queue := s.queue + [m], sent := s.sent + [m], putters := s.putters + [t], at := s.at[t := WakesReceiver])
  }

  function Take(s: State, t: nat): State
    requires t < |s.at| && s.queue != []
  {
    s.(queue := s.queue[1..], received := s.received + [s.queue[0]], at := s.at[t := WakesSender])
  }

  function WakeFirst(s: State, t: nat): State
    requires t < |s.at|
  {
    var now := s.(at := s.at[t := Idle]);
    if s.at[t].WakesReceiver? then
      if s.receivers == [] || s.receivers[0] >= |s.at| then now
      else now.(receivers := s.receivers[1..], at := now.at[s.receivers[0] := Receiving])
    else
      if s.senders == [] || s.senders[0] >= |s.at| then now
      else now.(senders := s.senders[1..], at := now.at[s.senders[0] := Sending])
  }

  /** One locked section of one thread; an event its thread cannot make leaves the state alone. */
  function Apply(s: State, e: Event): State {
    if e.t >= |s.at| || e.t >= |s.carry| then s
    else
      var a := s.at[e.t];
      match e
      case StartSend(t, data) =>
        if !a.Idle? || |data| > MSG_SIZE then s
        else s.(at := s.at[t := Sending], carry := s.carry[t := Message(data, t)])
      case StartRecv(t) => if !a.Idle? then s else s.(at := s.at[t := Receiving])
      case TrySend(t) =>
        if !a.Sending? then s
        else if |s.queue| < CAPACITY then Put(s, t, s.carry[t])
        else s.(at := s.at[t := SendAsleep], senders := s.senders + [t])
      case TryRecv(t) =>
        if !a.Receiving? then s
        else if s.queue != [] then Take(s, t)
        else s.(at := s.at[t := RecvAsleep], receivers := s.receivers + [t])
      case Wake(t) => if !a.WakesReceiver? && !a.WakesSender? then s else WakeFirst(s, t)
      case SendNow(t, data) =>
        if !a.Idle? || |data| > MSG_SIZE || |s.queue| >= CAPACITY then s else Put(s, t, Message(data, t))
      case RecvNow(t) =>
        if !a.Idle? || s.queue == [] then s else Take(s, t)
  }

  function Exec(s: State, es: seq<Event>): State {
    if es == [] then s else Apply(Exec(s, es[..|es| - 1]), es[|es| - 1])
  }

  /** Nothing is lost, reordered or duplicated; the sleepers are the threads on the wait lists; and
      no wake-up is lost: while a receiver sleeps, every message in the queue is matched by a wake-up
      still owed or a receiver about to try, and dually for senders and free slots. */
  ghost predicate Inv(s: State) {
    && |s.carry| == |s.at|
    && s.received + s.queue == s.sent && |s.queue| <= CAPACITY
    && |s.putters| == |s.sent| && (forall k | 0 <= k < |s.sent| :: s.sent[k].sender == s.putters[k])
    && (forall t | 0 <= t < |s.at| :: s.carry[t].sender == t || s.at[t] !in {Sending, SendAsleep})
    && Sleepers(s.receivers, s.at, RecvAsleep) && Sleepers(s.senders, s.at, SendAsleep)
    && (s.receivers != [] ==> |s.queue| <= Number(s.at, WakesReceiver) + Number(s.at, Receiving))
    && (s.senders != [] ==> CAPACITY - |s.queue| <= Number(s.at, WakesSender) + Number(s.at, Sending))
  }

  lemma CarriesOwn(s: State, t: nat)
    requires Inv(s) && t < |s.at| && s.at[t].Sending?
    ensures t < |s.carry| && s.carry[t].sender == t
  {
  }

  lemma PutKeepsInv(s: State, t: nat, m: Message)
    requires Inv(s) && t < |s.at| && |s.queue| < CAPACITY && s.at[t] in {Idle, Sending} && m.sender == t
    ensures Inv(Put(s, t, m))
  {
    hide Sleepers, Number;
    MoveCounts(s.at, t, WakesReceiver);
    SleepersKept(s.receivers, s.at, RecvAsleep, t, WakesReceiver);
    SleepersKept(s.senders, s.at, SendAsleep, t, WakesReceiver);
    assert s.received + (s.queue + [m]) == s.sent + [m];
  }

  lemma TakeKeepsInv(s: State, t: nat)
    requires Inv(s) && t < |s.at| && s.queue != [] && s.at[t] in {Idle, Receiving}
    ensures Inv(Take(s, t))
  {
    hide Sleepers, Number;
    MoveCounts(s.at, t, WakesSender);
    SleepersKept(s.receivers, s.at, RecvAsleep, t, WakesSender);
    SleepersKept(s.senders, s.at, SendAsleep, t, WakesSender);
    assert (s.received + [s.queue[0]]) + s.queue[1..] == s.sent;
  }

  lemma SendSleepKeepsInv(s: State, t: nat)
    requires Inv(s) && t < |s.at| && s.at[t].Sending? && |s.queue| >= CAPACITY
    ensures Inv(s.(at := s.at[t := SendAsleep], senders := s.senders + [t]))
  {
    hide Sleepers, Number;
    MoveCounts(s.at, t, SendAsleep);
    SleepersKept(s.receivers, s.at, RecvAsleep, t, SendAsleep);
    SleepersAdd(s.senders, s.at, SendAsleep, t);
  }

  lemma RecvSleepKeepsInv(s: State, t: nat)
    requires Inv(s) && t < |s.at| && s.at[t].Receiving? && s.queue == []
    ensures Inv(s.(at := s.at[t := RecvAsleep], receivers := s.receivers + [t]))
  {
    hide Sleepers, Number;
    MoveCounts(s.at, t, RecvAsleep);
    SleepersKept(s.senders, s.at, SendAsleep, t, RecvAsleep);
    SleepersAdd(s.receivers, s.at, RecvAsleep, t);
  }

  lemma WakeReceiverKeepsInv(s: State, t: nat)
    requires Inv(s) && t < |s.at| && s.at[t].WakesReceiver?
    ensures Inv(WakeFirst(s, t))
  {
    hide Sleepers, Number;
    var mid := s.at[t := Idle];
    MoveCounts(s.at, t, Idle);
    SleepersKept(s.receivers, s.at, RecvAsleep, t, Idle);
    SleepersKept(s.senders, s.at, SendAsleep, t, Idle);
    if s.receivers != [] {
      FirstSleeper(s.receivers, mid, RecvAsleep);
      var u := s.receivers[0];
      MoveCounts(mid, u, Receiving);
      SleepersPop(s.receivers, mid, RecvAsleep, Receiving);
      SleepersKept(s.senders, mid, SendAsleep, u, Receiving);
    }
  }

  lemma WakeSenderKeepsInv(s: State, t: nat)
    requires Inv(s) && t < |s.at| && s.at[t].WakesSender?
    ensures Inv(WakeFirst(s, t))
  {
    hide Sleepers, Number;
    var mid := s.at[t := Idle];
    MoveCounts(s.at, t, Idle);
    SleepersKept(s.receivers, s.at, RecvAsleep, t, Idle);
    SleepersKept(s.senders, s.at, SendAsleep, t, Idle);
    if s.senders != [] {
      FirstSleeper(s.senders, mid, SendAsleep);
      var u := s.senders[0];
      MoveCounts(mid, u, Sending);
      SleepersPop(s.senders, mid, SendAsleep, Sending);
      SleepersKept(s.receivers, mid, RecvAsleep, u, Sending);
    }
  }

  lemma StartSendKeepsInv(s: State, t: nat, m: Message)
    requires Inv(s) && t < |s.at| && s.at[t].Idle? && m.sender == t
    ensures Inv(s.(at := s.at[t := Sending], carry := s.carry[t := m]))
  {
    hide Sleepers, Number;
    MoveCounts(s.at, t, Sending);
    SleepersKept(s.receivers, s.at, RecvAsleep, t, Sending);
    SleepersKept(s.senders, s.at, SendAsleep, t, Sending);
  }

  lemma StartRecvKeepsInv(s: State, t: nat)
    requires Inv(s) && t < |s.at| && s.at[t].Idle?
    ensures Inv(s.(at := s.at[t := Receiving]))
  {
    hide Sleepers, Number;
    MoveCounts(s.at, t, Receiving);
    SleepersKept(s.receivers, s.at, RecvAsleep, t, Receiving);
    SleepersKept(s.senders, s.at, SendAsleep, t, Receiving);
  }

  lemma StepKeepsInv(s: State, e: Event)
    requires Inv(s)
    ensures Inv(Apply(s, e)) && |Apply(s, e).at| == |s.at|
  {
    hide Inv;
    if e.t < |s.at| && e.t < |s.carry| {
      var a := s.at[e.t];
      match e
      case StartSend(t, data) => if a.Idle? { StartSendKeepsInv(s, t, Message(data, t)); }
      case StartRecv(t) => if a.Idle? { StartRecvKeepsInv(s, t); }
      case TrySend(t) =>
        if a.Sending? && |s.queue| < CAPACITY { CarriesOwn(s, t); PutKeepsInv(s, t, s.carry[t]); }
        else if a.Sending? { SendSleepKeepsInv(s, t); }
      case TryRecv(t) =>
        if a.Receiving? && s.queue != [] { TakeKeepsInv(s, t); }
        else if a.Receiving? { RecvSleepKeepsInv(s, t); }
      case Wake(t) =>
        if a.WakesReceiver? { WakeReceiverKeepsInv(s, t); }
        else if a.WakesSender? { WakeSenderKeepsInv(s, t); }
      case SendNow(t, data) => if a.Idle? && |s.queue| < CAPACITY { PutKeepsInv(s, t, Message(data, t)); }
      case RecvNow(t) => if a.Idle? && s.queue != [] { TakeKeepsInv(s, t); }
    }
  }

  /** Every run of any number of threads keeps the invariant. */
  lemma {:induction false} RunKeepsInv(n: nat, es: seq<Event>)
    ensures Inv(Exec(Init(n), es)) && |Exec(Init(n), es).at| == n
  {
    if es != [] {
      RunKeepsInv(n, es[..|es| - 1]);
      StepKeepsInv(Exec(Init(n), es[..|es| - 1]), es[|es| - 1]);
    }
  }

  /** What has been received, followed by what the queue holds, is what was sent, in order; every message
      carries the id of the thread that put it; and the queue never holds more than sixteen messages. */
  lemma {:induction false} FifoOnEveryRun(n: nat, es: seq<Event>)
    ensures var s := Exec(Init(n), es);
            && s.received + s.queue == s.sent && |s.queue| <= CAPACITY
            && |s.putters| == |s.sent| && forall k | 0 <= k < |s.sent| :: s.sent[k].sender == s.putters[k]
  {
    hide Sleepers, Number, Exec, Apply;
    RunKeepsInv(n, es);
  }

  /** Some thread that is awake will look at the queue, or wake one that will. */
  ghost predicate SomeoneActs(s: State, owes: At, tries: At) {
    exists t :: 0 <= t < |s.at| && (s.at[t] == owes || s.at[t] == tries)
  }

  /** On every run: a receiver asleep beside a message, or a sender asleep beside a free slot, is
      never left to sleep with nobody to wake it. */
  lemma {:induction false} NoLostWakeup(n: nat, es: seq<Event>)
    ensures var s := Exec(Init(n), es);
            && (s.receivers != [] && s.queue != [] ==> SomeoneActs(s, WakesReceiver, Receiving))
            && (s.senders != [] && |s.queue| < CAPACITY ==> SomeoneActs(s, WakesSender, Sending))
  {
    hide Sleepers, Exec, Number;
    RunKeepsInv(n, es);
    var s := Exec(Init(n), es);
    if s.receivers != [] && s.queue != [] {
      FindThread(s.at, WakesReceiver, Receiving);
    }
    if s.senders != [] && |s.queue| < CAPACITY {
      FindThread(s.at, WakesSender, Sending);
    }
  }
}
