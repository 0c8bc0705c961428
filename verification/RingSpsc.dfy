/** One producer and one consumer on the ring at once: every interleaving of their single loads and
    stores. */
module RingSpsc {
  import opened Basics
  import opened RingBuf

  /** Where the producer is: outside ring_write, or copying byte i of n. */
  datatype Producer = NotWriting | Copying(src: seq<byte>, n: nat, i: nat)

  /** Where the consumer is: outside ring_read, or with some of its n bytes fetched. */
  datatype Consumer = NotReading | Fetching(n: nat, got: seq<byte>)

  /** The cells and 32-bit positions, the two threads, and all bytes published and consumed so far. */
  datatype State = State(cells: seq<byte>, head: nat, tail: nat, producer: Producer, consumer: Consumer,
                         sent: seq<byte>, received: seq<byte>)

  datatype Event =
    | BeginWrite(src: seq<byte>)   // load the tail, decide how much fits
    | WriteStep                    // store one byte, or publish the new head
    | BeginRead(count: nat)        // load the head, decide how much there is
    | ReadStep                     // load one byte, or publish the new tail

  function Init(cells: seq<byte>): State {
    State(cells, 0, 0, NotWriting, NotReading, [], [])
  }

  function Apply(s: State, e: Event): State {
    var size := |s.cells|;
    if size == 0 then s
    else
      match e
      case BeginWrite(src) =>
        var room := Distance(size, Distance(s.head, s.tail));
        if !s.producer.NotWriting? then s
        else s.(producer := Copying(src, if |src| > room then room else |src|, 0))
      case WriteStep =>
        (match s.producer
         case NotWriting => s
         case Copying(src, n, i) =>
           if i < n then
             var at := Index(s.head, i, size - 1);
             if at < size && i < |src| then
               s.(cells := s.cells[at := src[i]], producer := Copying(src, n, i + 1))
             else s
           else if n <= |src| then
             s.(head := Plus(s.head, n), sent := s.sent + src[..n], producer := NotWriting)
           else s)
      case BeginRead(count) =>
        var used := Distance(s.head, s.tail);
        if !s.consumer.NotReading? then s
        else s.(consumer := Fetching(if count > used then used else count, []))
      case ReadStep =>
        (match s.consumer
         case NotReading => s
         case Fetching(n, got) =>
           if |got| < n then
             var at := Index(s.tail, |got|, size - 1);
             if at < size then s.(consumer := Fetching(n, got + [s.cells[at]])) else s
           else s.(tail := Plus(s.tail, n), received := s.received + got, consumer := NotReading))
  }

  function Exec(s: State, es: seq<Event>): State {
    if es == [] then s else Apply(Exec(s, es[..|es| - 1]), es[|es| - 1])
  }

  // ---------------------------------------------------------------- what every interleaving keeps

  /** The bytes in the cells from the consumer's position on: the unread published ones, then those
      the producer has stored and not yet published. */
  ghost function Pending(s: State): seq<byte> {
    if s.producer.Copying? && s.producer.i <= |s.producer.src| then s.producer.src[..s.producer.i] else []
  }

  ghost predicate Positions(s: State) {
    && RingSize(|s.cells|) && |s.cells| > 0
    && s.head == Word(|s.sent|) && s.tail == Word(|s.received|)
    && |s.received| <= |s.sent| <= |s.received| + |s.cells|
  }

  ghost predicate ProducerOk(s: State)
    requires Positions(s)
  {
    s.producer.Copying? ==>
      && s.producer.i <= s.producer.n <= |s.producer.src|
      && |s.sent| + s.producer.n <= |s.received| + |s.cells|
  }

  ghost predicate ConsumerOk(s: State)
    requires Positions(s)
  {
    s.consumer.Fetching? ==>
      && |s.consumer.got| <= s.consumer.n && |s.received| + s.consumer.n <= |s.sent|
      && s.consumer.got == s.sent[|s.received|..|s.received| + |s.consumer.got|]
  }

  /** What was received is what was sent, in order; the cells hold the unread bytes untouched, and
      every byte fetched is a published one. */
  ghost predicate Inv(s: State) {
    && Positions(s) && ProducerOk(s) && ConsumerOk(s)
    && s.received == s.sent[..|s.received|]
    && Window(s.cells, |s.received|, |s.sent| - |s.received| + |Pending(s)|) == s.sent[|s.received|..] + Pending(s)
  }

  lemma RoomExact(size: nat, used: nat)
    requires RingSize(size) && used <= size
    ensures Distance(size, used) == size - used
  {
    var m := SizeDivides(size);
  }

  lemma BeginWriteKeepsInv(s: State, src: seq<byte>)
    requires Inv(s) && s.producer.NotWriting?
    ensures Inv(Apply(s, BeginWrite(src)))
  {
    hide RingSize, Window, Word, Distance;
    UsedExact(|s.sent|, |s.received|, |s.cells|);
    RoomExact(|s.cells|, |s.sent| - |s.received|);
    assert src[..0] == [];
  }

  lemma StoreKeepsInv(s: State)
    requires Inv(s) && s.producer.Copying? && s.producer.i < s.producer.n
    ensures Inv(Apply(s, WriteStep))
  {
    hide RingSize, Window, Word, Plus, Distance, Index, Spot;
    var src, i, size := s.producer.src, s.producer.i, |s.cells|;
    var w, t := |s.sent|, |s.received|;
    IndexIsSpot(w, i, size);
    StoreExtends(s.cells, t, w - t + i, src[i]);
    assert t + (w - t + i) == w + i;
    assert (s.sent[t..] + src[..i]) + [src[i]] == s.sent[t..] + src[..i + 1];
  }

  lemma PublishKeepsInv(s: State)
    requires Inv(s) && s.producer.Copying? && s.producer.i == s.producer.n
    ensures Inv(Apply(s, WriteStep))
  {
    hide RingSize, Window, Word, Plus, Distance;
    var n, src, t := s.producer.n, s.producer.src, |s.received|;
    var after := Apply(s, WriteStep);
    AddWraps(|s.sent|, n);
    assert after.sent[t..] == s.sent[t..] + src[..n] && after.sent[..t] == s.sent[..t];
    assert Pending(after) == [] && Pending(s) == src[..n];
    if s.consumer.Fetching? {
      var k := |s.consumer.got|;
      assert after.sent[t..t + k] == s.sent[t..t + k];
    }
  }

  lemma BeginReadKeepsInv(s: State, count: nat)
    requires Inv(s) && s.consumer.NotReading?
    ensures Inv(Apply(s, BeginRead(count)))
  {
    hide RingSize, Window, Word, Plus, Distance;
    UsedExact(|s.sent|, |s.received|, |s.cells|);
    assert s.sent[|s.received|..|s.received|] == [];
  }

  lemma FetchKeepsInv(s: State)
    requires Inv(s) && s.consumer.Fetching? && |s.consumer.got| < s.consumer.n
    ensures Inv(Apply(s, ReadStep))
  {
    hide RingSize, Window, Word, Plus, Distance, Index, Spot;
    var t, k := |s.received|, |s.consumer.got|;
    IndexIsSpot(t, k, |s.cells|);
    var pending := Window(s.cells, t, |s.sent| - t + |Pending(s)|);
    assert s.cells[Spot(t + k, |s.cells|)] == pending[k] == s.sent[t..][k];
    assert s.sent[t..t + k] + [s.sent[t + k]] == s.sent[t..t + k + 1];
  }

  lemma Advance(sent: seq<byte>, pending: seq<byte>, t: nat, n: nat)
    requires t + n <= |sent|
    ensures (sent[t..] + pending)[n..] == sent[t + n..] + pending
    ensures sent[..t] + sent[t..t + n] == sent[..t + n]
  {
  }

  lemma ReleaseKeepsInv(s: State)
    requires Inv(s) && s.consumer.Fetching? && |s.consumer.got| == s.consumer.n
    ensures Inv(Apply(s, ReadStep))
  {
    hide RingSize, Window, Word, Plus, Distance;
    var t, n := |s.received|, s.consumer.n;
    var after := Apply(s, ReadStep);
    AddWraps(t, n);
    WindowDrop(s.cells, t, |s.sent| - t + |Pending(s)|, n);
    Advance(s.sent, Pending(s), t, n);
    assert after.received == s.sent[..t + n] && Pending(after) == Pending(s);
  }

  lemma StepKeepsInv(s: State, e: Event)
    requires Inv(s)
    ensures Inv(Apply(s, e))
  {
    hide RingSize, Window, Word, Plus, Distance, Index;
    match e
    case BeginWrite(src) => if s.producer.NotWriting? { BeginWriteKeepsInv(s, src); }
    case WriteStep =>
      if s.producer.Copying? {
        if s.producer.i < s.producer.n { StoreKeepsInv(s); } else { PublishKeepsInv(s); }
      }
    case BeginRead(count) => if s.consumer.NotReading? { BeginReadKeepsInv(s, count); }
    case ReadStep =>
      if s.consumer.Fetching? {
        if |s.consumer.got| < s.consumer.n { FetchKeepsInv(s); } else { ReleaseKeepsInv(s); }
      }
  }

  lemma InitInv(cells: seq<byte>)
    requires RingSize(|cells|) && |cells| > 0
    ensures Inv(Init(cells))
  {
  }

  lemma {:induction false} RunKeepsInv(cells: seq<byte>, es: seq<Event>)
    requires RingSize(|cells|) && |cells| > 0
    ensures Inv(Exec(Init(cells), es))
  {
    hide Inv, Apply, RingSize;
    if es == [] {
      InitInv(cells);
    } else {
      RunKeepsInv(cells, es[..|es| - 1]);
      StepKeepsInv(Exec(Init(cells), es[..|es| - 1]), es[|es| - 1]);
    }
  }

  /** On every interleaving the bytes received are a prefix of the bytes published, at most a ring
      apart, and a read in progress holds exactly the next published bytes. */
  lemma {:induction false} ReceivedIsPrefixOfSent(cells: seq<byte>, es: seq<Event>)
    requires RingSize(|cells|) && |cells| > 0
    ensures var s := Exec(Init(cells), es);
            && s.received <= s.sent && |s.sent| <= |s.received| + |s.cells|
            && (s.consumer.Fetching? ==> s.received + s.consumer.got <= s.sent)
  {
    hide Exec, Window, Apply, Word, Plus, Distance;
    RunKeepsInv(cells, es);
    var s := Exec(Init(cells), es);
    if s.consumer.Fetching? {
      var t, k := |s.received|, |s.consumer.got|;
      assert s.sent[..t] + s.sent[t..t + k] == s.sent[..t + k];
    }
  }
}
