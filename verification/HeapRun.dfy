/** Runs of the heap by a client. */
module HeapRun {
  import opened Basics
  import opened BuddyBlocks
  import opened Slabs
  import opened Kmalloc
  import opened Heap
  import PageFrames
  import Pmm

  /** What a client does: ask for memory, free or resize the i-th allocation it holds, or write a byte of it. */
  datatype Request =
    | Get(size: nat)
    | Release(i: nat)
    | Resize(i: nat, size: nat)
    | Write(i: nat, off: nat, v: byte)
  {
    /** Sizes are 64-bit words. */
    predicate Proper() {
      (Get? ==> size < U64) && (Resize? ==> size < U64)
    }
  }

  /** The pointers a client holds are live and all different. */
  ghost predicate Holds(mine: seq<nat>, live: map<nat, nat>) {
    && (forall i | 0 <= i < |mine| :: mine[i] != 0 && mine[i] in live)
    && (forall i, j | 0 <= i < j < |mine| :: mine[i] != mine[j])
  }

  lemma HoldsMore(mine: seq<nat>, live: map<nat, nat>, live': map<nat, nat>, p: nat, size: nat)
    requires Holds(mine, live) && p != 0 && p !in live && live' == live[p := size]
    ensures Holds(mine + [p], live')
  {
  }

  lemma HoldsFewer(mine: seq<nat>, live: map<nat, nat>, i: nat)
    requires Holds(mine, live) && i < |mine|
    ensures Holds(Without(mine, i), live - {mine[i]})
  {
    var rest := Without(mine, i);
    assert forall k | 0 <= k < |rest| :: rest[k] == mine[if k < i then k else k + 1];
  }

  lemma HoldsMoved(mine: seq<nat>, live: map<nat, nat>, i: nat, r: nat, size: nat)
    requires Holds(mine, live) && i < |mine| && r != 0 && r !in live
    ensures Holds(mine[i := r], (live - {mine[i]})[r := size])
  {
  }

  lemma HoldsAt(mine: seq<nat>, live: map<nat, nat>, i: nat)
    requires Holds(mine, live) && i < |mine|
    ensures mine[i] != 0 && mine[i] in live
  {
  }

  lemma HoldsResized(mine: seq<nat>, live: map<nat, nat>, p: nat, size: nat)
    requires Holds(mine, live)
    ensures Holds(mine, live[p := size])
  {
  }

  // ---------------------------------------------------------------- moments of a run

  /** What the client holds, the heap, memory and the page allocator's blocks at one moment of a run. */
  datatype Moment = Moment(mine: seq<nat>, heap: State, mem: Bytes, blocks: Blocks)

  /** What does not change: the direct map, the number of pages, and the pages that are free or held. */
  datatype Machine = Machine(hhdm: nat, total: nat, pool: set<nat>)

  /** What holds at every moment. */
  ghost predicate Right(a: Moment, k: Machine) {
    && Holds(a.mine, a.heap.live) && Sound(a.heap, Only(a.blocks, Live), k.hhdm) && Headers(a.heap.large, a.mem)
    && Canonical(a.blocks, k.total) && (forall p | p in a.blocks :: !a.blocks[p].kind.Hand?)
    && PagesOf(a.blocks, Free, k.total) + PagesOf(a.blocks, Live, k.total) == k.pool
  }

  ghost function Now(heap: KernelHeap, mine: seq<nat>): Moment
    reads heap, heap.ring, heap.pmm
    requires heap.RingOk()
  {
    Moment(mine, heap.View(), heap.mem, heap.pmm.blocks)
  }

  ghost function MachineOf(heap: KernelHeap): Machine {
    Machine(heap.hhdm, heap.pmm.Total(), heap.pool)
  }

  lemma ValidIsRight(heap: KernelHeap, mine: seq<nat>)
    requires heap.Valid() && Holds(mine, heap.live)
    ensures heap.RingOk() && Right(Now(heap, mine), MachineOf(heap))
  {
    hide Sound, Holds, Headers, PagesOf, Only, Canonical, PageFrames.ListsOk, PageFrames.ListsAre, PageFrames.TagsOk;
  }

  /** The relocation that request r asks for is carried out: the size has left its class, and there is
      memory for the new one. */
  ghost predicate Relocates(a: Moment, r: Request) {
    && r.Resize? && r.i < |a.mine| && r.size > 0
    && !Stays(a.heap, a.mine[r.i], r.size) && !Refused(a.heap, a.blocks, r.size)
  }

  /** The request frees the i-th allocation. */
  ghost predicate Gives(a: Moment, r: Request) {
    (r.Release? && r.i < |a.mine|) || (r.Resize? && r.i < |a.mine| && r.size == 0)
  }

  /** The request frees a slab slot. */
  ghost predicate FreesSlot(a: Moment, r: Request) {
    (Gives(a, r) || Relocates(a, r)) && !IsLargePtr(a.mine[r.i])
  }

  /** The machine does not get past the request: a slot is freed whose checked bytes hold the poison, or
      the copy of a relocation leaves the new block. */
  ghost predicate Stops(a: Moment, r: Request) {
    || (Gives(a, r) && !IsLargePtr(a.mine[r.i]) && PoisonAt(a.mem, a.mine[r.i]))
    || (Relocates(a, r) && Cell(a.heap.pages, a.heap.large, a.mine[r.i])
        && !Fate(a.heap, a.mem, a.mine[r.i], r.size).Done?)
  }

  /** The byte lies in the i-th allocation. */
  ghost predicate Inside(a: Moment, i: nat, off: nat) {
    && i < |a.mine| && Cell(a.heap.pages, a.heap.large, a.mine[i])
    && off < Usable(a.heap.pages, a.heap.large, a.mine[i])
  }

  /** From a to b, memory of `size` bytes was had and is held as well. */
  ghost predicate Got(a: Moment, size: nat, b: Moment) {
    && |b.mine| == |a.mine| + 1 && a.mine <= b.mine
    && var p := b.mine[|a.mine|];
       && p != 0 && Delivered(a.heap.live, b.heap.live, p, size) && Fitting(b.heap, p, size)
       && Allocated(a.heap, b.heap, a.mem, b.mem, p, size)
  }

  /** From a to b, the i-th allocation was freed. */
  ghost predicate Gave(a: Moment, i: nat, b: Moment) {
    && i < |a.mine| && b.mine == Without(a.mine, i)
    && b.heap == Released(a.heap, a.mine[i]) && b.mem == ReleasedMem(a.heap, a.mem, a.mine[i])
    && b.heap.live == a.heap.live - {a.mine[i]}
  }

  /** From a to b, the i-th allocation was moved. */
  ghost predicate Shifted(a: Moment, i: nat, size: nat, b: Moment) {
    && i < |a.mine| == |b.mine| && b.mine == a.mine[i := b.mine[i]] && b.mine[i] != 0
    && Moved(a.heap, b.heap, a.mem, b.mem, a.mine[i], b.mine[i], size, Done)
    && b.mine[i] !in a.heap.live && b.heap.live == (a.heap.live - {a.mine[i]})[b.mine[i] := size]
    && Cell(b.heap.pages, b.heap.large, b.mine[i])
    && (size <= Usable(b.heap.pages, b.heap.large, b.mine[i]) <==> size <= LIMIT)
  }

  lemma SparesSelf(a: Moment, held: map<nat, nat>, hhdm: nat, touched: set<nat>)
    requires Sound(a.heap, held, hhdm)
    ensures Spares(a, a, touched)
  {
    hide Sound, Intact, SameExtent;
    IntactSelf(a.heap, held, hhdm, a.mem);
    IntactFewer(a.heap, a.heap.live.Keys, a.heap.live.Keys - touched, a.mem, a.mem);
    ExtentSelf(a.heap, held, hhdm);
    ExtentFewer(a.heap, a.heap, a.heap.live.Keys, a.heap.live.Keys - touched);
  }

  lemma KeysLess(live: map<nat, nat>)
    ensures live.Keys - {} == live.Keys
  {
  }

  /** What a request does that does not stop the machine. */
  ghost predicate Effect(a: Moment, r: Request, b: Moment) {
    match r
    case Get(size) => if Refused(a.heap, a.blocks, size) then b == a else Got(a, size, b)
    case Release(i) => if i < |a.mine| then Gave(a, i, b) else b == a
    case Resize(i, size) =>
      if i >= |a.mine| then b == a
      else if size == 0 then Gave(a, i, b)
      else if Stays(a.heap, a.mine[i], size) then b == a.(heap := a.heap.(live := a.heap.live[a.mine[i] := size]))
      else if Refused(a.heap, a.blocks, size) then b == a
      else Shifted(a, i, size, b)
    case Write(i, off, v) =>
      b == if Inside(a, i, off) then a.(mem := Fill(a.mem, a.mine[i] + off, a.mine[i] + off + 1, v as int)) else a
  }

  /** The allocation the request is about. */
  ghost function Touched(a: Moment, r: Request): set<nat> {
    if !r.Get? && r.i < |a.mine| then {a.mine[r.i]} else {}
  }

  /** From a to b the other allocations stay, with their sizes, extents and bytes. */
  ghost predicate Spares(a: Moment, b: Moment, touched: set<nat>) {
    && (forall p | p in a.heap.live && p !in touched :: p in b.heap.live && b.heap.live[p] == a.heap.live[p])
    && Intact(a.heap, a.heap.live.Keys - touched, a.mem, b.mem)
    && SameExtent(a.heap, b.heap, a.heap.live.Keys - touched)
  }

  /** The request, its effect, and what it means for other allocations, for the quarantine and for other
      users of the page allocator. */
  ghost predicate Next(a: Moment, r: Request, b: Moment) {
    && !Stops(a, r) && Effect(a, r, b) && Spares(a, b, Touched(a, r)) && b.heap.others == a.heap.others
    && b.heap.quar == if FreesSlot(a, r) then Admit(a.heap.quar, a.mine[r.i]) else a.heap.quar
  }

  /** Where a request leaves things that stops the machine: a free has changed nothing, a relocation has
      its new allocation. */
  ghost predicate Halfway(a: Moment, r: Request, b: Moment) {
    Stops(a, r) &&
    if Gives(a, r) then b == a
    else
      && |b.mine| == |a.mine| + 1 && a.mine <= b.mine && b.mine[|a.mine|] != 0
      && Moved(a.heap, b.heap, a.mem, b.mem, a.mine[r.i], b.mine[|a.mine|], r.size,
               Fate(a.heap, a.mem, a.mine[r.i], r.size))
  }

  // ---------------------------------------------------------------- serving requests

  method ServeGet(heap: KernelHeap, size: nat, mine: seq<nat>) returns (now: seq<nat>)
    requires heap.Valid() && Holds(mine, heap.live) && size < U64
    modifies heap`pages, heap`lists, heap`large, heap`live, heap`mem,
             heap.pmm, heap.pmm.pages, heap.pmm.heads, heap.pmm.counts
    ensures heap.Valid() && Holds(now, heap.live)
    ensures Next(old(Now(heap, mine)), Get(size), Now(heap, now))
  {
    hide Sound, Intact, Admit, Cell, Usable, SameExtent, Refused, Fitting, Pmm.PageAllocator.Valid, Holds, Allocated, Headers;
    now := mine;
    KeysLess(heap.live);
    ghost var live := heap.live;
    var p := heap.Kmalloc(size);
    if p != 0 {
      HoldsMore(mine, live, heap.live, p, size);
      now := mine + [p];
    }
  }

  /** Free the i-th allocation with the request r, which asks for that. */
  method ServeRelease(heap: KernelHeap, ghost r: Request, i: nat, mine: seq<nat>) returns (now: seq<nat>, stopped: bool)
    requires heap.Valid() && Holds(mine, heap.live) && i < |mine| && (r == Release(i) || r == Resize(i, 0))
    modifies heap`pages, heap`lists, heap`large, heap`head, heap`count, heap`live, heap`mem, heap.ring,
             heap.pmm, heap.pmm.pages, heap.pmm.heads, heap.pmm.counts
    ensures heap.Valid() && (stopped <==> Stops(old(Now(heap, mine)), r))
    ensures !stopped ==> Holds(now, heap.live) && Next(old(Now(heap, mine)), r, Now(heap, now))
    ensures stopped ==> Halfway(old(Now(heap, mine)), r, Now(heap, now))
  {
    hide Sound, Intact, SameExtent, Admit, Pmm.PageAllocator.Valid, Holds, PoisonAt, Released, ReleasedMem, Headers, Fate, Refused, Stays;
    HoldsAt(mine, heap.live, i);
    HoldsFewer(mine, heap.live, i);
    stopped := heap.Kfree(mine[i]);
    now := if stopped then mine else Without(mine, i);
  }

  method ServeResize(heap: KernelHeap, i: nat, size: nat, mine: seq<nat>) returns (now: seq<nat>, stopped: bool)
    requires heap.Valid() && Holds(mine, heap.live) && i < |mine| && 0 < size < U64
    modifies heap`pages, heap`lists, heap`large, heap`head, heap`count, heap`live, heap`mem, heap.ring,
             heap.pmm, heap.pmm.pages, heap.pmm.heads, heap.pmm.counts
    ensures heap.Valid() && (stopped <==> Stops(old(Now(heap, mine)), Resize(i, size)))
    ensures !stopped ==> Holds(now, heap.live) && Next(old(Now(heap, mine)), Resize(i, size), Now(heap, now))
    ensures stopped ==> Halfway(old(Now(heap, mine)), Resize(i, size), Now(heap, now))
  {
    hide Sound, Intact, SameExtent, Admit, Cell, Usable, Pmm.PageAllocator.Valid, Holds, PoisonAt, Moved, Headers, Fate, Refused, Stays;
    HoldsAt(mine, heap.live, i);
    ghost var live := heap.live;
    var r, out := heap.Krealloc(mine[i], size);
    stopped := !out.Done?;
    now := if stopped then mine + [r] else mine;
    if r != 0 && out.Done? {
      now := mine[i := r];
      if r == mine[i] {
        HoldsResized(mine, live, r, size);
        assert now == mine;
      } else {
        HoldsMoved(mine, live, i, r, size);
      }
    }
  }

  method ServeWrite(heap: KernelHeap, i: nat, off: nat, v: byte, mine: seq<nat>)
    requires heap.Valid() && Holds(mine, heap.live)
    modifies heap`mem
    ensures heap.Valid() && Next(old(Now(heap, mine)), Write(i, off, v), Now(heap, mine))
  {
    hide Sound, Intact, SameExtent, Cell, Usable, Pmm.PageAllocator.Valid, Holds, Headers, Fill;
    SparesSelf(Now(heap, mine), heap.pmm.Held(), heap.hhdm, Touched(Now(heap, mine), Write(i, off, v)));
    if i < |mine| {
      HoldsAt(mine, heap.live, i);
      CellFacts(heap.View(), heap.pmm.Held(), heap.hhdm, mine[i]);
      var room := heap.UsableSize(mine[i]);
      if off < room {
        heap.Write(mine[i], off, v);
      }
    }
  }

  /** Serve one request; `stopped` says that the machine does not get past it. */
  method Serve(heap: KernelHeap, r: Request, mine: seq<nat>) returns (now: seq<nat>, stopped: bool)
    requires heap.Valid() && Holds(mine, heap.live) && r.Proper()
    modifies heap`pages, heap`lists, heap`large, heap`head, heap`count, heap`live, heap`mem, heap.ring,
             heap.pmm, heap.pmm.pages, heap.pmm.heads, heap.pmm.counts
    ensures heap.Valid() && (stopped <==> Stops(old(Now(heap, mine)), r))
    ensures !stopped ==> Holds(now, heap.live) && Next(old(Now(heap, mine)), r, Now(heap, now))
    ensures stopped ==> Halfway(old(Now(heap, mine)), r, Now(heap, now))
  {
    hide KernelHeap.Valid, Sound, Spares, Holds, PoisonAt, Gave, Got, Shifted, Moved, Fate, Refused, Stays, Inside, Admit, Cell;
    ValidRing(heap);
    ValidIsRight(heap, mine);
    SparesSelf(Now(heap, mine), heap.pmm.Held(), heap.hhdm, Touched(Now(heap, mine), r));
    now, stopped := mine, false;
    match r
    case Get(size) => now := ServeGet(heap, size, mine);
    case Release(i) => if i < |mine| { now, stopped := ServeRelease(heap, r, i, mine); }
    case Resize(i, size) =>
      if i < |mine| && size == 0 {
        now, stopped := ServeRelease(heap, r, i, mine);
      } else if i < |mine| {
        now, stopped := ServeResize(heap, i, size, mine);
      }
    case Write(i, off, v) => ServeWrite(heap, i, off, v, mine);
  }

  lemma ValidRing(heap: KernelHeap)
    requires heap.Valid()
    ensures heap.RingOk()
  {
  }

  // ---------------------------------------------------------------- runs

  /** held[i] is the moment when request i comes; every moment is right, and follows from the one before. */
  ghost predicate Course(held: seq<Moment>, requests: seq<Request>, k: Machine) {
    && 0 < |held| <= |requests| + 1
    && (forall i | 0 <= i < |held| :: Right(held[i], k))
    && (forall i | 0 <= i < |held| - 1 :: Next(held[i], requests[i], held[i + 1]))
  }

  lemma CourseGrows(held: seq<Moment>, requests: seq<Request>, k: Machine, now: Moment)
    requires Course(held, requests, k) && |held| <= |requests| && Right(now, k)
    requires Next(held[|held| - 1], requests[|held| - 1], now)
    ensures Course(held + [now], requests, k)
  {
    hide Next, Right;
    var h := held + [now];
    forall i | 0 <= i < |h| - 1
      ensures Next(h[i], requests[i], h[i + 1])
    {
      if i < |held| - 1 {
        assert Next(held[i], requests[i], held[i + 1]);
      }
    }
  }

  lemma CourseStarts(start: Moment, requests: seq<Request>, k: Machine)
    requires Right(start, k)
    ensures Course([start], requests, k)
  {
    hide Right;
  }

  /** Serve requests in turn, to their end or to the first that stops the machine. */
  method Run(heap: KernelHeap, mine: seq<nat>, requests: seq<Request>) returns (now: seq<nat>, ghost held: seq<Moment>)
    requires heap.Valid() && Holds(mine, heap.live) && forall r | r in requests :: r.Proper()
    modifies heap`pages, heap`lists, heap`large, heap`head, heap`count, heap`live, heap`mem, heap.ring,
             heap.pmm, heap.pmm.pages, heap.pmm.heads, heap.pmm.counts
    ensures heap.Valid() && Course(held, requests, MachineOf(heap)) && held[0] == old(Now(heap, mine))
    ensures if |held| == |requests| + 1 then held[|requests|] == Now(heap, now)
            else Halfway(held[|held| - 1], requests[|held| - 1], Now(heap, now))
  {
    hide KernelHeap.Valid, Holds, Next, Course, Halfway, Stops, Right;
    var stopped := false;
    now := mine;
    ValidRing(heap);
    held := [Now(heap, mine)];
    ValidIsRight(heap, mine);
    CourseStarts(Now(heap, mine), requests, MachineOf(heap));
    for i := 0 to |requests|
      invariant heap.Valid() && heap.RingOk() && Holds(now, heap.live)
      invariant |held| == i + 1 && Course(held, requests, MachineOf(heap))
      invariant held[0] == old(Now(heap, mine)) && held[i] == Now(heap, now)
    {
      assert requests[i] in requests;
      now, stopped := Serve(heap, requests[i], now);
      ValidRing(heap);
      if stopped {
        return;
      }
      ValidIsRight(heap, now);
      CourseGrows(held, requests, MachineOf(heap), Now(heap, now));
      held := held + [Now(heap, now)];
    }
  }

  // ---------------------------------------------------------------- the quarantine over runs

  /** The slab slots that requests from..to - 1 of a run free, in order. */
  ghost function Frees(held: seq<Moment>, requests: seq<Request>, from: nat, to: nat): seq<nat>
    requires from <= to < |held| <= |requests| + 1
  {
    if from == to then []
    else Frees(held, requests, from, to - 1) +
         if FreesSlot(held[to - 1], requests[to - 1]) then [held[to - 1].mine[requests[to - 1].i]] else []
  }

  lemma AdmitMore(q: seq<nat>, later: seq<nat>, a: nat)
    ensures AdmitAll(q, later + [a]) == Admit(AdmitAll(q, later), a)
  {
    assert (later + [a])[..|later|] == later;
  }

  /** The quarantine is what the slots freed so far leave there. */
  lemma {:induction false} QuarantineOverRun(held: seq<Moment>, requests: seq<Request>, k: Machine, from: nat, to: nat)
    requires Course(held, requests, k) && from <= to < |held|
    ensures held[to].heap.quar == AdmitAll(held[from].heap.quar, Frees(held, requests, from, to))
  {
    hide Right, Effect, Stops, Stays, Refused, Admit, IsLargePtr, Spares;
    if from < to {
      QuarantineOverRun(held, requests, k, from, to - 1);
      var a, r := held[to - 1], requests[to - 1];
      assert Next(a, r, held[to]);
      var before := Frees(held, requests, from, to - 1);
      if FreesSlot(a, r) {
        AdmitMore(held[from].heap.quar, before, a.mine[r.i]);
      } else {
        assert before + [] == before;
      }
    }
  }

  /** A slot freed by request i of a run: while fewer than 32 slab slots have been freed since, it is in
      quarantine and nobody has it, and after 31 it is the next to leave. */
  lemma FreedSlotIsHeldBack(held: seq<Moment>, requests: seq<Request>, k: Machine, i: nat, j: nat)
    requires Course(held, requests, k) && i < j < |held| && FreesSlot(held[i], requests[i])
    ensures var p, frees, b := held[i].mine[requests[i].i], Frees(held, requests, i + 1, j), held[j].heap;
            && b.quar == AdmitAll(Admit(held[i].heap.quar, p), frees)
            && (|frees| < QUARANTINE_SIZE ==> p in b.quar && p !in b.live)
            && (|frees| == QUARANTINE_SIZE - 1 ==> b.quar[0] == p)
  {
    hide Sound, Effect, Spares, Stops, Stays, Refused, Admit, AdmitAll, Frees, Holds, Canonical, PagesOf, Headers, Only;
    var p, frees := held[i].mine[requests[i].i], Frees(held, requests, i + 1, j);
    assert Next(held[i], requests[i], held[i + 1]) && Right(held[i], k) && Right(held[j], k);
    QuarantineOverRun(held, requests, k, i + 1, j);
    QuarantineBounded(held[i].heap, Only(held[i].blocks, Live), k.hhdm);
    if |frees| < QUARANTINE_SIZE {
      QuarantineDelay(held[i].heap.quar, p, frees);
      NotHandedOut(held[j].heap, Only(held[j].blocks, Live), k.hhdm, p);
    }
  }

  lemma QuarantineBounded(s: State, held: map<nat, nat>, hhdm: nat)
    requires Sound(s, held, hhdm)
    ensures |s.quar| <= QUARANTINE_SIZE
  {
  }

  lemma NotHandedOut(s: State, held: map<nat, nat>, hhdm: nat, p: nat)
    requires Sound(s, held, hhdm) && p in s.quar && !IsLargePtr(p)
    ensures p !in s.live
  {
    hide Backing, ListsOk, LargeOk, SizesOk;
    assert p !in SlotPtrs(s.live);
  }

  // ---------------------------------------------------------------- allocations over runs

  /** Requests from..to - 1 are not about allocation p. */
  ghost predicate LeftAlone(held: seq<Moment>, requests: seq<Request>, p: nat, from: nat, to: nat)
    requires to <= |held| && to <= |requests|
  {
    forall i | from <= i < to :: p !in Touched(held[i], requests[i])
  }

  /** An allocation that no request is about stays live, with its size, its extent and all its bytes,
      whatever is allocated, freed, moved and written meanwhile. */
  lemma {:induction false} BytesPersist(held: seq<Moment>, requests: seq<Request>, k: Machine, p: nat, i: nat, j: nat)
    requires Course(held, requests, k) && i <= j < |held| && p in held[i].heap.live
    requires LeftAlone(held, requests, p, i, j)
    ensures var s, t := held[i].heap, held[j].heap;
            && p in t.live && t.live[p] == s.live[p]
            && Cell(s.pages, s.large, p) && Cell(t.pages, t.large, p)
            && Usable(t.pages, t.large, p) == Usable(s.pages, s.large, p)
            && Same(held[i].mem, held[j].mem, Start(p), p + Usable(s.pages, s.large, p))
  {
    hide Right, Effect, Stops, FreesSlot, Admit, Cell, Usable, Start;
    if i == j {
      LiveCell(held[i], k, p);
    } else {
      BytesPersist(held, requests, k, p, i, j - 1);
      assert Next(held[j - 1], requests[j - 1], held[j]) && p !in Touched(held[j - 1], requests[j - 1]);
      SameChain(held[i].mem, held[j - 1].mem, held[j].mem, Start(p), p + Usable(held[i].heap.pages, held[i].heap.large, p));
    }
  }

  lemma LiveCell(a: Moment, k: Machine, p: nat)
    requires Right(a, k) && p in a.heap.live
    ensures Cell(a.heap.pages, a.heap.large, p)
  {
    hide Sound, Holds, Headers, Canonical, PagesOf, Only;
    CellFacts(a.heap, Only(a.blocks, Live), k.hhdm, p);
  }

  // ---------------------------------------------------------------- what the heap holds over runs

  /** The blocks held follow from the heap's pages and large blocks. */
  lemma HeldFixed(s: State, t: State, held: map<nat, nat>, held': map<nat, nat>, hhdm: nat)
    requires Sound(s, held, hhdm) && Sound(t, held', hhdm)
    requires s.pages.Keys == t.pages.Keys && s.large == t.large && s.others == t.others
    ensures held == held'
  {
    hide Sound;
    forall f: nat
      ensures f in held <==> f in held'
      ensures f in held && f in held' ==> held[f] == held'[f]
    {
      HeldAt(s, held, hhdm, f);
      HeldAt(t, held', hhdm, f);
    }
  }

  lemma HeldAt(s: State, held: map<nat, nat>, hhdm: nat, f: nat)
    requires Sound(s, held, hhdm)
    ensures var b := hhdm + f * PAGE;
            && (f in held <==> f in s.others || b in s.pages || b in s.large)
            && (b in s.pages ==> f in held && held[f] == 0 && f !in s.others && b !in s.large)
            && (b in s.large ==> f in held && held[f] == s.large[b] && f !in s.others)
            && (f in s.others ==> f in held && held[f] == s.others[f])
  {
    hide Placed, ListsOk, LargeOk, SizesOk, HeldApart, Backed, OthersOf;
    var b := hhdm + f * PAGE;
    OthersAt(held, hhdm, s.pages, s.large, f);
    if b in s.pages {
      BackedHere(held, hhdm, f, 0);
    }
    if b in s.large {
      BackedHere(held, hhdm, f, s.large[b]);
    }
  }

  lemma OthersAt(held: map<nat, nat>, hhdm: nat, pages: Pages, large: map<nat, nat>, f: nat)
    ensures var others, b := OthersOf(held, hhdm, pages, large), hhdm + f * PAGE;
            && (f in others <==> f in held && b !in pages && b !in large)
            && (f in others ==> others[f] == held[f])
  {
  }

  lemma BackedHere(held: map<nat, nat>, hhdm: nat, f: nat, order: nat)
    requires Backed(held, hhdm, hhdm + f * PAGE, order)
    ensures f in held && held[f] == order
  {
    FrameAt(hhdm, hhdm + f * PAGE, f);
  }

  /** The page allocator's blocks, free ones included, follow from the blocks that are held. */
  lemma BlocksFixed(a: Moment, b: Moment, k: Machine)
    requires Right(a, k) && Right(b, k) && Only(a.blocks, Live) == Only(b.blocks, Live)
    ensures a.blocks == b.blocks
  {
    hide Sound, Headers, Canonical, PagesOf, Only;
    LiveFixesAll(a.blocks, b.blocks, k.total);
  }

  lemma {:induction false} OthersKept(held: seq<Moment>, requests: seq<Request>, k: Machine, i: nat, j: nat)
    requires Course(held, requests, k) && i <= j < |held|
    ensures held[j].heap.others == held[i].heap.others
  {
    hide Right, Effect, Spares, Stops, FreesSlot, Admit;
    if i < j {
      OthersKept(held, requests, k, i, j - 1);
      assert Next(held[j - 1], requests[j - 1], held[j]);
    }
  }

  /** Over a run: whenever the heap has the same pages and large blocks as at an earlier moment, the page
      allocator is as it was then, down to its free blocks. */
  lemma PageAllocatorRestored(held: seq<Moment>, requests: seq<Request>, k: Machine, i: nat, j: nat)
    requires Course(held, requests, k) && i <= j < |held|
    requires held[i].heap.pages.Keys == held[j].heap.pages.Keys && held[i].heap.large == held[j].heap.large
    ensures held[i].blocks == held[j].blocks
  {
    hide Sound, Holds, Headers, Canonical, PagesOf, Only, Next;
    OthersKept(held, requests, k, i, j);
    assert Right(held[i], k) && Right(held[j], k);
    HeldFixed(held[i].heap, held[j].heap, Only(held[i].blocks, Live), Only(held[j].blocks, Live), k.hhdm);
    BlocksFixed(held[i], held[j], k);
  }

  /** Nothing is lost over a run: at a moment when no client holds anything, the heap holds no large block
      and only the pages of quarantined slots; and if none is quarantined either, the blocks held are
      those that others held at the start. */
  lemma AllGivenBack(held: seq<Moment>, requests: seq<Request>, k: Machine, j: nat)
    requires Course(held, requests, k) && j < |held| && held[j].heap.live == map[]
    ensures held[j].heap.large == map[] && held[j].heap.pages.Keys == set a | a in held[j].heap.quar :: PageOf(a)
    ensures held[j].heap.quar == [] ==> Only(held[j].blocks, Live) == held[0].heap.others
  {
    hide Sound, Holds, Headers, Canonical, PagesOf, Only, Next;
    OthersKept(held, requests, k, 0, j);
    assert Right(held[j], k);
    NothingLive(held[j].heap, Only(held[j].blocks, Live), k.hhdm);
  }

  // ---------------------------------------------------------------- the poison check and recycled slots

  /** The client holds `mine`, all of one page of the smallest class and none poisoned, `gone` are
      quarantined and poisoned, and nothing of the page has come back yet. */
  ghost predicate OnePage(s: State, m: Bytes, base: nat, gone: seq<nat>, mine: seq<nat>) {
    && s.lists != [] && s.lists[0] == [base] && base in s.pages && s.pages[base].size == 16
    && s.pages[base].total == 254 && s.pages[base].used == |gone| + |mine| && s.quar == gone && Holds(mine, s.live)
    && (forall k | 0 <= k < |mine| :: !IsLargePtr(mine[k]) && PageOf(mine[k]) == base && !PoisonAt(m, mine[k]))
    && (forall k | 0 <= k < |gone| :: PageOf(gone[k]) == base && PoisonAt(m, gone[k]))
  }

  lemma ZerosNotPoison(m: Bytes, lo: nat, hi: nat, p: nat)
    requires lo <= p && p + 12 <= hi
    ensures !PoisonAt(Fill(m, lo, hi, 0), p)
  {
  }

  lemma PoisonStays(m: Bytes, lo: nat, hi: nat, p: nat)
    requires PoisonAt(m, p)
    ensures PoisonAt(Fill(m, lo, hi, POISON), p)
  {
  }

  lemma FreshlyPoisoned(m: Bytes, p: nat)
    ensures PoisonAt(Fill(m, p + 8, p + 16, POISON), p)
  {
  }

  lemma LinkSparesPoison(m: Bytes, p: nat)
    requires PoisonAt(m, p)
    ensures PoisonAt(Fill(m, p, p + 8, LINK), p)
  {
  }

  /** The first slot comes from a new page of zeros. */
  lemma FirstSlot(s: State, t: State, m: Bytes, m': Bytes, p: nat)
    requires |s.lists| == CLASSES && s.lists[0] == [] && s.quar == [] && p != 0
    requires Allocated(s, t, m, m', p, 16)
    ensures OnePage(t, m', PageOf(p), [], [p]) && m' == Fill(m, PageOf(p), PageOf(p) + PAGE, 0)
  {
    hide Fill, PoisonAt, PageOf;
    var base := PageOf(p);
    ObjSizes();
    assert p == SlotAt(16, base, 253);
    ZerosNotPoison(m, base, base + PAGE, p);
  }

  lemma SlotInPage(x: Slab, base: nat)
    requires SlabOk(x, base) && x.free != []
    ensures PageOf(x.free[0]) == base && base <= x.free[0] && x.free[0] + 16 <= base + PAGE
  {
    hide NoRepeats, PageOf;
    assert x.free[0] in x.free;
    SlotBounds(x, base, x.free[0]);
  }

  /** Each further slot comes from the same page and leaves all bytes alone; a recycled one too. */
  lemma FurtherSlot(s: State, t: State, m: Bytes, m': Bytes, base: nat, gone: seq<nat>, mine: seq<nat>, p: nat)
    requires OnePage(s, m, base, gone, mine) && SlabOk(s.pages[base], base) && |gone| + |mine| < 254
    requires Allocated(s, t, m, m', p, 16) && p !in s.live && p != 0
    ensures s.pages[base].free != [] && p == s.pages[base].free[0] && m' == m
    ensures base <= p && p + 16 <= base + PAGE
    ensures !PoisonAt(m, p) ==> OnePage(t, m', base, gone, mine + [p])
  {
    hide NoRepeats, PoisonAt, Fill, Holds, PageOf;
    assert Stock(s.lists[0], s.pages) == 0 && t == Popped(s, base, 16);
    SlotInPage(s.pages[base], base);
    HoldsMore(mine, s.live, t.live, p, 16);
  }

  /** Freeing the first slot held, while the quarantine has room. */
  lemma OneGone(s: State, t: State, held: map<nat, nat>, hhdm: nat, m: Bytes, m': Bytes, base: nat, gone: seq<nat>, mine: seq<nat>)
    requires OnePage(s, m, base, gone, mine) && Sound(s, held, hhdm) && mine != [] && |gone| < QUARANTINE_SIZE
    requires t == Released(s, mine[0]) && m' == ReleasedMem(s, m, mine[0]) && Intact(s, t.live.Keys, m, m')
    ensures OnePage(t, m', base, gone + [mine[0]], mine[1..])
  {
    hide Sound, Fill, PoisonAt, Holds, PageOf;
    HoldsFewer(mine, s.live, 0);
    assert mine[..0] + mine[1..] == mine[1..];
    FreshlyPoisoned(m, mine[0]);
    forall k | 0 <= k < |gone|
      ensures PoisonAt(m', gone[k])
    {
      PoisonStays(m, mine[0] + 8, mine[0] + 16, gone[k]);
    }
    forall k | 0 <= k < |mine[1..]|
      ensures !PoisonAt(m', mine[1..][k])
    {
      HoldsAt(mine[1..], t.live, k);
      IntactOne(s, t.live.Keys, held, hhdm, m, m', mine[k + 1]);
    }
  }

  lemma IntactOne(s: State, keep: set<nat>, held: map<nat, nat>, hhdm: nat, m: Bytes, m': Bytes, p: nat)
    requires Sound(s, held, hhdm) && p in keep && p in s.live && !IsLargePtr(p) && Intact(s, keep, m, m')
    ensures PoisonAt(m', p) <==> PoisonAt(m, p)
  {
    hide Sound, PoisonAt, Cell, Usable;
    SlotRoom(s, held, hhdm, p);
    PoisonKept(m, m', p, p + Usable(s.pages, s.large, p));
  }

  /** Freeing one more with the quarantine full: the oldest slot is the first to be handed out again, and
      its checked bytes still hold the poison. */
  lemma OldestBack(s: State, t: State, m: Bytes, m': Bytes, base: nat, gone: seq<nat>, mine: seq<nat>)
    requires OnePage(s, m, base, gone, mine) && mine != [] && |gone| == QUARANTINE_SIZE
    requires t == Released(s, mine[0]) && m' == ReleasedMem(s, m, mine[0])
    ensures t.lists == s.lists && base in t.pages && t.pages[base].free != [] && t.pages[base].free[0] == gone[0]
    ensures PoisonAt(m', gone[0])
  {
    hide Fill, PoisonAt, Holds, PageOf;
    PoisonStays(m, mine[0] + 8, mine[0] + 16, gone[0]);
    LinkSparesPoison(Fill(m, mine[0] + 8, mine[0] + 16, POISON), gone[0]);
  }

  lemma PageSlab(s: State, held: map<nat, nat>, hhdm: nat, base: nat)
    requires Sound(s, held, hhdm) && base in s.pages
    ensures SlabOk(s.pages[base], base) && |s.lists| == CLASSES
  {
    hide Backing, LargeOk, SizesOk;
  }

  /** While the page has a free slot a request of the class is served. */
  lemma SlotLeft(s: State, b: Blocks, base: nat)
    requires s.lists != [] && s.lists[0] == [base] && base in s.pages && s.pages[base].free != []
    ensures !Refused(s, b, 16) && Stock(s.lists[0], s.pages) == 0
  {
    assert base in s.lists[0];
  }

  /** Take n slots of the smallest class, all from one new page of zeros. */
  method TakeSlots(heap: KernelHeap, n: nat) returns (mine: seq<nat>, ghost base: nat)
    requires heap.Valid() && 0 < n < 254
    requires |heap.lists| == CLASSES && heap.lists[0] == [] && heap.Quarantine() == [] && HasRun(heap.pmm.blocks, 0)
    modifies heap, heap.ring, heap.pmm, heap.pmm.pages, heap.pmm.heads, heap.pmm.counts
    ensures heap.Valid() && |mine| == n && OnePage(heap.View(), heap.mem, base, [], mine)
  {
    hide Sound, Intact, SameExtent, Fitting, Pmm.PageAllocator.Valid, PoisonAt, HasRun, Allocated, OnePage, Fill;
    ghost var m, s := heap.mem, heap.View();
    var p := heap.Kmalloc(16);
    FirstSlot(s, heap.View(), m, heap.mem, p);
    base := PageOf(p);
    mine := [p];
    while |mine| < n
      invariant 0 < |mine| <= n && heap.Valid() && OnePage(heap.View(), heap.mem, base, [], mine)
      invariant heap.mem == Fill(m, base, base + PAGE, 0)
    {
      s := heap.View();
      ghost var was := heap.mem;
      OnePageFacts(s, was, base, [], mine);
      PageSlab(s, heap.pmm.Held(), heap.hhdm, base);
      SlotLeft(s, heap.pmm.blocks, base);
      p := heap.Kmalloc(16);
      FurtherSlot(s, heap.View(), was, heap.mem, base, [], mine, p);
      ZerosNotPoison(m, base, base + PAGE, p);
      mine := mine + [p];
    }
  }

  lemma OnePageFacts(s: State, m: Bytes, base: nat, gone: seq<nat>, mine: seq<nat>)
    requires OnePage(s, m, base, gone, mine)
    ensures s.lists != [] && s.lists[0] == [base] && base in s.pages && s.pages[base].total == 254 && s.quar == gone
    ensures SlabOk(s.pages[base], base) && |gone| + |mine| < 254 ==> s.pages[base].free != []
    ensures mine != [] ==> mine[0] in s.live && mine[0] != 0 && !IsLargePtr(mine[0]) && !PoisonAt(m, mine[0])
  {
    hide PoisonAt, PageOf;
  }

  /** Free all but the last of the slots held, one after the other. */
  method FillQuarantine(heap: KernelHeap, slots: seq<nat>, ghost base: nat) returns (last: nat, ghost gone: seq<nat>)
    requires heap.Valid() && |slots| == QUARANTINE_SIZE + 1 && OnePage(heap.View(), heap.mem, base, [], slots)
    modifies heap, heap.ring, heap.pmm, heap.pmm.pages, heap.pmm.heads, heap.pmm.counts
    ensures heap.Valid() && |gone| == QUARANTINE_SIZE && OnePage(heap.View(), heap.mem, base, gone, [last])
  {
    hide Sound, Intact, Pmm.PageAllocator.Valid, PoisonAt, OnePage, Released, ReleasedMem, Admit;
    var mine := slots;
    gone := [];
    while |mine| > 1
      invariant heap.Valid() && OnePage(heap.View(), heap.mem, base, gone, mine)
      invariant |mine| >= 1 && |gone| + |mine| == QUARANTINE_SIZE + 1
      decreases |mine|
    {
      ghost var s, m := heap.View(), heap.mem;
      OnePageFacts(s, m, base, gone, mine);
      ghost var held := heap.pmm.Held();
      var halted := heap.Kfree(mine[0]);
      OneGone(s, heap.View(), held, heap.hhdm, m, heap.mem, base, gone, mine);
      gone := gone + [mine[0]];
      mine := mine[1..];
    }
    last := mine[0];
    assert mine == [last];
  }

  /** The next slot of the smallest class to be handed out is one whose checked bytes hold the poison. */
  ghost predicate PoisonNext(s: State, m: Bytes, base: nat) {
    && s.lists != [] && s.lists[0] == [base] && base in s.pages && s.pages[base].free != []
    && PoisonAt(m, s.pages[base].free[0])
  }

  /** Free one more with the quarantine full. */
  method PushOut(heap: KernelHeap, last: nat, ghost base: nat, ghost gone: seq<nat>)
    requires heap.Valid() && |gone| == QUARANTINE_SIZE && OnePage(heap.View(), heap.mem, base, gone, [last])
    modifies heap, heap.ring, heap.pmm, heap.pmm.pages, heap.pmm.heads, heap.pmm.counts
    ensures heap.Valid() && PoisonNext(heap.View(), heap.mem, base)
  {
    hide Sound, Intact, Pmm.PageAllocator.Valid, PoisonAt, OnePage, Released, ReleasedMem, Admit;
    ghost var s, m := heap.View(), heap.mem;
    OnePageFacts(s, m, base, gone, [last]);
    var halted := heap.Kfree(last);
    OldestBack(s, heap.View(), m, heap.mem, base, gone, [last]);
  }

  /** A slot that has been through the quarantine and is handed out again is stopped when its client frees
      it without having written to it: 33 slots are taken and freed, one more is taken, and that is the
      first of them, still poisoned. */
  method RecycledSlotStops(heap: KernelHeap) returns (p: nat, halted: bool)
    requires heap.Valid()
    requires |heap.lists| == CLASSES && heap.lists[0] == [] && heap.Quarantine() == [] && HasRun(heap.pmm.blocks, 0)
    modifies heap, heap.ring, heap.pmm, heap.pmm.pages, heap.pmm.heads, heap.pmm.counts
    ensures heap.Valid() && p in heap.live && heap.live[p] == 16 && halted
  {
    hide Sound, Intact, SameExtent, Fitting, Pmm.PageAllocator.Valid, PoisonAt, HasRun, Allocated, OnePage, Refused, PoisonNext;
    ghost var base, gone;
    var mine, last;
    mine, base := TakeSlots(heap, QUARANTINE_SIZE + 1);
    last, gone := FillQuarantine(heap, mine, base);
    PushOut(heap, last, base, gone);
    ghost var s, m := heap.View(), heap.mem;
    NotRefused(s, heap.pmm.blocks, m, base);
    p := heap.Kmalloc(16);
    FromStock(s, heap.View(), m, heap.mem, base, p);
    halted := heap.Kfree(p);
  }

  /** A page with a free slot serves a request of the class. */
  lemma NotRefused(s: State, b: Blocks, m: Bytes, base: nat)
    requires PoisonNext(s, m, base)
    ensures !Refused(s, b, 16)
  {
    hide PoisonAt;
    SlotLeft(s, b, base);
  }

  lemma FromStock(s: State, t: State, m: Bytes, m': Bytes, base: nat, p: nat)
    requires PoisonNext(s, m, base) && Allocated(s, t, m, m', p, 16)
    ensures PoisonAt(m', p) && !IsLargePtr(p)
  {
    hide PoisonAt;
    assert Stock(s.lists[0], s.pages) == 0;
  }
}
