/** Building the page allocator from a firmware memory map, and what holds of it on every run. */
module PmmBoot {
  import opened Basics
  import opened Dyadic
  import opened BuddyBlocks
  import opened PageFrames
  import opened Pmm

  datatype Region = Region(base: nat, length: nat, usable: bool) {
    function End(): nat {
      base + length
    }
  }

  /** Bytes of one page descriptor. */
  const DESCRIPTOR_SIZE: nat := 32

  ghost predicate Disjoint(memmap: seq<Region>) {
    forall i, j | 0 <= i < j < |memmap| && memmap[i].usable && memmap[j].usable ::
      memmap[i].End() <= memmap[j].base || memmap[j].End() <= memmap[i].base
  }

  ghost predicate IsTop(memmap: seq<Region>, n: nat, top: nat)
    requires n <= |memmap|
  {
    && (forall i | 0 <= i < n && memmap[i].usable :: memmap[i].End() <= top)
    && (top > 0 ==> exists i :: 0 <= i < n && memmap[i].usable && memmap[i].End() == top)
  }

  /** `idx` is the first of the longest usable regions, `size` its length (0 when there is none). */
  ghost predicate IsLongest(memmap: seq<Region>, n: nat, idx: nat, size: nat)
    requires n <= |memmap|
  {
    && (forall i | 0 <= i < n && memmap[i].usable :: memmap[i].length <= size)
    && (size > 0 ==> idx < n && memmap[idx].usable && memmap[idx].length == size
                     && forall i | 0 <= i < idx && memmap[i].usable :: memmap[i].length < size)
    && (size == 0 ==> idx == 0)
  }

  method FindTop(memmap: seq<Region>) returns (top: nat)
    ensures IsTop(memmap, |memmap|, top)
  {
    top := 0;
    for i := 0 to |memmap|
      invariant IsTop(memmap, i, top)
    {
      if memmap[i].usable && memmap[i].End() > top {
        top := memmap[i].End();
      }
    }
  }

  method FindLongest(memmap: seq<Region>) returns (idx: nat, size: nat)
    ensures IsLongest(memmap, |memmap|, idx, size)
  {
    idx, size := 0, 0;
    for i := 0 to |memmap|
      invariant IsLongest(memmap, i, idx, size)
    {
      if memmap[i].usable && memmap[i].length > size {
        idx, size := i, memmap[i].length;
      }
    }
  }

  function MetadataBytes(top: nat): nat {
    top / PAGE_SIZE * DESCRIPTOR_SIZE
  }

  function MetadataPages(top: nat): nat {
    (MetadataBytes(top) + PAGE_SIZE - 1) / PAGE_SIZE
  }

  /** Where region i starts once the page array has been placed at the start of region `steal`. */
  function Low(memmap: seq<Region>, i: nat, steal: nat, meta: nat): nat
    requires i < |memmap|
  {
    memmap[i].base + if i == steal then meta * PAGE_SIZE else 0
  }

  /** Page q lies wholly inside what is left of usable region i. */
  ghost predicate InRegion(memmap: seq<Region>, i: nat, steal: nat, meta: nat, q: nat)
    requires i < |memmap|
  {
    memmap[i].usable && Low(memmap, i, steal, meta) <= q * PAGE_SIZE && (q + 1) * PAGE_SIZE <= memmap[i].End()
  }

  ghost predicate Fed(memmap: seq<Region>, n: nat, steal: nat, meta: nat, q: nat)
    requires n <= |memmap|
  {
    exists i :: 0 <= i < n && InRegion(memmap, i, steal, meta, q)
  }

  function FirstPfn(low: nat): nat {
    (low + PAGE_SIZE - 1) / PAGE_SIZE
  }

  /** The rounding of a region to pages keeps exactly the pages wholly inside it. */
  lemma RegionPages(low: nat, high: nat, q: nat)
    ensures FirstPfn(low) <= q < high / PAGE_SIZE <==> low <= q * PAGE_SIZE && (q + 1) * PAGE_SIZE <= high
  {
  }

  /** A page lies in at most one of several disjoint regions. */
  lemma OneRegion(memmap: seq<Region>, steal: nat, meta: nat, i: nat, j: nat, q: nat)
    requires Disjoint(memmap) && i < |memmap| && j < |memmap|
    requires InRegion(memmap, i, steal, meta, q) && InRegion(memmap, j, steal, meta, q)
    ensures i == j
  {
  }

  /** Set up the allocator: every page wholly inside a usable region, and outside the page
      array taken from the longest one, is free; every other page is reserved. */
  method Init(memmap: seq<Region>) returns (pmm: PageAllocator, steal: nat, top: nat)
    requires Disjoint(memmap)
    requires forall t, i, size | IsTop(memmap, |memmap|, t) && IsLongest(memmap, |memmap|, i, size) ::
               MetadataBytes(t) <= size
    ensures fresh(pmm) && fresh(pmm.pages) && fresh(pmm.heads) && fresh(pmm.counts)
    ensures pmm.Valid() && pmm.Held() == map[] && pmm.usedPages == 0
    ensures IsTop(memmap, |memmap|, top) && pmm.Total() == top / PAGE_SIZE
    ensures exists size :: IsLongest(memmap, |memmap|, steal, size) && MetadataBytes(top) <= size
    ensures forall q: nat :: q in pmm.FreeSet() <==> Fed(memmap, |memmap|, steal, MetadataPages(top), q)
  {
    hide Agree, PagesOf, Only, Holds, Interval, Canonical, InRegion;
    top := FindTop(memmap);
    var size;
    steal, size := FindLongest(memmap);
    var meta := MetadataPages(top);
    var total := top / PAGE_SIZE;
    pmm := new PageAllocator.AllReserved(total);
    NothingYet(total);
    var i := 0;
    while i < |memmap|
      invariant i <= |memmap|
      invariant fresh(pmm) && fresh(pmm.pages) && fresh(pmm.heads) && fresh(pmm.counts)
      invariant pmm.Valid() && pmm.Held() == map[] && pmm.LiveSet() == {}
      invariant forall q: nat :: q in pmm.FreeSet() <==> Fed(memmap, i, steal, meta, q)
    {
      var low, high := Low(memmap, i, steal, meta), memmap[i].End();
      var start, end := FirstPfn(low), high / PAGE_SIZE;
      RegionInterval(memmap, i, steal, meta);
      if memmap[i].usable && low < high && start < end {
        if end > total {
          end := total;
        }
        RegionFresh(memmap, i, steal, meta, top, pmm.FreeSet());
        pmm.FeedRegion(start, end);
      }
      FedNext(memmap, i, steal, meta);
      i := i + 1;
    }
  }

  lemma NothingYet(n: nat)
    ensures PagesOf(map[], Free, n) == {} && PagesOf(map[], Live, n) == {} && Only(map[], Live) == map[]
  {
  }

  lemma FedNext(memmap: seq<Region>, i: nat, steal: nat, meta: nat)
    requires i < |memmap|
    ensures forall q: nat :: Fed(memmap, i + 1, steal, meta, q) <==>
              Fed(memmap, i, steal, meta, q) || InRegion(memmap, i, steal, meta, q)
  {
    forall q: nat
      ensures Fed(memmap, i + 1, steal, meta, q) <==> Fed(memmap, i, steal, meta, q) || InRegion(memmap, i, steal, meta, q)
    {
      if Fed(memmap, i + 1, steal, meta, q) {
        var j :| 0 <= j < i + 1 && InRegion(memmap, j, steal, meta, q);
      }
    }
  }

  lemma RegionInterval(memmap: seq<Region>, i: nat, steal: nat, meta: nat)
    requires i < |memmap|
    ensures forall q: nat :: InRegion(memmap, i, steal, meta, q) <==>
              memmap[i].usable && q in Interval(FirstPfn(Low(memmap, i, steal, meta)), memmap[i].End() / PAGE_SIZE)
    ensures Low(memmap, i, steal, meta) >= memmap[i].End() ==>
              FirstPfn(Low(memmap, i, steal, meta)) >= memmap[i].End() / PAGE_SIZE
  {
    forall q: nat
      ensures InRegion(memmap, i, steal, meta, q) <==>
              memmap[i].usable && q in Interval(FirstPfn(Low(memmap, i, steal, meta)), memmap[i].End() / PAGE_SIZE)
    {
      RegionPages(Low(memmap, i, steal, meta), memmap[i].End(), q);
    }
  }

  /** The pages of region i lie in the page array and were not fed with an earlier region. */
  lemma RegionFresh(memmap: seq<Region>, i: nat, steal: nat, meta: nat, top: nat, free: set<nat>)
    requires Disjoint(memmap) && i < |memmap| && memmap[i].usable && IsTop(memmap, |memmap|, top)
    requires forall q: nat :: q in free <==> Fed(memmap, i, steal, meta, q)
    ensures memmap[i].End() / PAGE_SIZE <= top / PAGE_SIZE
    ensures Interval(FirstPfn(Low(memmap, i, steal, meta)), memmap[i].End() / PAGE_SIZE) !! free
  {
    RegionInterval(memmap, i, steal, meta);
    forall q: nat | q in free && InRegion(memmap, i, steal, meta, q)
      ensures false
    {
      var j :| 0 <= j < i && InRegion(memmap, j, steal, meta, q);
      OneRegion(memmap, steal, meta, i, j, q);
    }
  }

  /** No free page overlaps the page array itself. */
  lemma MetadataNotFree(memmap: seq<Region>, steal: nat, size: nat, top: nat, q: nat)
    requires Disjoint(memmap) && IsLongest(memmap, |memmap|, steal, size) && MetadataBytes(top) <= size
    requires steal < |memmap| && Fed(memmap, |memmap|, steal, MetadataPages(top), q)
    ensures var base := memmap[steal].base;
            (q + 1) * PAGE_SIZE <= base || base + MetadataBytes(top) <= q * PAGE_SIZE
  {
    var i :| 0 <= i < |memmap| && InRegion(memmap, i, steal, MetadataPages(top), q);
    if i == steal {
      assert MetadataBytes(top) <= MetadataPages(top) * PAGE_SIZE;
    } else if i < steal {
      assert memmap[i].End() <= memmap[steal].base || memmap[steal].End() <= memmap[i].base;
    } else {
      assert memmap[steal].End() <= memmap[i].base || memmap[i].End() <= memmap[steal].base;
    }
  }

  // ---------------------------------------------------------------- whole runs

  /** Two allocators with the same free pages have the same free blocks at every order. */
  lemma FreePagesDetermineBlocks(x: PageAllocator, y: PageAllocator)
    requires x.Valid() && y.Valid() && x.Total() == y.Total() && x.FreeSet() == y.FreeSet()
    ensures Only(x.blocks, Free) == Only(y.blocks, Free)
    ensures forall k, p | 0 <= k <= MAX_ORDER :: p in x.lists[k] <==> p in y.lists[k]
  {
    hide TagsOk, ListsOk, PagesOf, Canonical;
    CanonicalUnique(x.blocks, y.blocks, x.Total());
    forall k, p | 0 <= k <= MAX_ORDER
      ensures p in x.lists[k] <==> p in y.lists[k]
    {
      ListedIffFree(x.lists, x.blocks, p, k);
      ListedIffFree(y.lists, y.blocks, p, k);
    }
  }

  lemma ListedIffFree(lists: seq<seq<nat>>, b: Blocks, p: nat, k: nat)
    requires ListsAre(lists, b) && k <= MAX_ORDER
    ensures p in lists[k] <==> p in Only(b, Free) && Only(b, Free)[p] == k
  {
  }

  /** Allocating a block and giving it back restores the free blocks at every order. */
  method AllocThenFree(pmm: PageAllocator, order: nat) returns (phys: nat)
    requires pmm.Valid() && order <= MAX_ORDER && HasRun(pmm.blocks, order)
    modifies pmm, pmm.pages, pmm.heads, pmm.counts
    ensures pmm.Valid() && pmm.Held() == old(pmm.Held())
    ensures Only(pmm.blocks, Free) == old(Only(pmm.blocks, Free))
    ensures pmm.freePages == old(pmm.freePages) && pmm.usedPages == old(pmm.usedPages)
  {
    hide ListsOk, ListsAre, TagsOk, PagesOf, Only, Span, HasRun, Fits, Canonical;
    phys := pmm.AllocPages(order);
    pmm.FreePages(phys, order);
    assert pmm.FreeSet() == old(pmm.FreeSet());
    CanonicalUnique(pmm.blocks, old(pmm.blocks), pmm.Total());
  }

  datatype Request = Get(order: nat) | Release(index: nat)

  /** The blocks a client holds, with their orders, are exactly the live blocks. */
  ghost predicate Tracks(held: seq<(nat, nat)>, live: map<nat, nat>) {
    && (forall i | 0 <= i < |held| :: held[i].0 in live && live[held[i].0] == held[i].1)
    && (forall p | p in live :: exists i :: 0 <= i < |held| && held[i].0 == p)
    && (forall i, j | 0 <= i < j < |held| :: held[i].0 != held[j].0)
  }

  lemma TracksAdd(held: seq<(nat, nat)>, live: map<nat, nat>, p: nat, k: nat)
    requires Tracks(held, live) && p !in live
    ensures Tracks(held + [(p, k)], live[p := k])
  {
    var h := held + [(p, k)];
    forall q | q == p || q in live
      ensures exists i :: 0 <= i < |h| && h[i].0 == q
    {
      if q == p {
        assert h[|held|].0 == p;
      } else {
        var i :| 0 <= i < |held| && held[i].0 == q;
        assert h[i].0 == q;
      }
    }
  }

  lemma DropAt(held: seq<(nat, nat)>, x: nat)
    requires x < |held|
    ensures var h := Without(held, x);
            |h| == |held| - 1 && forall i | 0 <= i < |h| :: h[i] == held[if i < x then i else i + 1]
  {
  }

  lemma TracksDrop(held: seq<(nat, nat)>, live: map<nat, nat>, x: nat)
    requires Tracks(held, live) && x < |held|
    ensures Tracks(Without(held, x), live - {held[x].0})
  {
    DropAt(held, x);
    var h, rest := Without(held, x), live - {held[x].0};
    forall q | q in rest
      ensures exists i :: 0 <= i < |h| && h[i].0 == q
    {
      var i :| 0 <= i < |held| && held[i].0 == q;
      assert h[if i < x then i else i - 1].0 == q;
    }
    forall i | 0 <= i < |h|
      ensures h[i].0 in rest && rest[h[i].0] == h[i].1
    {
      var j := if i < x then i else i + 1;
      assert h[i] == held[j] && j != x;
    }
    forall i, j | 0 <= i < j < |h|
      ensures h[i].0 != h[j].0
    {
      assert h[i] == held[if i < x then i else i + 1] && h[j] == held[if j < x then j else j + 1];
    }
  }

  lemma TracksNothing()
    ensures Tracks([], map[])
  {
  }

  lemma TracksAt(held: seq<(nat, nat)>, live: map<nat, nat>, x: nat)
    requires Tracks(held, live) && x < |held|
    ensures held[x].0 in live && live[held[x].0] == held[x].1
  {
  }

  ghost predicate Ready(pmm: PageAllocator, held: seq<(nat, nat)>)
    reads pmm, pmm.pages, pmm.heads, pmm.counts
  {
    && pmm.Valid() && Tracks(held, pmm.Held())
    && pmm.FreeSet() !! pmm.LiveSet() && 0 !in pmm.FreeSet() + pmm.LiveSet()
  }

  /** What one request does to the blocks b and to the list of blocks held: memory is had exactly when
      an aligned run is free, and then its pages leave the free ones; a block given back returns its own. */
  ghost predicate Served(b: Blocks, h: seq<(nat, nat)>, r: Request, b': Blocks, h': seq<(nat, nat)>, n: nat) {
    match r
    case Get(order) =>
      if HasRun(b, order) then
        && |h'| == |h| + 1 && h <= h' && h'[|h|].1 == order
        && Took(b, b', n, h'[|h|].0, order)
      else b' == b && h' == h
    case Release(x) =>
      if x < |h| then
        && h' == Without(h, x)
        && PagesOf(b', Free, n) == PagesOf(b, Free, n) + Span(h[x].0, h[x].1)
      else b' == b && h' == h
  }

  ghost predicate Took(b: Blocks, b': Blocks, n: nat, p: nat, order: nat) {
    && p > 0 && Fits(p, order, n) && Span(p, order) <= PagesOf(b, Free, n)
    && PagesOf(b', Free, n) == PagesOf(b, Free, n) - Span(p, order)
  }

  method ServeGet(pmm: PageAllocator, order: nat, held: seq<(nat, nat)>) returns (now: seq<(nat, nat)>)
    requires Ready(pmm, held) && order <= MAX_ORDER
    modifies pmm, pmm.pages, pmm.heads, pmm.counts
    ensures Ready(pmm, now) && pmm.reservedPages == old(pmm.reservedPages)
    ensures pmm.FreeSet() + pmm.LiveSet() == old(pmm.FreeSet() + pmm.LiveSet())
    ensures Served(old(pmm.blocks), held, Get(order), pmm.blocks, now, pmm.Total())
  {
    hide Agree, PagesOf, Only, Span, HasRun, Fits, Tracks, Pow2;
    now := held;
    var phys := pmm.AllocPages(order);
    if phys != 0 {
      now := held + [(phys / PAGE_SIZE, order)];
      TracksAdd(held, old(pmm.Held()), phys / PAGE_SIZE, order);
    }
  }

  method ServeRelease(pmm: PageAllocator, x: nat, held: seq<(nat, nat)>) returns (now: seq<(nat, nat)>)
    requires Ready(pmm, held)
    modifies pmm, pmm.pages, pmm.heads, pmm.counts
    ensures Ready(pmm, now) && pmm.reservedPages == old(pmm.reservedPages)
    ensures pmm.FreeSet() + pmm.LiveSet() == old(pmm.FreeSet() + pmm.LiveSet())
    ensures Served(old(pmm.blocks), held, Release(x), pmm.blocks, now, pmm.Total())
  {
    hide Agree, PagesOf, Only, Span, Fits, Tracks, Pow2;
    now := held;
    if x < |held| {
      var (p, order) := held[x];
      TracksAt(held, pmm.Held(), x);
      TracksDrop(held, pmm.Held(), x);
      PageNumber(p);
      pmm.FreePages(p * PAGE_SIZE, order);
      now := Without(held, x);
    }
  }

  /** The run so far: the blocks, and what the client holds, before and after each request. */
  ghost predicate Course(trace: seq<Blocks>, held: seq<seq<(nat, nat)>>, requests: seq<Request>, n: nat) {
    && 0 < |trace| == |held| <= |requests| + 1
    && (forall i | 0 <= i < |trace| - 1 :: Served(trace[i], held[i], requests[i], trace[i + 1], held[i + 1], n))
  }

  lemma CourseGrows(trace: seq<Blocks>, held: seq<seq<(nat, nat)>>, requests: seq<Request>, n: nat,
                    b: Blocks, h: seq<(nat, nat)>)
    requires Course(trace, held, requests, n) && |trace| <= |requests|
    requires Served(trace[|trace| - 1], held[|trace| - 1], requests[|trace| - 1], b, h, n)
    ensures Course(trace + [b], held + [h], requests, n)
  {
    hide Served;
    var t, g := trace + [b], held + [h];
    forall i | 0 <= i < |t| - 1
      ensures Served(t[i], g[i], requests[i], t[i + 1], g[i + 1], n)
    {
      if i < |trace| - 1 {
        assert Served(trace[i], held[i], requests[i], trace[i + 1], held[i + 1], n);
      }
    }
  }

  /** Any sequence of requests, in any order: each is served, the client's blocks are exactly the live
      ones, no page is gained or lost, and once everything is back the free blocks are as at the start. */
  method Run(pmm: PageAllocator, requests: seq<Request>)
    returns (now: seq<(nat, nat)>, ghost trace: seq<Blocks>, ghost held: seq<seq<(nat, nat)>>)
    requires pmm.Valid() && pmm.Held() == map[] && pmm.LiveSet() == {} && 0 !in pmm.FreeSet()
    requires forall r | r in requests && r.Get? :: r.order <= MAX_ORDER
    modifies pmm, pmm.pages, pmm.heads, pmm.counts
    ensures pmm.Valid() && pmm.reservedPages == old(pmm.reservedPages)
    ensures |trace| == |requests| + 1 && Course(trace, held, requests, pmm.Total())
    ensures trace[0] == old(pmm.blocks) && trace[|requests|] == pmm.blocks && held[0] == [] && held[|requests|] == now
    ensures Tracks(now, pmm.Held())
    ensures pmm.FreeSet() !! pmm.LiveSet() && pmm.FreeSet() + pmm.LiveSet() == old(pmm.FreeSet())
    ensures pmm.LiveSet() == {} ==> Only(pmm.blocks, Free) == old(Only(pmm.blocks, Free))
  {
    hide Agree, PagesOf, Only, Canonical, Tracks, Served, Course;
    pmm.IsCanonical();
    now, trace, held := [], [pmm.blocks], [[]];
    TracksNothing();
    CourseStarts(pmm.blocks, requests, pmm.Total());
    var i := 0;
    while i < |requests|
      invariant i <= |requests|
      invariant Ready(pmm, now) && pmm.reservedPages == old(pmm.reservedPages)
      invariant pmm.FreeSet() + pmm.LiveSet() == old(pmm.FreeSet())
      invariant |trace| == |held| == i + 1 && Course(trace, held, requests, pmm.Total())
      invariant trace[0] == old(pmm.blocks) && trace[i] == pmm.blocks && held[0] == [] && held[i] == now
    {
      match requests[i] {
        case Get(order) =>
          assert requests[i] in requests;
          now := ServeGet(pmm, order, now);
        case Release(x) =>
          now := ServeRelease(pmm, x, now);
      }
      CourseGrows(trace, held, requests, pmm.Total(), pmm.blocks, now);
      trace, held := trace + [pmm.blocks], held + [now];
      i := i + 1;
    }
    if pmm.LiveSet() == {} {
      pmm.IsCanonical();
      assert pmm.FreeSet() == old(pmm.FreeSet());
      CanonicalUnique(pmm.blocks, old(pmm.blocks), pmm.Total());
    }
  }

  lemma CourseStarts(b: Blocks, requests: seq<Request>, n: nat)
    ensures Course([b], [[]], requests, n)
  {
  }

  /** The failure value 0 is ambiguous when page 0 is usable: a one-page machine hands out its
      only page and reports failure. */
  method PageZeroReportsFailure() returns (pmm: PageAllocator, phys: nat)
    ensures fresh(pmm) && pmm.Valid() && phys == 0 && pmm.Held() == map[0 := 0] && pmm.freePages == 0
  {
    hide Agree, PagesOf, Only, Span, HasRun, Fits, Canonical, Interval;
    pmm := new PageAllocator.AllReserved(1);
    NothingYet(1);
    pmm.FeedRegion(0, 1);
    PageZeroRun(pmm.blocks);
    phys := pmm.AllocPages(0);
    OnlyPage(phys / PAGE_SIZE);
  }

  lemma PageZeroRun(b: Blocks)
    requires PagesOf(b, Free, 1) == {} + Interval(0, 1)
    ensures HasRun(b, 0)
  {
    assert 0 in PagesOf(b, Free, 1);
    assert FreeRun(b, 0, 0);
  }

  lemma OnlyPage(p: nat)
    requires Fits(p, 0, 1)
    ensures p == 0 && Span(p, 0) == Interval(0, 1)
  {
  }
}
