/** The physical page allocator: free lists by order, splitting on allocation, merging on release. */
module Pmm {
  import opened Basics
  import opened Dyadic
  import opened BuddyBlocks
  import opened PageFrames

  const PAGE_SIZE: nat := 4096

  class PageAllocator {
    const pages: array<Page>
    const heads: array<Link>
    const counts: array<nat>
    var freePages: nat
    var usedPages: nat
    var reservedPages: nat
    var peakUsed: nat

    /** The free lists and the blocks the page array stands for. */
    ghost var lists: seq<seq<nat>>
    ghost var blocks: Blocks

    ghost function Total(): nat {
      pages.Length
    }

    ghost function FreeSet(): set<nat>
      reads this
    {
      PagesOf(blocks, Free, Total())
    }

    ghost function LiveSet(): set<nat>
      reads this
    {
      PagesOf(blocks, Live, Total())
    }

    /** Blocks that callers hold, by first page. */
    ghost function Held(): map<nat, nat>
      reads this
    {
      Only(blocks, Live)
    }

    /** Lists, tags and blocks agree; holds between the steps of an operation as well. */
    ghost predicate Working()
      reads this, pages, heads, counts
    {
      && heads.Length == counts.Length == MAX_ORDER + 1
      && Agree(pages[..], heads[..], counts[..], lists, blocks)
    }

    /** No operation is under way and the page counters are exact. */
    ghost predicate Consistent()
      reads this, pages, heads, counts
    {
      && Working()
      && (forall p | p in blocks :: !blocks[p].kind.Hand?)
      && freePages == |FreeSet()|
      && usedPages == |LiveSet()|
      && freePages + usedPages + reservedPages == Total()
    }

    ghost predicate Valid()
      reads this, pages, heads, counts
    {
      Consistent() && usedPages <= peakUsed
    }

    /** Every page is reserved and all lists are empty. */
    constructor AllReserved(total: nat)
      ensures Valid() && Total() == total
      ensures blocks == map[] && freePages == 0 && usedPages == 0 && reservedPages == total && peakUsed == 0
      ensures fresh(pages) && fresh(heads) && fresh(counts)
    {
      pages := new Page[total](_ => Page(Null, Null, Tag(0, false, true, false)));
      heads := new Link[MAX_ORDER + 1](_ => Null);
      counts := new nat[MAX_ORDER + 1](_ => 0);
      freePages, usedPages, reservedPages, peakUsed := 0, 0, total, 0;
      lists := seq(MAX_ORDER + 1, _ => []);
      blocks := map[];
      new;
      assert FreeSet() == {} && LiveSet() == {};
    }

    // -------------------------------------------------------------- list operations

    method ListAdd(k: nat, p: nat)
      requires heads.Length == counts.Length == MAX_ORDER + 1
      requires k <= MAX_ORDER && p < pages.Length
      requires ListsOk(pages[..], heads[..], counts[..], lists)
      requires forall j | 0 <= j <= MAX_ORDER :: p !in lists[j]
      modifies this`lists, pages, heads, counts
      ensures lists == old(lists)[k := [p] + old(lists)[k]]
      ensures ListsOk(pages[..], heads[..], counts[..], lists)
      ensures SameTags(old(pages[..]), pages[..])
    {
      AddKeepsLists(pages[..], heads[..], counts[..], lists, k, p);
      var head := heads[k];
      pages[p] := pages[p].(prev := Null, next := head);
      if head.At? {
        pages[head.pfn] := pages[head.pfn].(prev := At(p));
      }
      heads[k] := At(p);
      counts[k] := counts[k] + 1;
      lists := lists[k := [p] + lists[k]];
      assert pages[..] == LinkIn(old(pages[..]), head, p);
      assert heads[..] == old(heads[..])[k := At(p)];
      assert counts[..] == old(counts[..])[k := old(counts[k]) + 1];
    }

    method ListRemove(k: nat, p: nat, ghost i: nat)
      requires heads.Length == counts.Length == MAX_ORDER + 1
      requires ListsOk(pages[..], heads[..], counts[..], lists)
      requires k <= MAX_ORDER && i < |lists[k]| && lists[k][i] == p && p < pages.Length
      modifies this`lists, pages, heads, counts
      ensures lists == old(lists)[k := Without(old(lists)[k], i)]
      ensures ListsOk(pages[..], heads[..], counts[..], lists)
      ensures SameTags(old(pages[..]), pages[..])
    {
      RemoveKeepsLists(pages[..], heads[..], counts[..], lists, k, i);
      assert counts[k] == counts[..][k] == |lists[k]|;
      var prev, next := pages[p].prev, pages[p].next;
      if prev.At? {
        pages[prev.pfn] := pages[prev.pfn].(next := next);
      } else {
        heads[k] := next;
      }
      if next.At? {
        pages[next.pfn] := pages[next.pfn].(prev := prev);
      }
      pages[p] := pages[p].(prev := Null, next := Null);
      counts[k] := counts[k] - 1;
      lists := lists[k := Without(lists[k], i)];
      assert pages[..] == LinkOut(old(pages[..]), p);
      assert heads[..] == if i == 0 then old(heads[..])[k := next] else old(heads[..]);
      assert counts[..] == old(counts[..])[k := |old(lists)[k]| - 1];
    }

    // -------------------------------------------------------------- allocation

    /** The first order from `order` up whose free list is not empty, or one past the top. */
    method FirstStocked(order: nat) returns (k: nat)
      requires Working() && order <= MAX_ORDER
      ensures order <= k <= MAX_ORDER + 1
      ensures forall j | order <= j < k :: lists[j] == []
      ensures k <= MAX_ORDER ==> lists[k] != []
    {
      k := order;
      while k <= MAX_ORDER && heads[k] == Null
        invariant order <= k <= MAX_ORDER + 1
        invariant forall j | order <= j < k :: lists[j] == []
      {
        assert heads[..][k] == LinkTo(lists[k], 0);
        k := k + 1;
      }
      if k <= MAX_ORDER {
        assert heads[..][k] == LinkTo(lists[k], 0);
      }
    }

    /** Take the first block of list k in hand. */
    method TakeFirst(k: nat) returns (p: nat)
      requires Working() && k <= MAX_ORDER && lists[k] != []
      requires forall q | q in blocks :: !blocks[q].kind.Hand?
      modifies this`lists, this`blocks, pages, heads, counts
      ensures Working() && p < pages.Length && p == old(lists)[k][0]
      ensures IsFree(old(blocks), p, k) && blocks == old(blocks)[p := Block(k, Hand)]
      ensures !pages[p].tag.head
    {
      hide TagsOk, Canonical, ListsAre, IsFree, Without;
      p := heads[k].pfn;
      ListHead(pages[..], heads[..], counts[..], lists, k);
      ListRemove(k, p, 0);
      ghost var mid := pages[..];
      pages[p] := pages[p].(tag := pages[p].tag.(head := false));
      blocks := blocks[p := Block(k, Hand)];
      TakeStep(old(pages[..]), mid, pages[..], heads[..], counts[..], old(lists), old(blocks), k, 0);
    }

    method SplitHalf(p: nat, k: nat)
      requires Working() && p < pages.Length && !pages[p].tag.head
      requires p in blocks && blocks[p] == Block(k + 1, Hand) && OneHand(blocks, p)
      modifies this`lists, this`blocks, this`freePages, pages, heads, counts
      ensures Working() && blocks == SplitOnce(old(blocks), p, k)
      ensures !pages[p].tag.head
      ensures freePages == old(freePages) + Pow2(k)
    {
      hide ListsOk, ListsAre, TagsOk, Canonical, PagesOf, Only, Span, Base, Pow2, SameTags, SplitOnce;
      var h := p + Pow2(k);
      SplitEffect(blocks, Total(), p, k);
      NotListed(lists, blocks, h);
      pages[h] := pages[h].(tag := Tag(k, false, false, true));
      ghost var mid := pages[..];
      RetagLists(old(pages[..]), h, Tag(k, false, false, true), heads[..], counts[..], lists);
      ListAdd(k, h);
      freePages := freePages + Pow2(k);
      blocks := SplitOnce(blocks, p, k);
      SplitStep(old(pages[..]), mid, pages[..], heads[..], counts[..], old(lists), old(blocks), p, k);
      assert mid[p] == old(pages[..])[p];
      TagKept(mid, pages[..], p);
    }

    /** Split the block in hand down to `order`, freeing each upper half. */
    method SplitDown(p: nat, k: nat, order: nat)
      requires Working() && order <= k && p < pages.Length && !pages[p].tag.head
      requires p in blocks && blocks[p] == Block(k, Hand) && OneHand(blocks, p)
      modifies this`lists, this`blocks, this`freePages, pages, heads, counts
      ensures Working() && p in blocks && blocks[p] == Block(order, Hand) && OneHand(blocks, p)
      ensures FreeSet() == old(FreeSet()) + (Span(p, k) - Span(p, order)) && Span(p, order) <= Span(p, k)
      ensures freePages + Pow2(order) == old(freePages) + Pow2(k)
      ensures Held() == old(Held()) && LiveSet() == old(LiveSet())
    {
      hide Agree, PagesOf, Only, Span, Base, Pow2, SplitOnce;
      var cur := k;
      while cur > order
        invariant order <= cur <= k
        invariant Working() && p in blocks && blocks[p] == Block(cur, Hand) && OneHand(blocks, p)
        invariant !pages[p].tag.head
        invariant FreeSet() == old(FreeSet()) + (Span(p, k) - Span(p, cur)) && Span(p, cur) <= Span(p, k)
        invariant freePages + Pow2(cur) == old(freePages) + Pow2(k)
        invariant Held() == old(Held()) && LiveSet() == old(LiveSet())
      {
        cur := cur - 1;
        IsCanonical();
        SplitEffect(blocks, Total(), p, cur);
        SplitHalf(p, cur);
      }
    }

    lemma IsCanonical()
      requires Working()
      ensures Canonical(blocks, Total()) && ListsAre(lists, blocks)
    {
    }

    /** Hand the block over to the caller. */
    method Deliver(p: nat, order: nat)
      requires Working() && p < pages.Length && p in blocks && blocks[p] == Block(order, Hand)
      modifies this`blocks, this`usedPages, this`peakUsed, pages
      ensures Working() && blocks == old(blocks)[p := Block(order, Live)]
      ensures usedPages == old(usedPages) + Pow2(order)
      ensures peakUsed == if usedPages > old(peakUsed) then usedPages else old(peakUsed)
    {
      hide ListsOk, ListsAre, TagsOk, Canonical, Pow2;
      pages[p] := pages[p].(tag := Tag(order, true, false, false));
      usedPages := usedPages + Pow2(order);
      if usedPages > peakUsed {
        peakUsed := usedPages;
      }
      blocks := blocks[p := Block(order, Live)];
      RetagStep(old(pages[..]), pages[..], heads[..], counts[..], lists, old(blocks), p, Live);
    }

    /** Allocate 2^order pages: the physical address of the block, or 0. */
    method AllocPages(order: nat) returns (phys: nat)
      requires Valid() && order <= MAX_ORDER
      modifies this, pages, heads, counts
      ensures Valid() && reservedPages == old(reservedPages)
      ensures !HasRun(old(blocks), order) ==> phys == 0 && blocks == old(blocks) && peakUsed == old(peakUsed)
      ensures HasRun(old(blocks), order) ==>
                var p := phys / PAGE_SIZE;
                && phys == p * PAGE_SIZE && Fits(p, order, Total()) && FromSmallest(old(blocks), p, order)
                && p !in old(Held()) && Held() == old(Held())[p := order]
                && Span(p, order) <= old(FreeSet())
                && FreeSet() == old(FreeSet()) - Span(p, order)
                && LiveSet() == old(LiveSet()) + Span(p, order)
                && peakUsed == (if usedPages > old(peakUsed) then usedPages else old(peakUsed))
      ensures phys == 0 <==> !HasRun(old(blocks), order) || (0 in Held() && 0 !in old(Held()))
      ensures 0 !in old(FreeSet()) ==> (phys == 0 <==> !HasRun(old(blocks), order))
      ensures forall k: nat | FirstList(old(lists), order, k) :: phys == 0 <==> old(lists)[k][0] == 0
    {
      hide Agree, PagesOf, Only, Span, Base, Pow2, SplitOnce, HasRun, Fits, Canonical, ListsAre, FromSmallest;
      var cur := FirstStocked(order);
      IsCanonical();
      StockIffRun(lists, blocks, Total(), order, cur);
      if cur > MAX_ORDER {
        return 0;
      }
      SmallestStock(lists, blocks, order, cur);
      var p := Carve(cur, order);
      assert p in Span(p, order);
      assert forall k: nat | FirstList(old(lists), order, k) :: k == cur;
      phys := p * PAGE_SIZE;
    }

    /** Cut a block of `order` pages out of the first block of list `cur`. */
    method Carve(cur: nat, order: nat) returns (p: nat)
      requires Valid() && order <= cur <= MAX_ORDER && lists[cur] != []
      modifies this, pages, heads, counts
      ensures Valid() && reservedPages == old(reservedPages) && p == old(lists)[cur][0]
      ensures Fits(p, order, Total()) && p !in old(Held()) && Held() == old(Held())[p := order]
      ensures Span(p, order) <= old(FreeSet())
      ensures FreeSet() == old(FreeSet()) - Span(p, order)
      ensures LiveSet() == old(LiveSet()) + Span(p, order)
      ensures peakUsed == (if usedPages > old(peakUsed) then usedPages else old(peakUsed))
    {
      hide Agree, PagesOf, Only, Span, Base, Pow2, SplitOnce, Fits, Canonical, ListsAre, IsFree;
      IsCanonical();
      p := TakeFirst(cur);
      TakeEffect(old(blocks), Total(), p, cur);
      SubsetSize(Span(p, cur), old(FreeSet()));
      freePages := freePages - Pow2(cur);
      SplitDown(p, cur, order);
      IsCanonical();
      DeliverEffect(blocks, Total(), p, order);
      CutOut(old(FreeSet()), Span(p, cur), Span(p, order));
      Deliver(p, order);
    }

    // -------------------------------------------------------------- release

    /** The test that decides a merge: one flag and one order on the buddy's first page. */
    predicate IsBuddyFree(bpfn: nat, k: nat)
      reads pages
    {
      bpfn < pages.Length && pages[bpfn].tag.head && pages[bpfn].tag.order == k
    }

    /** Merge the block in hand with its buddy; m is the first page of the pair. */
    method MergeOnce(p: nat, k: nat) returns (m: nat)
      requires Working() && k < MAX_ORDER && p < pages.Length && pages[p].tag.head && pages[p].tag.order == k
      requires p in blocks && blocks[p] == Block(k, Hand) && OneHand(blocks, p)
      requires IsFree(blocks, Buddy(p, k), k)
      modifies this`lists, this`blocks, pages, heads, counts
      ensures Working() && blocks == Merged(old(blocks), p, k) && m == Base(p, k + 1)
      ensures m < pages.Length && pages[m].tag.head && pages[m].tag.order == k + 1
    {
      hide ListsOk, ListsAre, TagsOk, Canonical, PagesOf, Only, Span, Base, Pow2, Merged, Buddy, IsFree;
      var d := Buddy(p, k);
      ghost var i := PlaceInList(pages[..], lists, blocks, d, k);
      MergeEffect(blocks, Total(), p, k);
      ListHead(pages[..], heads[..], counts[..], lists, k);
      ListRemove(k, d, i);
      ghost var mid := pages[..];
      pages[d] := pages[d].(tag := pages[d].tag.(head := false));
      m := if d < p then d else p;
      pages[m] := pages[m].(tag := Tag(k + 1, false, false, true));
      blocks := Merged(blocks, p, k);
      MergeStep(old(pages[..]), mid, pages[..], heads[..], counts[..], old(lists), old(blocks), p, k, i);
    }

    /** Climb the orders, merging while the buddy is free. */
    method MergeUp(p: nat, k: nat) returns (m: nat, j: nat)
      requires Working() && k <= MAX_ORDER && p < pages.Length && pages[p].tag.head && pages[p].tag.order == k
      requires p in blocks && blocks[p] == Block(k, Hand) && OneHand(blocks, p)
      modifies this`lists, this`blocks, pages, heads, counts
      ensures Working() && j <= MAX_ORDER && m < pages.Length && pages[m].tag.head && pages[m].tag.order == j
      ensures m in blocks && blocks[m] == Block(j, Hand) && OneHand(blocks, m)
      ensures j < MAX_ORDER ==> !IsFree(blocks, Buddy(m, j), j)
      ensures FreeSet() + Span(m, j) == old(FreeSet()) + Span(p, k)
      ensures Held() == old(Held()) && LiveSet() == old(LiveSet())
    {
      hide Agree, PagesOf, Only, Span, Base, Pow2, Merged, Buddy, IsFree;
      m, j := p, k;
      while j < MAX_ORDER
        invariant Working() && j <= MAX_ORDER && m < pages.Length && pages[m].tag.head && pages[m].tag.order == j
        invariant m in blocks && blocks[m] == Block(j, Hand) && OneHand(blocks, m)
        invariant FreeSet() + Span(m, j) == old(FreeSet()) + Span(p, k)
        invariant Held() == old(Held()) && LiveSet() == old(LiveSet())
      {
        TestExact(m, j);
        if !IsBuddyFree(Buddy(m, j), j) {
          break;
        }
        IsCanonical();
        MergeEffect(blocks, Total(), m, j);
        MergeConserves(FreeSet(), Span(m, j), Span(Buddy(m, j), j));
        m := MergeOnce(m, j);
        j := j + 1;
      }
    }

    lemma TestExact(p: nat, k: nat)
      requires Working() && p in blocks && blocks[p].order == k && OneHand(blocks, p)
      ensures IsFree(blocks, Buddy(p, k), k) <==> IsBuddyFree(Buddy(p, k), k)
    {
      MergeTestExact(pages[..], blocks, p, k);
    }

    /** Give back a block that AllocPages delivered. */
    method FreePages(phys: nat, order: nat)
      requires Consistent() && phys % PAGE_SIZE == 0
      requires phys / PAGE_SIZE in Held() && Held()[phys / PAGE_SIZE] == order
      modifies this, pages, heads, counts
      ensures Consistent() && reservedPages == old(reservedPages) && peakUsed == old(peakUsed)
      ensures var p := phys / PAGE_SIZE;
              && Held() == old(Held()) - {p}
              && FreeSet() == old(FreeSet()) + Span(p, order)
              && LiveSet() == old(LiveSet()) - Span(p, order)
              && Span(p, order) <= old(LiveSet())
              && usedPages == old(usedPages) - Pow2(order)
    {
      hide ListsOk, ListsAre, TagsOk, Canonical, PagesOf, Span, Base, Pow2, Buddy, IsFree;
      var p := phys / PAGE_SIZE;
      ghost var was, free := blocks, FreeSet();
      RecallEffect(was, Total(), p, order);
      SubsetSize(Span(p, order), LiveSet());
      FirstPage(p, order, Total());
      Recall(p, order);
      freePages := freePages + Pow2(order);
      usedPages := usedPages - Pow2(order);
      var m, j := MergeUp(p, order);
      PutEffect(blocks, Total(), m, j);
      Put(m, j);
      assert FreeSet() == free + Span(p, order);
      FreshSize(free, Span(p, order), was, Total(), p);
    }

    /** Mark the first page of a live block as a free head: the block is in hand. */
    method Recall(p: nat, order: nat)
      requires Working() && p < pages.Length && p in blocks && blocks[p] == Block(order, Live)
      modifies this`blocks, pages
      ensures Working() && blocks == old(blocks)[p := Block(order, Hand)]
      ensures pages[p].tag.head && pages[p].tag.order == order
    {
      hide ListsOk, ListsAre, TagsOk, Canonical;
      pages[p] := pages[p].(tag := Tag(order, false, false, true));
      blocks := blocks[p := Block(order, Hand)];
      RetagStep(old(pages[..]), pages[..], heads[..], counts[..], lists, old(blocks), p, Hand);
    }

    /** Put the block in hand on its free list. */
    method Put(m: nat, j: nat)
      requires Working() && j <= MAX_ORDER && m < pages.Length && pages[m].tag.head && pages[m].tag.order == j
      requires m in blocks && blocks[m] == Block(j, Hand)
      requires j < MAX_ORDER ==> !IsFree(blocks, Buddy(m, j), j)
      modifies this`lists, this`blocks, pages, heads, counts
      ensures Working() && blocks == old(blocks)[m := Block(j, Free)]
    {
      hide ListsOk, ListsAre, TagsOk, Canonical, Buddy, IsFree, SameTags;
      NotListed(lists, blocks, m);
      ListAdd(j, m);
      blocks := blocks[m := Block(j, Free)];
      PutStep(old(pages[..]), pages[..], heads[..], counts[..], old(lists), old(blocks), m);
    }

    // -------------------------------------------------------------- feeding regions

    /** Tag every page of a block used and count the block as allocated. */
    method ClaimBlock(p: nat, k: nat)
      requires Consistent() && Fits(p, k, Total())
      requires Span(p, k) !! FreeSet() && Span(p, k) !! LiveSet()
      modifies this, pages
      ensures Consistent() && peakUsed == old(peakUsed)
      ensures FreeSet() == old(FreeSet()) && LiveSet() == old(LiveSet()) + Span(p, k)
      ensures p !in old(Held()) && Held() == old(Held())[p := k]
      ensures usedPages == old(usedPages) + Pow2(k) && reservedPages == old(reservedPages) - Pow2(k)
    {
      hide Agree, PagesOf, Only, Span, Base, Pow2, Unclaimed, Canonical, Fits, Interval;
      IsCanonical();
      SpanIn(0, p, k, Total());
      UnclaimedPages(blocks, Total(), p, k);
      ClaimPages(blocks, Total(), p, k);
      ThreeParts(FreeSet(), LiveSet(), Span(p, k), blocks, Total());
      TagBlock(p, k);
      reservedPages := reservedPages - Pow2(k);
      usedPages := usedPages + Pow2(k);
    }

    method TagBlock(p: nat, k: nat)
      requires Working() && Fits(p, k, Total()) && Unclaimed(blocks, p, k)
      modifies this`blocks, pages
      ensures Working() && blocks == old(blocks)[p := Block(k, Live)]
    {
      hide ListsOk, ListsAre, TagsOk, Base, Pow2, Unclaimed, Canonical, SameLinks;
      MarkUsed(p, Pow2(k));
      blocks := blocks[p := Block(k, Live)];
      ClaimStep(old(pages[..]), pages[..], heads[..], counts[..], lists, old(blocks), p, k);
    }

    method MarkUsed(p: nat, size: nat)
      requires p + size <= pages.Length
      modifies pages
      ensures SameLinks(old(pages[..]), pages[..])
      ensures forall q | 0 <= q < pages.Length ::
                if p <= q < p + size then pages[q].tag.used && !pages[q].tag.head
                else pages[q].tag == old(pages[q]).tag
    {
      var i := 0;
      while i < size
        invariant i <= size
        invariant SameLinks(old(pages[..]), pages[..])
        invariant forall q | 0 <= q < pages.Length ::
                    if p <= q < p + i then pages[q].tag.used && !pages[q].tag.head
                    else pages[q].tag == old(pages[q]).tag
      {
        pages[p + i] := pages[p + i].(tag := pages[p + i].tag.(used := true, reserved := false, head := false));
        i := i + 1;
      }
    }

    method FeedBlock(p: nat, k: nat)
      requires Valid() && Fits(p, k, Total())
      requires Span(p, k) !! FreeSet() && Span(p, k) !! LiveSet()
      modifies this, pages, heads, counts
      ensures Valid() && peakUsed == old(peakUsed)
      ensures FreeSet() == old(FreeSet()) + Span(p, k)
      ensures LiveSet() == old(LiveSet()) && Held() == old(Held())
      ensures usedPages == old(usedPages) && reservedPages == old(reservedPages) - Pow2(k)
    {
      hide Agree, PagesOf, Only, Span, Base, Pow2, Fits;
      ClaimBlock(p, k);
      PageNumber(p);
      FreePages(p * PAGE_SIZE, k);
    }

    /** Hand the pages from start up to end to the free lists, in the largest aligned blocks. */
    method FeedRegion(start: nat, end: nat)
      requires Valid() && start <= end <= Total()
      requires Interval(start, end) !! FreeSet() && Interval(start, end) !! LiveSet()
      modifies this, pages, heads, counts
      ensures Valid() && peakUsed == old(peakUsed)
      ensures FreeSet() == old(FreeSet()) + Interval(start, end)
      ensures LiveSet() == old(LiveSet()) && Held() == old(Held())
      ensures usedPages == old(usedPages) && reservedPages == old(reservedPages) - (end - start)
    {
      hide PageAllocator.Valid, PageAllocator.FreeSet, PageAllocator.LiveSet, PageAllocator.Held;
      hide Agree, PagesOf, Only, Span, Base, Pow2, Canonical, Interval, Fits;
      var pfn := start;
      while pfn < end
        invariant start <= pfn <= end
        invariant Valid() && peakUsed == old(peakUsed)
        invariant FreeSet() == old(FreeSet()) + Interval(start, pfn)
        invariant LiveSet() == old(LiveSet()) && Held() == old(Held())
        invariant usedPages == old(usedPages) && reservedPages == old(reservedPages) - (pfn - start)
      {
        var order := LargestBlock(pfn, end);
        FeedNext(old(FreeSet()), LiveSet(), start, pfn, order, end);
        FitsWider(pfn, order, end, Total());
        FeedBlock(pfn, order);
        pfn := pfn + Pow2(order);
      }
    }
  }

  lemma SubsetSize(a: set<nat>, b: set<nat>)
    requires a <= b
    ensures |a| <= |b| && |b - a| == |b| - |a|
  {
    assert b == a + (b - a);
  }

  /** Taking a part out and giving all but its kernel back takes the kernel out. */
  lemma CutOut(free: set<nat>, part: set<nat>, kernel: set<nat>)
    requires kernel <= part <= free
    ensures free - part + (part - kernel) == free - kernel && |free - kernel| == |free| - |kernel|
  {
    SubsetSize(kernel, free);
  }

  lemma MergeConserves(free: set<nat>, own: set<nat>, other: set<nat>)
    requires other <= free
    ensures (free - other) + (own + other) == free + own
  {
  }

  /** The pages of a live block were not free. */
  lemma FreshSize(free: set<nat>, span: set<nat>, b: Blocks, n: nat, p: nat)
    requires Canonical(b, n) && p in b && b[p].kind.Live?
    requires free == PagesOf(b, Free, n) && span == Span(p, b[p].order)
    ensures free !! span && |free + span| == |free| + |span|
  {
    BlockPages(b, n, p);
    KindsDisjoint(b, n, Free, Live);
  }

  lemma SpanIn(start: nat, p: nat, k: nat, end: nat)
    requires start <= p && Fits(p, k, end)
    ensures Span(p, k) <= Interval(start, end) && p < p + Pow2(k) <= end
    ensures Interval(start, p + Pow2(k)) == Interval(start, p) + Span(p, k) && Span(p, k) !! Interval(start, p)
  {
    hide Base, Pow2, Span, Interval;
  }

  /** The next block of a region lies outside what was free, what is live and what was fed before. */
  lemma FeedNext(free: set<nat>, live: set<nat>, start: nat, p: nat, k: nat, end: nat)
    requires start <= p && Fits(p, k, end) && Interval(start, end) !! free && Interval(start, end) !! live
    ensures Span(p, k) !! free + Interval(start, p) && Span(p, k) !! live && p < p + Pow2(k) <= end
    ensures free + Interval(start, p) + Span(p, k) == free + Interval(start, p + Pow2(k))
  {
    hide Base, Pow2, Span, Interval, Fits;
    SpanIn(start, p, k, end);
  }

  lemma FitsWider(p: nat, k: nat, end: nat, n: nat)
    requires Fits(p, k, end) && end <= n
    ensures Fits(p, k, n)
  {
  }

  lemma PageNumber(p: nat)
    ensures (p * PAGE_SIZE) % PAGE_SIZE == 0 && (p * PAGE_SIZE) / PAGE_SIZE == p
  {
  }

  /** Three disjoint sets of pages fit in the page array together. */
  lemma ThreeParts(free: set<nat>, live: set<nat>, span: set<nat>, b: Blocks, n: nat)
    requires Canonical(b, n) && free == PagesOf(b, Free, n) && live == PagesOf(b, Live, n)
    requires span !! free && span !! live && span <= Interval(0, n)
    ensures |free| + |live| + |span| <= n && |live + span| == |live| + |span|
  {
    KindsDisjoint(b, n, Free, Live);
    assert free <= Interval(0, n) && live <= Interval(0, n);
    SubsetSize(free + live + span, Interval(0, n));
    assert |free + live + span| == |free| + |live| + |span|;
  }

  /** The largest order of a block that starts at pfn and ends by `end`. */
  method LargestBlock(pfn: nat, end: nat) returns (order: nat)
    requires pfn < end
    ensures Fits(pfn, order, end)
    ensures forall k: nat | Fits(pfn, k, end) :: k <= order
  {
    order := 0;
    while order < MAX_ORDER
      invariant Fits(pfn, order, end)
    {
      var size := Pow2(order + 1);
      BaseIsRemainder(pfn, order + 1);
      if pfn % size != 0 {
        NoLarger(pfn, order + 1, end);
        return;
      }
      if pfn + size > end {
        NoLarger(pfn, order + 1, end);
        return;
      }
      order := order + 1;
    }
  }

  lemma NoLarger(pfn: nat, k: nat, end: nat)
    requires !Fits(pfn, k, end) && k <= MAX_ORDER
    ensures forall j: nat | Fits(pfn, j, end) :: j < k
  {
    forall j: nat | Fits(pfn, j, end)
      ensures j < k
    {
      if j >= k {
        AlignedBelow(pfn, k, j);
        Pow2Monotone(k, j);
      }
    }
  }

  lemma FirstPage(p: nat, k: nat, n: nat)
    requires Fits(p, k, n)
    ensures p < n && k <= MAX_ORDER
  {
  }

  /** Where a free block sits on its list. */
  lemma PlaceInList(pages: seq<Page>, lists: seq<seq<nat>>, b: Blocks, p: nat, k: nat) returns (i: nat)
    requires ListsAre(lists, b) && TagsOk(pages, b) && IsFree(b, p, k) && k <= MAX_ORDER
    ensures i < |lists[k]| && lists[k][i] == p && p < |pages|
  {
    i :| 0 <= i < |lists[k]| && lists[k][i] == p;
  }

  /** Order k is the first from `order` on with a free block. */
  ghost predicate FirstList(lists: seq<seq<nat>>, order: nat, k: nat) {
    order <= k < |lists| && lists[k] != [] && forall j | order <= j < k :: lists[j] == []
  }

  /** p starts a free block, and no free block that is large enough is smaller. */
  ghost predicate FromSmallest(b: Blocks, p: nat, order: nat) {
    && p in b && b[p].kind.Free? && b[p].order >= order
    && (forall q | q in b && b[q].kind.Free? && b[q].order >= order :: b[p].order <= b[q].order)
  }

  lemma SmallestStock(lists: seq<seq<nat>>, b: Blocks, order: nat, k: nat)
    requires ListsAre(lists, b) && order <= k <= MAX_ORDER && lists[k] != []
    requires forall j | order <= j < k :: lists[j] == []
    ensures FromSmallest(b, lists[k][0], order)
  {
    assert IsFree(b, lists[k][0], k);
  }

  /** The search over the free lists stops at a stocked order exactly when a free run exists. */
  lemma StockIffRun(lists: seq<seq<nat>>, b: Blocks, n: nat, order: nat, k: nat)
    requires ListsAre(lists, b) && Canonical(b, n) && order <= MAX_ORDER && order <= k <= MAX_ORDER + 1
    requires forall j | order <= j < k :: lists[j] == []
    requires k <= MAX_ORDER ==> lists[k] != []
    ensures HasRun(b, order) <==> k <= MAX_ORDER
  {
    BlockIffRun(b, n, order);
    if k <= MAX_ORDER {
      assert IsFree(b, lists[k][0], k);
    }
    if p :| p in b && b[p].kind.Free? && b[p].order >= order {
      assert p in lists[b[p].order];
    }
  }
}
