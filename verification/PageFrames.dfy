/** The page array of the buddy allocator: free lists threaded through it, and what the
    flags on its entries mean. */
module PageFrames {
  import opened Basics
  import opened Dyadic
  import opened BuddyBlocks

  datatype Link = Null | At(pfn: nat)

  /** The flag word and order of a page: PAGE_USED, PAGE_RESERVED, PAGE_BUDDY_HEAD as booleans
      (PAGE_FREE is the zero word). */
  datatype Tag = Tag(order: nat, used: bool, reserved: bool, head: bool)

  datatype Page = Page(next: Link, prev: Link, tag: Tag)

  // ---------------------------------------------------------------- linked lists

  ghost predicate Distinct(list: seq<nat>) {
    forall i, j | 0 <= i < j < |list| :: list[i] != list[j]
  }

  ghost function LinkTo(list: seq<nat>, i: int): Link {
    if 0 <= i < |list| then At(list[i]) else Null
  }

  /** `list` is threaded through the page array in both directions. */
  ghost predicate Threaded(pages: seq<Page>, list: seq<nat>) {
    && Distinct(list)
    && (forall i | 0 <= i < |list| :: list[i] < |pages|)
    && forall i {:trigger pages[list[i]]} | 0 <= i < |list| ::
         && pages[list[i]].next == LinkTo(list, i + 1)
         && pages[list[i]].prev == LinkTo(list, i - 1)
  }

  ghost predicate Separate(lists: seq<seq<nat>>) {
    forall j, k, p | 0 <= j < |lists| && 0 <= k < |lists| && p in lists[j] && p in lists[k] :: j == k
  }

  /** All free lists are well formed, have the recorded heads and lengths, and share no page. */
  ghost predicate ListsOk(pages: seq<Page>, heads: seq<Link>, counts: seq<nat>, lists: seq<seq<nat>>) {
    && |heads| == |counts| == |lists| == MAX_ORDER + 1
    && Separate(lists)
    && forall k | 0 <= k <= MAX_ORDER ::
         Threaded(pages, lists[k]) && heads[k] == LinkTo(lists[k], 0) && counts[k] == |lists[k]|
  }

  ghost predicate SameTags(a: seq<Page>, b: seq<Page>) {
    |a| == |b| && forall q | 0 <= q < |a| :: a[q].tag == b[q].tag
  }

  /** The page array after `p` is pushed in front of the list starting at `head`. */
  function LinkIn(pages: seq<Page>, head: Link, p: nat): (r: seq<Page>)
    requires p < |pages| && (head.At? ==> head.pfn < |pages|)
    ensures SameTags(pages, r)
  {
    var a := pages[p := pages[p].(prev := Null, next := head)];
    if head.At? then a[head.pfn := a[head.pfn].(prev := At(p))] else a
  }

  /** The page array after `p` is taken out of its list. */
  function LinkOut(pages: seq<Page>, p: nat): (r: seq<Page>)
    requires p < |pages|
    requires pages[p].prev.At? ==> pages[p].prev.pfn < |pages|
    requires pages[p].next.At? ==> pages[p].next.pfn < |pages|
    ensures SameTags(pages, r)
  {
    var g := pages[p];
    var a := if g.prev.At? then pages[g.prev.pfn := pages[g.prev.pfn].(next := g.next)] else pages;
    var b := if g.next.At? then a[g.next.pfn := a[g.next.pfn].(prev := g.prev)] else a;
    b[p := b[p].(prev := Null, next := Null)]
  }

  lemma PushThreads(pages: seq<Page>, list: seq<nat>, p: nat)
    requires Threaded(pages, list) && p !in list && p < |pages|
    ensures Threaded(LinkIn(pages, LinkTo(list, 0), p), [p] + list)
  {
    var r, l := LinkIn(pages, LinkTo(list, 0), p), [p] + list;
    forall i | 0 <= i < |l|
      ensures l[i] < |r| && r[l[i]].next == LinkTo(l, i + 1) && r[l[i]].prev == LinkTo(l, i - 1)
    {
      if i >= 1 {
        assert l[i] == list[i - 1];
        assert LinkTo(l, i + 1) == LinkTo(list, i);
        if i >= 2 {
          assert LinkTo(l, i - 1) == LinkTo(list, i - 2);
        }
      } else {
        assert LinkTo(l, 1) == LinkTo(list, 0);
      }
    }
  }

  /** The links of the other entries of a list once list[i] is taken out. */
  ghost predicate Unthreaded(r: seq<Page>, list: seq<nat>, i: nat) {
    && (forall y | 0 <= y < |list| && y != i :: list[y] < |r|)
    && forall y {:trigger r[list[y]]} | 0 <= y < |list| && y != i ::
      && r[list[y]].next == (if y == i - 1 then LinkTo(list, i + 1) else LinkTo(list, y + 1))
      && r[list[y]].prev == (if y == i + 1 then LinkTo(list, i - 1) else LinkTo(list, y - 1))
  }

  lemma LinkOutUnthreads(pages: seq<Page>, list: seq<nat>, i: nat)
    requires Threaded(pages, list) && i < |list|
    ensures pages[list[i]].prev.At? ==> pages[list[i]].prev.pfn < |pages|
    ensures pages[list[i]].next.At? ==> pages[list[i]].next.pfn < |pages|
    ensures Unthreaded(LinkOut(pages, list[i]), list, i)
  {
    var p := list[i];
    assert pages[p].prev == LinkTo(list, i - 1) && pages[p].next == LinkTo(list, i + 1);
    var r := LinkOut(pages, p);
    forall y | 0 <= y < |list| && y != i
      ensures r[list[y]].next == (if y == i - 1 then LinkTo(list, i + 1) else LinkTo(list, y + 1))
      ensures r[list[y]].prev == (if y == i + 1 then LinkTo(list, i - 1) else LinkTo(list, y - 1))
    {
      assert pages[list[y]].prev == LinkTo(list, y - 1) && pages[list[y]].next == LinkTo(list, y + 1);
    }
  }

  lemma WithoutAt(list: seq<nat>, i: nat)
    requires i < |list|
    ensures |Without(list, i)| == |list| - 1
    ensures forall x | 0 <= x < |list| - 1 :: Without(list, i)[x] == list[if x < i then x else x + 1]
    ensures forall x :: x in Without(list, i) ==> x in list
    ensures Distinct(list) ==> Distinct(Without(list, i))
  {
  }

  lemma LinkToWithout(list: seq<nat>, i: nat, x: int)
    requires i < |list|
    ensures LinkTo(Without(list, i), x) == LinkTo(list, if x < i then x else x + 1)
  {
  }

  lemma RemoveThreads(r: seq<Page>, list: seq<nat>, i: nat)
    requires Distinct(list) && i < |list| && Unthreaded(r, list, i)
    ensures Threaded(r, Without(list, i))
  {
    WithoutAt(list, i);
    var l := Without(list, i);
    forall x | 0 <= x < |l|
      ensures l[x] < |r| && r[l[x]].next == LinkTo(l, x + 1) && r[l[x]].prev == LinkTo(l, x - 1)
    {
      LinkToWithout(list, i, x + 1);
      LinkToWithout(list, i, x - 1);
    }
  }

  /** Entries of a list are unaffected by changes to links of pages outside it. */
  lemma ThreadFrame(pages: seq<Page>, r: seq<Page>, list: seq<nat>)
    requires Threaded(pages, list) && |r| == |pages|
    requires forall i | 0 <= i < |list| :: r[list[i]].next == pages[list[i]].next && r[list[i]].prev == pages[list[i]].prev
    ensures Threaded(r, list)
  {
  }

  lemma AddKeepsLists(pages: seq<Page>, heads: seq<Link>, counts: seq<nat>, lists: seq<seq<nat>>, k: nat, p: nat)
    requires ListsOk(pages, heads, counts, lists) && k <= MAX_ORDER && p < |pages|
    requires forall j | 0 <= j <= MAX_ORDER :: p !in lists[j]
    ensures heads[k].At? ==> heads[k].pfn < |pages|
    ensures ListsOk(LinkIn(pages, heads[k], p), heads[k := At(p)], counts[k := counts[k] + 1], lists[k := [p] + lists[k]])
  {
    var r, lists' := LinkIn(pages, heads[k], p), lists[k := [p] + lists[k]];
    PushThreads(pages, lists[k], p);
    forall j | 0 <= j <= MAX_ORDER && j != k
      ensures Threaded(r, lists'[j])
    {
      if heads[k].At? {
        assert heads[k].pfn in lists[k];
      }
      ThreadFrame(pages, r, lists[j]);
    }
  }

  /** Taking p out of list k leaves the links of every other list alone. */
  lemma LinkOutElsewhere(pages: seq<Page>, lists: seq<seq<nat>>, k: nat, i: nat, j: nat)
    requires Separate(lists) && k < |lists| && j < |lists| && j != k && i < |lists[k]|
    requires Threaded(pages, lists[k]) && Threaded(pages, lists[j])
    ensures var p := lists[k][i];
            && (pages[p].prev.At? ==> pages[p].prev.pfn < |pages|)
            && (pages[p].next.At? ==> pages[p].next.pfn < |pages|)
            && Threaded(LinkOut(pages, p), lists[j])
  {
    var p := lists[k][i];
    assert pages[p].prev == LinkTo(lists[k], i - 1) && pages[p].next == LinkTo(lists[k], i + 1);
    assert p in lists[k];
    if i > 0 { assert lists[k][i - 1] in lists[k]; }
    if i + 1 < |lists[k]| { assert lists[k][i + 1] in lists[k]; }
    ThreadFrame(pages, LinkOut(pages, p), lists[j]);
  }

  lemma SeparateWithout(lists: seq<seq<nat>>, k: nat, i: nat)
    requires Separate(lists) && k < |lists| && i < |lists[k]|
    ensures Separate(lists[k := Without(lists[k], i)])
  {
    WithoutAt(lists[k], i);
  }

  lemma UnthreadedLists(pages: seq<Page>, r: seq<Page>, heads: seq<Link>, counts: seq<nat>, lists: seq<seq<nat>>,
                        k: nat, i: nat)
    requires ListsOk(pages, heads, counts, lists) && k <= MAX_ORDER && i < |lists[k]|
    requires Unthreaded(r, lists[k], i)
    requires forall j | 0 <= j <= MAX_ORDER && j != k :: Threaded(r, lists[j])
    ensures ListsOk(r, if i == 0 then heads[k := LinkTo(lists[k], 1)] else heads,
                    counts[k := |lists[k]| - 1], lists[k := Without(lists[k], i)])
  {
    assert Threaded(pages, lists[k]);
    RemoveThreads(r, lists[k], i);
    WithoutAt(lists[k], i);
    LinkToWithout(lists[k], i, 0);
    SeparateWithout(lists, k, i);
  }

  lemma RemoveKeepsLists(pages: seq<Page>, heads: seq<Link>, counts: seq<nat>, lists: seq<seq<nat>>, k: nat, i: nat)
    requires ListsOk(pages, heads, counts, lists) && k <= MAX_ORDER && i < |lists[k]|
    ensures var p := lists[k][i];
            && p < |pages|
            && (pages[p].prev.At? ==> pages[p].prev.pfn < |pages|)
            && (pages[p].next.At? ==> pages[p].next.pfn < |pages|)
            && (pages[p].prev.Null? <==> i == 0)
            && ListsOk(LinkOut(pages, p), if i == 0 then heads[k := pages[p].next] else heads,
                       counts[k := |lists[k]| - 1], lists[k := Without(lists[k], i)])
  {
    var p := lists[k][i];
    assert Threaded(pages, lists[k]);
    assert pages[p].prev == LinkTo(lists[k], i - 1) && pages[p].next == LinkTo(lists[k], i + 1);
    LinkOutUnthreads(pages, lists[k], i);
    forall j | 0 <= j <= MAX_ORDER && j != k
      ensures Threaded(LinkOut(pages, p), lists[j])
    {
      LinkOutElsewhere(pages, lists, k, i, j);
    }
    UnthreadedLists(pages, LinkOut(pages, p), heads, counts, lists, k, i);
  }

  // ---------------------------------------------------------------- what the flags mean

  /** A head flag left behind on q at order j: q was the upper half of a pair that has merged,
      so it lies inside a larger block and has bit j set. */
  ghost predicate Stale(b: Blocks, q: nat, j: nat) {
    && Base(q, j) == q
    && Bit(q, j)
    && exists r :: r in b && j < b[r].order && Base(q, b[r].order) == r
  }

  ghost predicate HeadOk(b: Blocks, q: nat, j: nat) {
    (q in b && b[q].order == j && !b[q].kind.Live?) || Stale(b, q, j)
  }

  /** The tags on the page array agree with the blocks, up to stale head flags. */
  ghost predicate TagsOk(pages: seq<Page>, b: Blocks) {
    && (forall p | p in b :: p < |pages|)
    && (forall p | p in b && b[p].kind.Free? ::
          pages[p].tag.head && pages[p].tag.order == b[p].order)
    && (forall p | p in b && b[p].kind.Live? :: pages[p].tag.used)
    && (forall q | 0 <= q < |pages| && pages[q].tag.head :: HeadOk(b, q, pages[q].tag.order))
  }

  /** The free lists hold exactly the free blocks, by order. */
  ghost predicate ListsAre(lists: seq<seq<nat>>, b: Blocks) {
    && |lists| == MAX_ORDER + 1
    && (forall k, p | 0 <= k <= MAX_ORDER && p in lists[k] :: IsFree(b, p, k))
    && (forall p | p in b && b[p].kind.Free? && b[p].order <= MAX_ORDER :: p in lists[b[p].order])
  }

  /** The test made before merging reads one flag and one order; it is exact. */
  lemma MergeTestExact(pages: seq<Page>, b: Blocks, p: nat, k: nat)
    requires Tiled(b, |pages|) && TagsOk(pages, b) && OneHand(b, p)
    requires p in b && b[p].order == k
    ensures IsFree(b, Buddy(p, k), k) <==>
            Buddy(p, k) < |pages| && pages[Buddy(p, k)].tag.head && pages[Buddy(p, k)].tag.order == k
  {
    var d := Buddy(p, k);
    BuddyFacts(p, k);
    if d < |pages| && pages[d].tag.head && pages[d].tag.order == k && Stale(b, d, k) {
      var r :| r in b && k < b[r].order && Base(d, b[r].order) == r;
      BaseNested(d, k + 1, b[r].order);
      BaseNested(p, k + 1, b[r].order);
    }
  }

  // ---------------------------------------------------------------- one step at a time

  /** Changing the kind of a block and the tag of its first page to match. */
  lemma RelabelTags(pages: seq<Page>, r: seq<Page>, b: Blocks, p: nat, kind: Kind)
    requires TagsOk(pages, b) && p in b && |r| == |pages|
    requires forall q | 0 <= q < |pages| && q != p :: r[q].tag == pages[q].tag
    requires kind.Free? ==> r[p].tag.head
    requires kind.Live? ==> r[p].tag.used && !r[p].tag.head
    requires r[p].tag.head ==> r[p].tag.order == b[p].order
    ensures TagsOk(r, b[p := Block(b[p].order, kind)])
  {
    var c := b[p := Block(b[p].order, kind)];
    forall q | 0 <= q < |r| && r[q].tag.head && q != p
      ensures HeadOk(c, q, r[q].tag.order)
    {
      var j := r[q].tag.order;
      if Stale(b, q, j) {
        var x :| x in b && j < b[x].order && Base(q, b[x].order) == x;
        assert x in c && j < c[x].order && Base(q, c[x].order) == x;
      }
    }
  }

  /** A head flag that was accounted for before a merge is so after it, unless its page is
      one of the two merged ones. */
  lemma MergeKeepsHead(b: Blocks, p: nat, k: nat, q: nat, j: nat)
    requires Base(p, k) == p && p in b && b[p] == Block(k, Hand) && IsFree(b, Buddy(p, k), k)
    requires HeadOk(b, q, j) && q != p && q != Buddy(p, k)
    ensures HeadOk(Merged(b, p, k), q, j)
  {
    hide Base, Bit, Buddy;
    var m, d, c := Base(p, k + 1), Buddy(p, k), Merged(b, p, k);
    BuddyFacts(p, k);
    if Stale(b, q, j) {
      var x :| x in b && j < b[x].order && Base(q, b[x].order) == x;
      if x == p || x == d {
        BaseNested(q, k, k + 1);
        assert m in c && j < c[m].order && Base(q, c[m].order) == m;
      } else {
        assert x in c && j < c[x].order && Base(q, c[x].order) == x;
      }
    }
  }

  /** The first page of a merged pair is its head; an upper page that keeps its flag is stale. */
  lemma MergeHeads(b: Blocks, p: nat, k: nat)
    requires Base(p, k) == p
    ensures HeadOk(Merged(b, p, k), Base(p, k + 1), k + 1)
    ensures p != Base(p, k + 1) ==> HeadOk(Merged(b, p, k), p, k)
  {
    BuddyFacts(p, k);
    var m, c := Base(p, k + 1), Merged(b, p, k);
    assert m in c && k < c[m].order && Base(p, c[m].order) == m;
  }

  lemma MergedShape(b: Blocks, p: nat, k: nat)
    ensures var c := Merged(b, p, k);
            var m := Base(p, k + 1);
            && m in c && c[m] == Block(k + 1, Hand)
            && (forall q | q in c && q != m :: q in b && c[q] == b[q] && q != p && q != Buddy(p, k))
  {
  }

  lemma MergeTags(pages: seq<Page>, r: seq<Page>, b: Blocks, p: nat, k: nat)
    requires Tiled(b, |pages|) && TagsOk(pages, b) && |r| == |pages|
    requires p in b && b[p] == Block(k, Hand) && IsFree(b, Buddy(p, k), k)
    requires var m := Base(p, k + 1);
             && m < |pages|
             && r[m].tag == Tag(k + 1, false, false, true)
             && (Buddy(p, k) != m ==> !r[Buddy(p, k)].tag.head)
             && forall q | 0 <= q < |pages| && q != m && q != Buddy(p, k) :: r[q].tag == pages[q].tag
    requires pages[p].tag.head && pages[p].tag.order == k
    ensures TagsOk(r, Merged(b, p, k))
  {
    hide HeadOk, Stale, Base, Bit, Buddy, Apart, Merged;
    var m, d, c := Base(p, k + 1), Buddy(p, k), Merged(b, p, k);
    assert Fits(p, k, |pages|);
    BuddyFacts(p, k);
    MergeHeads(b, p, k);
    MergedShape(b, p, k);
    forall q | 0 <= q < |r| && r[q].tag.head
      ensures HeadOk(c, q, r[q].tag.order)
    {
      if q != p && q != d {
        MergeKeepsHead(b, p, k, q, r[q].tag.order);
      }
    }
  }

  lemma SplitKeepsHead(b: Blocks, p: nat, h: nat, k: nat, q: nat, j: nat)
    requires p in b && b[p] == Block(k + 1, Hand) && h == p + Pow2(k) && h !in b
    requires HeadOk(b, q, j) && q != p && q != h
    ensures HeadOk(b[p := Block(k, Hand)][h := Block(k, Free)], q, j)
  {
    var c := b[p := Block(k, Hand)][h := Block(k, Free)];
    if Stale(b, q, j) {
      var x :| x in b && j < b[x].order && Base(q, b[x].order) == x;
      if x == p {
        BaseHalves(q, k);
        var y := Base(q, k);
        assert y in c && j < c[y].order && Base(q, c[y].order) == y;
      } else {
        assert x in c && j < c[x].order && Base(q, c[x].order) == x;
      }
    }
  }

  lemma SplitHeads(b: Blocks, p: nat, h: nat, k: nat)
    ensures HeadOk(b[p := Block(k, Hand)][h := Block(k, Free)], h, k)
  {
  }

  lemma SplitTags(pages: seq<Page>, r: seq<Page>, b: Blocks, p: nat, k: nat)
    requires Tiled(b, |pages|) && TagsOk(pages, b) && |r| == |pages|
    requires p in b && b[p] == Block(k + 1, Hand) && !pages[p].tag.head
    requires var h := p + Pow2(k);
             && h < |pages|
             && r[h].tag == Tag(k, false, false, true)
             && forall q | 0 <= q < |pages| && q != h :: r[q].tag == pages[q].tag
    ensures TagsOk(r, SplitOnce(b, p, k))
  {
    hide Stale, HeadOk, Tiled, Base, Bit, Pow2;
    var h, c := p + Pow2(k), SplitOnce(b, p, k);
    UpperHalfAbsent(b, |pages|, p, k);
    forall q | 0 <= q < |r| && r[q].tag.head
      ensures HeadOk(c, q, r[q].tag.order)
    {
      if q == h {
        SplitHeads(b, p, h, k);
      } else {
        SplitKeepsHead(b, p, h, k, q, r[q].tag.order);
      }
    }
  }

  lemma ListsAfterAdd(lists: seq<seq<nat>>, b: Blocks, p: nat, k: nat)
    requires ListsAre(lists, b) && k <= MAX_ORDER
    requires p in b ==> !b[p].kind.Free?
    ensures ListsAre(lists[k := [p] + lists[k]], b[p := Block(k, Free)])
  {
  }

  lemma ListsUnaffected(lists: seq<seq<nat>>, b: Blocks, c: Blocks)
    requires ListsAre(lists, b) && forall p :: (p in b && b[p].kind.Free?) || (p in c && c[p].kind.Free?) ==> p in b && p in c && b[p] == c[p]
    ensures ListsAre(lists, c)
  {
  }

  /** A page that heads no free block is on no list. */
  lemma NotListed(lists: seq<seq<nat>>, b: Blocks, p: nat)
    requires ListsAre(lists, b) && (p in b ==> !b[p].kind.Free?)
    ensures forall j | 0 <= j <= MAX_ORDER :: p !in lists[j]
  {
  }

  lemma ListsAfterSplit(lists: seq<seq<nat>>, b: Blocks, p: nat, h: nat, k: nat)
    requires ListsAre(lists, b) && k <= MAX_ORDER && p in b && b[p].kind.Hand? && h !in b
    ensures ListsAre(lists[k := [h] + lists[k]], b[p := Block(k, Hand)][h := Block(k, Free)])
  {
    ListsUnaffected(lists, b, b[p := Block(k, Hand)]);
    ListsAfterAdd(lists, b[p := Block(k, Hand)], h, k);
  }

  lemma ListsAfterRemove(lists: seq<seq<nat>>, b: Blocks, c: Blocks, k: nat, i: nat)
    requires ListsAre(lists, b) && k <= MAX_ORDER && i < |lists[k]| && Distinct(lists[k])
    requires Only(c, Free) == Only(b, Free) - {lists[k][i]}
    ensures ListsAre(lists[k := Without(lists[k], i)], c)
  {
    var l := Without(lists[k], i);
    forall p
      ensures p in l <==> p in lists[k] && p != lists[k][i]
    {
      if p in lists[k] && p != lists[k][i] {
        var x :| 0 <= x < |lists[k]| && lists[k][x] == p;
        assert p == l[if x < i then x else x - 1];
      }
    }
    forall p | p in c && c[p].kind.Free? && c[p].order <= MAX_ORDER
      ensures p in lists[k := l][c[p].order]
    {
      assert p in Only(c, Free) && Only(c, Free)[p] == c[p].order;
    }
    forall j, p | 0 <= j <= MAX_ORDER && p in lists[k := l][j]
      ensures IsFree(c, p, j)
    {
      assert IsFree(b, lists[k][i], k) && IsFree(b, p, j);
      assert p in Only(b, Free) && Only(b, Free)[p] == j;
      assert p in Only(c, Free) && Only(c, Free)[p] == j;
    }
  }

  // ---------------------------------------------------------------- whole steps

  ghost predicate SameLinks(a: seq<Page>, b: seq<Page>) {
    |a| == |b| && forall q | 0 <= q < |a| :: a[q].next == b[q].next && a[q].prev == b[q].prev
  }

  lemma ListsFrame(pages: seq<Page>, r: seq<Page>, heads: seq<Link>, counts: seq<nat>, lists: seq<seq<nat>>)
    requires ListsOk(pages, heads, counts, lists) && SameLinks(pages, r)
    ensures ListsOk(r, heads, counts, lists)
  {
    forall k | 0 <= k <= MAX_ORDER
      ensures Threaded(r, lists[k])
    {
      ThreadFrame(pages, r, lists[k]);
    }
  }

  /** The lists, the tags and the blocks describe the same canonical state. */
  ghost predicate Agree(pages: seq<Page>, heads: seq<Link>, counts: seq<nat>, lists: seq<seq<nat>>, b: Blocks) {
    && ListsOk(pages, heads, counts, lists)
    && ListsAre(lists, b)
    && TagsOk(pages, b)
    && Canonical(b, |pages|)
  }

  /** List k loses p and the head flag of p is cleared: p is in hand. */
  lemma TakeStep(pages: seq<Page>, mid: seq<Page>, r: seq<Page>, heads: seq<Link>, counts: seq<nat>,
                 lists: seq<seq<nat>>, b: Blocks, k: nat, i: nat)
    requires ListsAre(lists, b) && TagsOk(pages, b) && Canonical(b, |pages|)
    requires k <= MAX_ORDER && i < |lists[k]| && Distinct(lists[k]) && lists[k][i] < |pages|
    requires SameTags(pages, mid) && ListsOk(mid, heads, counts, lists[k := Without(lists[k], i)])
    requires r == mid[lists[k][i] := mid[lists[k][i]].(tag := mid[lists[k][i]].tag.(head := false))]
    ensures IsFree(b, lists[k][i], k)
    ensures Agree(r, heads, counts, lists[k := Without(lists[k], i)], b[lists[k][i] := Block(k, Hand)])
  {
    var p := lists[k][i];
    var c := b[p := Block(k, Hand)];
    assert IsFree(b, p, k);
    ListsFrame(mid, r, heads, counts, lists[k := Without(lists[k], i)]);
    RelabelTags(pages, r, b, p, Hand);
    HideCanonical(b, |pages|, p, Hand);
    OnlyRelabel(b, p, Hand, Free);
    ListsAfterRemove(lists, b, c, k, i);
  }

  /** The upper half of the block in hand is tagged and put on list k. */
  lemma SplitStep(pages: seq<Page>, mid: seq<Page>, r: seq<Page>, heads: seq<Link>, counts: seq<nat>,
                  lists: seq<seq<nat>>, b: Blocks, p: nat, k: nat)
    requires ListsAre(lists, b) && TagsOk(pages, b) && Canonical(b, |pages|)
    requires p in b && b[p] == Block(k + 1, Hand) && !pages[p].tag.head && p + Pow2(k) < |pages|
    requires mid == pages[p + Pow2(k) := pages[p + Pow2(k)].(tag := Tag(k, false, false, true))]
    requires SameTags(mid, r) && ListsOk(r, heads, counts, lists[k := [p + Pow2(k)] + lists[k]])
    ensures Agree(r, heads, counts, lists[k := [p + Pow2(k)] + lists[k]], SplitOnce(b, p, k))
  {
    hide ListsOk, ListsAre, TagsOk, Tiled, Maximal, Base, Pow2;
    var n := |pages|;
    SplitTags(pages, r, b, p, k);
    SplitTiled(b, n, p, k);
    SplitMaximal(b, n, p, k);
    UpperHalfAbsent(b, n, p, k);
    ListsAfterSplit(lists, b, p, p + Pow2(k), k);
  }

  /** List k loses the buddy of the block in hand and the two become one block in hand. */
  lemma MergeStep(pages: seq<Page>, mid: seq<Page>, r: seq<Page>, heads: seq<Link>, counts: seq<nat>,
                  lists: seq<seq<nat>>, b: Blocks, p: nat, k: nat, i: nat)
    requires ListsAre(lists, b) && TagsOk(pages, b) && Canonical(b, |pages|)
    requires k < MAX_ORDER && i < |lists[k]| && Distinct(lists[k]) && lists[k][i] == Buddy(p, k)
    requires p in b && b[p] == Block(k, Hand) && pages[p].tag.head && pages[p].tag.order == k
    requires SameTags(pages, mid) && ListsOk(mid, heads, counts, lists[k := Without(lists[k], i)])
    requires SameLinks(mid, r) && Base(p, k + 1) < |pages| && Buddy(p, k) < |pages|
    requires r[Base(p, k + 1)].tag == Tag(k + 1, false, false, true)
    requires Buddy(p, k) != Base(p, k + 1) ==> !r[Buddy(p, k)].tag.head
    requires forall q | 0 <= q < |pages| && q != Base(p, k + 1) && q != Buddy(p, k) :: r[q].tag == mid[q].tag
    ensures Agree(r, heads, counts, lists[k := Without(lists[k], i)], Merged(b, p, k))
  {
    hide ListsOk, TagsOk, Maximal, Base, Buddy, Bit, Pow2, Apart;
    var n := |pages|;
    var c := Merged(b, p, k);
    assert Fits(p, k, n);
    BuddyFacts(p, k);
    assert IsFree(b, Buddy(p, k), k);
    ListsFrame(mid, r, heads, counts, lists[k := Without(lists[k], i)]);
    MergeTags(pages, r, b, p, k);
    MergeTiled(b, n, p, k);
    MergeMaximal(b, p, k);
    OnlyAfterMerge(b, p, k);
    ListsAfterRemove(lists, b, c, k, i);
  }

  /** A live block comes in hand or a block in hand becomes live: no list changes. */
  lemma RetagStep(pages: seq<Page>, r: seq<Page>, heads: seq<Link>, counts: seq<nat>,
                  lists: seq<seq<nat>>, b: Blocks, p: nat, kind: Kind)
    requires Agree(pages, heads, counts, lists, b)
    requires p in b && p < |pages| && !b[p].kind.Free? && !kind.Free? && b[p].kind != kind
    requires r == pages[p := pages[p].(tag := Tag(b[p].order, kind.Live?, false, kind.Hand?))]
    ensures Agree(r, heads, counts, lists, b[p := Block(b[p].order, kind)])
  {
    ListsFrame(pages, r, heads, counts, lists);
    RelabelTags(pages, r, b, p, kind);
    HideCanonical(b, |pages|, p, kind);
    ListsUnaffected(lists, b, b[p := Block(b[p].order, kind)]);
  }

  /** The block in hand is put on its list; its buddy is not free, so no pair appears. */
  lemma PutStep(pages: seq<Page>, r: seq<Page>, heads: seq<Link>, counts: seq<nat>,
                lists: seq<seq<nat>>, b: Blocks, p: nat)
    requires ListsAre(lists, b) && TagsOk(pages, b) && Canonical(b, |pages|)
    requires p in b && b[p].kind.Hand? && pages[p].tag.head && pages[p].tag.order == b[p].order
    requires b[p].order < MAX_ORDER ==> !IsFree(b, Buddy(p, b[p].order), b[p].order)
    requires SameTags(pages, r)
    requires ListsOk(r, heads, counts, lists[b[p].order := [p] + lists[b[p].order]])
    ensures Agree(r, heads, counts, lists[b[p].order := [p] + lists[b[p].order]], b[p := Block(b[p].order, Free)])
  {
    RelabelTags(pages, r, b, p, Free);
    PutCanonical(b, |pages|, p);
    ListsAfterAdd(lists, b, p, b[p].order);
  }

  lemma RetagLists(pages: seq<Page>, p: nat, tag: Tag, heads: seq<Link>, counts: seq<nat>, lists: seq<seq<nat>>)
    requires ListsOk(pages, heads, counts, lists) && p < |pages|
    ensures ListsOk(pages[p := pages[p].(tag := tag)], heads, counts, lists)
  {
    ListsFrame(pages, pages[p := pages[p].(tag := tag)], heads, counts, lists);
  }

  lemma TagKept(a: seq<Page>, b: seq<Page>, q: nat)
    requires SameTags(a, b) && q < |a|
    ensures b[q].tag == a[q].tag
  {
  }

  lemma ListHead(pages: seq<Page>, heads: seq<Link>, counts: seq<nat>, lists: seq<seq<nat>>, k: nat)
    requires ListsOk(pages, heads, counts, lists) && k <= MAX_ORDER
    ensures heads[k] == LinkTo(lists[k], 0) && Threaded(pages, lists[k])
    ensures forall i | 0 <= i < |lists[k]| :: lists[k][i] < |pages|
  {
  }

  /** The pages of a new block are all tagged used; everything else is as it was. */
  lemma ClaimStep(pages: seq<Page>, r: seq<Page>, heads: seq<Link>, counts: seq<nat>,
                  lists: seq<seq<nat>>, b: Blocks, p: nat, k: nat)
    requires Agree(pages, heads, counts, lists, b) && Fits(p, k, |pages|) && Unclaimed(b, p, k)
    requires SameLinks(pages, r)
    requires forall q | 0 <= q < |pages| ::
               if p <= q < p + Pow2(k) then r[q].tag.used && !r[q].tag.head else r[q].tag == pages[q].tag
    ensures Agree(r, heads, counts, lists, b[p := Block(k, Live)])
  {
    var c := b[p := Block(k, Live)];
    ClaimTiled(b, |pages|, p, k);
    ListsFrame(pages, r, heads, counts, lists);
    ListsUnaffected(lists, b, c);
    ClaimTags(pages, r, b, p, k);
  }

  lemma ClaimTags(pages: seq<Page>, r: seq<Page>, b: Blocks, p: nat, k: nat)
    requires TagsOk(pages, b) && Fits(p, k, |pages|) && |r| == |pages| && Unclaimed(b, p, k) && p !in b
    requires forall x | x in b :: Base(x, b[x].order) == x
    requires forall q | 0 <= q < |pages| ::
               if p <= q < p + Pow2(k) then r[q].tag.used && !r[q].tag.head else r[q].tag == pages[q].tag
    ensures TagsOk(r, b[p := Block(k, Live)])
  {
    var c := b[p := Block(k, Live)];
    forall x | x in b
      ensures !(p <= x < p + Pow2(k))
    {
      assert Base(x, b[x].order) == x;
    }
    forall q | 0 <= q < |r| && r[q].tag.head
      ensures HeadOk(c, q, r[q].tag.order)
    {
      var j := r[q].tag.order;
      if Stale(b, q, j) {
        var x :| x in b && j < b[x].order && Base(q, b[x].order) == x;
        assert x in c && j < c[x].order && Base(q, c[x].order) == x;
      }
    }
  }
}
