/** The kernel heap: slab slots for small requests, page blocks for large ones, and a quarantine
    that delays the reuse of freed slots. */
module Kmalloc {
  import opened Basics
  import opened Dyadic
  import opened BuddyBlocks
  import opened Slabs

  const POISON: int := 0xDE
  const LINK: int := 0
  /** The largest request the heap can honour: the top block less its header word. */
  const LIMIT: nat := 0x40_0000 - 8

  type Bytes = nat -> int

  function Fill(m: Bytes, lo: nat, hi: nat, v: int): Bytes {
    (a: nat) => if lo <= a < hi then v else m(a)
  }

  /** Copy n bytes from src to dst. */
  function Copy(m: Bytes, dst: nat, src: nat, n: nat): Bytes {
    (a: nat) => if dst <= a < dst + n then m(src + (a - dst)) else m(a)
  }

  ghost predicate Same(m: Bytes, m': Bytes, lo: nat, hi: nat) {
    forall a: nat | lo <= a < hi :: m'(a) == m(a)
  }

  // ---------------------------------------------------------------- where things are

  /** Blocks held from the page allocator do not overlap. */
  ghost predicate HeldApart(held: map<nat, nat>) {
    forall f, g | f in held && g in held && f != g :: f + Pow2(held[f]) <= g || g + Pow2(held[g]) <= f
  }

  function Frame(hhdm: nat, base: nat): nat
    requires hhdm <= base
  {
    (base - hhdm) / PAGE
  }

  ghost predicate Backed(held: map<nat, nat>, hhdm: nat, base: nat, order: nat) {
    hhdm < base && (base - hhdm) % PAGE == 0 && Frame(hhdm, base) in held && held[Frame(hhdm, base)] == order
  }

  /** Slab pages and large blocks are distinct blocks of the page allocator. */
  ghost predicate Backing(held: map<nat, nat>, hhdm: nat, pages: Pages, large: map<nat, nat>) {
    && hhdm % PAGE == 0 && hhdm > 0 && HeldApart(held)
    && pages.Keys !! large.Keys
    && (forall b | b in pages :: Backed(held, hhdm, b, 0))
    && (forall b | b in large :: Backed(held, hhdm, b, large[b]) && large[b] <= MAX_ORDER)
  }

  /** The blocks held from the page allocator that are not the heap's. */
  ghost function OthersOf(held: map<nat, nat>, hhdm: nat, pages: Pages, large: map<nat, nat>): map<nat, nat> {
    map f | f in held && hhdm + f * PAGE !in pages && hhdm + f * PAGE !in large :: held[f]
  }

  lemma BackedApart(held: map<nat, nat>, hhdm: nat, a: nat, i: nat, b: nat, j: nat)
    requires HeldApart(held) && Backed(held, hhdm, a, i) && Backed(held, hhdm, b, j) && a != b
    ensures a + Pow2(i) * PAGE <= b || b + Pow2(j) * PAGE <= a
  {
    hide Pow2;
    var f, g := Frame(hhdm, a), Frame(hhdm, b);
    assert a == hhdm + f * PAGE && b == hhdm + g * PAGE;
  }

  // ---------------------------------------------------------------- cells

  /** The test on a pointer that tells large blocks from slots. */
  predicate IsLargePtr(p: nat) {
    p % PAGE == 8
  }

  /** p is a slot of some slab, or the first byte behind the header of a large block. */
  ghost predicate Cell(pages: Pages, large: map<nat, nat>, p: nat) {
    if IsLargePtr(p) then p - 8 in large else IsSlot(pages, p)
  }

  /** Where what belongs to p begins: at the header word of a large block, at the slot itself otherwise. */
  function Start(p: nat): nat {
    if IsLargePtr(p) then p - 8 else p
  }

  /** Bytes a client may use at p. */
  ghost function Usable(pages: Pages, large: map<nat, nat>, p: nat): nat
    requires Cell(pages, large, p)
  {
    if IsLargePtr(p) then Pow2(large[p - 8]) * PAGE - 8 else pages[PageOf(p)].size
  }

  /** The bytes of the page or block that a cell lies in. */
  lemma CellWithin(held: map<nat, nat>, hhdm: nat, pages: Pages, large: map<nat, nat>, p: nat)
    requires Backing(held, hhdm, pages, large) && (forall b | b in pages :: SlabOk(pages[b], b))
    requires Cell(pages, large, p)
    ensures IsLargePtr(p) ==> p - 8 in large && p + Usable(pages, large, p) == p - 8 + Pow2(large[p - 8]) * PAGE
    ensures !IsLargePtr(p) ==> PageOf(p) in pages && PageOf(p) + HEADER <= p
                               && p + Usable(pages, large, p) <= PageOf(p) + PAGE
  {
    hide Pow2, HeldApart, Backed;
    if !IsLargePtr(p) {
      SlotBounds(pages[PageOf(p)], PageOf(p), p);
    }
  }

  /** Slot addresses are never taken for large ones: they lie at multiples of 16. */
  lemma SlotIsNotLarge(pages: Pages, a: nat)
    requires IsSlot(pages, a) && SlabOk(pages[PageOf(a)], PageOf(a))
    ensures !IsLargePtr(a)
  {
    SlotBounds(pages[PageOf(a)], PageOf(a), a);
  }

  /** Different cells share no byte, header words included. */
  lemma CellsApart(held: map<nat, nat>, hhdm: nat, pages: Pages, large: map<nat, nat>, p: nat, q: nat)
    requires Backing(held, hhdm, pages, large) && (forall b | b in pages :: SlabOk(pages[b], b))
    requires Cell(pages, large, p) && Cell(pages, large, q) && p != q
    ensures p + Usable(pages, large, p) <= Start(q) || q + Usable(pages, large, q) <= Start(p)
  {
    hide Pow2, HeldApart, Backed, SlabOk, SlotOf;
    CellWithin(held, hhdm, pages, large, p);
    CellWithin(held, hhdm, pages, large, q);
    var b, c := if IsLargePtr(p) then p - 8 else PageOf(p), if IsLargePtr(q) then q - 8 else PageOf(q);
    var i, j := if IsLargePtr(p) then large[b] else 0, if IsLargePtr(q) then large[c] else 0;
    OnePage();
    if b != c {
      BackedApart(held, hhdm, b, i, c, j);
    } else if p < q {
      SlotsApart(pages[b], b, p, q);
    } else {
      SlotsApart(pages[b], b, q, p);
    }
  }

  lemma OnePage()
    ensures Pow2(0) * PAGE == PAGE
  {
  }

  // ---------------------------------------------------------------- the heap as a value

  /** Slab pages, class lists, quarantine, large blocks with their orders, what clients hold with the
      sizes they asked for, and the page allocator's blocks that are in use by somebody else. */
  datatype State = State(pages: Pages, lists: seq<seq<nat>>, quar: seq<nat>, large: map<nat, nat>, live: map<nat, nat>,
                         others: map<nat, nat>)

  ghost function SlotPtrs(live: map<nat, nat>): set<nat> {
    set p | p in live && !IsLargePtr(p)
  }

  ghost predicate ListsOk(lists: seq<seq<nat>>, pages: Pages) {
    && |lists| == CLASSES
    && (forall c, b | 0 <= c < CLASSES && b in lists[c] :: b in pages && pages[b].size == ObjSize(c))
    && (forall c | 0 <= c < CLASSES :: NoRepeats(lists[c]))
    && (forall b | b in pages :: exists c: nat :: c < CLASSES && pages[b].size == ObjSize(c) && b in lists[c])
  }

  ghost predicate LargeOk(large: map<nat, nat>, live: map<nat, nat>) {
    && (forall p | p in live && IsLargePtr(p) :: p - 8 in large)
    && (forall b | b in large :: b % PAGE == 0 && b + 8 in live)
  }

  ghost predicate SizesOk(s: State) {
    forall p | p in s.live ::
      && s.live[p] > 0 && Cell(s.pages, s.large, p)
      && (s.live[p] <= LIMIT ==> s.live[p] <= Usable(s.pages, s.large, p))
  }

  /** What holds between operations.  Every block held is a slab page, a large block or somebody else's. */
  ghost predicate Sound(s: State, held: map<nat, nat>, hhdm: nat) {
    && Backing(held, hhdm, s.pages, s.large) && s.others == OthersOf(held, hhdm, s.pages, s.large)
    && Placed(s.pages, s.quar, SlotPtrs(s.live), {})
    && |s.quar| <= QUARANTINE_SIZE
    && (forall b | b in s.pages :: s.pages[b].used > 0)
    && ListsOk(s.lists, s.pages)
    && LargeOk(s.large, s.live)
    && SizesOk(s)
  }

  /** Allocations that clients hold never overlap, header words included. */
  lemma LiveApart(s: State, held: map<nat, nat>, hhdm: nat, p: nat, q: nat)
    requires Sound(s, held, hhdm) && p in s.live && q in s.live && p != q
    ensures Cell(s.pages, s.large, p) && Cell(s.pages, s.large, q)
    ensures p + Usable(s.pages, s.large, p) <= Start(q) || q + Usable(s.pages, s.large, q) <= Start(p)
  {
    hide Backing, ListsOk, LargeOk, Usable, Cell;
    CellsApart(held, hhdm, s.pages, s.large, p, q);
  }

  /** A page given back to the page allocator holds nothing a client or the quarantine could name. */
  lemma ReclaimedPageIsUnused(s: State, base: nat, p: nat)
    requires Placed(s.pages, s.quar, SlotPtrs(s.live), {}) && base in s.pages && s.pages[base].used == 0
    requires p in s.quar || (p in s.live && !IsLargePtr(p))
    ensures PageOf(p) != base
  {
    DropPlaced(s.pages, s.quar, SlotPtrs(s.live), base);
  }

  // ---------------------------------------------------------------- steps on the value

  ghost function Popped(s: State, base: nat, size: nat): State
    requires base in s.pages && s.pages[base].free != []
  {
    var x := s.pages[base];
    s.(pages := s.pages[base := x.(free := x.free[1..], used := x.used + 1)], live := s.live[x.free[0] := size])
  }

  /** p is a slot of `size` bytes. */
  ghost predicate SlotIs(pages: Pages, p: nat, size: nat) {
    IsSlot(pages, p) && pages[PageOf(p)].size == size
  }

  /** The first page of a class list that has a free slot, or the length of the list. */
  function Stock(list: seq<nat>, pages: Pages): (i: nat)
    ensures i <= |list| && (forall k | 0 <= k < i :: !(list[k] in pages && pages[list[k]].free != []))
    ensures i < |list| ==> list[i] in pages && pages[list[i]].free != []
  {
    if list == [] || (list[0] in pages && pages[list[0]].free != []) then 0 else 1 + Stock(list[1..], pages)
  }

  /** A new page of slots of `size` bytes, all free, the last one first. */
  function FreshSlab(base: nat, size: nat): Slab
    requires size > 0
  {
    var total := (PAGE - HEADER) / size;
    Slab(size, 0, total, seq(total, k requires 0 <= k < total => SlotAt(size, base, total - 1 - k)))
  }

  /** No slab of class c has a free slot. */
  ghost predicate ClassFull(s: State, c: nat) {
    c < |s.lists| && forall b | b in s.lists[c] :: b in s.pages && s.pages[b].free == []
  }

  /** All of Sound except that the page at `base` may have nothing taken. */
  ghost predicate SoundBut(s: State, held: map<nat, nat>, hhdm: nat, base: nat) {
    && Backing(held, hhdm, s.pages, s.large) && s.others == OthersOf(held, hhdm, s.pages, s.large)
    && Placed(s.pages, s.quar, SlotPtrs(s.live), {})
    && |s.quar| <= QUARANTINE_SIZE
    && (forall b | b in s.pages && b != base :: s.pages[b].used > 0)
    && ListsOk(s.lists, s.pages)
    && LargeOk(s.large, s.live)
    && SizesOk(s)
  }

  lemma SlotPtrsAdd(live: map<nat, nat>, p: nat, size: nat)
    requires !IsLargePtr(p)
    ensures SlotPtrs(live[p := size]) == SlotPtrs(live) + {p}
  {
  }

  lemma SlotPtrsDrop(live: map<nat, nat>, p: nat)
    ensures SlotPtrs(live - {p}) == SlotPtrs(live) - {p}
  {
  }

  lemma SlotPtrsLarge(live: map<nat, nat>, p: nat, size: nat)
    requires IsLargePtr(p)
    ensures SlotPtrs(live[p := size]) == SlotPtrs(live)
  {
  }

  lemma ResizeList(lists: seq<seq<nat>>, pages: Pages, base: nat, x: Slab)
    requires ListsOk(lists, pages) && base in pages && x.size == pages[base].size
    ensures ListsOk(lists, pages[base := x])
  {
    var pages' := pages[base := x];
    forall b | b in pages'
      ensures exists c: nat :: c < CLASSES && pages'[b].size == ObjSize(c) && b in lists[c]
    {
      var c: nat :| c < CLASSES && pages[b].size == ObjSize(c) && b in lists[c];
    }
  }

  lemma ReshapeBacking(held: map<nat, nat>, hhdm: nat, pages: Pages, large: map<nat, nat>, base: nat, x: Slab)
    requires Backing(held, hhdm, pages, large) && base in pages
    ensures Backing(held, hhdm, pages[base := x], large)
    ensures OthersOf(held, hhdm, pages[base := x], large) == OthersOf(held, hhdm, pages, large)
  {
    hide HeldApart, Backed;
  }

  lemma ReshapeSizes(s: State, base: nat, x: Slab)
    requires SizesOk(s) && base in s.pages && x.size == s.pages[base].size && x.total == s.pages[base].total
    ensures SizesOk(s.(pages := s.pages[base := x]))
  {
    hide SlotOf;
  }

  /** A slot of a page with a free one goes to a client. */
  lemma PopSound(s: State, held: map<nat, nat>, hhdm: nat, base: nat, size: nat)
    requires SoundBut(s, held, hhdm, base) && base in s.pages && s.pages[base].free != []
    requires 0 < size <= s.pages[base].size
    ensures Sound(Popped(s, base, size), held, hhdm)
    ensures s.pages[base].free[0] !in s.live && s.pages[base].free[0] !in s.quar && !IsLargePtr(s.pages[base].free[0])
    ensures SlotIs(Popped(s, base, size).pages, s.pages[base].free[0], s.pages[base].size)
  {
    hide Backing, ListsOk, SlotOf, NoRepeats, SlabOk, OthersOf;
    var x := s.pages[base];
    var a := x.free[0];
    var x' := x.(free := x.free[1..], used := x.used + 1);
    PopPlaced(s.pages, s.quar, SlotPtrs(s.live), base);
    SlotIsNotLarge(s.pages, a);
    SlotPtrsAdd(s.live, a, size);
    ResizeList(s.lists, s.pages, base, x');
    ReshapeBacking(held, hhdm, s.pages, s.large, base, x');
    ReshapeSizes(s, base, x');
    ShapeSlots(s.pages, base, x');
  }

  lemma AddToList(lists: seq<seq<nat>>, pages: Pages, base: nat, x: Slab, c: nat)
    requires ListsOk(lists, pages) && base !in pages && c < CLASSES && x.size == ObjSize(c)
    ensures ListsOk(lists[c := [base] + lists[c]], pages[base := x])
  {
    hide ObjSize;
    var pages', lists' := pages[base := x], lists[c := [base] + lists[c]];
    assert base !in lists[c];
    forall b | b in pages'
      ensures exists d: nat :: d < CLASSES && pages'[b].size == ObjSize(d) && b in lists'[d]
    {
      if b == base {
        assert b in lists'[c];
      } else {
        var d: nat :| d < CLASSES && pages[b].size == ObjSize(d) && b in lists[d];
        assert b in lists'[d];
      }
    }
  }

  ghost predicate FreshFrame(held: map<nat, nat>, held': map<nat, nat>, hhdm: nat, base: nat, order: nat) {
    && hhdm < base && (base - hhdm) % PAGE == 0 && Frame(hhdm, base) !in held
    && held' == held[Frame(hhdm, base) := order] && HeldApart(held')
  }

  lemma FreshBacking(held: map<nat, nat>, held': map<nat, nat>, hhdm: nat, base: nat, order: nat,
                     pages: Pages, large: map<nat, nat>)
    requires Backing(held, hhdm, pages, large) && FreshFrame(held, held', hhdm, base, order)
    ensures base !in pages && base !in large && Backing(held', hhdm, pages, large) && Backed(held', hhdm, base, order)
  {
    hide HeldApart;
  }

  lemma FrameAt(hhdm: nat, base: nat, f: nat)
    requires hhdm < base && (base - hhdm) % PAGE == 0
    ensures hhdm + f * PAGE == base <==> f == Frame(hhdm, base)
  {
  }

  /** A block that the heap takes, or gives back, is not somebody else's before or after. */
  lemma OthersFresh(held: map<nat, nat>, held': map<nat, nat>, hhdm: nat, base: nat, order: nat,
                    pages: Pages, large: map<nat, nat>, x: Slab)
    requires FreshFrame(held, held', hhdm, base, order)
    ensures OthersOf(held', hhdm, pages[base := x], large) == OthersOf(held, hhdm, pages, large)
    ensures OthersOf(held', hhdm, pages, large[base := order]) == OthersOf(held, hhdm, pages, large)
  {
    hide HeldApart;
    forall f: nat
      ensures hhdm + f * PAGE == base <==> f == Frame(hhdm, base)
    {
      FrameAt(hhdm, base, f);
    }
  }

  lemma OthersDrop(held: map<nat, nat>, hhdm: nat, base: nat, order: nat, pages: Pages, large: map<nat, nat>)
    requires Backed(held, hhdm, base, order) && (base in pages || base in large)
    ensures OthersOf(held - {Frame(hhdm, base)}, hhdm, pages - {base}, large - {base}) == OthersOf(held, hhdm, pages, large)
  {
    forall f: nat
      ensures hhdm + f * PAGE == base <==> f == Frame(hhdm, base)
    {
      FrameAt(hhdm, base, f);
    }
  }

  ghost function Grown(s: State, base: nat, x: Slab, c: nat): State
    requires c < |s.lists|
  {
    s.(pages := s.pages[base := x], lists := s.lists[c := [base] + s.lists[c]])
  }

  lemma GrownSizes(s: State, base: nat, x: Slab, c: nat)
    requires SizesOk(s) && base !in s.pages && c < |s.lists|
    ensures SizesOk(Grown(s, base, x, c))
  {
    hide SlotOf;
    forall p | p in s.live
      ensures Cell(s.pages[base := x], s.large, p) && Usable(s.pages[base := x], s.large, p) == Usable(s.pages, s.large, p)
    {
      assert Cell(s.pages, s.large, p);
    }
  }

  /** A fresh page joins the heap as an empty slab of class c. */
  lemma GrowSound(s: State, held: map<nat, nat>, held': map<nat, nat>, hhdm: nat, base: nat, x: Slab, c: nat)
    requires Sound(s, held, hhdm) && FreshFrame(held, held', hhdm, base, 0) && c < CLASSES
    requires SlabOk(x, base) && x.used == 0 && x.size == ObjSize(c)
    ensures base !in s.pages && SoundBut(Grown(s, base, x, c), held', hhdm, base)
  {
    hide FreshFrame, SlotOf, SlabOk, Placed, LargeOk, SizesOk, HeldApart, ListsOk, OthersOf;
    FreshBacking(held, held', hhdm, base, 0, s.pages, s.large);
    OthersFresh(held, held', hhdm, base, 0, s.pages, s.large, x);
    AddToList(s.lists, s.pages, base, x, c) by {
      assert |s.lists| == CLASSES by { ListCount(s.lists, s.pages); }
    }
    ListCount(s.lists, s.pages);
    GrownSizes(s, base, x, c);
    AddPlaced(s.pages, s.quar, SlotPtrs(s.live), base, x);
  }

  lemma ListCount(lists: seq<seq<nat>>, pages: Pages)
    requires ListsOk(lists, pages)
    ensures |lists| == CLASSES
  {
  }

  // large blocks

  ghost function WithLarge(s: State, base: nat, order: nat, size: nat): State {
    s.(large := s.large[base := order], live := s.live[base + 8 := size])
  }

  lemma CellKept(pages: Pages, large: map<nat, nat>, base: nat, order: nat, p: nat)
    requires base !in large && base % PAGE == 0 && Cell(pages, large, p)
    ensures p != base + 8 && Cell(pages, large[base := order], p)
    ensures Usable(pages, large[base := order], p) == Usable(pages, large, p)
  {
    hide Pow2, IsSlot;
  }

  lemma LargeCell(pages: Pages, large: map<nat, nat>, base: nat, order: nat)
    requires base % PAGE == 0
    ensures IsLargePtr(base + 8) && Cell(pages, large[base := order], base + 8)
    ensures Usable(pages, large[base := order], base + 8) == Pow2(order) * PAGE - 8
  {
    hide Pow2, IsSlot;
  }

  lemma LargeSizes(s: State, base: nat, order: nat, size: nat)
    requires SizesOk(s) && base !in s.large && base % PAGE == 0 && LargeOk(s.large, s.live)
    requires size > 0 && (size <= LIMIT ==> size + 8 <= Pow2(order) * PAGE)
    ensures base + 8 !in s.live && IsLargePtr(base + 8)
    ensures SizesOk(WithLarge(s, base, order, size)) && LargeOk(s.large[base := order], s.live[base + 8 := size])
  {
    hide Pow2, Cell, Usable;
    var t := WithLarge(s, base, order, size);
    LargeCell(s.pages, s.large, base, order);
    forall p | p in s.live
      ensures p != base + 8 && Cell(t.pages, t.large, p)
              && Usable(t.pages, t.large, p) == Usable(s.pages, s.large, p)
    {
      CellKept(s.pages, s.large, base, order, p);
    }
  }

  lemma LargeSound(s: State, held: map<nat, nat>, held': map<nat, nat>, hhdm: nat, base: nat, order: nat, size: nat)
    requires Sound(s, held, hhdm) && FreshFrame(held, held', hhdm, base, order) && order <= MAX_ORDER
    requires size > 0 && (size <= LIMIT ==> size + 8 <= Pow2(order) * PAGE)
    ensures Sound(WithLarge(s, base, order, size), held', hhdm)
    ensures base + 8 !in s.live && IsLargePtr(base + 8)
  {
    hide Placed, ListsOk, HeldApart, Pow2, SizesOk, LargeOk, OthersOf;
    FreshBacking(held, held', hhdm, base, order, s.pages, s.large);
    OthersFresh(held, held', hhdm, base, order, s.pages, s.large, Slab(0, 0, 0, []));
    assert base % PAGE == 0;
    LargeSizes(s, base, order, size);
    SlotPtrsLarge(s.live, base + 8, size);
    assert Backing(held', hhdm, s.pages, s.large[base := order]);
  }

  ghost function WithoutLarge(s: State, base: nat): State {
    s.(large := s.large - {base}, live := s.live - {base + 8})
  }

  lemma DropLargeSizes(s: State, base: nat)
    requires SizesOk(s) && LargeOk(s.large, s.live) && base in s.large
    ensures SizesOk(WithoutLarge(s, base)) && LargeOk(s.large - {base}, s.live - {base + 8})
    ensures SlotPtrs(s.live - {base + 8}) == SlotPtrs(s.live) && base % PAGE == 0
  {
    assert base % PAGE == 0;
    assert IsLargePtr(base + 8) by { LargeCell(s.pages, s.large, base, 0); }
    DropLargeList(s.large, s.live, base);
    hide Usable, Cell, IsLargePtr, LargeOk;
    forall p | p in s.live && p != base + 8
      ensures Cell(s.pages, s.large - {base}, p) && Usable(s.pages, s.large - {base}, p) == Usable(s.pages, s.large, p)
    {
      CellLeft(s.pages, s.large, base, p);
    }
  }

  lemma DropLargeList(large: map<nat, nat>, live: map<nat, nat>, base: nat)
    requires LargeOk(large, live) && base in large
    ensures LargeOk(large - {base}, live - {base + 8})
  {
    hide IsLargePtr;
  }

  lemma CellLeft(pages: Pages, large: map<nat, nat>, base: nat, p: nat)
    requires Cell(pages, large, p) && p != base + 8
    ensures Cell(pages, large - {base}, p) && Usable(pages, large - {base}, p) == Usable(pages, large, p)
  {
    hide Pow2, IsSlot;
  }

  lemma DropLargeSound(s: State, held: map<nat, nat>, hhdm: nat, base: nat)
    requires Sound(s, held, hhdm) && base in s.large
    ensures hhdm <= base && Sound(WithoutLarge(s, base), held - {Frame(hhdm, base)}, hhdm)
  {
    hide Placed, ListsOk, Pow2, HeldApart, SizesOk, LargeOk, SlotPtrs, OthersOf;
    DropLargeSizes(s, base);
    DropBacking(held, hhdm, s.pages, s.large, base);
    assert s.pages - {base} == s.pages;
  }

  lemma BackedElsewhere(held: map<nat, nat>, hhdm: nat, b: nat, order: nat, base: nat, other: nat)
    requires Backed(held, hhdm, b, order) && Backed(held, hhdm, base, other) && b != base
    ensures Backed(held - {Frame(hhdm, base)}, hhdm, b, order)
  {
    assert b == hhdm + Frame(hhdm, b) * PAGE && base == hhdm + Frame(hhdm, base) * PAGE;
  }

  lemma HeldApartDrop(held: map<nat, nat>, f: nat)
    requires HeldApart(held)
    ensures HeldApart(held - {f})
  {
    hide Pow2;
  }

  lemma DropBacking(held: map<nat, nat>, hhdm: nat, pages: Pages, large: map<nat, nat>, base: nat)
    requires Backing(held, hhdm, pages, large) && (base in large || base in pages)
    ensures hhdm <= base && Backing(held - {Frame(hhdm, base)}, hhdm, pages - {base}, large - {base})
    ensures OthersOf(held - {Frame(hhdm, base)}, hhdm, pages - {base}, large - {base}) == OthersOf(held, hhdm, pages, large)
  {
    hide HeldApart, Backed, OthersOf;
    var order := if base in large then large[base] else 0;
    BackedAbove(held, hhdm, base, order);
    OthersDrop(held, hhdm, base, order, pages, large);
    HeldApartDrop(held, Frame(hhdm, base));
    forall b | b in pages && b != base
      ensures Backed(held - {Frame(hhdm, base)}, hhdm, b, 0)
    {
      BackedElsewhere(held, hhdm, b, 0, base, order);
    }
    forall b | b in large && b != base
      ensures Backed(held - {Frame(hhdm, base)}, hhdm, b, large[b])
    {
      BackedElsewhere(held, hhdm, b, large[b], base, order);
    }
  }

  lemma BackedAbove(held: map<nat, nat>, hhdm: nat, base: nat, order: nat)
    requires Backed(held, hhdm, base, order)
    ensures hhdm <= base
  {
  }

  // a slot comes back

  /** A client's slot p enters the quarantine; the slot that drops out of a full one goes to the
      front of its slab's free list. */
  ghost function Freed(s: State, p: nat): State
    requires |s.quar| >= QUARANTINE_SIZE ==> PageOf(s.quar[0]) in s.pages && s.pages[PageOf(s.quar[0])].used > 0
  {
    var t := s.(quar := Admit(s.quar, p), live := s.live - {p});
    if |s.quar| < QUARANTINE_SIZE then t
    else
      var e := s.quar[0];
      var x := s.pages[PageOf(e)];
      t.(pages := s.pages[PageOf(e) := x.(free := [e] + x.free, used := x.used - 1)])
  }

  lemma OldestHasPage(s: State, held: map<nat, nat>, hhdm: nat)
    requires Sound(s, held, hhdm) && |s.quar| >= QUARANTINE_SIZE
    ensures PageOf(s.quar[0]) in s.pages && IsSlot(s.pages, s.quar[0]) && s.pages[PageOf(s.quar[0])].used > 0
    ensures s.quar[0] !in s.live && SlabOk(s.pages[PageOf(s.quar[0])], PageOf(s.quar[0]))
  {
    hide Backing, ListsOk, LargeOk, SizesOk;
    assert s.quar[0] in s.quar;
    SlotIsNotLarge(s.pages, s.quar[0]);
  }

  lemma FreeSound(s: State, held: map<nat, nat>, hhdm: nat, p: nat)
    requires Sound(s, held, hhdm) && p in s.live && !IsLargePtr(p)
    requires |s.quar| >= QUARANTINE_SIZE ==> PageOf(s.quar[0]) in s.pages && s.pages[PageOf(s.quar[0])].used > 0
    ensures |s.quar| < QUARANTINE_SIZE ==> Sound(Freed(s, p), held, hhdm)
    ensures |s.quar| >= QUARANTINE_SIZE ==> SoundBut(Freed(s, p), held, hhdm, PageOf(s.quar[0]))
  {
    hide Backing, ListsOk, SlotOf, SlabOk, PageOf, Placed, SizesOk, LargeOk, OthersOf;
    var t := s.(quar := Admit(s.quar, p), live := s.live - {p});
    SlotPtrsDrop(s.live, p);
    AdmitPlaced(s.pages, s.quar, SlotPtrs(s.live), p);
    DropSlotSizes(s, p);
    if |s.quar| >= QUARANTINE_SIZE {
      var e := s.quar[0];
      var base := PageOf(e);
      PushPlaced(s.pages, t.quar, SlotPtrs(t.live), e);
      var x := s.pages[base];
      var x' := x.(free := [e] + x.free, used := x.used - 1);
      ResizeList(s.lists, s.pages, base, x');
      ReshapeBacking(held, hhdm, s.pages, s.large, base, x');
      ReshapeSizes(t, base, x');
    }
  }

  lemma DropSlotSizes(s: State, p: nat)
    requires SizesOk(s) && LargeOk(s.large, s.live) && !IsLargePtr(p)
    ensures SizesOk(s.(quar := Admit(s.quar, p), live := s.live - {p})) && LargeOk(s.large, s.live - {p})
  {
    hide Admit, IsSlot, Pow2, Usable;
    var t := s.(quar := Admit(s.quar, p), live := s.live - {p});
    forall q | q in t.live
      ensures t.live[q] > 0 && Cell(t.pages, t.large, q)
      ensures t.live[q] <= LIMIT ==> t.live[q] <= Usable(t.pages, t.large, q)
    {
      assert q in s.live;
    }
    LargeNotSlot(s.large, p);
  }

  lemma LargeNotSlot(large: map<nat, nat>, p: nat)
    requires !IsLargePtr(p)
    ensures forall b | b in large && b % PAGE == 0 :: b + 8 != p
  {
  }

  /** The page at base leaves the heap: it is taken out of its class list. */
  ghost function Reclaimed(s: State, base: nat): State {
    if base !in s.pages then s
    else
      var c := SizeToClass(s.pages[base].size);
      if !(0 <= c < |s.lists|) || base !in s.lists[c] then s
      else s.(pages := s.pages - {base}, lists := s.lists[c := Without(s.lists[c], Find(s.lists[c], base))])
  }

  lemma DropFromList(lists: seq<seq<nat>>, pages: Pages, base: nat, c: nat, i: nat)
    requires ListsOk(lists, pages) && base in pages && c < CLASSES && i < |lists[c]| && lists[c][i] == base
    ensures ListsOk(lists[c := Without(lists[c], i)], pages - {base})
  {
    var l := Without(lists[c], i);
    var pages', lists' := pages - {base}, lists[c := l];
    CutOut(lists[c], i);
    forall d: nat | d < CLASSES && d != c
      ensures base !in lists[d]
    {
      if base in lists[d] {
        DistinctSizes(c, d);
      }
    }
    forall b | b in pages'
      ensures exists d: nat :: d < CLASSES && pages'[b].size == ObjSize(d) && b in lists'[d]
    {
      var d: nat :| d < CLASSES && pages[b].size == ObjSize(d) && b in lists[d];
      assert b in lists'[d];
    }
  }

  lemma DistinctSizes(c: nat, d: nat)
    requires c < CLASSES && d < CLASSES && c != d
    ensures ObjSize(c) != ObjSize(d)
  {
    ObjSizes();
  }

  lemma CutOut(q: seq<nat>, i: nat)
    requires i < |q| && NoRepeats(q)
    ensures NoRepeats(Without(q, i))
    ensures forall b :: b in Without(q, i) <==> b in q && b != q[i]
  {
    var r := Without(q, i);
    assert forall k | 0 <= k < |r| :: r[k] == q[if k < i then k else k + 1];
    forall b | b in q && b != q[i]
      ensures b in r
    {
      var k :| 0 <= k < |q| && q[k] == b;
      assert r[if k < i then k else k - 1] == b;
    }
  }

  /** The heap after the free of p. */
  ghost function Released(s: State, p: nat): State {
    if IsLargePtr(p) then WithoutLarge(s, p - 8)
    else if |s.quar| < QUARANTINE_SIZE then Freed(s, p)
    else
      var base := PageOf(s.quar[0]);
      if base !in s.pages || s.pages[base].used == 0 then s
      else if s.pages[base].used == 1 then Reclaimed(Freed(s, p), base) else Freed(s, p)
  }

  /** Memory after the free of p: a large block is poisoned, and a slot past its first eight bytes; these
      take the link in the slot that drops out of the quarantine, and a page that goes back is poisoned. */
  ghost function ReleasedMem(s: State, m: Bytes, p: nat): Bytes {
    if IsLargePtr(p) then
      if p - 8 in s.large then Fill(m, p - 8, p - 8 + Pow2(s.large[p - 8]) * PAGE, POISON) else m
    else if PageOf(p) !in s.pages then m
    else
      var poisoned := Fill(m, p + 8, p + s.pages[PageOf(p)].size, POISON);
      if |s.quar| < QUARANTINE_SIZE then poisoned
      else
        var e := s.quar[0];
        var linked := Fill(poisoned, e, e + 8, LINK);
        if PageOf(e) in s.pages && s.pages[PageOf(e)].used == 1
        then Fill(linked, PageOf(e), PageOf(e) + PAGE, POISON) else linked
  }

  /** A page with nothing taken goes back to the page allocator. */
  lemma ReclaimSound(s: State, held: map<nat, nat>, hhdm: nat, base: nat)
    requires SoundBut(s, held, hhdm, base) && base in s.pages && s.pages[base].used == 0
    requires |s.lists| == CLASSES && SizeToClass(s.pages[base].size) >= 0
    requires base in s.lists[SizeToClass(s.pages[base].size)]
    ensures hhdm <= base && Sound(Reclaimed(s, base), held - {Frame(hhdm, base)}, hhdm)
  {
    hide ListsOk, SlotOf, SlabOk, HeldApart, Placed, PageOf, OthersOf, SizeToClass;
    var c := SizeToClass(s.pages[base].size);
    DropPlaced(s.pages, s.quar, SlotPtrs(s.live), base);
    DropFromList(s.lists, s.pages, base, c, Find(s.lists[c], base));
    DropBacking(held, hhdm, s.pages, s.large, base);
    assert s.large - {base} == s.large;
    var t := Reclaimed(s, base);
    forall p | p in s.live
      ensures Cell(t.pages, t.large, p) && Usable(t.pages, t.large, p) == Usable(s.pages, s.large, p)
    {
      assert Cell(s.pages, s.large, p);
      if !IsLargePtr(p) {
        assert p in SlotPtrs(s.live);
      }
    }
  }

  // ---------------------------------------------------------------- what is given back

  /** A page is kept only for slots that are with clients or in quarantine. */
  lemma PageHasSlot(s: State, held: map<nat, nat>, hhdm: nat, base: nat)
    requires Sound(s, held, hhdm) && base in s.pages
    ensures exists a :: (a in s.quar || a in SlotPtrs(s.live)) && PageOf(a) == base
  {
    hide Backing, ListsOk, LargeOk, SizesOk, NoRepeats, AllSlots, SlotOf, OthersOf;
    var x := s.pages[base];
    assert SlabOk(x, base);
    UsedIsLivePlusQuarantined(s.pages, s.quar, SlotPtrs(s.live), {}, base);
    var taken := set a | a in AllSlots(x, base) && Slabs.Taken(s.quar, SlotPtrs(s.live), {}, a);
    assert taken != {};
    var a :| a in taken;
    SlotBounds(x, base, a);
  }

  /** The blocks held are somebody else's and those of the slab pages, when there is no large block. */
  lemma HeldFrames(held: map<nat, nat>, hhdm: nat, pages: Pages, others: map<nat, nat>)
    requires Backing(held, hhdm, pages, map[]) && others == OthersOf(held, hhdm, pages, map[])
    ensures forall b | b in pages :: hhdm < b
    ensures held.Keys == others.Keys + (set b | b in pages && hhdm < b :: Frame(hhdm, b))
  {
    hide HeldApart;
    forall f | f in held
      ensures f in others || exists b :: b in pages && hhdm < b && Frame(hhdm, b) == f
    {
      var b := hhdm + f * PAGE;
      if b in pages {
        FrameAt(hhdm, b, f);
      }
    }
    forall b | b in pages
      ensures hhdm < b && Frame(hhdm, b) in held
    {
      assert Backed(held, hhdm, b, 0);
    }
  }

  /** Once clients hold nothing there is no large block, the only slab pages are those of quarantined
      slots, 32 at most, and every other block that is held is somebody else's. */
  lemma NothingLive(s: State, held: map<nat, nat>, hhdm: nat)
    requires Sound(s, held, hhdm) && s.live == map[]
    ensures s.large == map[] && s.pages.Keys == (set a | a in s.quar :: PageOf(a)) && |s.pages.Keys| <= QUARANTINE_SIZE
    ensures held.Keys == s.others.Keys + (set b | b in s.pages && hhdm < b :: Frame(hhdm, b))
    ensures s.quar == [] ==> held == s.others
  {
    hide ListsOk, SizesOk, Backing, OthersOf, Placed;
    assert s.large == map[];
    HeldFrames(held, hhdm, s.pages, s.others);
    SlotsOfQueue(s, held, hhdm);
    PagesOfQueue(s.quar);
    if s.quar == [] {
      assert s.pages == map[];
      AllOthers(held, hhdm);
    }
  }

  lemma SlotsOfQueue(s: State, held: map<nat, nat>, hhdm: nat)
    requires Sound(s, held, hhdm) && s.live == map[]
    ensures s.pages.Keys == set a | a in s.quar :: PageOf(a)
  {
    hide ListsOk, SizesOk, LargeOk, Backing, OthersOf, NoRepeats, SlabOk, SlotOf, PageOf;
    forall b | b in s.pages
      ensures exists a :: a in s.quar && PageOf(a) == b
    {
      PageHasSlot(s, held, hhdm, b);
    }
    assert forall a | a in s.quar :: IsSlot(s.pages, a);
  }

  lemma AllOthers(held: map<nat, nat>, hhdm: nat)
    ensures OthersOf(held, hhdm, map[], map[]) == held
  {
  }

  lemma {:induction false} PagesOfQueue(q: seq<nat>)
    ensures |set a | a in q :: PageOf(a)| <= |q|
  {
    hide PageOf;
    if q != [] {
      var n := |q| - 1;
      PagesOfQueue(q[..n]);
      assert q == q[..n] + [q[n]];
      assert (set a | a in q :: PageOf(a)) == (set a | a in q[..n] :: PageOf(a)) + {PageOf(q[n])};
    }
  }
}
