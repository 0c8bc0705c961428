/** The heap operations, in place over the page allocator. */
module Heap {
  import opened Basics
  import opened Dyadic
  import opened BuddyBlocks
  import opened Slabs
  import opened Kmalloc
  import PageFrames
  import Pmm

  // ---------------------------------------------------------------- bytes

  /** The 64-bit word at p, little endian. */
  function Word(m: Bytes, p: nat): int {
    m(p) + 0x100 * (m(p + 1) + 0x100 * (m(p + 2) + 0x100 * (m(p + 3) +
    0x100 * (m(p + 4) + 0x100 * (m(p + 5) + 0x100 * (m(p + 6) + 0x100 * m(p + 7)))))))
  }

  /** The bytes of a word below 256. */
  function SetWord(m: Bytes, p: nat, v: int): Bytes {
    (a: nat) => if a == p then v else if p < a < p + 8 then 0 else m(a)
  }

  /** The header word of every large block holds its order. */
  ghost predicate Headers(large: map<nat, nat>, m: Bytes) {
    forall b | b in large :: Word(m, b) == large[b]
  }

  lemma WordKept(m: Bytes, m': Bytes, p: nat, hi: nat)
    requires Same(m, m', p, hi) && p + 8 <= hi
    ensures Word(m', p) == Word(m, p)
  {
    assert m'(p) == m(p) && m'(p + 1) == m(p + 1) && m'(p + 2) == m(p + 2) && m'(p + 3) == m(p + 3);
    assert m'(p + 4) == m(p + 4) && m'(p + 5) == m(p + 5) && m'(p + 6) == m(p + 6) && m'(p + 7) == m(p + 7);
  }

  lemma LargeAt(b: nat)
    requires b % PAGE == 0
    ensures IsLargePtr(b + 8) && Start(b + 8) == b
  {
  }

  /** Header words are kept with the allocations they belong to. */
  lemma HeadersKept(s: State, keep: set<nat>, large: map<nat, nat>, m: Bytes, m': Bytes)
    requires Intact(s, keep, m, m') && Headers(s.large, m)
    requires forall b | b in large :: b in s.large && large[b] == s.large[b] && b % PAGE == 0 && b + 8 in keep
    ensures Headers(large, m')
  {
    hide Word, Usable, Same, Start, IsLargePtr, Cell;
    forall b | b in large
      ensures Word(m', b) == large[b]
    {
      LargeAt(b);
      assert Same(m, m', Start(b + 8), b + 8 + Usable(s.pages, s.large, b + 8));
      WordKept(m, m', b, b + 8 + Usable(s.pages, s.large, b + 8));
    }
  }

  lemma HeadersStay(s: State, keep: set<nat>, m: Bytes, m': Bytes)
    requires LargeOk(s.large, s.live) && Intact(s, keep, m, m') && Headers(s.large, m)
    requires forall p | p in s.live && IsLargePtr(p) :: p in keep
    ensures Headers(s.large, m')
  {
    hide Headers, Intact;
    HeadersKept(s, keep, s.large, m, m');
  }

  lemma HeadersStaySound(s: State, held: map<nat, nat>, hhdm: nat, keep: set<nat>, m: Bytes, m': Bytes)
    requires Sound(s, held, hhdm) && Intact(s, keep, m, m') && Headers(s.large, m)
    requires forall p | p in s.live && IsLargePtr(p) :: p in keep
    ensures Headers(s.large, m')
  {
    hide Sound, Headers, Intact, LargeOk;
    LargeOkOf(s, held, hhdm, 0);
    HeadersStay(s, keep, m, m');
  }

  lemma LargeOkOf(s: State, held: map<nat, nat>, hhdm: nat, base: nat)
    requires SoundBut(s, held, hhdm, base) || Sound(s, held, hhdm)
    ensures LargeOk(s.large, s.live) && (forall b | b in s.large :: b % PAGE == 0)
  {
  }

  lemma SetWordSame(m: Bytes, p: nat, v: int, a: nat, b: nat)
    requires b <= p || p + 8 <= a
    ensures Same(m, SetWord(m, p, v), a, b)
  {
  }

  lemma FreshVsCell(s: State, held: map<nat, nat>, held': map<nat, nat>, hhdm: nat, base: nat, order: nat, p: nat)
    requires Sound(s, held, hhdm) && FreshFrame(held, held', hhdm, base, order) && p in s.live
    ensures Cell(s.pages, s.large, p)
    ensures p + Usable(s.pages, s.large, p) <= base || base + Pow2(order) * PAGE <= Start(p)
  {
    hide ListsOk, LargeOk, Pow2, FreshFrame, Backing, OthersOf, SlabOk, SlotOf, Usable, Start;
    assert Cell(s.pages, s.large, p);
    FreshBacking(held, held', hhdm, base, order, s.pages, s.large);
    BlockVsCell(held', hhdm, s.pages, s.large, base, order, p);
  }

  /** Writing the header word of a fresh block leaves cells that live elsewhere alone. */
  lemma HeaderIntact(s: State, held: map<nat, nat>, held': map<nat, nat>, hhdm: nat, base: nat, order: nat, m: Bytes, v: int)
    requires Sound(s, held, hhdm) && FreshFrame(held, held', hhdm, base, order)
    ensures Intact(s, s.live.Keys, m, SetWord(m, base, v))
  {
    hide Sound, Pow2, FreshFrame, Cell, Usable, Start, Same, SetWord;
    BlockSize(order);
    forall p | p in s.live.Keys
      ensures Cell(s.pages, s.large, p) && Same(m, SetWord(m, base, v), Start(p), p + Usable(s.pages, s.large, p))
    {
      FreshVsCell(s, held, held', hhdm, base, order, p);
      SetWordSame(m, base, v, Start(p), p + Usable(s.pages, s.large, p));
    }
  }

  lemma NewHeader(s: State, held: map<nat, nat>, held': map<nat, nat>, hhdm: nat, base: nat, order: nat)
    requires Sound(s, held, hhdm) && FreshFrame(held, held', hhdm, base, order)
    ensures base !in s.large && base % PAGE == 0
  {
    hide HeldApart, Placed, ListsOk, LargeOk, SizesOk;
    FreshBacking(held, held', hhdm, base, order, s.pages, s.large);
  }

  /** A fresh block of zeros becomes a large allocation once its header word is written. */
  lemma LargeGiven(s: State, held: map<nat, nat>, held': map<nat, nat>, hhdm: nat, base: nat, size: nat, m: Bytes, zeroed: Bytes)
    requires 2048 < size < U64 && Sound(s, held, hhdm) && Headers(s.large, zeroed)
    requires var order := OrderFrom(Needed(size), 0);
             FreshFrame(held, held', hhdm, base, order) && zeroed == Fill(m, base, base + Pow2(order) * PAGE, 0)
    ensures var order := OrderFrom(Needed(size), 0);
            var t := WithLarge(s, base, order, size);
            && Sound(t, held', hhdm) && SameExtent(s, t, s.live.Keys) && base + 8 !in s.live && IsLargePtr(base + 8)
            && Intact(s, s.live.Keys, zeroed, SetWord(zeroed, base, order))
            && Headers(t.large, SetWord(zeroed, base, order))
            && Allocated(s, t, m, SetWord(zeroed, base, order), base + 8, size)
  {
    hide Sound, Headers, Pow2, OrderFrom, Needed, FreshFrame, SameExtent, Intact, SetWord, Fill, LargeOk;
    var order := OrderFrom(Needed(size), 0);
    OrderOutcome(size);
    LargeSound(s, held, held', hhdm, base, order, size);
    HeaderIntact(s, held, held', hhdm, base, order, zeroed, order);
    LargeOkOf(s, held, hhdm, 0);
    NewHeader(s, held, held', hhdm, base, order);
    HeaderWritten(s.large, zeroed, base, order);
    ExtentLarge(s, held, held', hhdm, base, order, size);
  }

  lemma BlockSize(order: nat)
    ensures Pow2(order) * PAGE >= PAGE
  {
  }

  lemma HeaderAt(large: map<nat, nat>, m: Bytes, base: nat)
    requires Headers(large, m) && base in large
    ensures Word(m, base) == large[base]
  {
  }

  /** Poisoning a large block and dropping it. */
  lemma LargeFreed(s: State, held: map<nat, nat>, hhdm: nat, base: nat, order: nat, m: Bytes)
    requires Sound(s, held, hhdm) && base in s.large && order == s.large[base] && hhdm <= base && Headers(s.large, m)
    ensures Intact(s, s.live.Keys - {base + 8}, m, Fill(m, base, base + Pow2(order) * PAGE, POISON))
    ensures Headers(s.large - {base}, Fill(m, base, base + Pow2(order) * PAGE, POISON))
    ensures Sound(WithoutLarge(s, base), held - {Frame(hhdm, base)}, hhdm)
  {
    hide Sound, Intact, Headers, Fill, Pow2, Word, WithoutLarge;
    FreeLargeIntact(s, held, hhdm, base, m);
    HeadersDrop(s, held, hhdm, base, m, Fill(m, base, base + Pow2(order) * PAGE, POISON));
    DropLargeSound(s, held, hhdm, base);
  }

  lemma HeadersDrop(s: State, held: map<nat, nat>, hhdm: nat, base: nat, m: Bytes, m': Bytes)
    requires Sound(s, held, hhdm) && base in s.large && Headers(s.large, m) && Intact(s, s.live.Keys - {base + 8}, m, m')
    ensures Headers(s.large - {base}, m')
  {
    hide Sound, Headers, Intact;
    LargeOkOf(s, held, hhdm, 0);
    HeadersKept(s, s.live.Keys - {base + 8}, s.large - {base}, m, m');
  }

  lemma CopyHeaders(s: State, held: map<nat, nat>, hhdm: nat, p: nat, r: nat, n: nat, m: Bytes)
    requires Sound(s, held, hhdm) && r in s.live && Cell(s.pages, s.large, r) && n <= Usable(s.pages, s.large, r)
    requires Headers(s.large, m)
    ensures Headers(s.large, Copy(m, r, p, n))
  {
    hide Sound, Cell, Usable, Word, Same, Copy;
    LargeOkOf(s, held, hhdm, 0);
    forall b | b in s.large
      ensures Word(Copy(m, r, p, n), b) == s.large[b]
    {
      if b + 8 != r {
        LiveApart(s, held, hhdm, b + 8, r);
      }
      CopySame(m, r, p, n, b, b + 8);
      WordKept(m, Copy(m, r, p, n), b, b + 8);
    }
  }

  /** A byte written inside an allocation leaves the others, and all header words, alone. */
  lemma WriteIntact(s: State, held: map<nat, nat>, hhdm: nat, p: nat, off: nat, v: int, m: Bytes)
    requires Sound(s, held, hhdm) && p in s.live && Cell(s.pages, s.large, p) && off < Usable(s.pages, s.large, p)
    ensures Intact(s, s.live.Keys - {p}, m, Fill(m, p + off, p + off + 1, v))
  {
    hide Sound, Cell, Usable, Word, Same, Fill;
    forall q | q in s.live.Keys - {p}
      ensures Cell(s.pages, s.large, q)
              && Same(m, Fill(m, p + off, p + off + 1, v), Start(q), q + Usable(s.pages, s.large, q))
    {
      LiveApart(s, held, hhdm, q, p);
      FillSame(m, p + off, p + off + 1, v, Start(q), q + Usable(s.pages, s.large, q));
    }
  }

  lemma WriteHeaders(s: State, held: map<nat, nat>, hhdm: nat, p: nat, off: nat, v: int, m: Bytes)
    requires Sound(s, held, hhdm) && p in s.live && Cell(s.pages, s.large, p) && off < Usable(s.pages, s.large, p)
    requires Headers(s.large, m)
    ensures Headers(s.large, Fill(m, p + off, p + off + 1, v))
  {
    hide Sound, Cell, Usable, Word, Same, Fill;
    LargeOkOf(s, held, hhdm, 0);
    forall b | b in s.large
      ensures Word(Fill(m, p + off, p + off + 1, v), b) == s.large[b]
    {
      HeaderApart(s, held, hhdm, p, off, b);
      FillSame(m, p + off, p + off + 1, v, b, b + 8);
      WordKept(m, Fill(m, p + off, p + off + 1, v), b, b + 8);
    }
  }

  lemma HeaderApart(s: State, held: map<nat, nat>, hhdm: nat, p: nat, off: nat, b: nat)
    requires Sound(s, held, hhdm) && p in s.live && Cell(s.pages, s.large, p) && off < Usable(s.pages, s.large, p)
    requires b in s.large && b % PAGE == 0 && b + 8 in s.live
    ensures b + 8 <= p + off || p + off + 1 <= b
  {
    hide Sound, Cell, Usable;
    if b + 8 != p {
      LiveApart(s, held, hhdm, b + 8, p);
    }
  }

  lemma WordWritten(m: Bytes, p: nat, v: int)
    ensures Word(SetWord(m, p, v), p) == v
  {
  }

  lemma AlignedApart(a: nat, b: nat)
    requires a % PAGE == 0 && b % PAGE == 0 && a < b
    ensures a + PAGE <= b
  {
  }

  lemma HeaderWritten(large: map<nat, nat>, m: Bytes, base: nat, order: nat)
    requires Headers(large, m) && base !in large && base % PAGE == 0 && (forall b | b in large :: b % PAGE == 0)
    ensures Headers(large[base := order], SetWord(m, base, order))
  {
    hide Word, SetWord, Same;
    WordWritten(m, base, order);
    forall b | b in large
      ensures Word(SetWord(m, base, order), b) == large[b]
    {
      if b < base { AlignedApart(b, base); } else { AlignedApart(base, b); }
      SetWordSame(m, base, order, b, b + 8);
      WordKept(m, SetWord(m, base, order), b, b + 8);
    }
  }

  /** The n bytes at p. */
  ghost function Read(m: Bytes, p: nat, n: nat): seq<int> {
    seq(n, i requires 0 <= i < n => m(p + i))
  }

  /** The four bytes that kfree checks hold the poison. */
  predicate PoisonAt(m: Bytes, p: nat) {
    m(p + 8) == POISON && m(p + 9) == POISON && m(p + 10) == POISON && m(p + 11) == POISON
  }

  lemma PoisonKept(m: Bytes, m': Bytes, p: nat, hi: nat)
    requires Same(m, m', p, hi) && p + 12 <= hi
    ensures PoisonAt(m', p) <==> PoisonAt(m, p)
  {
    assert m'(p + 8) == m(p + 8) && m'(p + 9) == m(p + 9) && m'(p + 10) == m(p + 10) && m'(p + 11) == m(p + 11);
  }

  /** The allocations in `keep` have the bytes they had, header words included. */
  ghost predicate Intact(s: State, keep: set<nat>, m: Bytes, m': Bytes) {
    forall p | p in keep :: Cell(s.pages, s.large, p) && Same(m, m', Start(p), p + Usable(s.pages, s.large, p))
  }

  lemma FillSame(m: Bytes, lo: nat, hi: nat, v: int, a: nat, b: nat)
    requires b <= lo || hi <= a
    ensures Same(m, Fill(m, lo, hi, v), a, b)
  {
  }

  lemma IntactChain(s: State, keep: set<nat>, m: Bytes, m': Bytes, m'': Bytes)
    requires Intact(s, keep, m, m') && Intact(s, keep, m', m'')
    ensures Intact(s, keep, m, m'')
  {
    forall p | p in keep
      ensures Same(m, m'', Start(p), p + Usable(s.pages, s.large, p))
    {
      SameChain(m, m', m'', Start(p), p + Usable(s.pages, s.large, p));
    }
  }

  lemma SameChain(m: Bytes, m': Bytes, m'': Bytes, lo: nat, hi: nat)
    requires Same(m, m', lo, hi) && Same(m', m'', lo, hi)
    ensures Same(m, m'', lo, hi)
  {
    forall a: nat | lo <= a < hi
      ensures m''(a) == m(a)
    {
      assert m'(a) == m(a);
    }
  }

  lemma IntactSelf(s: State, held: map<nat, nat>, hhdm: nat, m: Bytes)
    requires Sound(s, held, hhdm)
    ensures Intact(s, s.live.Keys, m, m)
  {
    hide Backing, Placed, ListsOk, LargeOk, Cell, Usable;
  }

  ghost function Home(p: nat): nat {
    if IsLargePtr(p) then p - 8 else PageOf(p)
  }

  /** A cell shares no byte with a block other than its own. */
  lemma BlockVsCell(held: map<nat, nat>, hhdm: nat, pages: Pages, large: map<nat, nat>, base: nat, order: nat, p: nat)
    requires Backing(held, hhdm, pages, large) && (forall b | b in pages :: SlabOk(pages[b], b))
    requires Cell(pages, large, p) && Backed(held, hhdm, base, order) && Home(p) != base
    ensures p + Usable(pages, large, p) <= base || base + Pow2(order) * PAGE <= Start(p)
  {
    hide Pow2, HeldApart, Backed, SlabOk;
    CellWithin(held, hhdm, pages, large, p);
    OnePage();
    BackedApart(held, hhdm, Home(p), if IsLargePtr(p) then large[p - 8] else 0, base, order);
  }

  /** Filling a block leaves cells that live elsewhere alone. */
  lemma IntactBlock(s: State, held: map<nat, nat>, hhdm: nat, base: nat, order: nat, keep: set<nat>, m: Bytes, v: int)
    requires Backing(held, hhdm, s.pages, s.large) && (forall b | b in s.pages :: SlabOk(s.pages[b], b))
    requires Backed(held, hhdm, base, order)
    requires forall p | p in keep :: Cell(s.pages, s.large, p) && Home(p) != base
    ensures Intact(s, keep, m, Fill(m, base, base + Pow2(order) * PAGE, v))
  {
    hide Backing, Backed, SlabOk, Cell, Usable, Home, Pow2, Same;
    forall p | p in keep
      ensures Same(m, Fill(m, base, base + Pow2(order) * PAGE, v), Start(p), p + Usable(s.pages, s.large, p))
    {
      BlockVsCell(held, hhdm, s.pages, s.large, base, order, p);
      FillSame(m, base, base + Pow2(order) * PAGE, v, Start(p), p + Usable(s.pages, s.large, p));
    }
  }

  /** Filling part of one cell leaves the other cells alone. */
  lemma IntactCell(s: State, held: map<nat, nat>, hhdm: nat, a: nat, lo: nat, hi: nat, keep: set<nat>, m: Bytes, v: int)
    requires Backing(held, hhdm, s.pages, s.large) && (forall b | b in s.pages :: SlabOk(s.pages[b], b))
    requires Cell(s.pages, s.large, a) && a <= lo && hi <= a + Usable(s.pages, s.large, a)
    requires forall p | p in keep :: Cell(s.pages, s.large, p) && p != a
    ensures Intact(s, keep, m, Fill(m, lo, hi, v))
  {
    hide Backing, SlabOk, Cell, Usable, Same;
    forall p | p in keep
      ensures Same(m, Fill(m, lo, hi, v), Start(p), p + Usable(s.pages, s.large, p))
    {
      CellsApart(held, hhdm, s.pages, s.large, a, p);
      FillSame(m, lo, hi, v, Start(p), p + Usable(s.pages, s.large, p));
    }
  }

  // ---------------------------------------------------------------- pure parts of the operations

  /** Chain all slots of a fresh page together; each new slot goes in front. */
  method BuildSlab(base: nat, size: nat) returns (x: Slab)
    requires base % PAGE == 0 && 16 <= size <= 2048 && size % 16 == 0
    ensures x == FreshSlab(base, size) && SlabOk(x, base) && x.total > 0
  {
    hide SlotOf, SlotAt, NoRepeats;
    var total := (PAGE - HEADER) / size;
    SlotsFit(size);
    x := Slab(size, 0, total, []);
    var i := 0;
    while i < total
      invariant i <= total && x == Slab(size, 0, total, x.free) && |x.free| == i
      invariant forall k | 0 <= k < i :: x.free[k] == SlotAt(size, base, i - 1 - k)
    {
      x := x.(free := [SlotAt(size, base, i)] + x.free);
      i := i + 1;
    }
    BuiltSlab(x, base);
  }

  lemma SlotsFit(size: nat)
    requires 16 <= size <= 2048
    ensures (PAGE - HEADER) / size * size <= PAGE - HEADER && (PAGE - HEADER) / size > 0
  {
  }

  lemma BuiltSlab(x: Slab, base: nat)
    requires x.size > 0 && |x.free| == x.total
    requires forall k | 0 <= k < x.total :: x.free[k] == SlotAt(x.size, base, x.total - 1 - k)
    ensures NoRepeats(x.free) && forall a | a in x.free :: SlotOf(x.size, x.total, base, a)
  {
    hide SlotOf;
    forall i, j | 0 <= i < j < |x.free|
      ensures x.free[i] != x.free[j]
    {
      MulStep(x.total - 1 - j, x.total - 1 - i, x.size);
    }
    forall k | 0 <= k < |x.free|
      ensures SlotOf(x.size, x.total, base, x.free[k])
    {
      SlotAddress(x.size, x.total, base, x.total - 1 - k);
    }
  }

  /** Bytes a large request needs with its header word; the sum is a 64-bit one. */
  function Needed(size: nat): nat {
    (size + 8) % U64
  }

  /** The smallest order from k on whose block holds `needed` bytes, or the top order when none does. */
  function OrderFrom(needed: nat, k: nat): (order: nat)
    requires k <= MAX_ORDER
    ensures k <= order <= MAX_ORDER && (order < MAX_ORDER ==> needed <= Pow2(order) * PAGE)
    ensures forall j: nat | k <= j < order :: Pow2(j) * PAGE < needed
    decreases MAX_ORDER - k
  {
    if Pow2(k) * PAGE >= needed || k == MAX_ORDER then k else OrderFrom(needed, k + 1)
  }

  /** What a block of that order comes to: enough up to the limit, the top block above it, and a single
      page for the last eight sizes, whose sum wraps. */
  lemma OrderOutcome(size: nat)
    requires size < U64
    ensures var order := OrderFrom(Needed(size), 0);
            && (size <= LIMIT ==> size + 8 <= Pow2(order) * PAGE)
            && (LIMIT < size < U64 - 8 ==> order == MAX_ORDER && Pow2(order) * PAGE - 8 == LIMIT < size)
            && (size >= U64 - 8 ==> order == 0 && Pow2(order) * PAGE - 8 == PAGE - 8 < size)
  {
    hide Pow2, OrderFrom;
    TopBlock();
    OnePage();
    var order := OrderFrom(Needed(size), 0);
    Pow2Monotone(order, MAX_ORDER);
  }

  /** The order of the block for a large request. */
  method OrderFor(size: nat) returns (order: nat)
    requires size < U64
    ensures order == OrderFrom(Needed(size), 0)
  {
    hide Pow2;
    var needed := Needed(size);
    order := 0;
    while Pow2(order) * PAGE < needed && order < MAX_ORDER
      invariant order <= MAX_ORDER && OrderFrom(needed, order) == OrderFrom(needed, 0)
      decreases MAX_ORDER - order
    {
      order := order + 1;
    }
  }

  lemma TopBlock()
    ensures Pow2(MAX_ORDER) * PAGE == LIMIT + 8
  {
    assert Pow2(5) == 32;
    assert Pow2(10) == 32 * Pow2(5);
  }

  /** Walk a class list to the first page that has a free slot. */
  method FindStocked(list: seq<nat>, pages: Pages) returns (i: nat)
    requires forall b | b in list :: b in pages
    ensures i == Stock(list, pages)
  {
    i := 0;
    while i < |list| && pages[list[i]].free == []
      invariant i <= |list| && Stock(list, pages) == i + Stock(list[i..], pages)
    {
      assert list[i..][1..] == list[i + 1..];
      i := i + 1;
    }
  }

  /** Walk a class list to a page on it. */
  method FindPage(list: seq<nat>, base: nat) returns (i: nat)
    requires base in list
    ensures i == Find(list, base)
  {
    i := 0;
    while list[i] != base
      invariant i < |list| && base in list[i..] && Find(list, base) == i + Find(list[i..], base)
      decreases |list| - i
    {
      assert list[i..][1..] == list[i + 1..];
      i := i + 1;
    }
  }

  /** Blocks that are live at the same time do not overlap. */
  lemma LiveBlocksApart(b: Blocks, n: nat)
    requires Tiled(b, n)
    ensures HeldApart(Only(b, Live))
  {
    hide Pow2, Base;
    var held := Only(b, Live);
    forall f, g | f in held && g in held && f != g
      ensures f + Pow2(held[f]) <= g || g + Pow2(held[g]) <= f
    {
      assert Fits(f, b[f].order, n) && Fits(g, b[g].order, n);
      var q := if f < g then g else f;
      BaseIsInterval(f, q, b[f].order);
      BaseIsInterval(g, q, b[g].order);
      if f <= q < f + Pow2(held[f]) && g <= q < g + Pow2(held[g]) {
        SharedPage(b, n, f, g, q);
      }
    }
  }

  // ---------------------------------------------------------------- the heap

  /** Return a block; page 0 stays out of circulation. */
  method GiveBack(pmm: Pmm.PageAllocator, phys: nat, order: nat)
    requires pmm.Valid() && 0 !in pmm.FreeSet() && phys > 0 && phys % Pmm.PAGE_SIZE == 0
    requires phys / Pmm.PAGE_SIZE in pmm.Held() && pmm.Held()[phys / Pmm.PAGE_SIZE] == order
    modifies pmm, pmm.pages, pmm.heads, pmm.counts
    ensures pmm.Valid() && 0 !in pmm.FreeSet() && pmm.Held() == old(pmm.Held()) - {phys / Pmm.PAGE_SIZE}
    ensures pmm.FreeSet() + pmm.LiveSet() == old(pmm.FreeSet() + pmm.LiveSet())
  {
    hide PageFrames.Agree, PagesOf, Only;
    pmm.FreePages(phys, order);
  }

  /** What a ring buffer holds, oldest first. */
  function Queue(ring: seq<nat>, head: nat, count: nat): seq<nat>
    requires head < |ring| && count <= |ring|
  {
    if count < |ring| then ring[..count] else ring[head..] + ring[..head]
  }

  lemma QueueAdmits(ring: seq<nat>, head: nat, count: nat, a: nat)
    requires |ring| == QUARANTINE_SIZE && head < |ring| && count <= |ring| && (count < |ring| ==> head == count)
    ensures count == |ring| ==> ring[head] == Queue(ring, head, count)[0]
    ensures Queue(ring[head := a], (head + 1) % QUARANTINE_SIZE, if count < |ring| then count + 1 else count) ==
            Admit(Queue(ring, head, count), a)
  {
    var next := if head + 1 == |ring| then 0 else head + 1;
    assert next == (head + 1) % QUARANTINE_SIZE;
    if count < |ring| {
      QueueGrows(ring, head, a, next);
    } else {
      QueueTurns(ring, head, a, next);
    }
    hide Queue;
  }

  lemma QueueGrows(ring: seq<nat>, head: nat, a: nat, next: nat)
    requires head < |ring| && next == if head + 1 == |ring| then 0 else head + 1
    ensures Queue(ring[head := a], next, head + 1) == Queue(ring, head, head) + [a] && |Queue(ring, head, head)| == head
  {
  }

  lemma QueueTurns(ring: seq<nat>, head: nat, a: nat, next: nat)
    requires head < |ring| && next == if head + 1 == |ring| then 0 else head + 1
    ensures var q := Queue(ring, head, |ring|);
            |q| == |ring| && q[0] == ring[head] && Queue(ring[head := a], next, |ring|) == q[1..] + [a]
  {
    assert (ring[head..] + ring[..head])[1..] == ring[head + 1..] + ring[..head];
  }

  class KernelHeap {
    const pmm: Pmm.PageAllocator
    const hhdm: nat
    var pages: Pages
    var lists: seq<seq<nat>>
    const ring: array<nat>
    var head: nat
    var count: nat
    ghost var large: map<nat, nat>
    var mem: Bytes
    ghost var live: map<nat, nat>
    /** The blocks that others hold from the page allocator, and all its pages, free or held. */
    ghost var others: map<nat, nat>
    ghost const pool: set<nat>

    /** The quarantine, oldest entry first. */
    ghost function Quarantine(): seq<nat>
      reads this, ring
      requires ring.Length == QUARANTINE_SIZE && head < QUARANTINE_SIZE && count <= QUARANTINE_SIZE
    {
      Queue(ring[..], head, count)
    }

    ghost predicate RingOk()
      reads this
    {
      && ring.Length == QUARANTINE_SIZE && head < QUARANTINE_SIZE && count <= QUARANTINE_SIZE
      && (count < QUARANTINE_SIZE ==> head == count) && ring != pmm.counts
    }

    ghost function View(): State
      reads this, ring
      requires RingOk()
    {
      State(pages, lists, Quarantine(), large, live, others)
    }

    /** The ring and the page allocator are in order, and every large block's header word holds its order. */
    ghost predicate Ready()
      reads this, ring, pmm, pmm.pages, pmm.heads, pmm.counts
    {
      && RingOk() && pmm.Valid() && 0 !in pmm.FreeSet() && pmm.FreeSet() + pmm.LiveSet() == pool
      && Headers(large, mem)
    }

    ghost predicate Valid()
      reads this, ring, pmm, pmm.pages, pmm.heads, pmm.counts
    {
      Ready() && Sound(View(), pmm.Held(), hhdm)
    }

    /** An empty heap. */
    constructor (pmm: Pmm.PageAllocator, hhdm: nat)
      requires pmm.Valid() && 0 !in pmm.FreeSet() && hhdm % PAGE == 0 && hhdm > 0
      ensures Valid() && this.pmm == pmm && this.hhdm == hhdm && live == map[] && Quarantine() == []
      ensures others == pmm.Held() && fresh(ring)
    {
      hide Sound, Only, PagesOf, Pmm.PageAllocator.Valid, HeldApart;
      this.pmm := pmm;
      this.hhdm := hhdm;
      pages := map[];
      lists := seq(CLASSES, _ => []);
      ring := new nat[QUARANTINE_SIZE](_ => 0);
      head, count := 0, 0;
      large := map[];
      mem := _ => 0;
      live := map[];
      others := pmm.Held();
      pool := pmm.FreeSet() + pmm.LiveSet();
      new;
      PmmApart(pmm);
      EmptyHeap(pmm.Held(), hhdm);
      assert View() == State(map[], seq(CLASSES, _ => []), [], map[], map[], pmm.Held());
    }

    /** Put a slot in the ring; a full ring gives up its oldest entry (0 stands for none). */
    method Enter(a: nat) returns (evicted: nat)
      requires RingOk() && a > 0 && forall x | x in Quarantine() :: x > 0
      modifies this`head, this`count, ring
      ensures RingOk() && Quarantine() == Admit(old(Quarantine()), a)
      ensures evicted == if old(count) < QUARANTINE_SIZE then 0 else old(Quarantine())[0]
    {
      hide Queue, Admit;
      QueueAdmits(ring[..], head, count, a);
      evicted := 0;
      if count >= QUARANTINE_SIZE {
        evicted := ring[head];
      }
      ghost var was, at := ring[..], head;
      ring[head] := a;
      assert ring[..] == was[at := a];
      head := (head + 1) % QUARANTINE_SIZE;
      if count < QUARANTINE_SIZE {
        count := count + 1;
      }
    }

    // -------------------------------------------------------------- kmalloc

    /** Zeroed pages from the page allocator, at their direct-map address; 0 if there are none. */
    method TakeBlock(order: nat) returns (base: nat)
      requires Valid() && order <= MAX_ORDER
      modifies this`mem, pmm, pmm.pages, pmm.heads, pmm.counts
      ensures Ready()
      ensures base == 0 <==> !HasRun(old(pmm.blocks), order)
      ensures base == 0 ==> mem == old(mem) && pmm.blocks == old(pmm.blocks) && pmm.Held() == old(pmm.Held())
      ensures base != 0 ==> FreshFrame(old(pmm.Held()), pmm.Held(), hhdm, base, order)
      ensures base != 0 ==> mem == Fill(old(mem), base, base + Pow2(order) * PAGE, 0)
      ensures base != 0 ==> Intact(old(View()), live.Keys, old(mem), mem)
    {
      hide Sound, Only, PagesOf, Span, BuddyBlocks.Fits, HasRun, Pmm.PageAllocator.Valid, HeldApart, Intact, Pow2, Headers, Fill;
      base := 0;
      var phys := pmm.AllocPages(order);
      if phys != 0 {
        base := phys + hhdm;
        DirectMap(phys, hhdm);
        PmmApart(pmm);
        FreshIntact(View(), old(pmm.Held()), pmm.Held(), hhdm, base, order, mem);
        mem := Fill(mem, base, base + Pow2(order) * PAGE, 0);
        HeadersStaySound(View(), old(pmm.Held()), hhdm, live.Keys, old(mem), mem);
      }
    }

    /** Add an empty slab page to class c; 0 if there is no page. */
    method NewSlab(c: nat) returns (base: nat)
      requires Valid() && c < CLASSES
      modifies this`pages, this`lists, this`mem, pmm, pmm.pages, pmm.heads, pmm.counts
      ensures Ready()
      ensures base == 0 <==> !HasRun(old(pmm.blocks), 0)
      ensures base == 0 ==> Valid() && View() == old(View()) && mem == old(mem) && pmm.blocks == old(pmm.blocks)
      ensures base != 0 ==> SoundBut(View(), pmm.Held(), hhdm, base)
      ensures base != 0 ==> GrownBy(old(View()), View(), old(mem), mem, c, base)
      ensures base != 0 ==> Intact(old(View()), live.Keys, old(mem), mem)
    {
      hide Sound, SoundBut, Only, PagesOf, HasRun, Pmm.PageAllocator.Valid, HeldApart, Intact, FreshFrame, SlotOf, NoRepeats, Pow2;
      OnePage();
      base := TakeBlock(0);
      if base == 0 {
        return;
      }
      ObjSizes();
      FreshAligned(old(pmm.Held()), pmm.Held(), hhdm, base, old(View()));
      var x := BuildSlab(base, ObjSize(c));
      GrowSound(old(View()), old(pmm.Held()), pmm.Held(), hhdm, base, x, c);
      ClassCount(old(View()), old(pmm.Held()), hhdm);
      pages := pages[base := x];
      lists := lists[c := [base] + lists[c]];
      assert View() == Grown(old(View()), base, x, c);
    }

    /** Hand out the first free slot of the slab at base. */
    method Pop(base: nat, size: nat) returns (p: nat)
      requires Ready() && SoundBut(View(), pmm.Held(), hhdm, base)
      requires base in pages && pages[base].free != [] && 0 < size <= pages[base].size
      modifies this`pages, this`live
      ensures Valid() && p == old(pages)[base].free[0] && View() == Popped(old(View()), base, size)
      ensures p !in old(live) && p !in Quarantine() && !IsLargePtr(p) && p != 0
      ensures SlotIs(pages, p, old(pages)[base].size)
    {
      hide Sound, SoundBut, Pmm.PageAllocator.Valid, Only, PagesOf, SlotIs;
      PopSound(View(), pmm.Held(), hhdm, base, size);
      var x := pages[base];
      p := x.free[0];
      pages := pages[base := x.(free := x.free[1..], used := x.used + 1)];
      live := live[p := size];
      NotNull(View(), pmm.Held(), hhdm, p);
    }

    /** A slot of class c for a request of `size` bytes. */
    method AllocSlot(size: nat, c: nat) returns (p: nat)
      requires Valid() && 0 < size <= 2048 && c == SizeToClass(size)
      modifies this`pages, this`lists, this`live, this`mem, pmm, pmm.pages, pmm.heads, pmm.counts
      ensures Valid() && Quarantine() == old(Quarantine())
      ensures p == 0 <==> ClassFull(old(View()), c) && !HasRun(old(pmm.blocks), 0)
      ensures p == 0 ==> View() == old(View()) && mem == old(mem) && pmm.blocks == old(pmm.blocks)
      ensures p != 0 ==> Delivered(old(live), live, p, size) && p !in Quarantine() && !IsLargePtr(p)
                         && SlotIs(pages, p, ObjSize(c))
      ensures p != 0 ==> Allocated(old(View()), View(), old(mem), mem, p, size)
      ensures Intact(old(View()), old(live).Keys, old(mem), mem) && SameExtent(old(View()), View(), old(live).Keys)
    {
      hide Sound, SoundBut, Pmm.PageAllocator.Valid, Only, PagesOf, HasRun, Intact, SlotIs, SameExtent, Allocated, Fill;
      ClassCount(View(), pmm.Held(), hhdm);
      IntactSelf(View(), pmm.Held(), hhdm, mem);
      ExtentSelf(View(), pmm.Held(), hhdm);
      var i := FindStocked(lists[c], pages);
      StockIff(View(), c);
      var base;
      if i < |lists[c]| {
        base := lists[c][i];
        assert base in lists[c];
        SoundImplies(View(), pmm.Held(), hhdm, base);
      } else {
        base := NewSlab(c);
        if base == 0 {
          return 0;
        }
        FreshHasSlots(base, c);
        ExtentGrow(old(View()), View(), old(pmm.Held()), hhdm, base, c);
      }
      ghost var mid := View();
      p := Pop(base, size);
      SizesOfBut(mid, pmm.Held(), hhdm, base);
      ExtentPop(mid, base, size);
      ExtentChain(old(View()), mid, View(), old(live).Keys);
      SlotOnPage(mid, pmm.Held(), hhdm, base);
      SlotCameFrom(old(View()), mid, View(), old(mem), mem, base, p, size);
    }

    /** A whole block behind a header word that records its order. */
    method AllocLarge(size: nat) returns (p: nat)
      requires Valid() && 2048 < size < U64
      modifies this`large, this`live, this`mem, pmm, pmm.pages, pmm.heads, pmm.counts
      ensures Valid() && Quarantine() == old(Quarantine())
      ensures p == 0 <==> !HasRun(old(pmm.blocks), OrderFrom(Needed(size), 0))
      ensures p == 0 ==> View() == old(View()) && mem == old(mem) && pmm.blocks == old(pmm.blocks)
      ensures p != 0 ==> Delivered(old(live), live, p, size) && IsLargePtr(p) && p - 8 in large
                         && large[p - 8] == OrderFrom(Needed(size), 0)
      ensures p != 0 ==> Allocated(old(View()), View(), old(mem), mem, p, size)
      ensures Intact(old(View()), old(live).Keys, old(mem), mem) && SameExtent(old(View()), View(), old(live).Keys)
    {
      hide Sound, Pmm.PageAllocator.Valid, Only, PagesOf, HasRun, Intact, Pow2, FreshFrame, SameExtent, OrderFrom, Needed, Headers, SetWord, Fill, Allocated;
      IntactSelf(View(), pmm.Held(), hhdm, mem);
      ExtentSelf(View(), pmm.Held(), hhdm);
      var order := OrderFor(size);
      var base := TakeBlock(order);
      if base == 0 {
        return 0;
      }
      LargeGiven(old(View()), old(pmm.Held()), pmm.Held(), hhdm, base, size, old(mem), mem);
      ghost var zeroed := mem;
      mem := SetWord(mem, base, order);
      IntactChain(old(View()), old(live).Keys, old(mem), zeroed, mem);
      large := large[base := order];
      p := base + 8;
      live := live[p := size];
    }

    /** Memory for `size` bytes, or 0. */
    method Kmalloc(size: nat) returns (p: nat)
      requires Valid() && size < U64
      modifies this`pages, this`lists, this`large, this`live, this`mem, pmm, pmm.pages, pmm.heads, pmm.counts
      ensures Valid() && Quarantine() == old(Quarantine())
      ensures p == 0 <==> Refused(old(View()), old(pmm.blocks), size)
      ensures p == 0 ==> View() == old(View()) && mem == old(mem) && pmm.blocks == old(pmm.blocks)
      ensures p != 0 ==> Delivered(old(live), live, p, size) && p !in Quarantine() && Fitting(View(), p, size)
      ensures p != 0 ==> Allocated(old(View()), View(), old(mem), mem, p, size)
      ensures Intact(old(View()), old(live).Keys, old(mem), mem) && SameExtent(old(View()), View(), old(live).Keys)
    {
      hide Sound, Pmm.PageAllocator.Valid, Only, PagesOf, HasRun, Intact, Pow2, IsSlot, SameExtent, OrderFrom, Needed, Allocated;
      if size == 0 {
        IntactSelf(View(), pmm.Held(), hhdm, mem);
        ExtentSelf(View(), pmm.Held(), hhdm);
        return 0;
      }
      var c := SizeToClass(size);
      if c < 0 {
        p := AllocLarge(size);
        if p != 0 {
          LargeNotQuarantined(View(), pmm.Held(), hhdm, p);
          OrderOutcome(size);
        }
      } else {
        p := AllocSlot(size, c);
      }
    }

    // -------------------------------------------------------------- kfree

    /** Poison a large block and give it back. */
    method FreeBlock(base: nat, order: nat)
      requires Valid() && base in large && large[base] == order
      modifies this`large, this`live, this`mem, pmm, pmm.pages, pmm.heads, pmm.counts
      ensures Valid() && View() == WithoutLarge(old(View()), base)
      ensures hhdm <= base && pmm.Held() == old(pmm.Held()) - {Frame(hhdm, base)}
      ensures mem == Fill(old(mem), base, base + Pow2(order) * PAGE, POISON)
      ensures Intact(old(View()), live.Keys, old(mem), mem)
    {
      hide Sound, Only, PagesOf, Intact, Pow2, Pmm.PageAllocator.Valid, Headers, Fill, Backed;
      LargeBacked(View(), pmm.Held(), hhdm, base);
      BackedPhys(pmm.Held(), hhdm, base, order);
      LargeFreed(View(), pmm.Held(), hhdm, base, order, mem);
      mem := Fill(mem, base, base + Pow2(order) * PAGE, POISON);
      GiveBack(pmm, base - hhdm, order);
      large := large - {base};
      live := live - {base + 8};
    }

    /** Give a large block back; the order comes from its header word. */
    method FreeLarge(p: nat)
      requires Valid() && p in live && IsLargePtr(p)
      modifies this`large, this`live, this`mem, pmm, pmm.pages, pmm.heads, pmm.counts
      ensures Valid() && View() == Released(old(View()), p) && mem == ReleasedMem(old(View()), old(mem), p)
      ensures hhdm + 8 <= p && pmm.Held() == old(pmm.Held()) - {Frame(hhdm, p - 8)}
      ensures Intact(old(View()), live.Keys, old(mem), mem)
    {
      hide Sound, Only, PagesOf, Intact, Fill, Pow2, Pmm.PageAllocator.Valid, Headers, Word;
      LargeFacts(View(), pmm.Held(), hhdm, p);
      HeaderAt(large, mem, p - 8);
      var order: nat := Word(mem, p - 8);
      FreeBlock(p - 8, order);
    }

    /** Unlink an empty slab page from its class and give it back. */
    method Reclaim(base: nat)
      requires Ready() && SoundBut(View(), pmm.Held(), hhdm, base)
      requires base in pages && pages[base].used == 0
      modifies this`pages, this`lists, this`mem, pmm, pmm.pages, pmm.heads, pmm.counts
      ensures Valid() && View() == Reclaimed(old(View()), base)
      ensures hhdm <= base && pmm.Held() == old(pmm.Held()) - {Frame(hhdm, base)}
      ensures base !in pages && mem == Fill(old(mem), base, base + PAGE, POISON)
      ensures Intact(old(View()), live.Keys, old(mem), mem)
    {
      hide Sound, SoundBut, Only, PagesOf, Intact, Pow2, Pmm.PageAllocator.Valid, SizeToClass, Headers, LargeOk, Fill;
      ListOfPage(View(), pmm.Held(), hhdm, base);
      var c := SizeToClass(pages[base].size);
      var i := FindPage(lists[c], base);
      OnePage();
      ReclaimIntact(View(), pmm.Held(), hhdm, base, mem);
      ReclaimSound(View(), pmm.Held(), hhdm, base);
      mem := Fill(mem, base, base + Pow2(0) * PAGE, POISON);
      LargeOkOf(View(), pmm.Held(), hhdm, base);
      HeadersStay(View(), live.Keys, old(mem), mem);
      PageFacts(View(), pmm.Held(), hhdm, base);
      BackedPhys(pmm.Held(), hhdm, base, 0);
      GiveBack(pmm, base - hhdm, 0);
      lists := lists[c := Without(lists[c], i)];
      pages := pages - {base};
    }

    /** Put the slot that dropped out of the quarantine on its free list; its page goes back once
        nothing on it is taken.  `s` is the state before the free of p. */
    method ReturnOldest(e: nat, ghost s: State, ghost p: nat)
      requires Ready() && Sound(s, pmm.Held(), hhdm)
      requires |s.quar| >= QUARANTINE_SIZE && e == s.quar[0] && p in s.live && !IsLargePtr(p)
      requires View() == s.(quar := Admit(s.quar, p), live := s.live - {p})
      modifies this`pages, this`lists, this`mem, pmm, pmm.pages, pmm.heads, pmm.counts
      ensures Valid() && View() == Released(s, p) && live == old(live)
      ensures PageOf(e) in s.pages && s.pages[PageOf(e)].used > 0
      ensures if s.pages[PageOf(e)].used > 1 then
                mem == Fill(old(mem), e, e + 8, LINK) && pmm.Held() == old(pmm.Held())
              else
                && mem == Fill(Fill(old(mem), e, e + 8, LINK), PageOf(e), PageOf(e) + PAGE, POISON)
                && hhdm <= PageOf(e) && pmm.Held() == old(pmm.Held()) - {Frame(hhdm, PageOf(e))}
      ensures Intact(s, live.Keys, old(mem), mem)
    {
      hide Sound, SoundBut, Only, PagesOf, Intact, Pow2, Pmm.PageAllocator.Valid, Admit, Slabs.PageOf, IsSlot, Fill, Headers, LargeOk;
      OldestHasPage(s, pmm.Held(), hhdm);
      FreeSound(s, pmm.Held(), hhdm, p);
      LinkIntact(s, pmm.Held(), hhdm, p, mem);
      var base := PageOf(e);
      mem := Fill(mem, e, e + 8, LINK);
      HeadersStaySound(s, pmm.Held(), hhdm, s.live.Keys - {p}, old(mem), mem);
      pages := pages[base := pages[base].(free := [e] + pages[base].free, used := pages[base].used - 1)];
      assert View() == Freed(s, p);
      if pages[base].used == 0 {
        ghost var linked, mid := mem, View();
        Reclaim(base);
        SizesOf(s, old(pmm.Held()), hhdm);
        SameUsable(s, mid, live.Keys, linked, mem, p);
        IntactChain(s, live.Keys, old(mem), linked, mem);
      } else {
        NowSound(View(), pmm.Held(), hhdm, base);
      }
    }

    /** Poison a slot and enter it in the quarantine; `e` is the slot that drops out, or 0. */
    method EnterPoisoned(p: nat) returns (e: nat)
      requires Valid() && p in live && !IsLargePtr(p)
      modifies this`head, this`count, this`live, this`mem, ring
      ensures Ready() && View() == old(View()).(quar := Admit(old(Quarantine()), p), live := old(live) - {p})
      ensures PageOf(p) in pages && mem == Fill(old(mem), p + 8, p + pages[PageOf(p)].size, POISON)
      ensures e == if |old(Quarantine())| < QUARANTINE_SIZE then 0 else old(Quarantine())[0]
      ensures e != 0 <==> |old(Quarantine())| >= QUARANTINE_SIZE
      ensures Intact(old(View()), live.Keys, old(mem), mem)
    {
      hide Sound, Only, PagesOf, Intact, Pow2, Pmm.PageAllocator.Valid, Admit, Slabs.PageOf, IsSlot, Fill, Headers, LargeOk;
      ghost var s := View();
      SlotPoisoned(s, pmm.Held(), hhdm, p, mem);
      QuarantineNotNull(s, pmm.Held(), hhdm);
      mem := Fill(mem, p + 8, p + pages[PageOf(p)].size, POISON);
      assert |s.quar| > 0 ==> s.quar[0] in s.quar;
      e := Enter(p);
      live := live - {p};
    }

    /** Poison the slot and put it in quarantine; a full quarantine lets its oldest slot go. */
    method FreeSlot(p: nat)
      requires Valid() && p in live && !IsLargePtr(p)
      modifies this`pages, this`lists, this`head, this`count, this`live, this`mem, ring,
               pmm, pmm.pages, pmm.heads, pmm.counts
      ensures Valid() && live == old(live) - {p} && Quarantine() == Admit(old(Quarantine()), p)
      ensures View() == Released(old(View()), p) && mem == ReleasedMem(old(View()), old(mem), p)
      ensures Intact(old(View()), live.Keys, old(mem), mem)
    {
      hide Sound, Only, PagesOf, Intact, Pow2, Pmm.PageAllocator.Valid, Admit, Slabs.PageOf, IsSlot, Fill, Reclaimed;
      ghost var s := View();
      ghost var held := pmm.Held();
      var e := EnterPoisoned(p);
      ghost var poisoned := mem;
      if e != 0 {
        OldestHasPage(s, held, hhdm);
        ReturnOldest(e, s, p);
        IntactChain(s, live.Keys, old(mem), poisoned, mem);
        ReleasedQuarantine(s, p);
      } else {
        FreeSound(s, held, hhdm, p);
      }
    }

    ghost predicate Poisoned(p: nat)
      reads this
    {
      PoisonAt(mem, p)
    }

    /** Free an allocation.  `halted` is the double-free check stopping the machine. */
    method Kfree(p: nat) returns (halted: bool)
      requires Valid() && (p == 0 || p in live)
      modifies this`pages, this`lists, this`large, this`head, this`count, this`live, this`mem, ring,
               pmm, pmm.pages, pmm.heads, pmm.counts
      ensures halted <==> p != 0 && !IsLargePtr(p) && old(Poisoned(p))
      ensures Valid()
      ensures halted || p == 0 ==> View() == old(View()) && mem == old(mem) && pmm.blocks == old(pmm.blocks)
      ensures !halted && p != 0 ==> View() == Released(old(View()), p) && mem == ReleasedMem(old(View()), old(mem), p)
      ensures !halted ==> live == old(live) - {p}
      ensures !halted ==> Quarantine() == if p != 0 && !IsLargePtr(p) then Admit(old(Quarantine()), p) else old(Quarantine())
      ensures Intact(old(View()), live.Keys, old(mem), mem) && SameExtent(old(View()), View(), old(live).Keys - {p})
    {
      hide Sound, Only, PagesOf, Intact, Pow2, Pmm.PageAllocator.Valid, Admit, Released, ReleasedMem, SameExtent;
      halted := false;
      IntactSelf(View(), pmm.Held(), hhdm, mem);
      ExtentSelf(View(), pmm.Held(), hhdm);
      ExtentFewer(View(), View(), live.Keys, live.Keys - {p});
      if p != 0 {
        ReleasedExtent(View(), pmm.Held(), hhdm, p);
      }
      if p == 0 {
        ZeroNotLive(View(), pmm.Held(), hhdm);
        return;
      }
      if IsLargePtr(p) {
        FreeLarge(p);
        ReleasedLarge(old(View()), p);
        return;
      }
      if mem(p + 8) == POISON && mem(p + 9) == POISON && mem(p + 10) == POISON && mem(p + 11) == POISON {
        return true;
      }
      FreeSlot(p);
    }

    // -------------------------------------------------------------- what clients do

    /** A client writes one byte of its allocation. */
    method Write(p: nat, off: nat, v: byte)
      requires Valid() && p in live && Cell(pages, large, p) && off < Usable(pages, large, p)
      modifies this`mem
      ensures Valid() && mem == Fill(old(mem), p + off, p + off + 1, v as int)
      ensures Intact(View(), live.Keys - {p}, old(mem), mem)
    {
      hide Sound, Pmm.PageAllocator.Valid, Cell, Usable, Intact, Headers, Fill;
      WriteIntact(View(), pmm.Held(), hhdm, p, off, v as int, mem);
      WriteHeaders(View(), pmm.Held(), hhdm, p, off, v as int, mem);
      mem := Fill(mem, p + off, p + off + 1, v as int);
    }

    // -------------------------------------------------------------- krealloc

    method UsableSize(p: nat) returns (n: nat)
      requires Valid() && (p == 0 || p in live)
      ensures p == 0 ==> n == 0
      ensures p != 0 ==> Cell(pages, large, p) && n == Usable(pages, large, p) && n <= LIMIT
    {
      hide Sound, Pmm.PageAllocator.Valid, Pow2, Word, Headers, SlotOf;
      if p == 0 {
        return 0;
      }
      CellFacts(View(), pmm.Held(), hhdm, p);
      if IsLargePtr(p) {
        HeaderAt(large, mem, p - 8);
        var order: nat := Word(mem, p - 8);
        BlockSize(order);
        return Pow2(order) * PAGE - 8;
      }
      return pages[PageOf(p)].size;
    }

    /** Copy n bytes from p to r and free p. */
    method Move(p: nat, r: nat, n: nat) returns (halted: bool)
      requires Valid() && p in live && r in live && p != r
      requires Cell(pages, large, p) && Cell(pages, large, r)
      requires n <= Usable(pages, large, p) && n <= Usable(pages, large, r)
      modifies this`pages, this`lists, this`large, this`head, this`count, this`live, this`mem, ring,
               pmm, pmm.pages, pmm.heads, pmm.counts
      ensures Valid() && live == if halted then old(live) else old(live) - {p}
      ensures halted <==> !IsLargePtr(p) && old(Poisoned(p))
      ensures View() == if halted then old(View()) else Released(old(View()), p)
      ensures Quarantine() == if halted || IsLargePtr(p) then old(Quarantine()) else Admit(old(Quarantine()), p)
      ensures var copied := Copy(old(mem), r, p, n);
              mem == if halted then copied else ReleasedMem(old(View()), copied, p)
      ensures Intact(old(View()), old(live).Keys - {p, r}, old(mem), mem)
      ensures SameExtent(old(View()), View(), old(live).Keys - {p})
      ensures Read(mem, r, n) == Read(old(mem), p, n)
    {
      hide Sound, SameExtent, Pmm.PageAllocator.Valid, Intact, Usable, Cell, Admit, Read, Copy, PoisonAt, Released, ReleasedMem;
      ghost var s := View();
      NotNull(s, pmm.Held(), hhdm, p);
      CopyIntact(s, pmm.Held(), hhdm, p, r, n, mem);
      CopyKeepsPoison(s, pmm.Held(), hhdm, p, r, n, mem);
      CopyHeaders(s, pmm.Held(), hhdm, p, r, n, mem);
      mem := Copy(mem, r, p, n);
      ghost var copied := mem;
      halted := Kfree(p);
      IntactFewer(s, live.Keys, old(live).Keys - {p, r}, copied, mem);
      IntactChain(s, old(live).Keys - {p, r}, old(mem), copied, mem);
      IntactBytes(s, live.Keys, r, copied, mem, n);
    }

    /** Copy what fits of p to the new allocation r and free p. */
    method CopyOver(p: nat, r: nat, size: nat) returns (out: Outcome)
      requires Valid() && p in live && r in live && p != r && r != 0 && size < U64
      requires Cell(pages, large, p) && Fitting(View(), r, size)
      modifies this`pages, this`lists, this`large, this`head, this`count, this`live, this`mem, ring,
               pmm, pmm.pages, pmm.heads, pmm.counts
      ensures Valid() && out == Ending(old(View()), old(mem), p, r, size)
      ensures live == if out.Done? then old(live) - {p} else old(live)
      ensures View() == (if out.Done? then Released(old(View()), p) else old(View()))
      ensures Quarantine() == if out.Done? && !IsLargePtr(p) then Admit(old(Quarantine()), p) else old(Quarantine())
      ensures mem == MovedMem(old(View()), old(mem), p, r, size, out)
      ensures Intact(old(View()), old(live).Keys - {p, r}, old(mem), mem)
      ensures SameExtent(old(View()), View(), old(live).Keys - {p})
      ensures out.Done? ==>
                var n := Min(size, Usable(old(pages), old(large), p)); Read(mem, r, n) == Read(old(mem), p, n)
    {
      hide Sound, SameExtent, Pmm.PageAllocator.Valid, Pow2, Intact, Usable, Cell, Fitting, Read, PoisonAt, SizeToClass, Released, ReleasedMem, Copy;
      ZeroNotLive(View(), pmm.Held(), hhdm);
      var oldSize := UsableSize(p);
      var room := UsableSize(r);
      var n := Min(size, oldSize);
      RoomToCopy(View(), r, size, oldSize);
      IntactSelf(View(), pmm.Held(), hhdm, mem);
      IntactFewer(View(), live.Keys, live.Keys - {p, r}, mem, mem);
      ExtentSelf(View(), pmm.Held(), hhdm);
      ExtentFewer(View(), View(), live.Keys, live.Keys - {p});
      if n > room {
        return Overrun;
      }
      var halted := Move(p, r, n);
      out := if halted then Halted else Done;
    }

    lemma IsSound()
      requires Valid()
      ensures RingOk() && Sound(View(), pmm.Held(), hhdm)
    {
    }

    /** Take a new allocation, copy and free the old one. */
    method Relocate(p: nat, size: nat) returns (r: nat, out: Outcome)
      requires Valid() && p in live && 0 < size < U64
      modifies this`pages, this`lists, this`large, this`head, this`count, this`live, this`mem, ring,
               pmm, pmm.pages, pmm.heads, pmm.counts
      ensures Valid() && Cell(old(pages), old(large), p)
      ensures r == 0 <==> Refused(old(View()), old(pmm.blocks), size)
      ensures out == Ending(old(View()), old(mem), p, r, size)
      ensures live == After(old(live), p, r, size, out)
      ensures Moved(old(View()), View(), old(mem), mem, p, r, size, out)
      ensures r == 0 ==> View() == old(View()) && mem == old(mem) && pmm.blocks == old(pmm.blocks)
      ensures Quarantine() == if r != 0 && out.Done? && !IsLargePtr(p) then Admit(old(Quarantine()), p) else old(Quarantine())
      ensures r != 0 ==> r !in old(live)
      ensures r != 0 && out.Done? ==>
                var n := Min(size, Usable(old(pages), old(large), p)); Read(mem, r, n) == Read(old(mem), p, n)
      ensures Intact(old(View()), old(live).Keys - {p}, old(mem), mem)
      ensures SameExtent(old(View()), View(), old(live).Keys - {p})
    {
      hide Sound, Pmm.PageAllocator.Valid, Pow2, Intact, Usable, Cell, Admit, Refused, SameExtent, Read, PoisonAt, Ending, Released, Copy, Allocated, Moved, MovedMem, Fitting;
      hide KernelHeap.Valid, KernelHeap.Ready;
      IsSound();
      ghost var s := View();
      CellFacts(s, pmm.Held(), hhdm, p);
      r := Kmalloc(size);
      IsSound();
      IntactFewer(s, s.live.Keys, s.live.Keys - {p}, old(mem), mem);
      ExtentFewer(s, View(), s.live.Keys, s.live.Keys - {p});
      if r == 0 {
        NoEnding(s, old(mem), p, size);
        NotMoved(s, old(mem), p, size);
        return 0, Done;
      }
      ghost var t, mid := View(), mem;
      ExtentOf(s, t, s.live.Keys, p);
      SameEnding(s, t, old(pmm.Held()), hhdm, old(mem), mid, p, r, size);
      out := CopyOver(p, r, size);
      IsSound();
      AfterMove(s, t, View(), old(mem), mid, mem, p, r, size, out);
    }

    /** Change the size of an allocation.  The first min(old, new) bytes survive, and so do all bytes of
        every other allocation; it fails as kmalloc does and stops as kfree does. */
    method Krealloc(p: nat, size: nat) returns (r: nat, out: Outcome)
      requires Valid() && (p == 0 || p in live) && size < U64
      modifies this`pages, this`lists, this`large, this`head, this`count, this`live, this`mem, ring,
               pmm, pmm.pages, pmm.heads, pmm.counts
      ensures Valid() && (p != 0 ==> Cell(old(pages), old(large), p))
      ensures r == 0 <==> if p != 0 && size > 0 && Stays(old(View()), p, size) then false
                          else (p != 0 && size == 0) || Refused(old(View()), old(pmm.blocks), size)
      ensures p != 0 && size > 0 && Stays(old(View()), p, size) ==>
                && r == p && out.Done? && View() == old(View()).(live := old(live)[p := size]) && mem == old(mem)
                && pmm.blocks == old(pmm.blocks)
      ensures p != 0 && size > 0 && !Stays(old(View()), p, size) ==>
                && out == Ending(old(View()), old(mem), p, r, size) && live == After(old(live), p, r, size, out)
                && Moved(old(View()), View(), old(mem), mem, p, r, size, out) && r !in old(live)
      ensures p != 0 && size == 0 ==>
                && out == (if !IsLargePtr(p) && old(Poisoned(p)) then Halted else Done)
                && live == (if out.Done? then old(live) - {p} else old(live))
                && View() == (if out.Done? then Released(old(View()), p) else old(View()))
                && mem == if out.Done? then ReleasedMem(old(View()), old(mem), p) else old(mem)
      ensures p == 0 ==> out.Done? && live == if r == 0 then old(live) else old(live)[r := size]
      ensures p == 0 && r != 0 ==> Allocated(old(View()), View(), old(mem), mem, r, size)
      ensures r == 0 && (size > 0 || p == 0) ==>
                View() == old(View()) && mem == old(mem) && pmm.blocks == old(pmm.blocks)
      ensures Quarantine() == if p != 0 && !IsLargePtr(p) && out.Done? && (size == 0 || (r != 0 && r != p))
                              then Admit(old(Quarantine()), p) else old(Quarantine())
      ensures r != 0 ==> r in live && Cell(pages, large, r) && (size <= Usable(pages, large, r) <==> size <= LIMIT)
      ensures p != 0 && r != 0 && out.Done? ==>
                var n := Min(size, Usable(old(pages), old(large), p)); Read(mem, r, n) == Read(old(mem), p, n)
      ensures Intact(old(View()), old(live).Keys - {p}, old(mem), mem)
      ensures SameExtent(old(View()), View(), old(live).Keys - {p})
    {
      hide Sound, Pmm.PageAllocator.Valid, Pow2, Intact, Usable, Cell, Admit, Refused, Fitting, SameExtent, Read, PoisonAt, Released, ReleasedMem, Moved, Allocated;
      out := Done;
      ghost var s := View();
      IntactSelf(s, pmm.Held(), hhdm, mem);
      ZeroNotLive(s, pmm.Held(), hhdm);
      if p == 0 {
        r := Kmalloc(size);
        IntactFewer(s, s.live.Keys, s.live.Keys - {p}, old(mem), mem);
        ExtentFewer(s, View(), s.live.Keys, s.live.Keys - {p});
      } else {
        CellFacts(s, pmm.Held(), hhdm, p);
        if size == 0 {
          var halted := Kfree(p);
          IntactFewer(s, live.Keys, s.live.Keys - {p}, old(mem), mem);
          return 0, if halted then Halted else Done;
        }
        var oldSize := UsableSize(p);
        if size <= oldSize && SizeToClass(oldSize) == SizeToClass(size) && SizeToClass(oldSize) >= 0 {
          IntactFewer(s, s.live.Keys, s.live.Keys - {p}, mem, mem);
          ResizeSound(s, pmm.Held(), hhdm, p, size);
          ExtentSelf(s, pmm.Held(), hhdm);
          ExtentResized(s, p, size);
          live := live[p := size];
          r := p;
        } else {
          r, out := Relocate(p, size);
        }
      }
      if r != 0 {
        RoomFor(View(), pmm.Held(), hhdm, r);
      }
    }
  }

  /** How krealloc ends: done, stopped by the poison check of kfree, or about to copy past the end of the
      new block, of which nothing more is said. */
  datatype Outcome = Done | Halted | Overrun

  /** The request stays within the size class of the allocation. */
  ghost predicate Stays(s: State, p: nat, size: nat) {
    Cell(s.pages, s.large, p) &&
    var usable := Usable(s.pages, s.large, p);
    size <= usable && SizeToClass(usable) == SizeToClass(size) && SizeToClass(usable) >= 0
  }

  ghost function Ending(s: State, m: Bytes, p: nat, r: nat, size: nat): Outcome
    requires Cell(s.pages, s.large, p)
  {
    if r == 0 then Done else Fate(s, m, p, size)
  }

  /** How the relocation of p ends once there is a new allocation. */
  ghost function Fate(s: State, m: Bytes, p: nat, size: nat): Outcome
    requires Cell(s.pages, s.large, p)
  {
    if size >= U64 - 8 && Usable(s.pages, s.large, p) > PAGE - 8 then Overrun
    else if !IsLargePtr(p) && PoisonAt(m, p) then Halted
    else Done
  }

  /** Memory once what fits of p has been copied to r and p freed. */
  ghost function MovedMem(s: State, m: Bytes, p: nat, r: nat, size: nat, out: Outcome): Bytes
    requires Cell(s.pages, s.large, p)
  {
    if out.Overrun? then m
    else
      var copied := Copy(m, r, p, Min(size, Usable(s.pages, s.large, p)));
      if out.Halted? then copied else ReleasedMem(s, copied, p)
  }

  /** What the relocation of p comes to: nothing if it is refused; else r is handed out, what fits is
      copied, and p is freed. */
  ghost predicate Moved(s: State, t: State, m: Bytes, m': Bytes, p: nat, r: nat, size: nat, out: Outcome) {
    if r == 0 then t == s && m' == m
    else
      && Offered(s, r, size)
      && var mid := Given(s, r, size);
         && Cell(mid.pages, mid.large, p)
         && t == (if out.Done? then Released(mid, p) else mid)
         && m' == MovedMem(mid, GivenMem(s, m, r, size), p, r, size, out)
  }

  lemma IsMoved(s: State, mid: State, t: State, m: Bytes, mm: Bytes, m': Bytes, p: nat, r: nat, size: nat, out: Outcome)
    requires r != 0 && Allocated(s, mid, m, mm, r, size) && Cell(mid.pages, mid.large, p)
    requires t == (if out.Done? then Released(mid, p) else mid) && m' == MovedMem(mid, mm, p, r, size, out)
    ensures Moved(s, t, m, m', p, r, size, out)
  {
    hide Released, MovedMem, Given, GivenMem, Offered, Cell;
  }

  /** An allocation and a move, put together. */
  lemma AfterMove(s: State, mid: State, t: State, m: Bytes, mm: Bytes, m': Bytes, p: nat, r: nat, size: nat, out: Outcome)
    requires r != 0 && p in s.live && Delivered(s.live, mid.live, r, size) && Allocated(s, mid, m, mm, r, size)
    requires Cell(s.pages, s.large, p) && Cell(mid.pages, mid.large, p)
    requires SameExtent(s, mid, s.live.Keys) && Intact(s, s.live.Keys, m, mm)
    requires SameExtent(mid, t, mid.live.Keys - {p}) && Intact(mid, mid.live.Keys - {p, r}, mm, m')
    requires t == (if out.Done? then Released(mid, p) else mid) && m' == MovedMem(mid, mm, p, r, size, out)
    ensures Moved(s, t, m, m', p, r, size, out)
    ensures Intact(s, s.live.Keys - {p}, m, m') && SameExtent(s, t, s.live.Keys - {p})
    ensures var n := Min(size, Usable(s.pages, s.large, p)); Read(mm, p, n) == Read(m, p, n)
  {
    hide Allocated, SameExtent, Intact, Moved, MovedMem, Released, Cell, Usable, Read;
    MovedIntact(s, mid, p, r, size, m, mm, m');
    IsMoved(s, mid, t, m, mm, m', p, r, size, out);
    ExtentFewer(s, mid, s.live.Keys, s.live.Keys - {p});
    ExtentFewer(mid, t, mid.live.Keys - {p}, s.live.Keys - {p});
    ExtentChain(s, mid, t, s.live.Keys - {p});
  }

  lemma NotMoved(s: State, m: Bytes, p: nat, size: nat)
    ensures Moved(s, s, m, m, p, 0, size, Done)
  {
  }

  /** The freed slot is the newest in quarantine. */
  lemma ReleasedQuarantine(s: State, p: nat)
    requires |s.quar| >= QUARANTINE_SIZE && !IsLargePtr(p) ==>
               PageOf(s.quar[0]) in s.pages && s.pages[PageOf(s.quar[0])].used > 0
    ensures Released(s, p).quar == if IsLargePtr(p) then s.quar else Admit(s.quar, p)
  {
    hide Admit, PageOf, SizeToClass;
  }

  lemma ReleasedLarge(s: State, p: nat)
    requires IsLargePtr(p)
    ensures Released(s, p).live == s.live - {p} && Released(s, p).quar == s.quar
  {
  }

  ghost function After(live: map<nat, nat>, p: nat, r: nat, size: nat, out: Outcome): map<nat, nat> {
    if r == 0 then live else if out.Done? then (live - {p})[r := size] else live[r := size]
  }

  /** The copy leaves the new block exactly when the size wrapped and the old block was larger than a page. */
  lemma RoomToCopy(t: State, r: nat, size: nat, oldSize: nat)
    requires Fitting(t, r, size) && oldSize <= LIMIT && size < U64
    ensures Min(size, oldSize) > Usable(t.pages, t.large, r) <==> size >= U64 - 8 && oldSize > PAGE - 8
  {
    hide Cell, Usable;
  }

  lemma NoEnding(s: State, m: Bytes, p: nat, size: nat)
    requires Cell(s.pages, s.large, p)
    ensures Ending(s, m, p, 0, size) == Done
  {
  }

  /** An allocation in between does not change how the rest ends. */
  lemma SameEnding(s: State, t: State, held: map<nat, nat>, hhdm: nat, m: Bytes, m': Bytes, p: nat, r: nat, size: nat)
    requires Sound(s, held, hhdm) && p in s.live && Intact(s, s.live.Keys, m, m')
    requires Cell(s.pages, s.large, p) && Cell(t.pages, t.large, p)
    requires Usable(s.pages, s.large, p) == Usable(t.pages, t.large, p)
    ensures Ending(s, m, p, r, size) == Ending(t, m', p, r, size)
  {
    hide Sound, Cell, Usable, PoisonAt, Intact;
    AllocKeepsPoison(s, held, hhdm, p, m, m');
  }

  lemma MovedIntact(s: State, t: State, p: nat, r: nat, size: nat, m: Bytes, mid: Bytes, m': Bytes)
    requires SameExtent(s, t, s.live.Keys) && Intact(s, s.live.Keys, m, mid) && p in s.live
    requires Delivered(s.live, t.live, r, size) && Intact(t, t.live.Keys - {p, r}, mid, m')
    requires Cell(s.pages, s.large, p)
    ensures Intact(s, s.live.Keys - {p}, m, m')
    ensures var n := Min(size, Usable(s.pages, s.large, p)); Read(mid, p, n) == Read(m, p, n)
  {
    hide SameExtent, Intact, Cell, Usable, Read;
    IntactFewer(s, s.live.Keys, s.live.Keys - {p}, m, mid);
    IntactFewer(t, t.live.Keys - {p, r}, s.live.Keys - {p}, mid, m');
    IntactSameExtent(s, t, s.live.Keys - {p}, mid, m');
    IntactChain(s, s.live.Keys - {p}, m, mid, m');
    IntactBytes(s, s.live.Keys, p, m, mid, Min(size, Usable(s.pages, s.large, p)));
  }

  lemma ResizeSound(s: State, held: map<nat, nat>, hhdm: nat, p: nat, size: nat)
    requires Sound(s, held, hhdm) && p in s.live && size > 0
    requires Cell(s.pages, s.large, p) && size <= Usable(s.pages, s.large, p)
    ensures Sound(s.(live := s.live[p := size]), held, hhdm)
  {
    hide Backing, Placed, ListsOk, Cell, Usable;
    assert SlotPtrs(s.live[p := size]) == SlotPtrs(s.live);
  }

  lemma RoomFor(s: State, held: map<nat, nat>, hhdm: nat, r: nat)
    requires Sound(s, held, hhdm) && r in s.live
    ensures Cell(s.pages, s.large, r) && (s.live[r] <= Usable(s.pages, s.large, r) <==> s.live[r] <= LIMIT)
  {
    hide Backing, Placed, ListsOk, LargeOk, Cell, Usable;
    CellFacts(s, held, hhdm, r);
  }

  /** A slot is at least sixteen bytes long. */
  lemma SlotRoom(s: State, held: map<nat, nat>, hhdm: nat, p: nat)
    requires Sound(s, held, hhdm) && p in s.live && !IsLargePtr(p)
    ensures Cell(s.pages, s.large, p) && Usable(s.pages, s.large, p) >= 16
  {
    hide Backing, ListsOk, LargeOk, SlotOf;
    assert Cell(s.pages, s.large, p) && SlabOk(s.pages[PageOf(p)], PageOf(p));
  }

  /** An allocation leaves the checked bytes of a live slot alone, and so does a copy to another cell. */
  lemma AllocKeepsPoison(s: State, held: map<nat, nat>, hhdm: nat, p: nat, m: Bytes, m': Bytes)
    requires Sound(s, held, hhdm) && p in s.live && Intact(s, s.live.Keys, m, m')
    ensures !IsLargePtr(p) ==> (PoisonAt(m', p) <==> PoisonAt(m, p))
  {
    hide Sound, Cell, Usable, Same, PoisonAt;
    if !IsLargePtr(p) {
      SlotRoom(s, held, hhdm, p);
      PoisonKept(m, m', p, p + Usable(s.pages, s.large, p));
    }
  }

  lemma CopyKeepsPoison(s: State, held: map<nat, nat>, hhdm: nat, p: nat, r: nat, n: nat, m: Bytes)
    requires Sound(s, held, hhdm) && p in s.live && r in s.live && p != r
    requires Cell(s.pages, s.large, r) && n <= Usable(s.pages, s.large, r)
    ensures !IsLargePtr(p) ==> (PoisonAt(Copy(m, r, p, n), p) <==> PoisonAt(m, p))
  {
    hide Sound, Cell, Usable, Same, PoisonAt, Copy;
    if !IsLargePtr(p) {
      SlotRoom(s, held, hhdm, p);
      LiveApart(s, held, hhdm, p, r);
      CopySame(m, r, p, n, Start(p), p + Usable(s.pages, s.large, p));
      PoisonKept(m, Copy(m, r, p, n), p, p + Usable(s.pages, s.large, p));
    }
  }

  /** The heap grew by an empty page of zeros in class c. */
  ghost predicate GrownBy(s: State, t: State, m: Bytes, m': Bytes, c: nat, base: nat) {
    && c < |s.lists| && base !in s.pages && t == Grown(s, base, FreshSlab(base, ObjSize(c)), c)
    && m' == Fill(m, base, base + PAGE, 0)
  }

  /** Whether p is an address an allocation can return: for a slot, the first free one of the first page
      of its class that has any, or that of a new page; otherwise the one behind a header word. */
  ghost predicate Offered(s: State, p: nat, size: nat) {
    if size > 2048 then IsLargePtr(p) && p - 8 !in s.large
    else
      && !IsLargePtr(p) && SizeToClass(size) < |s.lists|
      && var c: nat := SizeToClass(size);
         var i := Stock(s.lists[c], s.pages);
         if i < |s.lists[c]| then p == s.pages[s.lists[c][i]].free[0]
         else
           var x := FreshSlab(PageOf(p), ObjSize(c));
           PageOf(p) !in s.pages && x.free != [] && p == x.free[0]
  }

  /** The heap once p has been handed out. */
  ghost function Given(s: State, p: nat, size: nat): State
    requires Offered(s, p, size)
  {
    if size > 2048 then WithLarge(s, p - 8, OrderFrom(Needed(size), 0), size)
    else
      var c: nat := SizeToClass(size);
      var i := Stock(s.lists[c], s.pages);
      if i < |s.lists[c]| then Popped(s, s.lists[c][i], size)
      else Popped(Grown(s, PageOf(p), FreshSlab(PageOf(p), ObjSize(c)), c), PageOf(p), size)
  }

  /** Memory once p has been handed out: a slot of a page in use is not touched, a new page is zeroed, and
      a large block is zeroed behind a header word that holds its order. */
  ghost function GivenMem(s: State, m: Bytes, p: nat, size: nat): Bytes
    requires Offered(s, p, size)
  {
    if size > 2048 then
      var order := OrderFrom(Needed(size), 0);
      SetWord(Fill(m, p - 8, p - 8 + Pow2(order) * PAGE, 0), p - 8, order)
    else
      var c: nat := SizeToClass(size);
      if Stock(s.lists[c], s.pages) < |s.lists[c]| then m else Fill(m, PageOf(p), PageOf(p) + PAGE, 0)
  }

  /** The heap and memory after an allocation follow from the address p it returns. */
  ghost predicate Allocated(s: State, t: State, m: Bytes, m': Bytes, p: nat, size: nat) {
    Offered(s, p, size) && t == Given(s, p, size) && m' == GivenMem(s, m, p, size)
  }

  lemma StockIff(s: State, c: nat)
    requires c < |s.lists| && forall b | b in s.lists[c] :: b in s.pages
    ensures ClassFull(s, c) <==> Stock(s.lists[c], s.pages) == |s.lists[c]|
  {
    var i := Stock(s.lists[c], s.pages);
    if i < |s.lists[c]| {
      assert s.lists[c][i] in s.lists[c];
    }
  }

  lemma FreshHasSlots(base: nat, c: nat)
    requires c < CLASSES
    ensures FreshSlab(base, ObjSize(c)).free != []
  {
    ObjSizes();
    SlotsFit(ObjSize(c));
  }

  lemma SlotOnPage(s: State, held: map<nat, nat>, hhdm: nat, base: nat)
    requires SoundBut(s, held, hhdm, base) && base in s.pages && s.pages[base].free != []
    ensures PageOf(s.pages[base].free[0]) == base
  {
    hide Backing, ListsOk, LargeOk, SizesOk, OthersOf, NoRepeats, PageOf;
    assert SlabOk(s.pages[base], base);
    SlotBounds(s.pages[base], base, s.pages[base].free[0]);
  }

  lemma SlotCameFrom(s: State, mid: State, t: State, m: Bytes, m': Bytes, base: nat, p: nat, size: nat)
    requires base in mid.pages && mid.pages[base].free != [] && p == mid.pages[base].free[0] && t == Popped(mid, base, size)
    requires PageOf(p) == base && !IsLargePtr(p) && size <= 2048 && SizeToClass(size) < |s.lists|
    requires var c: nat := SizeToClass(size);
             var i := Stock(s.lists[c], s.pages);
             if i < |s.lists[c]| then mid == s && m' == m && s.lists[c][i] == base else GrownBy(s, mid, m, m', c, base)
    ensures Allocated(s, t, m, m', p, size)
  {
    hide Fill, SizeToClass, ObjSize;
  }

  /** When a request fails: it is for nothing, or its class is full and no page is left, or there is no
      block of its order. */
  ghost predicate Refused(s: State, b: Blocks, size: nat) {
    if size == 0 then true
    else if size <= 2048 then ClassFull(s, SizeToClass(size)) && !HasRun(b, 0)
    else !HasRun(b, OrderFrom(Needed(size), 0))
  }

  /** p has room for `size` bytes exactly when that is within the limit; above it the room is the limit,
      or what one page holds when the size plus its header word wraps. */
  ghost predicate Fitting(s: State, p: nat, size: nat) {
    && Cell(s.pages, s.large, p)
    && (size <= LIMIT <==> size <= Usable(s.pages, s.large, p))
    && (LIMIT < size < U64 - 8 ==> Usable(s.pages, s.large, p) == LIMIT)
    && (size >= U64 - 8 ==> Usable(s.pages, s.large, p) == PAGE - 8)
  }

  ghost predicate Delivered(live: map<nat, nat>, live': map<nat, nat>, p: nat, size: nat) {
    p !in live && live' == live[p := size]
  }

  lemma SoundImplies(s: State, held: map<nat, nat>, hhdm: nat, base: nat)
    requires Sound(s, held, hhdm)
    ensures SoundBut(s, held, hhdm, base)
  {
  }

  lemma LargeNotQuarantined(s: State, held: map<nat, nat>, hhdm: nat, p: nat)
    requires Sound(s, held, hhdm) && IsLargePtr(p)
    ensures p !in s.quar
  {
    hide Backing, ListsOk, LargeOk, SizesOk;
    if p in s.quar {
      SlotIsNotLarge(s.pages, p);
    }
  }

  lemma LargeFacts(s: State, held: map<nat, nat>, hhdm: nat, p: nat)
    requires Sound(s, held, hhdm) && p in s.live && IsLargePtr(p)
    ensures p - 8 in s.large && Backed(held, hhdm, p - 8, s.large[p - 8]) && s.large[p - 8] <= MAX_ORDER
  {
    hide Placed, ListsOk, SizesOk, HeldApart;
  }

  lemma LargeBacked(s: State, held: map<nat, nat>, hhdm: nat, base: nat)
    requires Sound(s, held, hhdm) && base in s.large
    ensures Backed(held, hhdm, base, s.large[base])
  {
    hide Placed, ListsOk, SizesOk, HeldApart;
  }

  lemma PageFacts(s: State, held: map<nat, nat>, hhdm: nat, base: nat)
    requires SoundBut(s, held, hhdm, base) && base in s.pages
    ensures Backed(held, hhdm, base, 0)
  {
    hide Placed, ListsOk, SizesOk, LargeOk, HeldApart;
  }

  lemma BackedPhys(held: map<nat, nat>, hhdm: nat, base: nat, order: nat)
    requires Backed(held, hhdm, base, order)
    ensures hhdm < base && (base - hhdm) % Pmm.PAGE_SIZE == 0
    ensures (base - hhdm) / Pmm.PAGE_SIZE in held && held[(base - hhdm) / Pmm.PAGE_SIZE] == order
    ensures Frame(hhdm, base) == (base - hhdm) / Pmm.PAGE_SIZE
  {
  }

  /** Poisoning the block at base touches nothing outside it. */
  lemma FreeLargeIntact(s: State, held: map<nat, nat>, hhdm: nat, base: nat, m: Bytes)
    requires Sound(s, held, hhdm) && base in s.large
    ensures Intact(s, s.live.Keys - {base + 8}, m, Fill(m, base, base + Pow2(s.large[base]) * PAGE, POISON))
  {
    hide ListsOk, Pow2, SlabOk, Intact, SlotOf, HeldApart, LargeOk, Backed;
    forall p | p in s.live.Keys - {base + 8}
      ensures Cell(s.pages, s.large, p) && Home(p) != base
    {
      assert Cell(s.pages, s.large, p);
    }
    IntactBlock(s, held, hhdm, base, s.large[base], s.live.Keys - {base + 8}, m, POISON);
  }

  lemma ReclaimIntact(s: State, held: map<nat, nat>, hhdm: nat, base: nat, m: Bytes)
    requires SoundBut(s, held, hhdm, base) && base in s.pages && s.pages[base].used == 0
    ensures Intact(s, s.live.Keys, m, Fill(m, base, base + Pow2(0) * PAGE, POISON))
  {
    hide ListsOk, Pow2, SlabOk, Intact, SlotOf, HeldApart, Backed;
    DropPlaced(s.pages, s.quar, SlotPtrs(s.live), base);
    forall p | p in s.live.Keys
      ensures Cell(s.pages, s.large, p) && Home(p) != base
    {
      assert Cell(s.pages, s.large, p);
      if !IsLargePtr(p) {
        assert p in SlotPtrs(s.live);
      }
    }
    IntactBlock(s, held, hhdm, base, 0, s.live.Keys, m, POISON);
  }

  /** The class that the size of a page names is the class whose list holds it. */
  lemma ListOfPage(s: State, held: map<nat, nat>, hhdm: nat, base: nat)
    requires SoundBut(s, held, hhdm, base) && base in s.pages
    ensures |s.lists| == CLASSES
    ensures var c := SizeToClass(s.pages[base].size); 0 <= c && base in s.lists[c]
  {
    hide Backing, Placed, LargeOk, SizesOk;
    var c: nat :| c < CLASSES && s.pages[base].size == ObjSize(c) && base in s.lists[c];
    ClassOfObjSize(c);
  }

  lemma SlotFacts(s: State, held: map<nat, nat>, hhdm: nat, p: nat)
    requires Sound(s, held, hhdm) && p in s.live && !IsLargePtr(p)
    ensures PageOf(p) in s.pages
  {
    hide Backing, Placed, ListsOk, LargeOk;
  }

  lemma QuarantineNotNull(s: State, held: map<nat, nat>, hhdm: nat)
    requires Sound(s, held, hhdm)
    ensures forall x | x in s.quar :: x > 0
  {
    hide Sound;
    forall x | x in s.quar
      ensures x > 0
    {
      NotNull(s, held, hhdm, x);
    }
  }

  lemma ZeroNotLive(s: State, held: map<nat, nat>, hhdm: nat)
    requires Sound(s, held, hhdm)
    ensures 0 !in s.live
  {
    hide Sound;
    if 0 in s.live {
      NotNull(s, held, hhdm, 0);
    }
  }

  lemma SlotPoisoned(s: State, held: map<nat, nat>, hhdm: nat, p: nat, m: Bytes)
    requires Sound(s, held, hhdm) && p in s.live && !IsLargePtr(p) && Headers(s.large, m)
    ensures p > 0 && PageOf(p) in s.pages
    ensures var m' := Fill(m, p + 8, p + s.pages[PageOf(p)].size, POISON);
            Intact(s, s.live.Keys - {p}, m, m') && Headers(s.large, m')
  {
    hide Sound, Intact, Headers, Fill, PageOf;
    SlotFacts(s, held, hhdm, p);
    NotNull(s, held, hhdm, p);
    PoisonIntact(s, held, hhdm, p, m);
    HeadersStaySound(s, held, hhdm, s.live.Keys - {p}, m, Fill(m, p + 8, p + s.pages[PageOf(p)].size, POISON));
  }

  lemma PoisonIntact(s: State, held: map<nat, nat>, hhdm: nat, p: nat, m: Bytes)
    requires Sound(s, held, hhdm) && p in s.live && !IsLargePtr(p) && PageOf(p) in s.pages
    ensures Intact(s, s.live.Keys - {p}, m, Fill(m, p + 8, p + s.pages[PageOf(p)].size, POISON))
  {
    hide Backing, ListsOk, LargeOk, SlabOk, IsSlot, Intact;
    assert Cell(s.pages, s.large, p);
    IntactCell(s, held, hhdm, p, p + 8, p + s.pages[PageOf(p)].size, s.live.Keys - {p}, m, POISON);
  }

  lemma LinkIntact(s: State, held: map<nat, nat>, hhdm: nat, p: nat, m: Bytes)
    requires Sound(s, held, hhdm) && |s.quar| >= QUARANTINE_SIZE
    ensures Intact(s, s.live.Keys - {p}, m, Fill(m, s.quar[0], s.quar[0] + 8, LINK))
  {
    hide Backing, ListsOk, LargeOk, Intact;
    var e := s.quar[0];
    OldestHasPage(s, held, hhdm);
    SlotIsNotLarge(s.pages, e);
    assert Cell(s.pages, s.large, e);
    IntactCell(s, held, hhdm, e, e, e + 8, s.live.Keys - {p}, m, LINK);
  }

  /** Survivors of a free have the same extent before and after it. */
  lemma SameUsable(s: State, t: State, keep: set<nat>, m: Bytes, m': Bytes, p: nat)
    requires SizesOk(s) && keep <= s.live.Keys && Intact(t, keep, m, m')
    requires |s.quar| >= QUARANTINE_SIZE && PageOf(s.quar[0]) in s.pages && s.pages[PageOf(s.quar[0])].used > 0
    requires t == Freed(s, p)
    ensures Intact(s, keep, m, m')
  {
    hide SlotOf, PageOf, Admit, Same;
    forall q | q in keep
      ensures Cell(s.pages, s.large, q) && Usable(t.pages, t.large, q) == Usable(s.pages, s.large, q)
    {
      assert q in s.live;
    }
  }

  lemma SizesOf(s: State, held: map<nat, nat>, hhdm: nat)
    requires Sound(s, held, hhdm)
    ensures SizesOk(s)
  {
  }

  lemma SizesOfBut(s: State, held: map<nat, nat>, hhdm: nat, base: nat)
    requires SoundBut(s, held, hhdm, base)
    ensures SizesOk(s)
  {
  }

  lemma NowSound(s: State, held: map<nat, nat>, hhdm: nat, base: nat)
    requires SoundBut(s, held, hhdm, base) && base in s.pages && s.pages[base].used > 0
    ensures Sound(s, held, hhdm)
  {
  }

  /** The cells in `keep` have the same extent in both states. */
  ghost predicate SameExtent(s: State, t: State, keep: set<nat>) {
    forall p | p in keep :: Cell(s.pages, s.large, p) && Cell(t.pages, t.large, p)
                            && Usable(s.pages, s.large, p) == Usable(t.pages, t.large, p)
  }

  lemma ExtentSelf(s: State, held: map<nat, nat>, hhdm: nat)
    requires Sound(s, held, hhdm)
    ensures SameExtent(s, s, s.live.Keys)
  {
    hide Backing, Placed, ListsOk, LargeOk, Cell, Usable;
  }

  lemma ExtentChain(s: State, t: State, u: State, keep: set<nat>)
    requires SameExtent(s, t, keep) && SameExtent(t, u, keep)
    ensures SameExtent(s, u, keep)
  {
    hide Cell, Usable;
  }

  lemma ExtentOf(s: State, t: State, keep: set<nat>, p: nat)
    requires SameExtent(s, t, keep) && p in keep
    ensures Cell(s.pages, s.large, p) && Cell(t.pages, t.large, p)
    ensures Usable(s.pages, s.large, p) == Usable(t.pages, t.large, p)
  {
  }

  lemma ExtentGrow(s: State, t: State, held: map<nat, nat>, hhdm: nat, base: nat, c: nat)
    requires Sound(s, held, hhdm) && base !in s.pages && base in t.pages && c < |s.lists|
    requires t == Grown(s, base, t.pages[base], c)
    ensures SameExtent(s, t, s.live.Keys)
  {
    hide Backing, Placed, ListsOk, LargeOk, SlotOf, Pow2;
    forall p | p in s.live
      ensures Cell(t.pages, t.large, p) && Usable(s.pages, s.large, p) == Usable(t.pages, t.large, p)
    {
      assert Cell(s.pages, s.large, p);
    }
  }

  lemma ExtentPop(s: State, base: nat, size: nat)
    requires base in s.pages && s.pages[base].free != [] && SizesOk(s)
    ensures SameExtent(s, Popped(s, base, size), s.live.Keys)
  {
    hide SlotOf, Pow2;
    var x := s.pages[base];
    ShapeSlots(s.pages, base, x.(free := x.free[1..], used := x.used + 1));
  }

  lemma ExtentLarge(s: State, held: map<nat, nat>, held': map<nat, nat>, hhdm: nat, base: nat, order: nat, size: nat)
    requires Sound(s, held, hhdm) && FreshFrame(held, held', hhdm, base, order)
    ensures SameExtent(s, WithLarge(s, base, order, size), s.live.Keys)
  {
    hide Placed, ListsOk, LargeOk, Cell, Usable, Pow2, HeldApart;
    FreshBacking(held, held', hhdm, base, order, s.pages, s.large);
    forall p | p in s.live
      ensures Cell(s.pages, s.large[base := order], p)
              && Usable(s.pages, s.large, p) == Usable(s.pages, s.large[base := order], p)
    {
      CellKept(s.pages, s.large, base, order, p);
    }
  }

  lemma ExtentFewer(s: State, t: State, keep: set<nat>, fewer: set<nat>)
    requires SameExtent(s, t, keep) && fewer <= keep
    ensures SameExtent(s, t, fewer)
  {
  }

  lemma ExtentResized(s: State, p: nat, size: nat)
    requires SameExtent(s, s, s.live.Keys)
    ensures SameExtent(s, s.(live := s.live[p := size]), s.live.Keys - {p})
  {
  }

  lemma ExtentWithoutLarge(s: State, base: nat)
    requires SizesOk(s)
    ensures SameExtent(s, WithoutLarge(s, base), s.live.Keys - {base + 8})
  {
    hide Cell, Usable;
    forall q | q in s.live.Keys - {base + 8}
      ensures Cell(s.pages, s.large - {base}, q) && Usable(s.pages, s.large - {base}, q) == Usable(s.pages, s.large, q)
    {
      CellLeft(s.pages, s.large, base, q);
    }
  }

  lemma ExtentFreed(s: State, p: nat)
    requires SizesOk(s)
    requires |s.quar| >= QUARANTINE_SIZE ==> PageOf(s.quar[0]) in s.pages && s.pages[PageOf(s.quar[0])].used > 0
    ensures SameExtent(s, Freed(s, p), s.live.Keys - {p})
  {
    hide SlotOf, Pow2, PageOf, Admit;
  }

  lemma ExtentReclaimed(s: State, held: map<nat, nat>, hhdm: nat, base: nat)
    requires SoundBut(s, held, hhdm, base) && base in s.pages && s.pages[base].used == 0
    ensures SameExtent(s, Reclaimed(s, base), s.live.Keys)
  {
    hide Backing, OthersOf, ListsOk, LargeOk, SlotOf, Pow2, PageOf, SizeToClass;
    DropPlaced(s.pages, s.quar, SlotPtrs(s.live), base);
    forall q | q in s.live
      ensures Cell(s.pages, s.large, q) && (!IsLargePtr(q) ==> PageOf(q) != base)
    {
      if !IsLargePtr(q) {
        assert q in SlotPtrs(s.live);
      }
    }
  }

  /** A free leaves the extents of the other allocations alone. */
  lemma ReleasedExtent(s: State, held: map<nat, nat>, hhdm: nat, p: nat)
    requires Sound(s, held, hhdm) && p in s.live
    ensures SameExtent(s, Released(s, p), s.live.Keys - {p})
  {
    hide Sound, SameExtent, Reclaimed, PageOf, Admit, SizesOk;
    SizesOf(s, held, hhdm);
    if IsLargePtr(p) {
      ExtentWithoutLarge(s, p - 8);
    } else {
      if |s.quar| >= QUARANTINE_SIZE {
        OldestHasPage(s, held, hhdm);
        FreeSound(s, held, hhdm, p);
        var base := PageOf(s.quar[0]);
        if s.pages[base].used == 1 {
          ExtentReclaimed(Freed(s, p), held, hhdm, base);
          ExtentFewer(Freed(s, p), Reclaimed(Freed(s, p), base), Freed(s, p).live.Keys, s.live.Keys - {p});
        }
      }
      ExtentFreed(s, p);
      if |s.quar| >= QUARANTINE_SIZE && s.pages[PageOf(s.quar[0])].used == 1 {
        ExtentChain(s, Freed(s, p), Released(s, p), s.live.Keys - {p});
      }
    }
  }

  lemma CellFacts(s: State, held: map<nat, nat>, hhdm: nat, p: nat)
    requires Sound(s, held, hhdm) && p in s.live
    ensures Cell(s.pages, s.large, p) && Usable(s.pages, s.large, p) <= LIMIT
  {
    hide ListsOk, SlotOf, Pow2, HeldApart, Backed;
    assert Cell(s.pages, s.large, p);
    TopBlock();
    if IsLargePtr(p) {
      Pow2Monotone(s.large[p - 8], MAX_ORDER);
    } else {
      SlotBounds(s.pages[PageOf(p)], PageOf(p), p);
    }
  }

  lemma IntactFewer(s: State, keep: set<nat>, fewer: set<nat>, m: Bytes, m': Bytes)
    requires Intact(s, keep, m, m') && fewer <= keep
    ensures Intact(s, fewer, m, m')
  {
  }

  lemma IntactBytes(s: State, keep: set<nat>, p: nat, m: Bytes, m': Bytes, n: nat)
    requires Intact(s, keep, m, m') && p in keep && Cell(s.pages, s.large, p) && n <= Usable(s.pages, s.large, p)
    ensures Read(m', p, n) == Read(m, p, n)
  {
    hide Cell, Usable;
  }

  lemma IntactSameExtent(s: State, t: State, keep: set<nat>, m: Bytes, m': Bytes)
    requires SameExtent(s, t, s.live.Keys) && keep <= s.live.Keys && Intact(t, keep, m, m')
    ensures Intact(s, keep, m, m')
  {
    hide Cell, Usable, Same;
  }

  /** A copy into r, which shares no byte with any other cell. */
  lemma CopyIntact(s: State, held: map<nat, nat>, hhdm: nat, p: nat, r: nat, n: nat, m: Bytes)
    requires Sound(s, held, hhdm) && p in s.live && r in s.live && p != r
    requires Cell(s.pages, s.large, p) && Cell(s.pages, s.large, r)
    requires n <= Usable(s.pages, s.large, p) && n <= Usable(s.pages, s.large, r)
    ensures Intact(s, s.live.Keys - {p, r}, m, Copy(m, r, p, n))
    ensures Read(Copy(m, r, p, n), r, n) == Read(m, p, n)
  {
    hide Sound, Cell, Usable, Same, Copy, Read;
    CopyRead(m, r, p, n);
    forall q | q in s.live.Keys - {p, r}
      ensures Cell(s.pages, s.large, q) && Same(m, Copy(m, r, p, n), Start(q), q + Usable(s.pages, s.large, q))
    {
      LiveApart(s, held, hhdm, q, r);
      CopySame(m, r, p, n, Start(q), q + Usable(s.pages, s.large, q));
    }
  }

  lemma CopyRead(m: Bytes, dst: nat, src: nat, n: nat)
    ensures Read(Copy(m, dst, src, n), dst, n) == Read(m, src, n)
  {
  }

  lemma CopySame(m: Bytes, dst: nat, src: nat, n: nat, a: nat, b: nat)
    requires b <= dst || dst + n <= a
    ensures Same(m, Copy(m, dst, src, n), a, b)
  {
  }

  lemma DirectMap(phys: nat, hhdm: nat)
    requires phys % PAGE == 0
    ensures (phys + hhdm - hhdm) % PAGE == 0 && Frame(hhdm, phys + hhdm) == phys / Pmm.PAGE_SIZE
  {
  }

  lemma FreshAligned(held: map<nat, nat>, held': map<nat, nat>, hhdm: nat, base: nat, s: State)
    requires FreshFrame(held, held', hhdm, base, 0) && Sound(s, held, hhdm)
    ensures base % PAGE == 0
  {
    hide HeldApart, Placed, ListsOk, LargeOk, SizesOk;
  }

  lemma ClassCount(s: State, held: map<nat, nat>, hhdm: nat)
    requires Sound(s, held, hhdm)
    ensures |s.lists| == CLASSES
    ensures forall c, b | 0 <= c < CLASSES && b in s.lists[c] :: b in s.pages && s.pages[b].size == ObjSize(c)
  {
    hide Backing, Placed, LargeOk, SizesOk;
  }

  lemma NotNull(s: State, held: map<nat, nat>, hhdm: nat, p: nat)
    requires Sound(s, held, hhdm) && (p in s.live || p in s.quar)
    ensures p > 0
  {
    hide ListsOk, HeldApart, Pow2, Usable;
    if p in s.live && IsLargePtr(p) {
    } else {
      if p in s.live {
        assert p in SlotPtrs(s.live);
      }
      assert Backed(held, hhdm, PageOf(p), 0);
    }
  }

  /** Zeroing a fresh block touches nothing a client holds. */
  lemma FreshIntact(s: State, held: map<nat, nat>, held': map<nat, nat>, hhdm: nat, base: nat, order: nat, m: Bytes)
    requires Sound(s, held, hhdm) && FreshFrame(held, held', hhdm, base, order)
    ensures Intact(s, s.live.Keys, m, Fill(m, base, base + Pow2(order) * PAGE, 0))
  {
    hide Sound, Pow2, FreshFrame, Cell, Usable, Start, Same, Fill;
    forall p | p in s.live.Keys
      ensures Cell(s.pages, s.large, p)
              && Same(m, Fill(m, base, base + Pow2(order) * PAGE, 0), Start(p), p + Usable(s.pages, s.large, p))
    {
      FreshVsCell(s, held, held', hhdm, base, order, p);
      FillSame(m, base, base + Pow2(order) * PAGE, 0, Start(p), p + Usable(s.pages, s.large, p));
    }
  }

  lemma PmmApart(pmm: Pmm.PageAllocator)
    requires pmm.Valid()
    ensures HeldApart(pmm.Held())
  {
    hide HeldApart, Only, PageFrames.ListsOk, PageFrames.ListsAre, PageFrames.TagsOk, Maximal, Tiled;
    LiveBlocksApart(pmm.blocks, pmm.Total());
  }

  lemma EmptyHeap(held: map<nat, nat>, hhdm: nat)
    requires HeldApart(held) && hhdm % PAGE == 0 && hhdm > 0
    ensures Sound(State(map[], seq(CLASSES, _ => []), [], map[], map[], held), held, hhdm)
  {
    hide HeldApart;
    AllOthers(held, hhdm);
  }
}
