/** The blocks of a buddy system as a value, and what makes the free ones canonical. */
module BuddyBlocks {
  import opened Dyadic

  const MAX_ORDER: nat := 10

  /** Free blocks are on a free list, live ones are in use, and `Hand` marks the one
      block an allocation or a release is working on. */
  datatype Kind = Free | Live | Hand
  datatype Block = Block(order: nat, kind: Kind)

  /** Blocks by the number of their first page. */
  type Blocks = map<nat, Block>

  ghost predicate Fits(p: nat, k: nat, n: nat) {
    k <= MAX_ORDER && Base(p, k) == p && p + Pow2(k) <= n
  }

  /** The blocks of order k at p and of order j at q share no page. */
  ghost predicate Apart(p: nat, k: nat, q: nat, j: nat) {
    if k <= j then Base(p, j) != q else Base(q, k) != p
  }

  ghost predicate Tiled(b: Blocks, n: nat) {
    && (forall p | p in b :: Fits(p, b[p].order, n))
    && (forall p, q | p in b && q in b && p != q :: Apart(p, b[p].order, q, b[q].order))
  }

  ghost predicate IsFree(b: Blocks, p: nat, k: nat) {
    p in b && b[p] == Block(k, Free)
  }

  ghost predicate OneHand(b: Blocks, p: nat) {
    forall q | q in b && b[q].kind.Hand? :: q == p
  }

  /** No two free blocks of an order below the top are buddies. */
  ghost predicate Maximal(b: Blocks) {
    forall p | p in b && b[p].kind.Free? && b[p].order < MAX_ORDER ::
      !IsFree(b, Buddy(p, b[p].order), b[p].order)
  }

  ghost predicate Canonical(b: Blocks, n: nat) {
    Tiled(b, n) && Maximal(b)
  }

  /** Page q lies in a block of the given kind. */
  ghost predicate Holds(b: Blocks, kind: Kind, q: nat) {
    exists p :: p in b && b[p].kind == kind && Base(q, b[p].order) == p
  }

  ghost function PagesOf(b: Blocks, kind: Kind, n: nat): set<nat> {
    set q | 0 <= q < n && Holds(b, kind, q)
  }

  lemma InPages(b: Blocks, kind: Kind, n: nat, q: nat)
    ensures q in PagesOf(b, kind, n) <==> q < n && Holds(b, kind, q)
  {
  }

  ghost function Only(b: Blocks, kind: Kind): map<nat, nat> {
    map p | p in b && b[p].kind == kind :: b[p].order
  }

  ghost function Interval(lo: nat, hi: nat): (s: set<nat>)
    ensures forall q: nat :: q in s <==> lo <= q < hi
    ensures lo <= hi ==> |s| == hi - lo
  {
    if lo >= hi then {} else Interval(lo, hi - 1) + {hi - 1}
  }

  ghost function Span(p: nat, k: nat): (s: set<nat>)
    ensures forall q: nat :: q in s <==> p <= q < p + Pow2(k)
    ensures |s| == Pow2(k)
  {
    Interval(p, p + Pow2(k))
  }

  /** A naturally aligned run of 2^k free pages starts at a. */
  ghost predicate FreeRun(b: Blocks, a: nat, k: nat) {
    Base(a, k) == a && forall q | a <= q < a + Pow2(k) :: Holds(b, Free, q)
  }

  // ---------------------------------------------------------------- disjointness

  /** Two blocks of a tiling that share a page are the same block. */
  lemma SharedPage(b: Blocks, n: nat, p: nat, p': nat, q: nat)
    requires Tiled(b, n) && p in b && p' in b
    requires Base(q, b[p].order) == p && Base(q, b[p'].order) == p'
    ensures p == p'
  {
    if b[p].order <= b[p'].order {
      BaseNested(q, b[p].order, b[p'].order);
    } else {
      BaseNested(q, b[p'].order, b[p].order);
    }
  }

  /** Pages of different kinds are different pages. */
  lemma KindsDisjoint(b: Blocks, n: nat, x: Kind, y: Kind)
    requires Tiled(b, n) && x != y
    ensures PagesOf(b, x, n) !! PagesOf(b, y, n)
  {
    forall q | q in PagesOf(b, x, n) && q in PagesOf(b, y, n)
      ensures false
    {
      var p :| p in b && b[p].kind == x && Base(q, b[p].order) == p;
      var p' :| p' in b && b[p'].kind == y && Base(q, b[p'].order) == p';
      SharedPage(b, n, p, p', q);
    }
  }

  // ---------------------------------------------------------------- canonical form

  /** In a canonical family, an aligned run of free pages lies inside one free block. */
  lemma {:induction false} RunInOneBlock(b: Blocks, n: nat, a: nat, k: nat) returns (p: nat)
    requires Canonical(b, n) && k <= MAX_ORDER && FreeRun(b, a, k)
    ensures p in b && b[p].kind.Free? && b[p].order >= k && Base(a, b[p].order) == p
    decreases k
  {
    hide Buddy, Bit;
    if k == 0 {
      assert Holds(b, Free, a);
      p :| p in b && b[p].kind == Free && Base(a, b[p].order) == p;
    } else {
      var h := a + Pow2(k - 1);
      HalvesOfParent(a, k - 1);
      p := RunInOneBlock(b, n, a, k - 1);
      if b[p].order == k - 1 {
        var r := RunInOneBlock(b, n, h, k - 1);
        if b[r].order >= k {
          BaseNested(h, k, b[r].order);
          p := r;
        } else {
          BuddyFacts(a, k - 1);
          assert false;
        }
      }
    }
  }

  /** A block of the family is itself a free run. */
  lemma BlockIsRun(b: Blocks, n: nat, p: nat)
    requires Tiled(b, n) && p in b && b[p].kind.Free?
    ensures FreeRun(b, p, b[p].order)
  {
    forall q | p <= q < p + Pow2(b[p].order)
      ensures Holds(b, Free, q)
    {
      BaseIsInterval(p, q, b[p].order);
    }
  }

  lemma RunTransfers(b: Blocks, c: Blocks, n: nat, a: nat, k: nat)
    requires FreeRun(b, a, k) && a + Pow2(k) <= n
    requires PagesOf(b, Free, n) == PagesOf(c, Free, n)
    ensures FreeRun(c, a, k)
  {
    forall q | a <= q < a + Pow2(k)
      ensures Holds(c, Free, q)
    {
      assert q in PagesOf(b, Free, n);
    }
  }

  /** A free block of one canonical family is a free block of every canonical family
      with the same free pages. */
  lemma SameBlock(b: Blocks, c: Blocks, n: nat, p: nat)
    requires Canonical(b, n) && Canonical(c, n)
    requires PagesOf(b, Free, n) == PagesOf(c, Free, n)
    requires p in b && b[p].kind.Free?
    ensures IsFree(c, p, b[p].order)
  {
    var k := b[p].order;
    BlockIsRun(b, n, p);
    RunTransfers(b, c, n, p, k);
    var p' := RunInOneBlock(c, n, p, k);
    var k' := c[p'].order;
    BlockIsRun(c, n, p');
    RunTransfers(c, b, n, p', k');
    var p'' := RunInOneBlock(b, n, p', k');
    BaseNested(p, k', b[p''].order);
    SharedPage(b, n, p, p'', p);
  }

  /** The free page set alone determines the free blocks: canonical families are unique. */
  lemma CanonicalUnique(b: Blocks, c: Blocks, n: nat)
    requires Canonical(b, n) && Canonical(c, n)
    requires PagesOf(b, Free, n) == PagesOf(c, Free, n)
    ensures Only(b, Free) == Only(c, Free)
  {
    forall p | p in b && b[p].kind.Free?
      ensures IsFree(c, p, b[p].order)
    {
      SameBlock(b, c, n, p);
    }
    forall p | p in c && c[p].kind.Free?
      ensures IsFree(b, p, c[p].order)
    {
      SameBlock(c, b, n, p);
    }
  }

  lemma LiveAt(b: Blocks, c: Blocks, q: nat)
    requires Only(b, Live) == Only(c, Live) && Holds(b, Live, q)
    ensures Holds(c, Live, q)
  {
    hide Base;
    var p :| p in b && b[p].kind == Live && Base(q, b[p].order) == p;
    assert p in Only(b, Live) && Only(b, Live)[p] == b[p].order;
    assert p in Only(c, Live) && c[p].order == b[p].order;
  }

  lemma LiveFixesPages(b: Blocks, c: Blocks, n: nat)
    requires Only(b, Live) == Only(c, Live)
    ensures PagesOf(b, Live, n) == PagesOf(c, Live, n)
  {
    hide Base;
    forall q: nat
      ensures Holds(b, Live, q) <==> Holds(c, Live, q)
    {
      if Holds(b, Live, q) { LiveAt(b, c, q); }
      if Holds(c, Live, q) { LiveAt(c, b, q); }
    }
  }

  /** So the live blocks determine all of them, once it is known which pages are free or live. */
  lemma LiveFixesAll(b: Blocks, c: Blocks, n: nat)
    requires Canonical(b, n) && Canonical(c, n) && Only(b, Live) == Only(c, Live)
    requires (forall p | p in b :: !b[p].kind.Hand?) && (forall p | p in c :: !c[p].kind.Hand?)
    requires PagesOf(b, Free, n) + PagesOf(b, Live, n) == PagesOf(c, Free, n) + PagesOf(c, Live, n)
    ensures b == c
  {
    hide PagesOf;
    LiveFixesPages(b, c, n);
    KindsDisjoint(b, n, Free, Live);
    KindsDisjoint(c, n, Free, Live);
    assert PagesOf(b, Free, n) == PagesOf(c, Free, n);
    hide Canonical;
    CanonicalUnique(b, c, n);
    SameKinds(b, c);
  }

  lemma SameKinds(b: Blocks, c: Blocks)
    requires Only(b, Live) == Only(c, Live) && Only(b, Free) == Only(c, Free)
    requires (forall p | p in b :: !b[p].kind.Hand?) && (forall p | p in c :: !c[p].kind.Hand?)
    ensures b == c
  {
    forall p | p in b
      ensures p in c && c[p] == b[p]
    {
      assert p in Only(b, b[p].kind);
    }
    forall p | p in c
      ensures p in b
    {
      assert p in Only(c, c[p].kind);
    }
  }

  /** A free block of order at least k exists exactly when some aligned run of 2^k pages is free. */
  lemma BlockIffRun(b: Blocks, n: nat, k: nat)
    requires Canonical(b, n) && k <= MAX_ORDER
    ensures (exists p :: p in b && b[p].kind.Free? && b[p].order >= k) <==> (exists a :: FreeRun(b, a, k))
  {
    if p :| p in b && b[p].kind.Free? && b[p].order >= k {
      BlockIsRun(b, n, p);
      BaseNested(p, k, b[p].order);
      BaseBounds(p, k);
      BaseIsInterval(p, Base(p, k), b[p].order);
      AlignedBelow(p, k, b[p].order);
      Pow2Monotone(k, b[p].order);
      assert FreeRun(b, p, k);
    }
    if a :| FreeRun(b, a, k) {
      var p := RunInOneBlock(b, n, a, k);
    }
  }

  lemma {:induction false} AlignedBelow(p: nat, k: nat, j: nat)
    requires k <= j && Base(p, j) == p
    ensures Base(p, k) == p
    decreases j
  {
    if k < j {
      HalvesOfParent(p, j - 1);
      AlignedBelow(p, k, j - 1);
    }
  }

  // ---------------------------------------------------------------- merging and splitting

  /** The block of order k in hand at p absorbs its buddy. */
  ghost function Merged(b: Blocks, p: nat, k: nat): Blocks {
    (b - {p, Buddy(p, k)})[Base(p, k + 1) := Block(k + 1, Hand)]
  }

  /** The block of order k + 1 in hand at p keeps its lower half and frees the upper one. */
  ghost function SplitOnce(b: Blocks, p: nat, k: nat): Blocks {
    b[p := Block(k, Hand)][p + Pow2(k) := Block(k, Free)]
  }

  lemma ParentApart(b: Blocks, n: nat, p: nat, k: nat, q: nat)
    requires Tiled(b, n) && p in b && Buddy(p, k) in b
    requires b[p].order == k && b[Buddy(p, k)].order == k
    requires q in b && q != p && q != Buddy(p, k)
    ensures Apart(Base(p, k + 1), k + 1, q, b[q].order) && Apart(q, b[q].order, Base(p, k + 1), k + 1)
  {
    var j := b[q].order;
    if j > k {
      BaseNested(p, k + 1, j);
    } else {
      if Base(q, k + 1) == Base(p, k + 1) {
        SiblingOrSelf(p, q, k);
      }
    }
    if j == k + 1 {
      BaseNested(p, k + 1, j);
    }
  }

  lemma DoublePow2(k: nat)
    ensures Pow2(k + 1) == 2 * Pow2(k)
  {
  }

  lemma MergeTiled(b: Blocks, n: nat, p: nat, k: nat)
    requires Tiled(b, n) && p in b && b[p] == Block(k, Hand)
    requires IsFree(b, Buddy(p, k), k) && k < MAX_ORDER
    ensures Tiled(Merged(b, p, k), n)
  {
    hide Base, Buddy, Pow2, Apart;
    var m := Base(p, k + 1);
    var c := Merged(b, p, k);
    BuddyFacts(p, k);
    BaseNested(p, k + 1, k + 1);
    assert Fits(p, k, n) && Fits(Buddy(p, k), k, n) && Pow2(k + 1) == 2 * Pow2(k) by {
      DoublePow2(k);
    }
    assert Fits(m, k + 1, n);
    forall q | q in c && q != m
      ensures q in b && c[q] == b[q] && Apart(m, k + 1, q, c[q].order) && Apart(q, c[q].order, m, k + 1)
    {
      ParentApart(b, n, p, k, q);
    }
  }

  lemma MergeMaximal(b: Blocks, p: nat, k: nat)
    requires Maximal(b) && Base(p, k) == p
    ensures Maximal(Merged(b, p, k))
  {
  }

  lemma MergeFree(b: Blocks, n: nat, p: nat, k: nat, q: nat)
    requires Tiled(b, n) && p in b && b[p] == Block(k, Hand)
    requires IsFree(b, Buddy(p, k), k) && k < MAX_ORDER
    ensures Holds(Merged(b, p, k), Free, q) <==> Holds(b, Free, q) && Base(q, k) != Buddy(p, k)
  {
    var c, d, m := Merged(b, p, k), Buddy(p, k), Base(p, k + 1);
    assert Fits(p, k, n);
    hide Base, Buddy, Pow2, Apart;
    BuddyFacts(p, k);
    if Holds(b, Free, q) && Base(q, k) != d {
      var r :| r in b && b[r].kind == Free && Base(q, b[r].order) == r;
      assert r in c && c[r] == b[r];
    }
    if Holds(c, Free, q) {
      var r :| r in c && c[r].kind == Free && Base(q, c[r].order) == r;
      assert r in b && b[r] == c[r] && r != d;
      if Base(q, k) == d {
        SharedPage(b, n, r, d, q);
      }
    }
  }

  lemma SpanHalves(p: nat, k: nat)
    ensures Span(p, k + 1) == Span(p, k) + Span(p + Pow2(k), k)
  {
    hide Span;
  }

  lemma PairSpan(p: nat, k: nat)
    requires Base(p, k) == p
    ensures Span(Base(p, k + 1), k + 1) == Span(p, k) + Span(Buddy(p, k), k)
  {
    hide Base, Buddy, Span, Pow2;
    BuddyFacts(p, k);
    SpanHalves(Base(p, k + 1), k);
  }

  lemma MergedPage(b: Blocks, n: nat, p: nat, k: nat, q: nat)
    requires Tiled(b, n) && p in b && b[p] == Block(k, Hand)
    requires IsFree(b, Buddy(p, k), k) && k < MAX_ORDER
    ensures q in PagesOf(Merged(b, p, k), Free, n) <==> q in PagesOf(b, Free, n) && q !in Span(Buddy(p, k), k)
  {
    assert Fits(p, k, n);
    hide PagesOf, Holds, Base, Buddy, Tiled, IsFree, Merged, Span, Pow2;
    InPages(b, Free, n, q);
    InPages(Merged(b, p, k), Free, n, q);
    MergeFree(b, n, p, k, q);
    BuddyFacts(p, k);
    BaseIsInterval(Buddy(p, k), q, k);
  }

  /** Merging moves exactly the buddy's pages from free to in hand. */
  lemma MergePages(b: Blocks, n: nat, p: nat, k: nat)
    requires Tiled(b, n) && p in b && b[p] == Block(k, Hand)
    requires IsFree(b, Buddy(p, k), k) && k < MAX_ORDER
    ensures PagesOf(Merged(b, p, k), Free, n) == PagesOf(b, Free, n) - Span(Buddy(p, k), k)
    ensures Span(Base(p, k + 1), k + 1) == Span(p, k) + Span(Buddy(p, k), k)
  {
    assert Fits(p, k, n);
    hide PagesOf, Holds, Base, Buddy, Tiled, IsFree, Merged, Span, Pow2;
    PairSpan(p, k);
    forall q: nat
      ensures q in PagesOf(Merged(b, p, k), Free, n) <==> q in PagesOf(b, Free, n) && q !in Span(Buddy(p, k), k)
    {
      MergedPage(b, n, p, k, q);
    }
  }

  lemma UpperHalfAbsent(b: Blocks, n: nat, p: nat, k: nat)
    requires Tiled(b, n) && p in b && b[p] == Block(k + 1, Hand)
    ensures p + Pow2(k) !in b && k < MAX_ORDER
  {
    var h := p + Pow2(k);
    assert Fits(p, k + 1, n);
    hide Base, Bit, Pow2;
    HalvesOfParent(p, k);
    if h in b {
      assert Fits(h, b[h].order, n);
      SharedPage(b, n, p, h, h);
    }
  }

  lemma SplitTiled(b: Blocks, n: nat, p: nat, k: nat)
    requires Tiled(b, n) && p in b && b[p] == Block(k + 1, Hand)
    ensures Tiled(SplitOnce(b, p, k), n)
  {
    hide Base, Bit;
    var h := p + Pow2(k);
    var c := SplitOnce(b, p, k);
    HalvesOfParent(p, k);
    UpperHalfAbsent(b, n, p, k);
    forall q | q in b && q != p
      ensures Apart(p, k, q, b[q].order) && Apart(q, b[q].order, p, k)
      ensures Apart(h, k, q, b[q].order) && Apart(q, b[q].order, h, k)
    {
      var j := b[q].order;
      if j > k {
        BaseNested(h, k + 1, j);
        BaseNested(p, k + 1, j);
      } else {
        BaseNested(q, k, k + 1);
        if j == k {
          BaseNested(h, k, k + 1);
        }
      }
    }
    assert Fits(p, k, n) && Fits(h, k, n);
    assert Apart(p, k, h, k) && Apart(h, k, p, k);
  }

  lemma SplitMaximal(b: Blocks, n: nat, p: nat, k: nat)
    requires Tiled(b, n) && Maximal(b) && p in b && b[p] == Block(k + 1, Hand)
    ensures Maximal(SplitOnce(b, p, k))
  {
    var h := p + Pow2(k);
    var c := SplitOnce(b, p, k);
    HalvesOfParent(p, k);
    UpperHalfAbsent(b, n, p, k);
    BuddyFacts(p, k);
    assert Buddy(p, k) == h && Buddy(h, k) == p;
    forall q | q in c && c[q].kind.Free? && c[q].order < MAX_ORDER
      ensures !IsFree(c, Buddy(q, c[q].order), c[q].order)
    {
      if q != h && Buddy(q, c[q].order) == h && c[q].order == k {
        BuddyFacts(q, k);
      }
    }
  }

  lemma SplitFree(b: Blocks, p: nat, k: nat, q: nat)
    requires p in b && b[p].kind.Hand? && p + Pow2(k) !in b
    ensures Holds(SplitOnce(b, p, k), Free, q) <==> Holds(b, Free, q) || Base(q, k) == p + Pow2(k)
  {
    hide Base, Pow2;
    var h, c := p + Pow2(k), SplitOnce(b, p, k);
    if Holds(b, Free, q) {
      var r :| r in b && b[r].kind == Free && Base(q, b[r].order) == r;
      assert r in c && c[r] == b[r];
    }
    if Base(q, k) == h {
      assert h in c && c[h].kind == Free && Base(q, c[h].order) == h;
    }
    if Holds(c, Free, q) && Base(q, k) != h {
      var r :| r in c && c[r].kind == Free && Base(q, c[r].order) == r;
      assert r in b && b[r] == c[r];
    }
  }

  lemma SplitPage(b: Blocks, n: nat, p: nat, k: nat, q: nat)
    requires Tiled(b, n) && p in b && b[p] == Block(k + 1, Hand)
    ensures q in PagesOf(SplitOnce(b, p, k), Free, n) <==> q in PagesOf(b, Free, n) || q in Span(p + Pow2(k), k)
  {
    var h := p + Pow2(k);
    assert Fits(p, k + 1, n);
    assert h + Pow2(k) <= n && Base(p, k + 1) == p;
    hide PagesOf, Holds, Base, Bit, Tiled, Span, Pow2, SplitOnce, Fits;
    UpperHalfAbsent(b, n, p, k);
    HalvesOfParent(p, k);
    InPages(b, Free, n, q);
    InPages(SplitOnce(b, p, k), Free, n, q);
    SplitFree(b, p, k, q);
    BaseIsInterval(h, q, k);
  }

  /** Splitting moves exactly the upper half's pages from in hand to free. */
  lemma SplitPages(b: Blocks, n: nat, p: nat, k: nat)
    requires Tiled(b, n) && p in b && b[p] == Block(k + 1, Hand)
    ensures PagesOf(SplitOnce(b, p, k), Free, n) == PagesOf(b, Free, n) + Span(p + Pow2(k), k)
    ensures Span(p, k + 1) == Span(p, k) + Span(p + Pow2(k), k)
  {
    hide PagesOf, Tiled, Span, Pow2, SplitOnce;
    SpanHalves(p, k);
    forall q: nat
      ensures q in PagesOf(SplitOnce(b, p, k), Free, n) <==> q in PagesOf(b, Free, n) || q in Span(p + Pow2(k), k)
    {
      SplitPage(b, n, p, k, q);
    }
  }

  // ---------------------------------------------------------------- changing the kind of one block

  /** A page of a block is of that block's kind and of no other. */
  lemma KindOfPage(b: Blocks, n: nat, p: nat, q: nat, kind: Kind)
    requires Tiled(b, n) && p in b && Base(q, b[p].order) == p
    ensures Holds(b, kind, q) <==> kind == b[p].kind
  {
    if Holds(b, kind, q) {
      var r :| r in b && b[r].kind == kind && Base(q, b[r].order) == r;
      SharedPage(b, n, p, r, q);
    }
  }

  lemma KindElsewhere(b: Blocks, p: nat, kind: Kind, q: nat, x: Kind)
    requires p in b && Base(q, b[p].order) != p
    ensures Holds(b[p := Block(b[p].order, kind)], x, q) == Holds(b, x, q)
  {
    var c := b[p := Block(b[p].order, kind)];
    if Holds(b, x, q) {
      var r :| r in b && b[r].kind == x && Base(q, b[r].order) == r;
      assert r in c && c[r].kind == x && Base(q, c[r].order) == r;
    }
    if Holds(c, x, q) {
      var r :| r in c && c[r].kind == x && Base(q, c[r].order) == r;
      assert r in b && b[r].kind == x && Base(q, b[r].order) == r;
    }
  }

  lemma RelabelHolds(b: Blocks, n: nat, p: nat, kind: Kind, q: nat, x: Kind)
    requires Tiled(b, n) && p in b
    ensures Holds(b[p := Block(b[p].order, kind)], x, q) <==>
            if q in Span(p, b[p].order) then x == kind else Holds(b, x, q)
    ensures q in Span(p, b[p].order) ==> (Holds(b, x, q) <==> x == b[p].kind)
  {
    var c := b[p := Block(b[p].order, kind)];
    BaseIsInterval(p, q, b[p].order);
    if q in Span(p, b[p].order) {
      RelabelTiled(b, n, p, kind);
      KindOfPage(b, n, p, q, x);
      KindOfPage(c, n, p, q, x);
    } else {
      KindElsewhere(b, p, kind, q, x);
    }
  }

  /** Relabelling one block moves exactly its pages between kinds. */
  lemma RelabelPages(b: Blocks, n: nat, p: nat, kind: Kind, x: Kind)
    requires Tiled(b, n) && p in b && b[p].kind != kind
    ensures var c := b[p := Block(b[p].order, kind)]; var s := Span(p, b[p].order);
            && s <= PagesOf(b, b[p].kind, n)
            && s !! PagesOf(b, kind, n)
            && PagesOf(c, x, n) == (if x == kind then PagesOf(b, x, n) + s
                                    else if x == b[p].kind then PagesOf(b, x, n) - s
                                    else PagesOf(b, x, n))
  {
    hide Holds, Tiled, Span, PagesOf;
    BlockPages(b, n, p);
    KindsDisjoint(b, n, b[p].kind, kind);
    RelabelMembers(b, n, p, kind, x);
    if x != b[p].kind {
      KindsDisjoint(b, n, b[p].kind, x);
    }
  }

  lemma RelabelMembers(b: Blocks, n: nat, p: nat, kind: Kind, x: Kind)
    requires Tiled(b, n) && p in b
    ensures var c := b[p := Block(b[p].order, kind)]; var s := Span(p, b[p].order);
            PagesOf(c, x, n) == if x == kind then PagesOf(b, x, n) + s else PagesOf(b, x, n) - s
  {
    assert Fits(p, b[p].order, n);
    hide PagesOf, Holds, Base, Pow2, Span, Tiled;
    forall q: nat
      ensures var c := b[p := Block(b[p].order, kind)]; var s := Span(p, b[p].order);
              q in PagesOf(c, x, n) <==> if q in s then x == kind else q in PagesOf(b, x, n)
    {
      InPages(b, x, n, q);
      InPages(b[p := Block(b[p].order, kind)], x, n, q);
      RelabelHolds(b, n, p, kind, q, x);
    }
  }

  lemma RelabelTiled(b: Blocks, n: nat, p: nat, kind: Kind)
    requires Tiled(b, n) && p in b
    ensures Tiled(b[p := Block(b[p].order, kind)], n)
  {
  }

  /** Taking a block out of the free ones never makes a free pair. */
  lemma HideCanonical(b: Blocks, n: nat, p: nat, kind: Kind)
    requires Canonical(b, n) && p in b && !kind.Free?
    ensures Canonical(b[p := Block(b[p].order, kind)], n)
  {
    RelabelTiled(b, n, p, kind);
  }

  /** Freeing a block whose buddy is not free makes no free pair. */
  lemma PutCanonical(b: Blocks, n: nat, p: nat)
    requires Canonical(b, n) && p in b
    requires b[p].order < MAX_ORDER ==> !IsFree(b, Buddy(p, b[p].order), b[p].order)
    ensures Canonical(b[p := Block(b[p].order, Free)], n)
  {
    var k := b[p].order;
    var c := b[p := Block(k, Free)];
    RelabelTiled(b, n, p, Free);
    BuddyFacts(p, k);
    forall q | q in c && c[q].kind.Free? && c[q].order < MAX_ORDER
      ensures !IsFree(c, Buddy(q, c[q].order), c[q].order)
    {
      BuddyFacts(q, c[q].order);
    }
  }

  lemma OnlyRelabel(b: Blocks, p: nat, kind: Kind, x: Kind)
    requires p in b && b[p].kind != kind
    ensures p !in Only(b, kind)
    ensures Only(b[p := Block(b[p].order, kind)], x) ==
            if x == kind then Only(b, x)[p := b[p].order]
            else if x == b[p].kind then Only(b, x) - {p}
            else Only(b, x)
  {
  }

  lemma OnlyAfterMerge(b: Blocks, p: nat, k: nat)
    requires Base(p, k) == p && p in b && b[p].kind.Hand? && IsFree(b, Buddy(p, k), k)
    ensures Only(Merged(b, p, k), Free) == Only(b, Free) - {Buddy(p, k)}
  {
    BuddyFacts(p, k);
  }

  ghost predicate HasRun(b: Blocks, k: nat) {
    exists a :: FreeRun(b, a, k)
  }

  lemma MergeKeepsLive(b: Blocks, p: nat, k: nat)
    requires Base(p, k) == p && p in b && b[p].kind.Hand? && IsFree(b, Buddy(p, k), k)
    ensures Only(Merged(b, p, k), Live) == Only(b, Live)
  {
    BuddyFacts(p, k);
  }

  lemma SplitKeepsLive(b: Blocks, p: nat, h: nat, k: nat)
    requires p in b && b[p].kind.Hand? && h !in b
    ensures Only(b[p := Block(k, Hand)][h := Block(k, Free)], Live) == Only(b, Live)
  {
  }

  // ---------------------------------------------------------------- effects, as the operations use them

  lemma TakeEffect(b: Blocks, n: nat, p: nat, k: nat)
    requires Canonical(b, n) && IsFree(b, p, k) && forall q | q in b :: !b[q].kind.Hand?
    ensures var c := b[p := Block(k, Hand)];
            && OneHand(c, p) && Only(c, Live) == Only(b, Live)
            && Span(p, k) <= PagesOf(b, Free, n)
            && PagesOf(c, Free, n) == PagesOf(b, Free, n) - Span(p, k)
            && PagesOf(c, Live, n) == PagesOf(b, Live, n)
  {
    hide PagesOf, Only, Span;
    RelabelPages(b, n, p, Hand, Free);
    RelabelPages(b, n, p, Hand, Live);
    OnlyRelabel(b, p, Hand, Live);
  }

  lemma SplitEffect(b: Blocks, n: nat, p: nat, k: nat)
    requires Canonical(b, n) && p in b && b[p] == Block(k + 1, Hand) && OneHand(b, p)
    ensures p + Pow2(k) < n && p + Pow2(k) !in b && k < MAX_ORDER
    ensures var c := SplitOnce(b, p, k);
            && p in c && c[p] == Block(k, Hand) && OneHand(c, p) && Only(c, Live) == Only(b, Live)
            && PagesOf(c, Free, n) == PagesOf(b, Free, n) + Span(p + Pow2(k), k)
            && PagesOf(c, Live, n) == PagesOf(b, Live, n)
    ensures Span(p, k + 1) == Span(p, k) + Span(p + Pow2(k), k) && Span(p, k) !! Span(p + Pow2(k), k)
    ensures Pow2(k + 1) == 2 * Pow2(k)
  {
    hide PagesOf, Only, Span, Base;
    UpperHalfAbsent(b, n, p, k);
    SplitPages(b, n, p, k);
    SplitKeepsLive(b, p, p + Pow2(k), k);
    SameLive(b, SplitOnce(b, p, k), n);
    assert Fits(p, k + 1, n);
  }

  lemma DeliverEffect(b: Blocks, n: nat, p: nat, k: nat)
    requires Canonical(b, n) && p in b && b[p] == Block(k, Hand) && OneHand(b, p)
    ensures var c := b[p := Block(k, Live)];
            && (forall q | q in c :: !c[q].kind.Hand?)
            && p !in Only(b, Live) && Only(c, Live) == Only(b, Live)[p := k]
            && PagesOf(c, Free, n) == PagesOf(b, Free, n)
            && PagesOf(c, Live, n) == PagesOf(b, Live, n) + Span(p, k) && Span(p, k) !! PagesOf(b, Live, n)
            && Fits(p, k, n)
  {
    hide PagesOf, Only, Span, Base;
    RelabelPages(b, n, p, Live, Free);
    RelabelPages(b, n, p, Live, Live);
    OnlyRelabel(b, p, Live, Live);
  }

  lemma RecallEffect(b: Blocks, n: nat, p: nat, k: nat)
    requires Canonical(b, n) && p in b && b[p] == Block(k, Live) && forall q | q in b :: !b[q].kind.Hand?
    ensures var c := b[p := Block(k, Hand)];
            && OneHand(c, p) && Only(c, Live) == Only(b, Live) - {p}
            && PagesOf(c, Free, n) == PagesOf(b, Free, n)
            && PagesOf(c, Live, n) == PagesOf(b, Live, n) - Span(p, k) && Span(p, k) <= PagesOf(b, Live, n)
            && Fits(p, k, n)
  {
    hide PagesOf, Only, Span, Base;
    RelabelPages(b, n, p, Hand, Free);
    RelabelPages(b, n, p, Hand, Live);
    OnlyRelabel(b, p, Hand, Live);
  }

  lemma MergeEffect(b: Blocks, n: nat, p: nat, k: nat)
    requires Canonical(b, n) && p in b && b[p] == Block(k, Hand) && OneHand(b, p)
    requires IsFree(b, Buddy(p, k), k) && k < MAX_ORDER
    ensures var c, m := Merged(b, p, k), Base(p, k + 1);
            && m in c && c[m] == Block(k + 1, Hand) && OneHand(c, m) && Only(c, Live) == Only(b, Live)
            && PagesOf(c, Free, n) == PagesOf(b, Free, n) - Span(Buddy(p, k), k)
            && PagesOf(c, Live, n) == PagesOf(b, Live, n)
            && Span(Buddy(p, k), k) <= PagesOf(b, Free, n)
            && Span(m, k + 1) == Span(p, k) + Span(Buddy(p, k), k) && Span(p, k) !! Span(Buddy(p, k), k)
            && m == (if Buddy(p, k) < p then Buddy(p, k) else p)
    ensures Pow2(k + 1) == 2 * Pow2(k) && Buddy(p, k) != p
  {
    hide PagesOf, Only, Span, Base, Buddy;
    BuddyFacts(p, k);
    MergePages(b, n, p, k);
    MergeKeepsLive(b, p, k);
    SameLive(b, Merged(b, p, k), n);
    BlockPages(b, n, Buddy(p, k));
  }

  lemma BlockPages(b: Blocks, n: nat, p: nat)
    requires Tiled(b, n) && p in b
    ensures Span(p, b[p].order) <= PagesOf(b, b[p].kind, n)
  {
    assert Fits(p, b[p].order, n);
    forall q | q in Span(p, b[p].order)
      ensures Holds(b, b[p].kind, q)
    {
      BaseIsInterval(p, q, b[p].order);
      KindOfPage(b, n, p, q, b[p].kind);
    }
  }

  lemma PutEffect(b: Blocks, n: nat, p: nat, k: nat)
    requires Canonical(b, n) && p in b && b[p] == Block(k, Hand) && OneHand(b, p)
    ensures var c := b[p := Block(k, Free)];
            && (forall q | q in c :: !c[q].kind.Hand?)
            && Only(c, Live) == Only(b, Live)
            && PagesOf(c, Free, n) == PagesOf(b, Free, n) + Span(p, k) && Span(p, k) !! PagesOf(b, Free, n)
            && PagesOf(c, Live, n) == PagesOf(b, Live, n)
            && k <= MAX_ORDER
  {
    hide PagesOf, Only, Span, Base;
    RelabelPages(b, n, p, Free, Free);
    RelabelPages(b, n, p, Free, Live);
    OnlyRelabel(b, p, Free, Live);
    assert Fits(p, k, n);
  }

  lemma SameLive(b: Blocks, c: Blocks, n: nat)
    requires Only(b, Live) == Only(c, Live)
    ensures PagesOf(b, Live, n) == PagesOf(c, Live, n)
  {
    LiveWithin(b, c, n);
    LiveWithin(c, b, n);
  }

  lemma LiveWithin(b: Blocks, c: Blocks, n: nat)
    requires Only(b, Live) == Only(c, Live)
    ensures PagesOf(b, Live, n) <= PagesOf(c, Live, n)
  {
    forall q | q in PagesOf(b, Live, n)
      ensures Holds(c, Live, q)
    {
      var p :| p in b && b[p].kind == Live && Base(q, b[p].order) == p;
      assert p in Only(b, Live) && p in Only(c, Live);
      assert p in c && c[p].kind == Live && Base(q, c[p].order) == p;
    }
  }

  // ---------------------------------------------------------------- adding pages

  /** No page of the block of order k at p is in any block. */
  ghost predicate Unclaimed(b: Blocks, p: nat, k: nat) {
    forall r, q: nat | r in b && p <= q < p + Pow2(k) :: Base(q, b[r].order) != r
  }

  lemma ClaimTiled(b: Blocks, n: nat, p: nat, k: nat)
    requires Canonical(b, n) && Fits(p, k, n) && Unclaimed(b, p, k)
    ensures p !in b && Canonical(b[p := Block(k, Live)], n)
  {
    var c := b[p := Block(k, Live)];
    forall r | r in b
      ensures r != p && Apart(p, k, r, b[r].order) && Apart(r, b[r].order, p, k)
    {
      assert Base(p, b[r].order) != r;
      BaseIsInterval(p, r, k);
      assert Fits(r, b[r].order, n);
    }
    assert Tiled(c, n);
  }

  /** A claimed block adds exactly its pages to the live ones. */
  lemma ClaimPages(b: Blocks, n: nat, p: nat, k: nat)
    requires Canonical(b, n) && Fits(p, k, n) && Unclaimed(b, p, k)
    ensures var c := b[p := Block(k, Live)];
            && PagesOf(c, Free, n) == PagesOf(b, Free, n)
            && PagesOf(c, Live, n) == PagesOf(b, Live, n) + Span(p, k) && Span(p, k) !! PagesOf(b, Live, n)
            && p !in Only(b, Live) && Only(c, Live) == Only(b, Live)[p := k]
  {
    hide Holds, Base, Pow2, Canonical, Unclaimed;
    var c := b[p := Block(k, Live)];
    ClaimTiled(b, n, p, k);
    OnlyAdded(b, p, k);
    forall q: nat, x: Kind
      ensures Holds(c, x, q) <==> Holds(b, x, q) || (x.Live? && p <= q < p + Pow2(k))
      ensures Holds(b, x, q) ==> !(p <= q < p + Pow2(k))
    {
      ClaimHolds(b, p, k, q, x);
    }
  }

  lemma OnlyAdded(b: Blocks, p: nat, k: nat)
    requires p !in b
    ensures p !in Only(b, Live) && Only(b[p := Block(k, Live)], Live) == Only(b, Live)[p := k]
  {
  }

  lemma ClaimHolds(b: Blocks, p: nat, k: nat, q: nat, x: Kind)
    requires p !in b && Base(p, k) == p && Unclaimed(b, p, k)
    ensures Holds(b[p := Block(k, Live)], x, q) <==> Holds(b, x, q) || (x.Live? && p <= q < p + Pow2(k))
    ensures Holds(b, x, q) ==> !(p <= q < p + Pow2(k))
  {
    var c := b[p := Block(k, Live)];
    BaseIsInterval(p, q, k);
    if Holds(b, x, q) {
      var r :| r in b && b[r].kind == x && Base(q, b[r].order) == r;
      assert r in c && c[r].kind == x && Base(q, c[r].order) == r;
    }
    if x.Live? && p <= q < p + Pow2(k) {
      assert p in c && c[p].kind == x && Base(q, c[p].order) == p;
    }
    if Holds(c, x, q) {
      var r :| r in c && c[r].kind == x && Base(q, c[r].order) == r;
      if r != p {
        assert r in b && b[r].kind == x && Base(q, b[r].order) == r;
      }
    }
  }

  /** Pages that are neither free nor live are in no block, once no block is in hand. */
  lemma UnclaimedPages(b: Blocks, n: nat, p: nat, k: nat)
    requires Fits(p, k, n) && forall q | q in b :: !b[q].kind.Hand?
    requires Span(p, k) !! PagesOf(b, Free, n) && Span(p, k) !! PagesOf(b, Live, n)
    ensures Unclaimed(b, p, k)
  {
    forall r, q: nat | r in b && p <= q < p + Pow2(k)
      ensures Base(q, b[r].order) != r
    {
      assert q in Span(p, k) && q !in PagesOf(b, b[r].kind, n);
    }
  }
}
