/** The virtual memory manager: page-table updates in place, over frames from the page allocator. */
module Vmm {
  import opened Basics
  import opened BuddyBlocks
  import opened PageTables
  import PageFrames
  import Pmm

  const FLAGS_RX := Flags(true, false, false, false, true, false)
  const FLAGS_RO := Flags(true, false, false, false, true, true)
  const FLAGS_RW := Flags(true, true, false, false, true, true)
  const FLAGS_RWX := Flags(true, true, false, false, true, false)
  const FLAGS_LINK := Flags(true, true, false, false, false, false)

  /** Bytes in the 48-bit address space, and in a 2 MB page. */
  const SPACE: nat := 0x1_0000_0000_0000
  const BIG: nat := 0x20_0000

  /** What following one entry on the way down comes to. */
  datatype Step = Down(frame: nat) | HugeLeaf | NoMemory

  /** A fresh page from the page allocator: its number, or 0 when there is none. */
  method TakePage(pmm: Pmm.PageAllocator) returns (c: nat)
    requires pmm.Valid() && 0 !in pmm.FreeSet()
    modifies pmm, pmm.pages, pmm.heads, pmm.counts
    ensures pmm.Valid() && 0 !in pmm.FreeSet()
    ensures c == 0 <==> old(pmm.freePages) == 0
    ensures c == 0 ==> pmm.freePages == 0 && pmm.Held() == old(pmm.Held())
    ensures c != 0 ==> c !in old(pmm.Held()) && pmm.Held() == old(pmm.Held())[c := 0]
    ensures pmm.freePages == if c == 0 then 0 else old(pmm.freePages) - 1
  {
    hide Only, PagesOf, Span, BuddyBlocks.Fits, HasRun, Pmm.PageAllocator.Valid;
    ghost var free := pmm.FreeSet();
    FreeCount(pmm);
    var phys := pmm.AllocPages(0);
    FreeCount(pmm);
    c := phys / Pmm.PAGE_SIZE;
    if phys != 0 {
      OnePage(free, c);
    }
  }

  class AddressSpace {
    const pmm: Pmm.PageAllocator
    var mem: Memory
    const root: nat
    var tables: nat
    var enforced: bool
    ghost var place: map<nat, Place>

    ghost predicate Valid()
      reads this, pmm, pmm.pages, pmm.heads, pmm.counts
    {
      && pmm.Valid() && 0 !in pmm.FreeSet()
      && TreeOk(mem, root, place)
      && root in place && place[root] == Place(0, 0)
      && place.Keys <= pmm.Held().Keys && |place| == tables + 1
    }

    ghost function Page(v: nat): Option<Mapping>
      reads this
    {
      Flat(mem, root, v)
    }

    /** A fresh address space: one empty top-level table, nothing mapped. */
    constructor (pmm: Pmm.PageAllocator)
      requires pmm.Valid() && 0 !in pmm.FreeSet() && pmm.freePages > 0
      modifies pmm, pmm.pages, pmm.heads, pmm.counts
      ensures Valid() && this.pmm == pmm && !enforced && tables == 0
      ensures forall v: nat | v < PAGES :: Flat(mem, root, v) == None
    {
      hide TreeOk, Span, BuddyBlocks.Fits, HasRun, Pmm.PageAllocator.Consistent, Pmm.PageAllocator.FreeSet, Pmm.PageAllocator.LiveSet, Pmm.PageAllocator.Held, Flat;
      PageMeansRun(pmm);
      var phys := pmm.AllocPages(0);
      this.pmm := pmm;
      root := phys / Pmm.PAGE_SIZE;
      mem := map[phys / Pmm.PAGE_SIZE := EMPTY_TABLE];
      tables := 0;
      enforced := false;
      place := map[phys / Pmm.PAGE_SIZE := Place(0, 0)];
      new;
      EmptySpace(root);
    }

    /** Follow entry Index(v, k) of table f at depth k, hanging a fresh empty table there if absent; `added`
        are the places of the tables hung. */
    method NextTable(v: nat, k: nat, f: nat) returns (r: Step, ghost added: set<Place>)
      requires Valid() && v < PAGES && k < 3 && Descend(mem, root, 0, v, k) == Some(f)
      modifies this`mem, this`tables, this`place, pmm, pmm.pages, pmm.heads, pmm.counts
      ensures Valid() && SameMap(old(mem), mem, root)
      ensures Grew(old(mem), mem, root, added, 0, 0)
      ensures old(pmm.freePages) == pmm.freePages + |added| && tables == old(tables) + |added|
      ensures added == if r.Down? && !HasTable(old(mem), root, v, k + 1) then {Place(k + 1, Prefix(v, k + 1))} else {}
      ensures r.Down? ==> Descend(mem, root, 0, v, k + 1) == Some(r.frame)
      ensures r.HugeLeaf? ==> k == 2 && Within2M(mem, root, v)
      ensures r.NoMemory? ==> pmm.freePages == 0 && !HasTable(old(mem), root, v, k + 1) && !Within2M(mem, root, v)
    {
      hide TreeOk, Only, PagesOf, Span, BuddyBlocks.Fits, HasRun, Pmm.PageAllocator.Valid, Grew, Within2M;
      GrewSelf(mem, root);
      added := {};
      AtDepth(mem, root, place, v, k);
      var e := mem[f][Index(v, k)];
      if !IsLink(e, k) {
        DescendStops(mem, root, 0, v, k);
      }
      if e.flags.present {
        if k > 0 && e.flags.huge {
          HugeLeafAt(mem, root, place, v, k);
          return HugeLeaf, {};
        }
        DescendExtend(mem, root, 0, v, k);
        return Down(e.frame), {};
      }
      AbsentNotWithin(mem, root, v, k);
      var c := TakePage(pmm);
      if c == 0 {
        return NoMemory, {};
      }
      tables := tables + 1;
      LinkStore(mem, root, place, v, k, c, FLAGS_LINK);
      LinkGrew(mem, root, place, v, k, c, FLAGS_LINK);
      mem := Store(mem[c := EMPTY_TABLE], f, Index(v, k), Entry(c, FLAGS_LINK));
      place := place[c := Place(k + 1, Prefix(v, k + 1))];
      RootPlace(mem, root, place);
      return Down(c), {Place(k + 1, Prefix(v, k + 1))};
    }

    /** Walk down to the table at depth k, creating tables on the way.  It gets there exactly when there is
        a page for every missing one and no 2 MB leaf in the way. */
    method TableFor(v: nat, k: nat) returns (r: Step, ghost added: set<Place>)
      requires Valid() && v < PAGES && k <= 3
      modifies this`mem, this`tables, this`place, pmm, pmm.pages, pmm.heads, pmm.counts
      ensures Valid() && SameMap(old(mem), mem, root)
      ensures Grew(old(mem), mem, root, added, 0, 0) && added <= Missing(old(mem), root, v, 1, k)
      ensures old(pmm.freePages) == pmm.freePages + |added| && tables == old(tables) + |added|
      ensures r.Down? ==> Descend(mem, root, 0, v, k) == Some(r.frame) && added == Missing(old(mem), root, v, 1, k)
      ensures r.HugeLeaf? <==> k == 3 && Within2M(old(mem), root, v)
      ensures r.HugeLeaf? ==> added == {}
      ensures r.NoMemory? ==> pmm.freePages == 0 && |Missing(old(mem), root, v, 1, k)| > old(pmm.freePages)
    {
      hide AddressSpace.Valid, Within2M, Descend, Hung, HasTable, Missing, Prefix, Grew, SameMap;
      HungStart(mem, root, v);
      r := Down(root);
      added := {};
      var d := 0;
      DescendNowhere(mem, root, v);
      while d < k
        invariant d <= k && Valid() && r.Down? && Descend(mem, root, 0, v, d) == Some(r.frame)
        invariant Hung(old(mem), mem, root, v, d, added)
        invariant old(pmm.freePages) == pmm.freePages + |added| && tables == old(tables) + |added|
      {
        ghost var was := mem;
        ghost var one;
        r, one := NextTable(v, d, r.frame);
        HungStep(old(mem), was, mem, root, v, d, k, added, one, r);
        added := added + one;
        if !r.Down? {
          HungParts(old(mem), mem, root, v, d, added);
          return;
        }
        d := d + 1;
      }
      HungParts(old(mem), mem, root, v, k, added);
      if k == 3 {
        TableNotWithin(mem, root, v);
        SameMapWithin(old(mem), mem, root, v);
      }
    }

    /** Write one last-level entry; mappings of other pages do not change. */
    method SetPage(v: nat, f: nat, e: Entry)
      requires Valid() && v < PAGES && Descend(mem, root, 0, v, 3) == Some(f)
      modifies this`mem
      ensures Valid()
      ensures MapsTo(old(mem), mem, root, v, 1, Plain(e)) && Grew(old(mem), mem, root, {}, 0, 0)
    {
      hide TreeOk, Flat, Grew, Pmm.PageAllocator.Valid;
      AtDepth(mem, root, place, v, 3);
      PageStore(mem, root, place, v, e);
      PageGrew(mem, root, place, f, Index(v, 3), e);
      mem := Store(mem, f, Index(v, 3), e);
    }

    /** Map the page at va to the frame at pa.  `ok` is false where the source halts: there is
        no frame left for a table, or the page lies inside a 2 MB leaf. */
    method MapPage(va: nat, pa: nat, flags: Flags) returns (ok: bool, ghost added: set<Place>)
      requires Valid() && va % 4096 == 0 && pa % 4096 == 0
      modifies this`mem, this`tables, this`place, pmm, pmm.pages, pmm.heads, pmm.counts
      ensures Valid()
      ensures ok <==> !Within2M(old(mem), root, Vpn(va)) && |Missing(old(mem), root, Vpn(va), 1, 3)| <= old(pmm.freePages)
      ensures ok ==> MapsTo(old(mem), mem, root, Vpn(va), 1, Plain(Entry(pa / 4096, Effective(flags, enforced))))
      ensures ok ==> added == Missing(old(mem), root, Vpn(va), 1, 3)
      ensures !ok ==> SameMap(old(mem), mem, root)
      ensures Grew(old(mem), mem, root, added, 0, 0) && added <= Missing(old(mem), root, Vpn(va), 1, 3)
      ensures old(pmm.freePages) == pmm.freePages + |added| && tables == old(tables) + |added|
      ensures !ok ==> if Within2M(old(mem), root, Vpn(va)) then added == {} else pmm.freePages == 0
    {
      hide TreeOk, SameMap, MapsTo, HasRun, Walk, Plain, PagesOf, Only, Pmm.PageAllocator.Valid, Grew, Missing, Within2M, Descend;
      var v := Vpn(va);
      var r;
      r, added := TableFor(v, 3);
      if !r.Down? {
        return false, added;
      }
      var use := flags;
      if enforced && use.write && !use.nx {
        use := use.(nx := true);
      }
      ghost var was := mem;
      SetPage(v, r.frame, Entry(pa / 4096, use));
      MapsToChain(old(mem), was, mem, root, v, 1, Plain(Entry(pa / 4096, use)));
      GrewChain(old(mem), was, mem, root, added, {}, 0, 0, 0);
      assert added + {} == added;
      return true, added;
    }

    /** Map `size` bytes from va on to the physical range from pa on, page by page; `done` pages were
        mapped.  It stops where the source halts, and only there. */
    method MapRange(va: nat, pa: nat, size: nat, flags: Flags)
      returns (ok: bool, ghost done: nat, ghost added: set<Place>)
      requires Valid() && va % 4096 == 0 && pa % 4096 == 0 && va % SPACE + size <= SPACE
      modifies this`mem, this`tables, this`place, pmm, pmm.pages, pmm.heads, pmm.counts
      ensures Valid() && done <= PageCount(size) && (ok <==> done == PageCount(size))
      ensures MapsTo(old(mem), mem, root, Vpn(va), done, Plain(Entry(pa / 4096, Effective(flags, enforced))))
      ensures Grew(old(mem), mem, root, added, 0, 0)
      ensures old(pmm.freePages) == pmm.freePages + |added| && tables == old(tables) + |added|
      ensures NoneWithin2M(old(mem), root, Vpn(va), done)
      ensures ok || Within2M(old(mem), root, Vpn(va) + done) ==> added == Missing(old(mem), root, Vpn(va), done, 3)
      ensures !ok && !Within2M(old(mem), root, Vpn(va) + done) ==>
                RanDry(old(mem), root, Vpn(va), done, 1, 3, added, old(pmm.freePages), pmm.freePages)
      ensures ok <==> && NoneWithin2M(old(mem), root, Vpn(va), PageCount(size))
                      && |Missing(old(mem), root, Vpn(va), PageCount(size), 3)| <= old(pmm.freePages)
    {
      hide AddressSpace.Valid, SameMap, MapsTo, Within2M, Vpn, Grew, Missing;
      var off := 0;
      done := 0;
      added := {};
      ghost var v, n := Vpn(va), PageCount(size);
      ghost var m := Plain(Entry(pa / 4096, Effective(flags, enforced)));
      MapsToNothing(mem, root, v, m);
      GrewSelf(mem, root);
      NothingMissing(mem, root, v, 3);
      while off < size
        invariant off == done * 4096 && done <= n && Valid() && (off >= size ==> done == n)
        invariant MapsTo(old(mem), mem, root, v, done, m) && Grew(old(mem), mem, root, added, 0, 0)
        invariant added == Missing(old(mem), root, v, done, 3) && NoneWithin2M(old(mem), root, v, done)
        invariant old(pmm.freePages) == pmm.freePages + |added| && tables == old(tables) + |added|
        decreases size - off
      {
        ghost var was, free := mem, pmm.freePages;
        VpnAdd(va, off, size);
        MapsToElsewhere(old(mem), mem, root, v, done, m, v + done);
        var one;
        ghost var more;
        one, more := MapPage(va + off, pa + off, flags);
        GrewChain(old(mem), was, mem, root, added, more, 0, 0, 0);
        RangeStep(old(mem), was, root, added, 0, 0, v, done, 1, n, 3, more);
        added := added + more;
        if !one {
          MapsToSame(old(mem), was, mem, root, v, done, m);
          return false, done, added;
        }
        MapsToJoin(old(mem), was, mem, root, v, done, 1, m);
        off := off + 4096;
        done := done + 1;
      }
      return true, done, added;
    }

    /** Write one 2 MB leaf; mappings outside its 512 pages do not change. */
    method SetHuge(v: nat, f: nat, e: Entry)
      requires Valid() && v < PAGES && v % 512 == 0 && Descend(mem, root, 0, v, 2) == Some(f)
      requires e.flags.huge && e.frame % 512 == 0
      modifies this`mem
      ensures Valid()
      ensures MapsTo(old(mem), mem, root, v, 512, Plain(e)) && Grew(old(mem), mem, root, {}, v, 512)
    {
      hide TreeOk, Flat, Grew, Pmm.PageAllocator.Valid;
      AtDepth(mem, root, place, v, 2);
      HugeStore(mem, root, place, v, e);
      HugeGrew(mem, root, place, v, e);
      mem := Store(mem, f, Index(v, 2), e);
      HugeIsRange(old(mem), mem, root, v, e);
    }

    /** Write the 2 MB leaf at v, with the tables it needs. */
    method MapLeaf(v: nat, e: Entry) returns (ok: bool, ghost added: set<Place>)
      requires Valid() && v < PAGES && v % 512 == 0 && e.flags.huge && e.frame % 512 == 0
      modifies this`mem, this`tables, this`place, pmm, pmm.pages, pmm.heads, pmm.counts
      ensures Valid()
      ensures ok <==> |Missing(old(mem), root, v, 512, 2)| <= old(pmm.freePages)
      ensures ok ==> MapsTo(old(mem), mem, root, v, 512, Plain(e)) && added == Missing(old(mem), root, v, 512, 2)
      ensures !ok ==> SameMap(old(mem), mem, root) && pmm.freePages == 0
      ensures Grew(old(mem), mem, root, added, v, if ok then 512 else 0) && added <= Missing(old(mem), root, v, 512, 2)
      ensures old(pmm.freePages) == pmm.freePages + |added| && tables == old(tables) + |added|
    {
      hide TreeOk, SameMap, MapsTo, PagesOf, Only, Pmm.PageAllocator.Valid, Grew, Missing, Descend, Within2M;
      SamePath(mem, root, v);
      var r;
      r, added := TableFor(v, 2);
      ghost var was := mem;
      if !r.Down? {
        GrewNowhere(old(mem), mem, root, added, v);
        return false, added;
      }
      SetHuge(v, r.frame, e);
      MapsToChain(old(mem), was, mem, root, v, 512, Plain(e));
      GrewNowhere(old(mem), was, root, added, v);
      GrewChain(old(mem), was, mem, root, added, {}, v, 0, 512);
      assert added + {} == added;
      return true, added;
    }

    /** Map a 2 MB aligned range with 2 MB leaves, replacing whatever was mapped there; `done` pages
        were mapped.  The flags are written as given, enforcement or not. */
    method MapRangeHuge(va: nat, pa: nat, size: nat, flags: Flags)
      returns (ok: bool, ghost done: nat, ghost added: set<Place>)
      requires Valid() && va % BIG == 0 && pa % BIG == 0 && size % BIG == 0 && va % SPACE + size <= SPACE
      modifies this`mem, this`tables, this`place, pmm, pmm.pages, pmm.heads, pmm.counts
      ensures Valid() && done <= size / 4096 && done % 512 == 0 && (ok <==> done == size / 4096)
      ensures MapsTo(old(mem), mem, root, Vpn(va), done, Plain(Entry(pa / 4096, flags.(huge := true))))
      ensures Grew(old(mem), mem, root, added, Vpn(va), done)
      ensures old(pmm.freePages) == pmm.freePages + |added| && tables == old(tables) + |added|
      ensures ok ==> added == Missing(old(mem), root, Vpn(va), done, 2)
      ensures !ok ==> RanDry(old(mem), root, Vpn(va), done, 512, 2, added, old(pmm.freePages), pmm.freePages)
      ensures ok <==> |Missing(old(mem), root, Vpn(va), size / 4096, 2)| <= old(pmm.freePages)
    {
      hide AddressSpace.Valid, SameMap, MapsTo, Vpn, Grew, Missing;
      var off := 0;
      done := 0;
      added := {};
      ghost var k, v := 0, Vpn(va);
      ghost var m := Plain(Entry(pa / 4096, flags.(huge := true)));
      MapsToNothing(mem, root, v, m);
      GrewSelf(mem, root);
      GrewNowhere(mem, mem, root, {}, v);
      NothingMissing(mem, root, v, 2);
      BigUnits(size, size / BIG);
      while off < size
        invariant off == k * BIG && done == k * 512 && k <= size / BIG && Valid()
        invariant MapsTo(old(mem), mem, root, v, done, m) && Grew(old(mem), mem, root, added, v, done)
        invariant added == Missing(old(mem), root, v, done, 2)
        invariant old(pmm.freePages) == pmm.freePages + |added| && tables == old(tables) + |added|
        decreases size / BIG - k
      {
        ghost var was := mem;
        BigStep(va, pa, k, size);
        var one;
        ghost var more;
        one, more := MapLeaf(Vpn(va + off), Entry((pa + off) / 4096, flags.(huge := true)));
        MissingDepth(was, root, v + done, 512, 2);
        GrewChain(old(mem), was, mem, root, added, more, v, done, if one then 512 else 0);
        RangeStep(old(mem), was, root, added, v, done, v, done, 512, size / 4096, 2, more);
        added := added + more;
        if !one {
          MapsToSame(old(mem), was, mem, root, v, done, m);
          return false, done, added;
        }
        MapsToJoin(old(mem), was, mem, root, v, done, 512, m);
        off := off + BIG;
        done := done + 512;
        k := k + 1;
      }
      return true, done, added;
    }

    /** Remove the mapping of one page, unless it lies inside a 2 MB leaf. */
    method UnmapPage(va: nat)
      requires Valid() && va % 4096 == 0
      modifies this`mem
      ensures Valid()
      ensures Within2M(old(mem), root, Vpn(va)) ==> mem == old(mem)
      ensures !Within2M(old(mem), root, Vpn(va)) ==> MapsTo(old(mem), mem, root, Vpn(va), 1, None)
      ensures Grew(old(mem), mem, root, {}, 0, 0)
    {
      hide TreeOk, MapsTo, Grew, Pmm.PageAllocator.Valid;
      GrewSelf(mem, root);
      var v := Vpn(va);
      var f := root;
      var d := 0;
      while d < 3
        invariant d <= 3 && mem == old(mem) && Valid() && Descend(mem, root, 0, v, d) == Some(f)
      {
        AtDepth(mem, root, place, v, d);
        DescendWalk(mem, root, 0, v, d);
        var e := mem[f][Index(v, d)];
        if !e.flags.present {
          AlreadyUnmapped(mem, root, v);
          return;
        }
        if d > 0 && e.flags.huge {
          HugeLeafAt(mem, root, place, v, d);
          return;
        }
        DescendExtend(mem, root, 0, v, d);
        f := e.frame;
        d := d + 1;
      }
      AtDepth(mem, root, place, v, 3);
      DescendWalk(mem, root, 0, v, 3);
      SetPage(v, f, EMPTY_ENTRY);
    }

    /** The physical address of a virtual one, or 0. */
    method VirtToPhys(va: nat) returns (phys: nat)
      requires Valid()
      ensures phys == match Page(Vpn(va)) case None => 0 case Some(m) => m.frame * 4096 + va % 4096
    {
      hide TreeOk, Pmm.PageAllocator.Valid;
      var v := Vpn(va);
      var f := root;
      var d := 0;
      while true
        invariant d <= 3 && Descend(mem, root, 0, v, d) == Some(f)
        decreases 3 - d
      {
        AtDepth(mem, root, place, v, d);
        DescendWalk(mem, root, 0, v, d);
        var e := mem[f][Index(v, d)];
        if !e.flags.present {
          return 0;
        }
        if d == 3 || (d > 0 && e.flags.huge) {
          OffsetInLeaf(va, d);
          return e.frame * 4096 + va % (Reach(d) * 4096);
        }
        DescendExtend(mem, root, 0, v, d);
        f := e.frame;
        d := d + 1;
      }
    }
  }

  /** The flags a mapping gets: once enforcement is on, a writable page is never executable. */
  function Effective(flags: Flags, enforced: bool): (r: Flags)
    ensures enforced ==> !r.Wx()
    ensures r.present == flags.present && r.write == flags.write
    ensures !(flags.Wx() && enforced) ==> r == flags
  {
    if enforced && flags.write && !flags.nx then flags.(nx := true) else flags
  }

  ghost predicate Within2M(mem: Memory, root: nat, v: nat) {
    Walk(mem, root, 0, v).At? && Walk(mem, root, 0, v).depth == 2
  }

  /** The page is mapped by a last-level entry of its own. */
  ghost predicate Small(mem: Memory, root: nat, v: nat) {
    Walk(mem, root, 0, v).At? && Walk(mem, root, 0, v).depth == 3
  }

  ghost predicate NoneWithin2M(mem: Memory, root: nat, v: nat, n: nat) {
    forall w: nat | v <= w < v + n :: !Within2M(mem, root, w)
  }

  ghost predicate AllSmall(mem: Memory, root: nat, v: nat, n: nat) {
    forall w: nat | v <= w < v + n :: Small(mem, root, w)
  }

  /** The mapping of the k-th of n pages from a given first one. */
  ghost function Nth(m: Option<Mapping>, k: nat): Option<Mapping> {
    match m
    case None => None
    case Some(x) => Some(Mapping(x.frame + k, x.flags))
  }

  /** From a to b, the n pages from v on come to map consecutive frames, and nothing else changes:
      the walk of every other page ends in the same leaf. */
  ghost predicate MapsTo(a: Memory, b: Memory, root: nat, v: nat, n: nat, m: Option<Mapping>) {
    && (forall w: nat | w < PAGES && v <= w < v + n :: Flat(b, root, w) == Nth(m, w - v))
    && (forall w: nat | w < PAGES && !(v <= w < v + n) :: Walk(b, root, 0, w) == Walk(a, root, 0, w))
  }

  /** What the flat map comes to. */
  lemma MapsToFlat(a: Memory, b: Memory, root: nat, v: nat, n: nat, m: Option<Mapping>, w: nat)
    requires MapsTo(a, b, root, v, n, m) && w < PAGES
    ensures Flat(b, root, w) == if v <= w < v + n then Nth(m, w - v) else Flat(a, root, w)
  {
  }

  lemma MapsToElsewhere(a: Memory, b: Memory, root: nat, v: nat, n: nat, m: Option<Mapping>, w: nat)
    requires MapsTo(a, b, root, v, n, m) && w < PAGES && !(v <= w < v + n)
    ensures Within2M(b, root, w) <==> Within2M(a, root, w)
  {
  }

  lemma MapsToChain(a: Memory, b: Memory, c: Memory, root: nat, v: nat, n: nat, m: Option<Mapping>)
    requires SameMap(a, b, root) && MapsTo(b, c, root, v, n, m)
    ensures MapsTo(a, c, root, v, n, m)
  {
    hide Flat, Walk;
    forall w: nat | w < PAGES && !(v <= w < v + n)
      ensures Walk(c, root, 0, w) == Walk(a, root, 0, w)
    {
      assert Walk(a, root, 0, w) == Walk(b, root, 0, w);
    }
  }

  /** Mapping n pages and then the next k makes n + k pages. */
  lemma MapsToJoin(a: Memory, b: Memory, c: Memory, root: nat, v: nat, n: nat, k: nat, m: Option<Mapping>)
    requires MapsTo(a, b, root, v, n, m) && MapsTo(b, c, root, v + n, k, Nth(m, n))
    ensures MapsTo(a, c, root, v, n + k, m)
  {
    hide Walk;
    forall w: nat | w < PAGES && v <= w < v + (n + k)
      ensures Flat(c, root, w) == Nth(m, w - v)
    {
      if w < v + n {
        assert Flat(b, root, w) == Nth(m, w - v);
        assert Walk(c, root, 0, w) == Walk(b, root, 0, w);
      }
    }
    forall w: nat | w < PAGES && !(v <= w < v + (n + k))
      ensures Walk(c, root, 0, w) == Walk(a, root, 0, w)
    {
      assert Walk(b, root, 0, w) == Walk(a, root, 0, w);
    }
  }

  /** The walk of every page ends in the same leaf in both memories. */
  ghost predicate SameMap(a: Memory, b: Memory, root: nat) {
    forall w: nat | w < PAGES :: Walk(a, root, 0, w) == Walk(b, root, 0, w)
  }

  lemma SameMapSelf(a: Memory, root: nat)
    ensures SameMap(a, a, root)
  {
  }

  lemma SameMapChain(a: Memory, b: Memory, c: Memory, root: nat)
    requires SameMap(a, b, root) && SameMap(b, c, root)
    ensures SameMap(a, c, root)
  {
    hide Walk;
    forall w: nat | w < PAGES
      ensures Walk(a, root, 0, w) == Walk(c, root, 0, w)
    {
      assert Walk(a, root, 0, w) == Walk(b, root, 0, w);
    }
  }

  lemma SameMapWithin(a: Memory, b: Memory, root: nat, v: nat)
    requires SameMap(a, b, root) && v < PAGES
    ensures Within2M(a, root, v) <==> Within2M(b, root, v)
  {
  }

  lemma MapsToNothing(a: Memory, root: nat, v: nat, m: Option<Mapping>)
    ensures MapsTo(a, a, root, v, 0, m)
  {
  }

  lemma MapsToSame(a: Memory, b: Memory, c: Memory, root: nat, v: nat, n: nat, m: Option<Mapping>)
    requires MapsTo(a, b, root, v, n, m) && SameMap(b, c, root)
    ensures MapsTo(a, c, root, v, n, m)
  {
    hide Walk;
    forall w: nat | w < PAGES
      ensures Walk(c, root, 0, w) == Walk(b, root, 0, w)
    {
      assert Walk(b, root, 0, w) == Walk(c, root, 0, w);
    }
    forall w: nat | w < PAGES && v <= w < v + n
      ensures Flat(c, root, w) == Nth(m, w - v)
    {
      assert Flat(b, root, w) == Nth(m, w - v) && Walk(c, root, 0, w) == Walk(b, root, 0, w);
    }
  }

  lemma AlreadyUnmapped(a: Memory, root: nat, v: nat)
    requires Flat(a, root, v) == None
    ensures MapsTo(a, a, root, v, 1, None)
  {
  }

  lemma HugeIsRange(a: Memory, b: Memory, root: nat, v: nat, e: Entry)
    requires v % 512 == 0
    requires forall w: nat | w < PAGES && w / 512 == v / 512 ::
               Flat(b, root, w) == Plain(e.(frame := e.frame + w % 512))
    requires forall w: nat | w < PAGES && w / 512 != v / 512 :: Walk(b, root, 0, w) == Walk(a, root, 0, w)
    ensures MapsTo(a, b, root, v, 512, Plain(e))
  {
    hide Flat, Walk;
    forall w: nat | w < PAGES
      ensures w / 512 == v / 512 <==> v <= w < v + 512
    {
    }
  }

  function PageCount(size: nat): nat {
    (size + 4095) / 4096
  }

  /** Pages of a range that does not wrap around the 48-bit space have consecutive numbers. */
  lemma VpnAdd(va: nat, off: nat, size: nat)
    requires va % 4096 == 0 && off % 4096 == 0 && off < size && va % SPACE + size <= SPACE
    ensures Vpn(va + off) == Vpn(va) + off / 4096
  {
    SpaceVpn(va);
    SpaceVpn(va + off);
    var q, r := va / SPACE, va % SPACE;
    assert va + off == q * SPACE + (r + off);
    DivUnique(va + off, SPACE, q, r + off);
  }

  lemma SpaceVpn(va: nat)
    ensures Vpn(va) == va % SPACE / 4096
  {
    var q, r := va / SPACE, va % SPACE;
    assert va == (q * PAGES) * 4096 + r;
    DivModAdd(q * PAGES, r, 4096);
    DivModAdd(q, r / 4096, PAGES);
  }

  lemma BigStep(va: nat, pa: nat, k: nat, size: nat)
    requires va % BIG == 0 && pa % BIG == 0 && size % BIG == 0 && k * BIG < size && va % SPACE + size <= SPACE
    ensures Vpn(va + k * BIG) % 512 == 0 && Vpn(va + k * BIG) == Vpn(va) + k * 512
    ensures (pa + k * BIG) / 4096 == pa / 4096 + k * 512 && (pa + k * BIG) / 4096 % 512 == 0
    ensures k < size / BIG
  {
    hide Vpn;
    var a, p := va / BIG, pa / BIG;
    BigUnits(va, a);
    BigUnits(pa, p);
    BigUnits(k * BIG, k);
    BigUnits(pa + k * BIG, p + k);
    BigVpn(a + k);
    VpnAdd(va, k * BIG, size);
  }

  lemma BigUnits(x: nat, k: nat)
    requires (x % BIG == 0 && k == x / BIG) || x == k * BIG
    ensures x == k * BIG && x / 4096 == k * 512 && x % 4096 == 0 && (k * 512) % 512 == 0
  {
    assert x == k * BIG;
    DivModAdd(k * 512, 0, 4096);
    DivModAdd(k, 0, 512);
  }

  lemma BigVpn(k: nat)
    ensures Vpn(k * BIG) % 512 == 0
  {
    var q, r := k / 0x800_0000, k % 0x800_0000;
    assert k * BIG == (k * 512) * 4096;
    assert k * 512 == q * PAGES + r * 512;
    DivModAdd(k * 512, 0, 4096);
    DivModAdd(q, r * 512, PAGES);
  }

  /** The offset bits below a leaf at depth d are the page's share of the leaf and the byte offset. */
  lemma OffsetInLeaf(va: nat, d: nat)
    requires 0 < d <= 3
    ensures va % (Reach(d) * 4096) == (Vpn(va) % Reach(d)) * 4096 + va % 4096
  {
    var n, b := va / 4096, va % 4096;
    var m := Reach(d);
    var k := PAGES / m;
    assert PAGES == k * m;
    var q, r := n / PAGES, n % PAGES;
    var s, t := r / m, r % m;
    assert n == (q * k + s) * m + t by {
      assert (q * k + s) * m == q * (k * m) + s * m;
    }
    assert va == (q * k + s) * (m * 4096) + (t * 4096 + b) by {
      assert ((q * k + s) * m) * 4096 == (q * k + s) * (m * 4096);
    }
    DivUnique(va, m * 4096, q * k + s, t * 4096 + b);
  }

  lemma EmptySpace(root: nat)
    ensures TreeOk(map[root := EMPTY_TABLE], root, map[root := Place(0, 0)])
    ensures forall v: nat | v < PAGES :: Flat(map[root := EMPTY_TABLE], root, v) == None
  {
  }

  lemma PageMeansRun(pmm: Pmm.PageAllocator)
    requires pmm.Valid() && pmm.freePages > 0
    ensures HasRun(pmm.blocks, 0)
  {
    hide PageFrames.Agree;
    assert pmm.FreeSet() != {};
    var q :| q in pmm.FreeSet();
    assert FreeRun(pmm.blocks, q, 0);
  }

  lemma FreeCount(pmm: Pmm.PageAllocator)
    requires pmm.Valid()
    ensures pmm.freePages == |pmm.FreeSet()| && (HasRun(pmm.blocks, 0) <==> pmm.freePages > 0)
  {
    hide PageFrames.Agree;
    if HasRun(pmm.blocks, 0) {
      RunHasPage(pmm);
    }
    if pmm.freePages > 0 {
      PageMeansRun(pmm);
    }
  }

  lemma OnePage(free: set<nat>, p: nat)
    requires Span(p, 0) <= free
    ensures |free - Span(p, 0)| == |free| - 1
  {
    assert p in Span(p, 0) && Span(p, 0) == {p};
    assert free == (free - {p}) + {p};
  }

  lemma RunHasPage(pmm: Pmm.PageAllocator)
    requires pmm.Valid() && HasRun(pmm.blocks, 0)
    ensures pmm.FreeSet() != {}
  {
    hide PageFrames.Agree;
    pmm.IsCanonical();
    BlockIffRun(pmm.blocks, pmm.Total(), 0);
    var p :| p in pmm.blocks && pmm.blocks[p].kind.Free?;
    assert Holds(pmm.blocks, Free, p);
    assert p in pmm.FreeSet();
  }

  lemma DescendNowhere(mem: Memory, root: nat, v: nat)
    ensures Descend(mem, root, 0, v, 0) == Some(root)
  {
  }

  /** A page with a last-level table lies in no 2 MB leaf. */
  lemma TableNotWithin(mem: Memory, root: nat, v: nat)
    requires Descend(mem, root, 0, v, 3).Some?
    ensures !Within2M(mem, root, v)
  {
    DescendWalk(mem, root, 0, v, 3);
  }

  /** A page mapped by an entry of its own has its last-level table. */
  lemma {:induction false} SmallHasTable(mem: Memory, g: nat, d: nat, v: nat)
    requires d <= 3 && Walk(mem, g, d, v).At? && Walk(mem, g, d, v).depth == 3
    ensures Descend(mem, g, d, v, 3).Some?
    decreases 4 - d
  {
    if d < 3 {
      SmallHasTable(mem, mem[g][Index(v, d)].frame, d + 1, v);
    }
  }

  /** A mapping without the mark of a large page is that of an entry of the page's own. */
  lemma {:induction false} UnmarkedIsSmall(mem: Memory, g: nat, d: nat, v: nat)
    requires d <= 3 && Walk(mem, g, d, v).At? && !Walk(mem, g, d, v).entry.flags.huge
    ensures Walk(mem, g, d, v).depth == 3
    decreases 4 - d
  {
    if d < 3 {
      UnmarkedIsSmall(mem, mem[g][Index(v, d)].frame, d + 1, v);
    }
  }

  lemma AtDepth(mem: Memory, root: nat, place: map<nat, Place>, v: nat, k: nat)
    requires TreeOk(mem, root, place) && v < PAGES && k <= 3 && Descend(mem, root, 0, v, k).Some?
    ensures var f := Descend(mem, root, 0, v, k).value; f in mem && f in place && place[f].depth == k
  {
    DescendPlace(mem, root, place, root, v, k);
  }

  lemma HugeLeafAt(mem: Memory, root: nat, place: map<nat, Place>, v: nat, k: nat)
    requires TreeOk(mem, root, place) && v < PAGES && 0 < k < 3 && Descend(mem, root, 0, v, k).Some?
    requires var f := Descend(mem, root, 0, v, k).value;
             f in mem && mem[f][Index(v, k)].flags.present && mem[f][Index(v, k)].flags.huge
    ensures k == 2 && Within2M(mem, root, v)
  {
    DescendPlace(mem, root, place, root, v, k);
    DescendWalk(mem, root, 0, v, k);
  }

  /** There was not a page for every table that the next u pages need, and every free one went into one. */
  ghost predicate RanDry(a: Memory, root: nat, v: nat, done: nat, u: nat, k: nat, added: set<Place>, free: nat, left: nat)
    requires k <= 3
  {
    && left == 0 && |Missing(a, root, v, done + u, k)| > free
    && Missing(a, root, v, done, k) <= added <= Missing(a, root, v, done + u, k)
  }

  lemma AbsentNotWithin(mem: Memory, root: nat, v: nat, k: nat)
    requires k < 3 && Descend(mem, root, 0, v, k).Some?
    requires var f := Descend(mem, root, 0, v, k).value; f in mem && !mem[f][Index(v, k)].flags.present
    ensures !Within2M(mem, root, v)
  {
    DescendWalk(mem, root, 0, v, k);
  }

  /** A page inside a 2 MB leaf has its tables down to the one that holds the leaf. */
  lemma WithinHasTables(mem: Memory, root: nat, v: nat)
    requires Within2M(mem, root, v)
    ensures Missing(mem, root, v, 1, 2) == {}
  {
    WalkHasTable(mem, root, 0, v);
    DescendShorter(mem, root, 0, v, 2, 1);
    forall w: nat, d: nat | v <= w < v + 1 && 1 <= d <= 2
      ensures HasTable(mem, root, w, d)
    {
    }
  }

  lemma {:induction false} WalkHasTable(mem: Memory, g: nat, d: nat, v: nat)
    requires d <= 2 && Walk(mem, g, d, v).At? && Walk(mem, g, d, v).depth == 2
    ensures Descend(mem, g, d, v, 2).Some?
    decreases 4 - d
  {
    if d < 2 {
      WalkHasTable(mem, mem[g][Index(v, d)].frame, d + 1, v);
    }
  }

  lemma MissingNone(mem: Memory, root: nat, v: nat)
    ensures Missing(mem, root, v, 1, 0) == {}
  {
  }

  lemma NothingMissing(mem: Memory, root: nat, v: nat, k: nat)
    requires k <= 3
    ensures Missing(mem, root, v, 0, k) == {}
  {
  }

  /** One level further down: the table there is missing, or it is not. */
  lemma MissingDeeper(a: Memory, b: Memory, root: nat, v: nat, d: nat, k: nat)
    requires d < k <= 3 && v < PAGES && Grew(a, b, root, Missing(a, root, v, 1, d), 0, 0)
    ensures HasTable(b, root, v, d + 1) <==> HasTable(a, root, v, d + 1)
    ensures Missing(a, root, v, 1, d + 1) ==
            Missing(a, root, v, 1, d) + if HasTable(a, root, v, d + 1) then {} else {Place(d + 1, Prefix(v, d + 1))}
    ensures Missing(a, root, v, 1, d + 1) <= Missing(a, root, v, 1, k)
    ensures Place(d + 1, Prefix(v, d + 1)) !in Missing(a, root, v, 1, d)
  {
    hide HasTable, Prefix;
    MissingDepth(a, root, v, 1, d);
  }

  /** Pages with entries of their own need no table. */
  lemma SmallMissesNothing(mem: Memory, root: nat, v: nat, n: nat)
    requires AllSmall(mem, root, v, n)
    ensures NoneWithin2M(mem, root, v, n) && Missing(mem, root, v, n, 3) == {}
  {
    hide Walk;
    forall w: nat, d: nat | v <= w < v + n && 1 <= d <= 3
      ensures HasTable(mem, root, w, d)
    {
      assert Small(mem, root, w);
      SmallHasTable(mem, root, 0, w);
      DescendShorter(mem, root, 0, w, 3, d);
    }
    forall w: nat | v <= w < v + n
      ensures !Within2M(mem, root, w)
    {
      assert Small(mem, root, w);
    }
  }

  /** The way down to depth d: the same map, and exactly the tables that were missing on the way. */
  ghost predicate Hung(a: Memory, b: Memory, root: nat, v: nat, d: nat, added: set<Place>)
    requires d <= 3
  {
    SameMap(a, b, root) && Grew(a, b, root, added, 0, 0) && added == Missing(a, root, v, 1, d)
  }

  lemma HungStart(a: Memory, root: nat, v: nat)
    ensures Hung(a, a, root, v, 0, {})
  {
    hide Missing, Grew, SameMap;
    SameMapSelf(a, root);
    GrewSelf(a, root);
    MissingNone(a, root, v);
  }

  lemma HungParts(a: Memory, b: Memory, root: nat, v: nat, d: nat, added: set<Place>)
    requires d <= 3 && Hung(a, b, root, v, d, added)
    ensures SameMap(a, b, root) && Grew(a, b, root, added, 0, 0) && added == Missing(a, root, v, 1, d)
  {
  }

  /** One entry further: the next table is there or is hung, or the way ends. */
  lemma HungStep(a: Memory, was: Memory, b: Memory, root: nat, v: nat, d: nat, k: nat,
                 added: set<Place>, one: set<Place>, r: Step)
    requires d < k <= 3 && v < PAGES && Hung(a, was, root, v, d, added)
    requires SameMap(was, b, root) && Grew(was, b, root, one, 0, 0)
    requires one == if r.Down? && !HasTable(was, root, v, d + 1) then {Place(d + 1, Prefix(v, d + 1))} else {}
    ensures Hung(a, b, root, v, if r.Down? then d + 1 else d, added + one) && |added + one| == |added| + |one|
    ensures Within2M(a, root, v) <==> Within2M(b, root, v)
    ensures added <= Missing(a, root, v, 1, k)
    ensures !r.Down? && !HasTable(was, root, v, d + 1) ==> |Missing(a, root, v, 1, k)| > |added|
    ensures d == 2 && Within2M(b, root, v) ==> added == {}
  {
    hide Missing, Grew, SameMap, Within2M, HasTable, Prefix;
    SameMapChain(a, was, b, root);
    SameMapWithin(a, b, root, v);
    GrewChain(a, was, b, root, added, one, 0, 0, 0);
    MissingDeeper(a, was, root, v, d, k);
    DisjointSize(added, one);
    if !r.Down? && !HasTable(was, root, v, d + 1) {
      StrictlyMore(added, Missing(a, root, v, 1, k), Place(d + 1, Prefix(v, d + 1)));
    }
    if d == 2 && Within2M(b, root, v) {
      WithinHasTables(a, root, v);
    }
  }

  lemma StrictlyMore(x: set<Place>, y: set<Place>, z: Place)
    requires x + {z} <= y && z !in x
    ensures |y| > |x|
  {
    SubsetCount(x + {z}, y);
  }

  lemma SubsetCount(x: set<Place>, y: set<Place>)
    requires x <= y
    ensures |x| <= |y|
  {
    assert y == x + (y - x);
  }

  lemma DisjointSize(x: set<Place>, y: set<Place>)
    requires x !! y
    ensures |x + y| == |x| + |y|
  {
  }

  /** The tables that u more pages need are those that were missing for them and were not hung before. */
  lemma RangeStep(a: Memory, b: Memory, root: nat, added: set<Place>, x: nat, c: nat,
                  v: nat, done: nat, u: nat, n: nat, k: nat, more: set<Place>)
    requires k <= 3 && Grew(a, b, root, added, x, c) && (k == 3 ==> c == 0) && v + done + u <= PAGES && done + u <= n
    requires added == Missing(a, root, v, done, k) && more <= Missing(b, root, v + done, u, k)
    ensures |added + more| == |added| + |more|
    ensures Missing(a, root, v, done + u, k) == added + Missing(b, root, v + done, u, k)
    ensures |Missing(a, root, v, done + u, k)| == |added| + |Missing(b, root, v + done, u, k)|
    ensures |Missing(a, root, v, done + u, k)| <= |Missing(a, root, v, n, k)|
  {
    hide Missing, Grew;
    MissingAfter(a, b, root, added, x, c, v + done, u, k);
    MissingMore(a, root, v, done, u, k);
    MissingMore(a, root, v, done + u, n - (done + u), k);
    DisjointSize(added, more);
    DisjointSize(added, Missing(b, root, v + done, u, k));
    SubsetCount(Missing(a, root, v, done + u, k), Missing(a, root, v, n, k));
  }

  /** The 512 pages of a 2 MB leaf share the tables down to the one that holds it. */
  lemma SamePath(mem: Memory, root: nat, v: nat)
    requires v % 512 == 0
    ensures Missing(mem, root, v, 512, 2) == Missing(mem, root, v, 1, 2)
  {
    hide HasTable;
    forall w: nat, d: nat | v <= w < v + 512 && 1 <= d <= 2
      ensures Prefix(w, d) == Prefix(v, d) && (HasTable(mem, root, w, d) <==> HasTable(mem, root, v, d))
    {
      SamePathAt(mem, root, v, w, d);
    }
  }

  lemma SamePathAt(mem: Memory, root: nat, v: nat, w: nat, d: nat)
    requires v % 512 == 0 && v <= w < v + 512 && 1 <= d <= 2
    ensures Prefix(w, d) == Prefix(v, d) && (HasTable(mem, root, w, d) <==> HasTable(mem, root, v, d))
  {
    assert w / 512 == v / 512;
    SamePrefix(v, w, 2);
    if d == 1 {
      SamePrefix(v, w, 1);
    }
    DescendSame(mem, root, 0, v, w, d);
  }

  lemma GrewNowhere(a: Memory, b: Memory, root: nat, added: set<Place>, v: nat)
    requires Grew(a, b, root, added, 0, 0)
    ensures Grew(a, b, root, added, v, 0)
  {
    hide HasTable, Prefix;
  }

  lemma RootPlace(mem: Memory, root: nat, place: map<nat, Place>)
    requires TreeOk(mem, root, place)
    ensures root in place && place[root] == Place(0, 0)
  {
  }
}
