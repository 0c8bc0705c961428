/** Building the kernel's address space: a broad first mapping, the direct map of physical memory,
    per-section permissions and the sweep over the gaps between sections. */
module VmmBoot {
  import opened Basics
  import opened PageTables
  import opened Vmm
  import opened WxAudit
  import opened BuddyBlocks
  import Pmm

  datatype Extent = Extent(lo: nat, hi: nat)

  /** Bounds of the kernel image and of its sections .text, .rodata, .data and .bss, in that order. */
  datatype Layout = Layout(lo: nat, hi: nat, sections: seq<Extent>)

  ghost predicate LayoutOk(l: Layout) {
    && l.lo % 4096 == 0 && l.lo <= l.hi && l.lo % SPACE + (l.hi - l.lo) <= SPACE
    && |l.sections| == 4
    && forall s | 0 <= s < 4 :: l.sections[s].lo % 4096 == 0 && l.lo <= l.sections[s].lo <= l.sections[s].hi <= l.hi
  }

  function SectionFlags(s: nat): Flags {
    if s == 0 then FLAGS_RX else if s == 1 then FLAGS_RO else FLAGS_RW
  }

  /** The address of kernel page k lies in section s. */
  predicate InSection(l: Layout, s: nat, k: nat)
    requires |l.sections| == 4 && s < 4
  {
    l.sections[s].lo <= l.lo + 4096 * k < l.sections[s].hi
  }

  predicate InSome(l: Layout, k: nat)
    requires |l.sections| == 4
  {
    InSection(l, 0, k) || InSection(l, 1, k) || InSection(l, 2, k) || InSection(l, 3, k)
  }

  /** Permissions of kernel page k once the first s sections have been remapped. */
  function Staged(l: Layout, s: nat, k: nat): Flags
    requires |l.sections| == 4 && s <= 4
  {
    if s == 0 then FLAGS_RWX
    else if InSection(l, s - 1, k) then SectionFlags(s - 1)
    else Staged(l, s - 1, k)
  }

  datatype Stage = Sections(s: nat) | Sweep(j: nat)

  /** Permissions of kernel page k after the first s sections, or also after j pages of the sweep. */
  function FlagsAt(l: Layout, stage: Stage, k: nat): Flags
    requires |l.sections| == 4 && (stage.Sections? ==> stage.s <= 4)
  {
    match stage
    case Sections(s) => Staged(l, s, k)
    case Sweep(j) => if k < j && !InSome(l, k) then FLAGS_RW else Staged(l, 4, k)
  }

  /** The final permissions: the last section that holds the page decides, gaps are writable data. */
  lemma FinalFlags(l: Layout, j: nat, k: nat)
    requires LayoutOk(l) && k < j
    ensures var f := FlagsAt(l, Sweep(j), k);
            && !f.Wx()
            && f == if InSection(l, 3, k) || InSection(l, 2, k) then FLAGS_RW
                    else if InSection(l, 1, k) then FLAGS_RO
                    else if InSection(l, 0, k) then FLAGS_RX
                    else FLAGS_RW
  {
    assert Staged(l, 1, k) == if InSection(l, 0, k) then FLAGS_RX else Staged(l, 0, k);
    assert Staged(l, 2, k) == if InSection(l, 1, k) then FLAGS_RO else Staged(l, 1, k);
    assert Staged(l, 3, k) == if InSection(l, 2, k) then FLAGS_RW else Staged(l, 2, k);
  }

  datatype Plan = Plan(l: Layout, base: nat, direct: nat, top: nat) {
    function First(): nat {
      Vpn(l.lo)
    }
    function Count(): nat
      requires l.lo <= l.hi
    {
      PageCount(l.hi - l.lo)
    }
  }

  ghost predicate PlanOk(p: Plan) {
    && LayoutOk(p.l) && p.base % 4096 == 0
    && p.direct % BIG == 0 && p.top % BIG == 0 && p.direct % SPACE + p.top <= SPACE
    && (p.First() + p.Count() <= Vpn(p.direct) || Vpn(p.direct) + p.top / 4096 <= p.First())
  }

  /** The whole flat map: kernel pages with the permissions of a stage, and the direct map if built. */
  ghost function Expected(p: Plan, direct: bool, stage: Stage, w: nat): Option<Mapping>
    requires PlanOk(p) && (stage.Sections? ==> stage.s <= 4)
  {
    if p.First() <= w < p.First() + p.Count() then
      Some(Mapping(p.base / 4096 + (w - p.First()), FlagsAt(p.l, stage, w - p.First())))
    else if direct && Vpn(p.direct) <= w < Vpn(p.direct) + p.top / 4096 then
      Some(Mapping(w - Vpn(p.direct), FLAGS_RW.(huge := true)))
    else None
  }

  ghost predicate MapIs(mem: Memory, root: nat, p: Plan, direct: bool, stage: Stage)
    requires PlanOk(p) && (stage.Sections? ==> stage.s <= 4)
  {
    forall w: nat | w < PAGES :: Flat(mem, root, w) == Expected(p, direct, stage, w)
  }

  ghost predicate Blank(mem: Memory, root: nat) {
    forall w: nat | w < PAGES :: Flat(mem, root, w) == None
  }

  lemma AfterFirst(a: Memory, b: Memory, root: nat, p: Plan)
    requires PlanOk(p) && Blank(a, root)
    requires MapsTo(a, b, root, p.First(), p.Count(), Plain(Entry(p.base / 4096, FLAGS_RWX)))
    ensures MapIs(b, root, p, false, Sections(0))
  {
    hide Flat, Vpn, MapsTo;
    forall w: nat | w < PAGES
      ensures Flat(b, root, w) == Expected(p, false, Sections(0), w)
    {
      MapsToFlat(a, b, root, p.First(), p.Count(), Plain(Entry(p.base / 4096, FLAGS_RWX)), w);
    }
  }

  lemma AfterDirect(a: Memory, b: Memory, root: nat, p: Plan)
    requires PlanOk(p) && MapIs(a, root, p, false, Sections(0))
    requires MapsTo(a, b, root, Vpn(p.direct), p.top / 4096, Plain(Entry(0, FLAGS_RW.(huge := true))))
    ensures MapIs(b, root, p, true, Sections(0))
  {
    hide Flat, Vpn, LayoutOk, MapsTo;
    forall w: nat | w < PAGES
      ensures Flat(b, root, w) == Expected(p, true, Sections(0), w)
    {
      MapsToFlat(a, b, root, Vpn(p.direct), p.top / 4096, Plain(Entry(0, FLAGS_RW.(huge := true))), w);
    }
  }

  /** A section starts on a page of the kernel and its pages are the kernel pages inside it. */
  lemma SectionPages(p: Plan, s: nat, k: nat)
    requires PlanOk(p) && s < 4
    ensures var x := p.l.sections[s]; var first := (x.lo - p.l.lo) / 4096;
            && x.lo - p.l.lo == 4096 * first
            && (InSection(p.l, s, k) <==> first <= k < first + PageCount(x.hi - x.lo))
            && (InSection(p.l, s, k) ==> k < p.Count())
  {
    hide Vpn;
    var x := p.l.sections[s];
    var a, b := p.l.lo / 4096, x.lo / 4096;
    assert p.l.lo == 4096 * a && x.lo == 4096 * b;
  }

  lemma SectionVpn(p: Plan, s: nat)
    requires PlanOk(p) && s < 4 && p.l.sections[s].lo < p.l.sections[s].hi
    ensures Vpn(p.l.sections[s].lo) == p.First() + (p.l.sections[s].lo - p.l.lo) / 4096
    ensures p.l.sections[s].lo % SPACE + (p.l.sections[s].hi - p.l.sections[s].lo) <= SPACE
  {
    hide Vpn;
    var off := p.l.sections[s].lo - p.l.lo;
    VpnAdd(p.l.lo, off, p.l.hi - p.l.lo);
    var q, r := p.l.lo / SPACE, p.l.lo % SPACE;
    DivUnique(p.l.lo + off, SPACE, q, r + off);
  }

  lemma AfterSection(a: Memory, b: Memory, root: nat, p: Plan, s: nat)
    requires PlanOk(p) && s < 4 && MapIs(a, root, p, true, Sections(s))
    requires var x := p.l.sections[s]; var first := (x.lo - p.l.lo) / 4096;
             MapsTo(a, b, root, p.First() + first, PageCount(x.hi - x.lo),
                    Plain(Entry(p.base / 4096 + first, SectionFlags(s))))
    ensures MapIs(b, root, p, true, Sections(s + 1))
  {
    hide Flat, Vpn, InSection, PageCount, MapsTo;
    var x := p.l.sections[s];
    var first := (x.lo - p.l.lo) / 4096;
    forall w: nat | w < PAGES
      ensures Flat(b, root, w) == Expected(p, true, Sections(s + 1), w)
    {
      MapsToFlat(a, b, root, p.First() + first, PageCount(x.hi - x.lo),
                 Plain(Entry(p.base / 4096 + first, SectionFlags(s))), w);
      assert Flat(a, root, w) == Expected(p, true, Sections(s), w);
      if w >= p.First() {
        SectionPages(p, s, w - p.First());
      }
    }
  }

  lemma AfterSkip(a: Memory, root: nat, p: Plan, j: nat)
    requires PlanOk(p) && InSome(p.l, j) && MapIs(a, root, p, true, Sweep(j))
    ensures MapIs(a, root, p, true, Sweep(j + 1))
  {
    hide Flat, Vpn, LayoutOk;
    forall w: nat | w < PAGES
      ensures Flat(a, root, w) == Expected(p, true, Sweep(j + 1), w)
    {
      assert Flat(a, root, w) == Expected(p, true, Sweep(j), w);
    }
  }

  lemma AfterGap(a: Memory, b: Memory, root: nat, p: Plan, j: nat)
    requires PlanOk(p) && j < p.Count() && !InSome(p.l, j) && MapIs(a, root, p, true, Sweep(j))
    requires MapsTo(a, b, root, p.First() + j, 1, Plain(Entry(p.base / 4096 + j, FLAGS_RW)))
    ensures MapIs(b, root, p, true, Sweep(j + 1))
  {
    hide Flat, Vpn, LayoutOk, MapsTo;
    forall w: nat | w < PAGES
      ensures Flat(b, root, w) == Expected(p, true, Sweep(j + 1), w)
    {
      MapsToFlat(a, b, root, p.First() + j, 1, Plain(Entry(p.base / 4096 + j, FLAGS_RW)), w);
      assert Flat(a, root, w) == Expected(p, true, Sweep(j), w);
    }
  }

  lemma SweepStart(a: Memory, root: nat, p: Plan)
    requires PlanOk(p) && MapIs(a, root, p, true, Sections(4))
    ensures MapIs(a, root, p, true, Sweep(0))
  {
    hide Flat, Vpn, LayoutOk;
    forall w: nat | w < PAGES
      ensures Flat(a, root, w) == Expected(p, true, Sweep(0), w)
    {
      assert Flat(a, root, w) == Expected(p, true, Sections(4), w);
    }
  }

  /** Once every gap is swept, no page of the whole space is writable and executable. */
  lemma SweptIsClean(a: Memory, root: nat, p: Plan)
    requires PlanOk(p) && MapIs(a, root, p, true, Sweep(p.Count()))
    ensures NoWx(a, root)
  {
    hide Flat, Vpn;
    forall w: nat | w < PAGES
      ensures !Wx(Flat(a, root, w))
    {
      assert Flat(a, root, w) == Expected(p, true, Sweep(p.Count()), w);
      if p.First() <= w < p.First() + p.Count() {
        FinalFlags(p.l, p.Count(), w - p.First());
      }
    }
  }

  /** Every kernel page of a stage has an entry of its own, so remapping it needs no memory. */
  lemma KernelSmall(a: Memory, root: nat, p: Plan, direct: bool, stage: Stage, k: nat)
    requires PlanOk(p) && (stage.Sections? ==> stage.s <= 4) && MapIs(a, root, p, direct, stage) && k < p.Count()
    ensures p.First() + k < PAGES ==> Small(a, root, p.First() + k)
  {
    hide Vpn, Walk;
    var w := p.First() + k;
    if w < PAGES {
      assert Flat(a, root, w) == Expected(p, direct, stage, w);
      StagedPlain(p.l, stage, k);
      UnmarkedIsSmall(a, root, 0, w);
    }
  }

  lemma {:induction false} StagedPlain(l: Layout, stage: Stage, k: nat)
    requires |l.sections| == 4 && (stage.Sections? ==> stage.s <= 4)
    ensures !FlagsAt(l, stage, k).huge
    decreases stage.Sweep?, if stage.Sections? then stage.s else 0
  {
    match stage
    case Sections(s) => if s > 0 { StagedPlain(l, Sections(s - 1), k); }
    case Sweep(_) => StagedPlain(l, Sections(4), k);
  }

  /** The kernel's pages lie in the space. */
  lemma KernelFits(p: Plan, k: nat)
    requires PlanOk(p) && k < p.Count()
    ensures p.First() + k < PAGES
  {
    hide Vpn;
    VpnAdd(p.l.lo, 4096 * k, p.l.hi - p.l.lo);
  }

  /** Remap one section, if it is not empty.  This cannot fail. */
  method RemapSection(space: AddressSpace, p: Plan, s: nat)
    requires space.Valid() && !space.enforced && PlanOk(p) && s < 4
    requires MapIs(space.mem, space.root, p, true, Sections(s))
    modifies space`mem, space`tables, space`place, space.pmm, space.pmm.pages, space.pmm.heads, space.pmm.counts
    ensures space.Valid() && MapIs(space.mem, space.root, p, true, Sections(s + 1))
    ensures space.pmm.freePages == old(space.pmm.freePages)
  {
    hide AddressSpace.Valid, MapsTo, MapIs, Vpn, Small, Within2M, AllSmall, NoneWithin2M, Grew, Missing;
    var x := p.l.sections[s];
    SectionPages(p, s, 0);
    ghost var was := space.mem;
    if x.lo < x.hi {
      SectionVpn(p, s);
      SectionSmall(was, space.root, p, s);
      SmallMissesNothing(was, space.root, Vpn(x.lo), PageCount(x.hi - x.lo));
      var ok, done, added := space.MapRange(x.lo, p.base + (x.lo - p.l.lo), x.hi - x.lo, SectionFlags(s));
    } else {
      MapsToNothing(was, space.root, p.First() + (x.lo - p.l.lo) / 4096,
                    Plain(Entry(p.base / 4096 + (x.lo - p.l.lo) / 4096, SectionFlags(s))));
    }
    AfterSection(was, space.mem, space.root, p, s);
  }

  lemma SectionSmall(a: Memory, root: nat, p: Plan, s: nat)
    requires PlanOk(p) && s < 4 && MapIs(a, root, p, true, Sections(s))
    ensures var x := p.l.sections[s];
            AllSmall(a, root, p.First() + (x.lo - p.l.lo) / 4096, PageCount(x.hi - x.lo))
  {
    hide Vpn, MapIs, Small, InSection, PageCount;
    var x := p.l.sections[s];
    var first := (x.lo - p.l.lo) / 4096;
    forall w: nat | p.First() + first <= w < p.First() + first + PageCount(x.hi - x.lo)
      ensures Small(a, root, w)
    {
      SectionPages(p, s, w - p.First());
      KernelFits(p, w - p.First());
      KernelSmall(a, root, p, true, Sections(s), w - p.First());
    }
  }

  /** One page of the sweep: a page outside the sections gets plain data permissions. */
  method SweepPage(space: AddressSpace, p: Plan, va: nat, ghost j: nat)
    requires space.Valid() && !space.enforced && PlanOk(p)
    requires va == p.l.lo + 4096 * j && va < p.l.hi && MapIs(space.mem, space.root, p, true, Sweep(j))
    modifies space`mem, space`tables, space`place, space.pmm, space.pmm.pages, space.pmm.heads, space.pmm.counts
    ensures space.Valid() && MapIs(space.mem, space.root, p, true, Sweep(j + 1))
    ensures space.pmm.freePages == old(space.pmm.freePages)
  {
    hide AddressSpace.Valid, MapsTo, MapIs, Vpn, SameMap, Small, Within2M, Grew, Missing;
    if Covered(p.l, va) {
      AfterSkip(space.mem, space.root, p, j);
    } else {
      ghost var was := space.mem;
      VpnAdd(p.l.lo, 4096 * j, p.l.hi - p.l.lo);
      SweepCount(p, j);
      KernelSmall(was, space.root, p, true, Sweep(j), j);
      SmallMissesNothing(was, space.root, Vpn(va), 1);
      var ok, added := space.MapPage(va, p.base + (va - p.l.lo), FLAGS_RW);
      AfterGap(was, space.mem, space.root, p, j);
    }
  }

  lemma SweepCount(p: Plan, j: nat)
    requires PlanOk(p) && p.l.lo + 4096 * j < p.l.hi
    ensures j + 1 <= p.Count() && (p.l.lo + 4096 * (j + 1) >= p.l.hi ==> j + 1 == p.Count())
  {
    hide Vpn;
  }

  /** Give every kernel page outside the sections plain data permissions.  This cannot fail. */
  method SweepGaps(space: AddressSpace, p: Plan)
    requires space.Valid() && !space.enforced && PlanOk(p)
    requires MapIs(space.mem, space.root, p, true, Sections(4))
    modifies space`mem, space`tables, space`place, space.pmm, space.pmm.pages, space.pmm.heads, space.pmm.counts
    ensures space.Valid() && MapIs(space.mem, space.root, p, true, Sweep(p.Count()))
    ensures space.pmm.freePages == old(space.pmm.freePages)
  {
    hide AddressSpace.Valid, MapIs, Vpn;
    SweepStart(space.mem, space.root, p);
    var va := p.l.lo;
    ghost var j := 0;
    while va < p.l.hi
      invariant va == p.l.lo + 4096 * j && j <= p.Count() && (va >= p.l.hi ==> j == p.Count())
      invariant space.Valid() && MapIs(space.mem, space.root, p, true, Sweep(j))
      invariant space.pmm.freePages == old(space.pmm.freePages)
      decreases p.l.hi - va
    {
      SweepCount(p, j);
      SweepPage(space, p, va, j);
      va := va + 4096;
      j := j + 1;
    }
  }

  /** The test the sweep makes on an address. */
  predicate Covered(l: Layout, va: nat)
    requires |l.sections| == 4
  {
    || l.sections[0].lo <= va < l.sections[0].hi
    || l.sections[1].lo <= va < l.sections[1].hi
    || l.sections[2].lo <= va < l.sections[2].hi
    || l.sections[3].lo <= va < l.sections[3].hi
  }

  /** The tables that the kernel image and the direct map need and that are not there. */
  ghost function TablesMissing(mem: Memory, root: nat, p: Plan): set<Place>
    requires PlanOk(p)
  {
    Missing(mem, root, p.First(), p.Count(), 3) + Missing(mem, root, Vpn(p.direct), p.top / 4096, 2)
  }

  lemma BlankSpace(mem: Memory, root: nat, p: Plan)
    requires PlanOk(p) && Blank(mem, root)
    ensures NoneWithin2M(mem, root, p.First(), p.Count())
  {
    hide Vpn;
    forall w: nat | p.First() <= w < p.First() + p.Count()
      ensures !Within2M(mem, root, w)
    {
      KernelFits(p, w - p.First());
      assert Flat(mem, root, w) == None;
    }
  }

  /** What the direct map still needs once the image is mapped. */
  lemma BothNeeds(a: Memory, b: Memory, root: nat, p: Plan, added: set<Place>)
    requires PlanOk(p) && Grew(a, b, root, added, 0, 0) && added == Missing(a, root, p.First(), p.Count(), 3)
    ensures |TablesMissing(a, root, p)| == |added| + |Missing(b, root, Vpn(p.direct), p.top / 4096, 2)|
  {
    hide Grew, Missing, Vpn;
    DirectFits(p);
    MissingAfter(a, b, root, added, 0, 0, Vpn(p.direct), p.top / 4096, 2);
    DisjointSize(added, Missing(b, root, Vpn(p.direct), p.top / 4096, 2));
    assert TablesMissing(a, root, p) == added + Missing(b, root, Vpn(p.direct), p.top / 4096, 2);
  }

  lemma DirectFits(p: Plan)
    requires PlanOk(p)
    ensures Vpn(p.direct) + p.top / 4096 <= PAGES
  {
    hide Vpn;
    RangeFits(MapHuge(p.direct, 0, p.top, FLAGS_RW), p.top / 4096);
  }

  /** The first two steps: the whole image writable and executable, and the direct map.  They succeed
      exactly when there is a page for every missing table. */
  method BroadMap(space: AddressSpace, p: Plan) returns (ok: bool)
    requires space.Valid() && !space.enforced && PlanOk(p)
    requires Blank(space.mem, space.root)
    modifies space`mem, space`tables, space`place, space.pmm, space.pmm.pages, space.pmm.heads, space.pmm.counts
    ensures space.Valid()
    ensures ok <==> |TablesMissing(old(space.mem), space.root, p)| <= old(space.pmm.freePages)
    ensures ok ==> MapIs(space.mem, space.root, p, true, Sections(0))
    ensures space.pmm.freePages ==
            if ok then old(space.pmm.freePages) - |TablesMissing(old(space.mem), space.root, p)| else 0
  {
    hide AddressSpace.Valid, MapsTo, MapIs, Vpn, Blank, NoneWithin2M, Within2M, Grew, Missing, PlanOk;
    ghost var was := space.mem;
    ghost var done, added;
    BlankSpace(was, space.root, p);
    assert PlanAligned(p) by { AlignedPlan(p); }
    ok, done, added := space.MapRange(p.l.lo, p.base, p.l.hi - p.l.lo, FLAGS_RWX);
    if ok {
      AfterFirst(was, space.mem, space.root, p);
      BothNeeds(was, space.mem, space.root, p, added);
      was := space.mem;
      ok, done, added := space.MapRangeHuge(p.direct, 0, p.top, FLAGS_RW);
      if ok {
        AfterDirect(was, space.mem, space.root, p);
      }
    } else {
      StoppedInside(was, space.root, p, done);
      SubsetCount(Missing(was, space.root, p.First(), p.Count(), 3), TablesMissing(was, space.root, p));
    }
  }

  /** A stop before the end is not inside a 2 MB leaf, for there is none. */
  lemma StoppedInside(mem: Memory, root: nat, p: Plan, done: nat)
    requires PlanOk(p) && NoneWithin2M(mem, root, p.First(), p.Count()) && done < p.Count()
    ensures !Within2M(mem, root, p.First() + done)
  {
    hide Within2M, Vpn;
  }

  ghost predicate PlanAligned(p: Plan) {
    && p.l.lo % 4096 == 0 && p.base % 4096 == 0 && p.l.lo <= p.l.hi && p.l.lo % SPACE + (p.l.hi - p.l.lo) <= SPACE
    && p.direct % BIG == 0 && p.top % BIG == 0 && p.direct % SPACE + p.top <= SPACE
  }

  lemma AlignedPlan(p: Plan)
    requires PlanOk(p)
    ensures PlanAligned(p)
  {
    hide Vpn;
  }

  /** Build the kernel's map from an empty space.  It succeeds exactly when there is a page for every missing
      table, and then every kernel address keeps its physical translation, each page has the permissions of
      the section that holds it, nothing in the whole space is writable and executable, and
      enforcement is on. */
  method BuildKernelSpace(space: AddressSpace, p: Plan) returns (ok: bool)
    requires space.Valid() && !space.enforced && PlanOk(p)
    requires Blank(space.mem, space.root)
    modifies space`mem, space`tables, space`place, space`enforced,
             space.pmm, space.pmm.pages, space.pmm.heads, space.pmm.counts
    ensures space.Valid() && space.enforced == ok
    ensures ok <==> |TablesMissing(old(space.mem), space.root, p)| <= old(space.pmm.freePages)
    ensures ok ==> MapIs(space.mem, space.root, p, true, Sweep(p.Count())) && NoWx(space.mem, space.root)
    ensures space.pmm.freePages ==
            if ok then old(space.pmm.freePages) - |TablesMissing(old(space.mem), space.root, p)| else 0
  {
    hide TreeOk, MapIs, PlanOk, Pmm.PageAllocator.Valid, NoWx, Blank, TablesMissing;
    ok := BroadMap(space, p);
    if !ok { return; }
    ghost var free := space.pmm.freePages;
    var s := 0;
    while s < 4
      invariant s <= 4 && space.Valid() && !space.enforced
      invariant MapIs(space.mem, space.root, p, true, Sections(s))
      invariant space.pmm.freePages == free
    {
      RemapSection(space, p, s);
      s := s + 1;
    }
    SweepGaps(space, p);
    SweptIsClean(space.mem, space.root, p);
    space.enforced := true;
  }

  // ---------------------------------------------------------------- afterwards

  /** Mapping pages keeps the space clean exactly when no page is mapped or the mapping itself is clean. */
  lemma MapKeepsCleanIff(a: Memory, b: Memory, root: nat, v: nat, n: nat, m: Option<Mapping>)
    requires NoWx(a, root) && MapsTo(a, b, root, v, n, m) && v + n <= PAGES
    ensures NoWx(b, root) <==> n == 0 || !Wx(m)
  {
    hide MapsTo, Flat;
    forall w: nat | w < PAGES
      ensures Flat(b, root, w) == if v <= w < v + n then Nth(m, w - v) else Flat(a, root, w)
      ensures !Wx(Flat(a, root, w))
    {
      MapsToFlat(a, b, root, v, n, m, w);
    }
    if n > 0 {
      assert Flat(b, root, v) == Nth(m, 0);
    }
  }

  datatype Request =
    | Map(va: nat, pa: nat, flags: Flags)
    | MapPages(va: nat, pa: nat, size: nat, flags: Flags)    // vmm_map_range
    | MapHuge(va: nat, pa: nat, size: nat, flags: Flags)     // vmm_map_range_huge
    | Unmap(va: nat)
  {
    /** What the source asserts of the arguments, and that the range does not wrap. */
    predicate Aligned() {
      match this
      case Map(va, pa, _) => va % 4096 == 0 && pa % 4096 == 0
      case MapPages(va, pa, size, _) => va % 4096 == 0 && pa % 4096 == 0 && va % SPACE + size <= SPACE
      case MapHuge(va, pa, size, _) => va % BIG == 0 && pa % BIG == 0 && size % BIG == 0 && va % SPACE + size <= SPACE
      case Unmap(va) => va % 4096 == 0
    }

    /** The number of pages asked for. */
    function Pages(): nat {
      match this
      case Map(_, _, _) => 1
      case MapPages(_, _, size, _) => PageCount(size)
      case MapHuge(_, _, size, _) => size / 4096
      case Unmap(_) => 1
    }

    /** What its pages come to map, from the first one on. */
    ghost function Target(): Option<Mapping> {
      match this
      case Map(_, pa, flags) => Plain(Entry(pa / 4096, Effective(flags, true)))
      case MapPages(_, pa, _, flags) => Plain(Entry(pa / 4096, Effective(flags, true)))
      case MapHuge(_, pa, _, flags) => Plain(Entry(pa / 4096, flags.(huge := true)))
      case Unmap(_) => None
    }

    /** Only a 2 MB mapping can carry both permissions past enforcement. */
    predicate Clean() {
      MapHuge? ==> size == 0 || !(flags.present && flags.Wx())
    }
  }

  /** The space at one moment of a run: its tables, and the free pages of the page allocator. */
  datatype Moment = Moment(mem: Memory, free: nat)

  /** How far a request got: pages done, and the places of the tables hung. */
  datatype Progress = Progress(done: nat, added: set<Place>)

  /** Pages mapped one by one: the request stops at a page inside a 2 MB leaf, or when there is not a page
      for every table it needs, and nowhere else. */
  ghost predicate PagesServed(a: Moment, b: Moment, root: nat, v: nat, n: nat, x: Progress) {
    && x.done <= n && NoneWithin2M(a.mem, root, v, x.done)
    && (x.done == n || Within2M(a.mem, root, v + x.done) ==> x.added == Missing(a.mem, root, v, x.done, 3))
    && (x.done < n && !Within2M(a.mem, root, v + x.done) ==>
          RanDry(a.mem, root, v, x.done, 1, 3, x.added, a.free, b.free))
  }

  /** 2 MB leaves: only the want of pages stops the request. */
  ghost predicate LeavesServed(a: Moment, b: Moment, root: nat, v: nat, n: nat, x: Progress) {
    && x.done <= n && x.done % 512 == 0
    && (x.done == n ==> x.added == Missing(a.mem, root, v, n, 2))
    && (x.done < n ==> RanDry(a.mem, root, v, x.done, 512, 2, x.added, a.free, b.free))
  }

  /** From a to b the request changed its first pages and nothing else, hung the tables it needed and no
      others, and stopped short only where it had to. */
  ghost predicate Served(a: Moment, b: Moment, root: nat, r: Request, x: Progress) {
    var v := Vpn(r.va);
    && MapsTo(a.mem, b.mem, root, v, x.done, r.Target())
    && Grew(a.mem, b.mem, root, x.added, v, if r.MapHuge? then x.done else 0) && a.free == b.free + |x.added|
    && match r
       case Unmap(_) => x == Progress(if Within2M(a.mem, root, v) then 0 else 1, {})
       case MapHuge(_, _, _, _) => LeavesServed(a, b, root, v, r.Pages(), x)
       case _ => PagesServed(a, b, root, v, r.Pages(), x)
  }

  lemma ServedPages(a: Moment, b: Moment, root: nat, r: Request, x: Progress)
    requires Served(a, b, root, r, x)
    ensures x.done <= r.Pages()
  {
  }

  /** When a request is served whole: a 2 MB mapping exactly when there is a page for every table it needs,
      another one when also no page of it lies in a 2 MB leaf. */
  lemma ServedWholeIff(a: Moment, b: Moment, root: nat, r: Request, x: Progress)
    requires Served(a, b, root, r, x) && r.Aligned() && !r.Unmap?
    ensures x.done == r.Pages() <==>
            if r.MapHuge? then |Missing(a.mem, root, Vpn(r.va), r.Pages(), 2)| <= a.free
            else NoneWithin2M(a.mem, root, Vpn(r.va), r.Pages()) && |Missing(a.mem, root, Vpn(r.va), r.Pages(), 3)| <= a.free
  {
    hide Missing, Grew, MapsTo, Within2M, Vpn;
    var v, n, k, u := Vpn(r.va), r.Pages(), if r.MapHuge? then 2 else 3, if r.MapHuge? then 512 else 1;
    if r.MapHuge? {
      BigUnits(r.size, r.size / BIG);
    }
    if x.done < n {
      MissingMore(a.mem, root, v, x.done + u, n - (x.done + u), k);
      SubsetCount(Missing(a.mem, root, v, x.done + u, k), Missing(a.mem, root, v, n, k));
    }
  }

  lemma LastPageFits(va: nat, size: nat, done: nat)
    requires va % 4096 == 0 && va % SPACE + size <= SPACE && done > 0 && 4096 * (done - 1) < size
    ensures Vpn(va) + done <= PAGES
  {
    hide Vpn;
    VpnAdd(va, 4096 * (done - 1), size);
  }

  lemma RangeFits(r: Request, done: nat)
    requires r.Aligned() && done <= r.Pages()
    ensures Vpn(r.va) + done <= PAGES
  {
    hide Vpn;
    if done > 0 && r.MapPages? {
      LastPageFits(r.va, r.size, done);
    } else if done > 0 && r.MapHuge? {
      BigUnits(r.va, r.va / BIG);
      LastPageFits(r.va, r.size, done);
    }
  }

  /** A request keeps the space clean exactly when it changed nothing or is a clean one. */
  lemma ServedKeepsCleanIff(a: Moment, b: Moment, root: nat, r: Request, x: Progress)
    requires NoWx(a.mem, root) && r.Aligned() && Served(a, b, root, r, x)
    ensures NoWx(b.mem, root) <==> x.done == 0 || r.Clean()
  {
    hide NoWx, MapsTo, Vpn, Grew, Missing;
    ServedPages(a, b, root, r, x);
    RangeFits(r, x.done);
    MapKeepsCleanIff(a.mem, b.mem, root, Vpn(r.va), x.done, r.Target());
  }

  ghost function Now(space: AddressSpace): Moment
    reads space, space.pmm
  {
    Moment(space.mem, space.pmm.freePages)
  }

  /** Serve one request. */
  method Serve(space: AddressSpace, r: Request) returns (ghost x: Progress)
    requires space.Valid() && space.enforced && r.Aligned()
    modifies space`mem, space`tables, space`place, space.pmm, space.pmm.pages, space.pmm.heads, space.pmm.counts
    ensures space.Valid()
    ensures Served(old(Now(space)), Now(space), space.root, r, x)
  {
    hide AddressSpace.Valid, MapsTo, Vpn, SameMap, Within2M, Grew, Missing, RanDry, NoneWithin2M;
    match r
    case Map(va, pa, flags) => x := ServePage(space, va, pa, flags);
    case MapPages(va, pa, size, flags) =>
      var ok, n, added := space.MapRange(va, pa, size, flags);
      GrewNowhere(old(space.mem), space.mem, space.root, added, Vpn(va));
      x := Progress(n, added);
    case MapHuge(va, pa, size, flags) =>
      var ok, n, added := space.MapRangeHuge(va, pa, size, flags);
      x := Progress(n, added);
    case Unmap(va) =>
      ghost var was := space.mem;
      x := Progress(if Within2M(was, space.root, Vpn(va)) then 0 else 1, {});
      space.UnmapPage(va);
      GrewNowhere(was, space.mem, space.root, {}, Vpn(va));
      MapsToNothing(was, space.root, Vpn(va), r.Target());
  }

  method ServePage(space: AddressSpace, va: nat, pa: nat, flags: Flags) returns (ghost x: Progress)
    requires space.Valid() && space.enforced && va % 4096 == 0 && pa % 4096 == 0
    modifies space`mem, space`tables, space`place, space.pmm, space.pmm.pages, space.pmm.heads, space.pmm.counts
    ensures space.Valid()
    ensures Served(old(Now(space)), Now(space), space.root, Map(va, pa, flags), x)
  {
    hide AddressSpace.Valid, MapsTo, Vpn, SameMap, Within2M, Grew, Missing;
    ghost var was, v := space.mem, Vpn(va);
    var ok, added := space.MapPage(va, pa, flags);
    x := Progress(if ok then 1 else 0, added);
    GrewNowhere(was, space.mem, space.root, added, v);
    NothingMissing(was, space.root, v, 3);
    if !ok {
      MapsToNothing(was, space.root, v, Map(va, pa, flags).Target());
      MapsToSame(was, was, space.mem, space.root, v, 0, Map(va, pa, flags).Target());
    }
  }

  /** The run so far: each request served in turn. */
  ghost predicate Trace(trace: seq<Moment>, got: seq<Progress>, root: nat, requests: seq<Request>) {
    && |trace| == |got| + 1 && |got| <= |requests|
    && (forall i | 0 <= i < |got| :: Served(trace[i], trace[i + 1], root, requests[i], got[i]))
  }

  lemma TraceGrows(trace: seq<Moment>, got: seq<Progress>, root: nat, requests: seq<Request>, b: Moment, x: Progress)
    requires Trace(trace, got, root, requests) && |got| < |requests|
    requires Served(trace[|got|], b, root, requests[|got|], x)
    ensures Trace(trace + [b], got + [x], root, requests)
  {
    hide Served;
    var t, g := trace + [b], got + [x];
    forall i | 0 <= i < |g|
      ensures Served(t[i], t[i + 1], root, requests[i], g[i])
    {
      if i < |got| {
        assert Served(trace[i], trace[i + 1], root, requests[i], got[i]);
      }
    }
  }

  /** Any run of requests once enforcement is on, with any flags but for 2 MB mappings that ask to be
      writable and executable: every request is served, nothing is ever writable and executable, and
      the audit finds nothing. */
  method Run(space: AddressSpace, requests: seq<Request>)
    returns (violations: nat, ghost trace: seq<Moment>, ghost got: seq<Progress>)
    requires space.Valid() && space.enforced && NoWx(space.mem, space.root)
    requires forall r | r in requests :: r.Aligned() && r.Clean()
    modifies space`mem, space`tables, space`place, space.pmm, space.pmm.pages, space.pmm.heads, space.pmm.counts
    ensures space.Valid() && |got| == |requests| && Trace(trace, got, space.root, requests)
    ensures trace[0] == old(Now(space)) && trace[|requests|] == Now(space)
    ensures forall i | 0 <= i < |trace| :: NoWx(trace[i].mem, space.root)
    ensures violations == 0
  {
    hide AddressSpace.Valid, NoWx, BadLeaves, Served, Trace;
    trace, got := [Now(space)], [];
    TraceStart(Now(space), space.root, requests);
    for i := 0 to |requests|
      invariant space.Valid() && |got| == i && |trace| == i + 1
      invariant trace[0] == old(Now(space)) && trace[i] == Now(space)
      invariant Trace(trace, got, space.root, requests)
      invariant forall k | 0 <= k < |trace| :: NoWx(trace[k].mem, space.root)
    {
      assert requests[i] in requests;
      ghost var x := Serve(space, requests[i]);
      ServedKeepsCleanIff(trace[i], Now(space), space.root, requests[i], x);
      TraceGrows(trace, got, space.root, requests, Now(space), x);
      trace, got := trace + [Now(space)], got + [x];
    }
    violations := Audit(space);
  }

  lemma TraceStart(a: Moment, root: nat, requests: seq<Request>)
    ensures Trace([a], [], root, requests)
  {
  }

  /** Why 2 MB mappings are excepted: with enforcement on, the mapping of one 2 MB page writable and
      executable is made as asked. */
  method HugeMappingEscapes(space: AddressSpace) returns (violations: nat)
    requires space.Valid() && space.enforced && NoWx(space.mem, space.root)
    requires |Missing(space.mem, space.root, Vpn(0), 512, 2)| <= space.pmm.freePages
    modifies space`mem, space`tables, space`place, space.pmm, space.pmm.pages, space.pmm.heads, space.pmm.counts
    ensures space.Valid() && !NoWx(space.mem, space.root) && violations > 0
  {
    hide AddressSpace.Valid, MapsTo, Vpn, NoWx, BadLeaves, Missing, Grew;
    ghost var was := space.mem;
    var ok, done, added := space.MapRangeHuge(0, 0, BIG, FLAGS_RWX);
    RangeFits(MapHuge(0, 0, BIG, FLAGS_RWX), done);
    MapKeepsCleanIff(was, space.mem, space.root, Vpn(0), done, Plain(Entry(0, FLAGS_RWX.(huge := true))));
    violations := Audit(space);
  }
}
