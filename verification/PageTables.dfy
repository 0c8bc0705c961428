/** Four-level page tables as a value: the hardware walk, and the flat map it stands for. */
module PageTables {
  import opened Basics

  datatype Option<+T> = None | Some(value: T)

  datatype Flags = Flags(present: bool, write: bool, user: bool, huge: bool, global: bool, nx: bool) {
    predicate Wx() {
      write && !nx
    }
  }

  const EMPTY_FLAGS := Flags(false, false, false, false, false, false)

  /** A table entry: the frame its address bits name, and its flag bits. */
  datatype Entry = Entry(frame: nat, flags: Flags)

  const EMPTY_ENTRY := Entry(0, EMPTY_FLAGS)

  type Table = t: seq<Entry> | |t| == 512 witness seq(512, _ => EMPTY_ENTRY)

  const EMPTY_TABLE: Table := seq(512, _ => EMPTY_ENTRY)

  /** Physical memory, as far as it holds tables: frame number to entries. */
  type Memory = map<nat, Table>

  const PAGES: nat := 0x10_0000_0000

  // ---------------------------------------------------------------- indices

  /** Number of pages under one entry of a table at depth d (0 = PML4, 3 = PT). */
  function Reach(d: nat): (r: nat)
    requires d <= 3
    ensures r > 0
  {
    if d == 0 then 0x800_0000 else if d == 1 then 0x4_0000 else if d == 2 then 512 else 1
  }

  /** The part of a page number consumed on the way to a table at depth d. */
  function Prefix(v: nat, d: nat): (r: nat)
    requires d <= 4
  {
    if d == 0 then v / PAGES else v / Reach(d - 1)
  }

  function Index(v: nat, d: nat): (r: nat)
    requires d <= 3
    ensures r < 512
  {
    v / Reach(d) % 512
  }

  lemma PrefixStep(v: nat, d: nat)
    requires d <= 3
    ensures Prefix(v, d + 1) == Prefix(v, d) * 512 + Index(v, d)
  {
  }

  /** The page number of a virtual address: bits 12 to 47. */
  function Vpn(va: nat): (v: nat)
    ensures v < PAGES
  {
    va / 4096 % PAGES
  }

  /** Cutting a page number off at 36 bits keeps the nine bits above bit 27, 18, 9 and 0. */
  lemma CutKeepsIndex(x: nat, d: nat)
    requires d <= 3
    ensures Index(x % PAGES, d) == Index(x, d)
  {
    var q, r, a := x / PAGES, x % PAGES, Reach(d);
    var b := if d == 0 then 1 else if d == 1 then 512 else if d == 2 then 0x4_0000 else 0x800_0000;
    assert x == (q * b * 512) * a + r;
    DivModAdd(q * b * 512, r, a);
    DivModAdd(q * b, r / a, 512);
  }

  /** The four index macros of the source are the indices of the page number. */
  lemma IndexMacros(va: nat)
    ensures Index(Vpn(va), 0) == va / 0x80_0000_0000 % 512
    ensures Index(Vpn(va), 1) == va / 0x4000_0000 % 512
    ensures Index(Vpn(va), 2) == va / 0x20_0000 % 512
    ensures Index(Vpn(va), 3) == va / 0x1000 % 512
  {
    var x := va / 4096;
    CutKeepsIndex(x, 0);
    CutKeepsIndex(x, 1);
    CutKeepsIndex(x, 2);
    CutKeepsIndex(x, 3);
    assert x / 0x800_0000 == va / 0x80_0000_0000;
    assert x / 0x4_0000 == va / 0x4000_0000;
    assert x / 512 == va / 0x20_0000;
  }

  // ---------------------------------------------------------------- the walk

  /** What a walk ends in: the entry, and the depth of the table that holds it. */
  datatype Leaf = Unmapped | At(depth: nat, entry: Entry)

  ghost function Walk(mem: Memory, f: nat, d: nat, v: nat): Leaf
    requires d <= 3
    decreases 4 - d
  {
    if f !in mem then Unmapped
    else
      var e := mem[f][Index(v, d)];
      if !e.flags.present then Unmapped
      else if d == 3 || (d > 0 && e.flags.huge) then At(d, e)
      else Walk(mem, e.frame, d + 1, v)
  }

  datatype Mapping = Mapping(frame: nat, flags: Flags)

  /** The mapping of one 4 KB page; a page inside a larger leaf takes its share of the leaf. */
  ghost function MappingOf(leaf: Leaf, v: nat): Option<Mapping> {
    match leaf
    case Unmapped => None
    case At(d, e) => if d <= 3 then Some(Mapping(e.frame + v % Reach(d), e.flags)) else None
  }

  ghost function Flat(mem: Memory, root: nat, v: nat): Option<Mapping> {
    MappingOf(Walk(mem, root, 0, v), v)
  }

  // ---------------------------------------------------------------- the tree

  /** Where a table hangs in the tree. */
  datatype Place = Place(depth: nat, prefix: nat)

  /** The entry leads on to a table one level down. */
  ghost predicate IsLink(e: Entry, d: nat) {
    e.flags.present && d < 3 && !(d > 0 && e.flags.huge)
  }

  /** Every table has one place, so it is reached from one entry only; 1 GB leaves do not occur
      and 2 MB leaves are aligned. */
  ghost predicate TreeOk(mem: Memory, root: nat, place: map<nat, Place>) {
    && root in place && place[root] == Place(0, 0)
    && (forall f | f in place :: f in mem && place[f].depth <= 3)
    && (forall f, i | f in place && 0 <= i < 512 && IsLink(mem[f][i], place[f].depth) ::
          LinkOk(mem[f][i], place[f], i, place))
    && (forall f, i | f in place && 0 <= i < 512 && mem[f][i].flags.present && mem[f][i].flags.huge
                      && place[f].depth < 3 :: place[f].depth == 2 && mem[f][i].frame % 512 == 0)
  }

  ghost predicate LinkOk(e: Entry, p: Place, i: nat, place: map<nat, Place>) {
    e.frame in place && place[e.frame] == Place(p.depth + 1, p.prefix * 512 + i)
  }

  /** v lies under entry i of the table placed at p. */
  ghost predicate Under(v: nat, p: Place, i: nat)
    requires p.depth <= 3
  {
    Prefix(v, p.depth + 1) == p.prefix * 512 + i
  }

  function Store(mem: Memory, f: nat, i: nat, e: Entry): Memory
    requires f in mem && i < 512
  {
    mem[f := mem[f][i := e]]
  }

  /** A store at one entry is seen only by walks of pages under that entry. */
  lemma {:induction false} StoreElsewhere(mem: Memory, root: nat, place: map<nat, Place>,
                                          f: nat, i: nat, e: Entry, g: nat, v: nat)
    requires TreeOk(mem, root, place) && f in place && i < 512
    requires g in place && Prefix(v, place[g].depth) == place[g].prefix
    requires !Under(v, place[f], i)
    ensures Walk(Store(mem, f, i, e), g, place[g].depth, v) == Walk(mem, g, place[g].depth, v)
    decreases 4 - place[g].depth
  {
    var d, j := place[g].depth, Index(v, place[g].depth);
    PrefixStep(v, d);
    assert g in mem;
    assert Store(mem, f, i, e)[g][j] == mem[g][j];
    var x := mem[g][j];
    if IsLink(x, d) {
      assert LinkOk(x, place[g], j, place);
      StoreElsewhere(mem, root, place, f, i, e, x.frame, v);
    }
  }

  // ---------------------------------------------------------------- descending to a table

  /** The table at depth k on the walk of v, starting from table g at depth d. */
  function Descend(mem: Memory, g: nat, d: nat, v: nat, k: nat): Option<nat>
    requires d <= k <= 3
    decreases k - d
  {
    if d == k then Some(g)
    else if g in mem && mem[g][Index(v, d)].flags.present && !(d > 0 && mem[g][Index(v, d)].flags.huge) then
      Descend(mem, mem[g][Index(v, d)].frame, d + 1, v, k)
    else None
  }

  lemma {:induction false} DescendPlace(mem: Memory, root: nat, place: map<nat, Place>, g: nat, v: nat, k: nat)
    requires TreeOk(mem, root, place) && g in place && place[g].depth <= k <= 3
    requires Prefix(v, place[g].depth) == place[g].prefix
    requires Descend(mem, g, place[g].depth, v, k).Some?
    ensures var f := Descend(mem, g, place[g].depth, v, k).value; f in place && place[f] == Place(k, Prefix(v, k))
    decreases k - place[g].depth
  {
    var d := place[g].depth;
    if d < k {
      var e := mem[g][Index(v, d)];
      PrefixStep(v, d);
      assert IsLink(e, d);
      assert LinkOk(e, place[g], Index(v, d), place);
      DescendPlace(mem, root, place, e.frame, v, k);
    }
  }

  lemma {:induction false} DescendWalk(mem: Memory, g: nat, d: nat, v: nat, k: nat)
    requires d <= k <= 3 && Descend(mem, g, d, v, k).Some?
    ensures Walk(mem, g, d, v) == Walk(mem, Descend(mem, g, d, v, k).value, k, v)
    decreases k - d
  {
    if d < k {
      DescendWalk(mem, mem[g][Index(v, d)].frame, d + 1, v, k);
    }
  }

  lemma {:induction false} DescendExtend(mem: Memory, g: nat, d: nat, v: nat, k: nat)
    requires d <= k <= 2 && Descend(mem, g, d, v, k).Some?
    requires var f := Descend(mem, g, d, v, k).value; f in mem && IsLink(mem[f][Index(v, k)], k)
    ensures Descend(mem, g, d, v, k + 1) == Some(mem[Descend(mem, g, d, v, k).value][Index(v, k)].frame)
    decreases k - d
  {
    if d < k {
      DescendExtend(mem, mem[g][Index(v, d)].frame, d + 1, v, k);
    }
  }

  /** An absent entry or a leaf ends the way down. */
  lemma {:induction false} DescendStops(mem: Memory, g: nat, d: nat, v: nat, k: nat)
    requires d <= k <= 2 && Descend(mem, g, d, v, k).Some?
    requires var f := Descend(mem, g, d, v, k).value; f in mem && !IsLink(mem[f][Index(v, k)], k)
    ensures Descend(mem, g, d, v, k + 1) == None
    decreases k - d
  {
    if d < k {
      DescendStops(mem, mem[g][Index(v, d)].frame, d + 1, v, k);
    }
  }

  /** A way down to a table passes a table at every depth before it. */
  lemma {:induction false} DescendShorter(mem: Memory, g: nat, d: nat, v: nat, k: nat, j: nat)
    requires d <= j <= k <= 3 && Descend(mem, g, d, v, k).Some?
    ensures Descend(mem, g, d, v, j).Some?
    decreases k - d
  {
    if d < j {
      DescendShorter(mem, mem[g][Index(v, d)].frame, d + 1, v, k, j);
    }
  }

  /** Pages that share the prefix consumed so far descend to the same table. */
  lemma {:induction false} DescendSame(mem: Memory, g: nat, d: nat, v: nat, w: nat, k: nat)
    requires d <= k <= 3 && Prefix(v, k) == Prefix(w, k)
    ensures Descend(mem, g, d, v, k) == Descend(mem, g, d, w, k)
    decreases k - d
  {
    if d < k {
      SameIndex(v, w, d, k);
      if g in mem {
        DescendSame(mem, mem[g][Index(v, d)].frame, d + 1, v, w, k);
      }
    }
  }

  lemma {:induction false} SameIndex(v: nat, w: nat, d: nat, k: nat)
    requires d < k <= 4 && Prefix(v, k) == Prefix(w, k)
    ensures Index(v, d) == Index(w, d)
    decreases k - d
  {
    PrefixStep(v, k - 1);
    PrefixStep(w, k - 1);
    if d < k - 1 {
      SameIndex(v, w, d, k - 1);
    }
  }

  /** A store in a table at depth k or below does not change the way down to depth k. */
  lemma {:induction false} DescendStore(mem: Memory, root: nat, place: map<nat, Place>,
                                        f: nat, i: nat, e: Entry, g: nat, v: nat, k: nat)
    requires TreeOk(mem, root, place) && f in place && i < 512 && k <= place[f].depth
    requires g in place && Prefix(v, place[g].depth) == place[g].prefix && place[g].depth <= k
    ensures Descend(Store(mem, f, i, e), g, place[g].depth, v, k) == Descend(mem, g, place[g].depth, v, k)
    decreases k - place[g].depth
  {
    var d := place[g].depth;
    if d < k {
      var x := mem[g][Index(v, d)];
      PrefixStep(v, d);
      if IsLink(x, d) {
        assert LinkOk(x, place[g], Index(v, d), place);
        DescendStore(mem, root, place, f, i, e, x.frame, v, k);
      }
    }
  }

  // ---------------------------------------------------------------- effects of the three kinds of store

  ghost function Plain(e: Entry): Option<Mapping> {
    if e.flags.present then Some(Mapping(e.frame, e.flags)) else None
  }

  /** A last-level entry, or an aligned 2 MB leaf in place of a link, keeps the tree. */
  lemma LeafTree(mem: Memory, root: nat, place: map<nat, Place>, f: nat, i: nat, e: Entry)
    requires TreeOk(mem, root, place) && f in place && i < 512
    requires place[f].depth == 3 || (place[f].depth == 2 && e.flags.huge && e.frame % 512 == 0)
    ensures TreeOk(Store(mem, f, i, e), root, place)
  {
  }

  lemma TreePlaces(mem: Memory, root: nat, place: map<nat, Place>, f: nat)
    requires TreeOk(mem, root, place) && f in place
    ensures f in mem && place[f].depth <= 3 && root in place && place[root] == Place(0, 0)
  {
  }

  /** Writing a last-level entry changes the mapping of its own page and of no other. */
  lemma PageStore(mem: Memory, root: nat, place: map<nat, Place>, v: nat, e: Entry)
    requires TreeOk(mem, root, place) && v < PAGES && root in place && place[root] == Place(0, 0)
    requires Descend(mem, root, 0, v, 3).Some?
    ensures var f := Descend(mem, root, 0, v, 3).value;
            && f in place && place[f].depth == 3 && f in mem
            && TreeOk(Store(mem, f, Index(v, 3), e), root, place)
            && Flat(Store(mem, f, Index(v, 3), e), root, v) == Plain(e)
            && (forall w: nat | w < PAGES && w != v ::
                  Walk(Store(mem, f, Index(v, 3), e), root, 0, w) == Walk(mem, root, 0, w))
  {
    hide TreeOk;
    var f := Descend(mem, root, 0, v, 3).value;
    DescendPlace(mem, root, place, root, v, 3);
    TreePlaces(mem, root, place, f);
    LeafTree(mem, root, place, f, Index(v, 3), e);
    PrefixStep(v, 3);
    PageStoreSeen(mem, root, place, f, v, e);
    forall w: nat | w < PAGES && w != v
      ensures Walk(Store(mem, f, Index(v, 3), e), root, 0, w) == Walk(mem, root, 0, w)
    {
      StoreElsewhere(mem, root, place, f, Index(v, 3), e, root, w);
    }
  }

  lemma PageStoreSeen(mem: Memory, root: nat, place: map<nat, Place>, f: nat, v: nat, e: Entry)
    requires TreeOk(mem, root, place) && v < PAGES && Descend(mem, root, 0, v, 3) == Some(f)
    requires f in place && place[f].depth == 3
    ensures Flat(Store(mem, f, Index(v, 3), e), root, v) == Plain(e)
  {
    DescendStore(mem, root, place, f, Index(v, 3), e, root, v, 3);
    DescendWalk(Store(mem, f, Index(v, 3), e), root, 0, v, 3);
  }

  /** Writing a 2 MB entry changes the mappings of its own 512 pages and of no other. */
  lemma HugeStore(mem: Memory, root: nat, place: map<nat, Place>, v: nat, e: Entry)
    requires TreeOk(mem, root, place) && v < PAGES && root in place && place[root] == Place(0, 0)
    requires Descend(mem, root, 0, v, 2).Some?
    requires e.flags.huge && e.frame % 512 == 0
    ensures var f := Descend(mem, root, 0, v, 2).value;
            && f in place && place[f].depth == 2 && f in mem
            && TreeOk(Store(mem, f, Index(v, 2), e), root, place)
            && (forall w: nat | w < PAGES && w / 512 == v / 512 ::
                  Flat(Store(mem, f, Index(v, 2), e), root, w) == Plain(e.(frame := e.frame + w % 512)))
            && (forall w: nat | w < PAGES && w / 512 != v / 512 ::
                  Walk(Store(mem, f, Index(v, 2), e), root, 0, w) == Walk(mem, root, 0, w))
  {
    hide TreeOk;
    var f := Descend(mem, root, 0, v, 2).value;
    DescendPlace(mem, root, place, root, v, 2);
    TreePlaces(mem, root, place, f);
    LeafTree(mem, root, place, f, Index(v, 2), e);
    PrefixStep(v, 2);
    forall w: nat | w < PAGES && w / 512 == v / 512
      ensures Flat(Store(mem, f, Index(v, 2), e), root, w) == Plain(e.(frame := e.frame + w % 512))
    {
      SamePrefix(v, w, 2);
      DescendSame(mem, root, 0, v, w, 2);
      HugeStoreSeen(mem, root, place, f, w, e);
    }
    forall w: nat | w < PAGES && w / 512 != v / 512
      ensures Walk(Store(mem, f, Index(v, 2), e), root, 0, w) == Walk(mem, root, 0, w)
    {
      StoreElsewhere(mem, root, place, f, Index(v, 2), e, root, w);
    }
  }

  lemma HugeStoreSeen(mem: Memory, root: nat, place: map<nat, Place>, f: nat, v: nat, e: Entry)
    requires TreeOk(mem, root, place) && v < PAGES && Descend(mem, root, 0, v, 2) == Some(f)
    requires f in place && place[f].depth == 2 && e.flags.huge
    ensures Flat(Store(mem, f, Index(v, 2), e), root, v) == Plain(e.(frame := e.frame + v % 512))
  {
    DescendStore(mem, root, place, f, Index(v, 2), e, root, v, 2);
    DescendWalk(Store(mem, f, Index(v, 2), e), root, 0, v, 2);
  }

  /** Hanging a fresh empty table under an absent entry changes no mapping. */
  lemma LinkStore(mem: Memory, root: nat, place: map<nat, Place>, v: nat, k: nat, c: nat, flags: Flags)
    requires TreeOk(mem, root, place) && v < PAGES && k < 3 && Descend(mem, root, 0, v, k).Some?
    requires c !in place && flags.present && !flags.huge
    requires var f := Descend(mem, root, 0, v, k).value; f in mem && !mem[f][Index(v, k)].flags.present
    ensures var f := Descend(mem, root, 0, v, k).value;
            var now := Store(mem[c := EMPTY_TABLE], f, Index(v, k), Entry(c, flags));
            && f in place && place[f].depth == k
            && TreeOk(now, root, place[c := Place(k + 1, Prefix(v, k + 1))])
            && Descend(now, root, 0, v, k + 1) == Some(c)
            && (forall w: nat | w < PAGES :: Walk(now, root, 0, w) == Walk(mem, root, 0, w))
  {
    var f := Descend(mem, root, 0, v, k).value;
    var i := Index(v, k);
    DescendPlace(mem, root, place, root, v, k);
    PrefixStep(v, k);
    var mid := mem[c := EMPTY_TABLE];
    var now := Store(mid, f, i, Entry(c, flags));
    AddUnplaced(mem, root, place, c, root, v, k);
    DescendStore(mid, root, place, f, i, Entry(c, flags), root, v, k);
    DescendExtend(now, root, 0, v, k);
    LinkTree(mem, root, place, v, k, f, c, flags);
    forall w: nat | w < PAGES
      ensures Walk(now, root, 0, w) == Walk(mem, root, 0, w)
    {
      PrefixStep(w, k);
      AddUnplaced(mem, root, place, c, root, w, k);
      if Under(w, place[f], i) {
        SamePrefix(v, w, k);
        DescendSame(mem, root, 0, v, w, k);
        DescendSame(now, root, 0, v, w, k);
        DescendWalk(mem, root, 0, w, k);
        DescendWalk(now, root, 0, w, k);
      } else {
        StoreElsewhere(mid, root, place, f, i, Entry(c, flags), root, w);
      }
    }
  }

  lemma SamePrefix(v: nat, w: nat, k: nat)
    requires k <= 3 && Prefix(v, k + 1) == Prefix(w, k + 1)
    ensures Prefix(v, k) == Prefix(w, k) && Index(v, k) == Index(w, k)
  {
    PrefixStep(v, k);
    PrefixStep(w, k);
  }

  lemma LinkTree(mem: Memory, root: nat, place: map<nat, Place>, v: nat, k: nat, f: nat, c: nat, flags: Flags)
    requires TreeOk(mem, root, place) && k < 3 && f in place && place[f] == Place(k, Prefix(v, k))
    requires c !in place && flags.present && !flags.huge
    ensures TreeOk(Store(mem[c := EMPTY_TABLE], f, Index(v, k), Entry(c, flags)), root,
                   place[c := Place(k + 1, Prefix(v, k + 1))])
  {
    PrefixStep(v, k);
  }

  /** A table that is not in the tree yet is seen by no walk. */
  lemma {:induction false} AddUnplaced(mem: Memory, root: nat, place: map<nat, Place>, c: nat, g: nat, v: nat, k: nat)
    requires TreeOk(mem, root, place) && c !in place && g in place && place[g].depth <= k <= 3
    ensures TreeOk(mem[c := EMPTY_TABLE], root, place)
    ensures Walk(mem[c := EMPTY_TABLE], g, place[g].depth, v) == Walk(mem, g, place[g].depth, v)
    ensures Descend(mem[c := EMPTY_TABLE], g, place[g].depth, v, k) == Descend(mem, g, place[g].depth, v, k)
    decreases 4 - place[g].depth
  {
    var d := place[g].depth;
    var x := mem[g][Index(v, d)];
    if IsLink(x, d) {
      assert LinkOk(x, place[g], Index(v, d), place);
      AddUnplaced(mem, root, place, c, x.frame, v, if d + 1 <= k then k else d + 1);
    }
  }

  // ---------------------------------------------------------------- which tables there are

  /** The walk of v passes a table at depth d. */
  ghost predicate HasTable(mem: Memory, root: nat, v: nat, d: nat)
    requires d <= 3
  {
    Descend(mem, root, 0, v, d).Some?
  }

  /** The places, down to depth k, of the tables that the n pages from v on need and that are not there. */
  ghost function Missing(mem: Memory, root: nat, v: nat, n: nat, k: nat): set<Place>
    requires k <= 3
  {
    set w: nat, d: nat | v <= w < v + n && 1 <= d <= k && !HasTable(mem, root, w, d) :: Place(d, Prefix(w, d))
  }

  /** From a to b exactly the tables at the places in `added` were hung, and the last-level tables of the
      n pages from v on were cut off. */
  ghost predicate Grew(a: Memory, b: Memory, root: nat, added: set<Place>, v: nat, n: nat) {
    forall w: nat, d: nat | w < PAGES && 1 <= d <= 3 ::
      HasTable(b, root, w, d) <==>
      (HasTable(a, root, w, d) || Place(d, Prefix(w, d)) in added) && !(d == 3 && v <= w < v + n)
  }

  lemma GrewSelf(a: Memory, root: nat)
    ensures Grew(a, a, root, {}, 0, 0)
  {
    hide HasTable;
  }

  lemma GrewChain(a: Memory, b: Memory, c: Memory, root: nat, p: set<Place>, q: set<Place>, v: nat, n: nat, u: nat)
    requires Grew(a, b, root, p, v, n) && Grew(b, c, root, q, v + n, u)
    requires n == 0 || forall x | x in q :: x.depth <= 2
    ensures Grew(a, c, root, p + q, v, n + u)
  {
    hide HasTable, Prefix;
    forall w: nat, d: nat | w < PAGES && 1 <= d <= 3
      ensures HasTable(c, root, w, d) <==>
              (HasTable(a, root, w, d) || Place(d, Prefix(w, d)) in p + q) && !(d == 3 && v <= w < v + (n + u))
    {
      assert HasTable(b, root, w, d) <==>
             (HasTable(a, root, w, d) || Place(d, Prefix(w, d)) in p) && !(d == 3 && v <= w < v + n);
    }
  }

  lemma MissingDepth(mem: Memory, root: nat, v: nat, n: nat, k: nat)
    requires k <= 3
    ensures forall x | x in Missing(mem, root, v, n, k) :: 1 <= x.depth <= k
  {
  }

  lemma MissingMore(mem: Memory, root: nat, v: nat, n: nat, u: nat, k: nat)
    requires k <= 3
    ensures Missing(mem, root, v, n + u, k) == Missing(mem, root, v, n, k) + Missing(mem, root, v + n, u, k)
  {
    hide HasTable, Prefix;
  }

  /** What is still missing after some tables were added. */
  lemma MissingAfter(a: Memory, b: Memory, root: nat, p: set<Place>, v: nat, n: nat, x: nat, u: nat, k: nat)
    requires Grew(a, b, root, p, v, n) && k <= 3 && x + u <= PAGES && (k == 3 ==> n == 0)
    ensures Missing(b, root, x, u, k) == Missing(a, root, x, u, k) - p
  {
    hide HasTable, Prefix;
    forall y: Place
      ensures y in Missing(b, root, x, u, k) <==> y in Missing(a, root, x, u, k) - p
    {
      if y in Missing(b, root, x, u, k) {
        var w: nat, d: nat :| x <= w < x + u && 1 <= d <= k && !HasTable(b, root, w, d) && y == Place(d, Prefix(w, d));
        assert !HasTable(a, root, w, d);
      }
      if y in Missing(a, root, x, u, k) - p {
        var w: nat, d: nat :| x <= w < x + u && 1 <= d <= k && !HasTable(a, root, w, d) && y == Place(d, Prefix(w, d));
        assert !HasTable(b, root, w, d);
      }
    }
  }

  /** The way down is not changed by a store at an entry it does not pass. */
  lemma {:induction false} DescendElsewhere(mem: Memory, root: nat, place: map<nat, Place>,
                                            f: nat, i: nat, e: Entry, g: nat, v: nat, k: nat)
    requires TreeOk(mem, root, place) && f in place && i < 512
    requires g in place && Prefix(v, place[g].depth) == place[g].prefix && place[g].depth <= k <= 3
    requires !Under(v, place[f], i)
    ensures Descend(Store(mem, f, i, e), g, place[g].depth, v, k) == Descend(mem, g, place[g].depth, v, k)
    decreases k - place[g].depth
  {
    var d, j := place[g].depth, Index(v, place[g].depth);
    if d < k {
      PrefixStep(v, d);
      assert Store(mem, f, i, e)[g][j] == mem[g][j];
      var x := mem[g][j];
      if IsLink(x, d) {
        assert LinkOk(x, place[g], j, place);
        DescendElsewhere(mem, root, place, f, i, e, x.frame, v, k);
      }
    }
  }

  /** A last-level store adds and removes no table. */
  lemma PageGrew(mem: Memory, root: nat, place: map<nat, Place>, f: nat, i: nat, e: Entry)
    requires TreeOk(mem, root, place) && f in place && place[f].depth == 3 && i < 512 && f in mem
    ensures Grew(mem, Store(mem, f, i, e), root, {}, 0, 0)
  {
    hide TreeOk;
    forall w: nat, d: nat | w < PAGES && 1 <= d <= 3
      ensures HasTable(Store(mem, f, i, e), root, w, d) <==> HasTable(mem, root, w, d)
    {
      TreePlaces(mem, root, place, f);
      DescendStore(mem, root, place, f, i, e, root, w, d);
    }
  }

  /** A 2 MB leaf cuts the last-level tables of its pages off. */
  lemma HugeGrew(mem: Memory, root: nat, place: map<nat, Place>, v: nat, e: Entry)
    requires TreeOk(mem, root, place) && v < PAGES && v % 512 == 0 && Descend(mem, root, 0, v, 2).Some? && e.flags.huge
    ensures var f := Descend(mem, root, 0, v, 2).value;
            f in mem && Grew(mem, Store(mem, f, Index(v, 2), e), root, {}, v, 512)
  {
    var f := Descend(mem, root, 0, v, 2).value;
    DescendPlace(mem, root, place, root, v, 2);
    var now := Store(mem, f, Index(v, 2), e);
    forall w: nat, d: nat | w < PAGES && 1 <= d <= 3
      ensures HasTable(now, root, w, d) <==> HasTable(mem, root, w, d) && !(d == 3 && v <= w < v + 512)
    {
      if d <= 2 {
        DescendStore(mem, root, place, f, Index(v, 2), e, root, w, d);
      } else if w / 512 == v / 512 {
        PrefixStep(v, 2);
        SamePrefix(v, w, 2);
        DescendSame(mem, root, 0, v, w, 2);
        DescendStore(mem, root, place, f, Index(v, 2), e, root, w, 2);
        DescendStops(now, root, 0, w, 2);
      } else {
        PrefixStep(v, 2);
        DescendElsewhere(mem, root, place, f, Index(v, 2), e, root, w, 3);
      }
    }
  }

  /** Hanging a table adds its place and no other. */
  lemma LinkGrew(mem: Memory, root: nat, place: map<nat, Place>, v: nat, k: nat, c: nat, flags: Flags)
    requires TreeOk(mem, root, place) && v < PAGES && k < 3 && Descend(mem, root, 0, v, k).Some?
    requires c !in place && flags.present && !flags.huge
    requires var f := Descend(mem, root, 0, v, k).value; f in mem && !mem[f][Index(v, k)].flags.present
    ensures var f := Descend(mem, root, 0, v, k).value;
            Grew(mem, Store(mem[c := EMPTY_TABLE], f, Index(v, k), Entry(c, flags)), root, {Place(k + 1, Prefix(v, k + 1))}, 0, 0)
  {
    hide TreeOk;
    forall w: nat, d: nat | w < PAGES && 1 <= d <= 3
      ensures var f := Descend(mem, root, 0, v, k).value;
              var now := Store(mem[c := EMPTY_TABLE], f, Index(v, k), Entry(c, flags));
              HasTable(now, root, w, d) <==>
              HasTable(mem, root, w, d) || Place(d, Prefix(w, d)) == Place(k + 1, Prefix(v, k + 1))
    {
      LinkSeen(mem, root, place, v, k, c, flags, w, d);
    }
  }

  lemma LinkSeen(mem: Memory, root: nat, place: map<nat, Place>, v: nat, k: nat, c: nat, flags: Flags, w: nat, d: nat)
    requires TreeOk(mem, root, place) && v < PAGES && k < 3 && Descend(mem, root, 0, v, k).Some?
    requires c !in place && flags.present && !flags.huge && w < PAGES && 1 <= d <= 3
    requires var f := Descend(mem, root, 0, v, k).value; f in mem && !mem[f][Index(v, k)].flags.present
    ensures var f := Descend(mem, root, 0, v, k).value;
            var now := Store(mem[c := EMPTY_TABLE], f, Index(v, k), Entry(c, flags));
            HasTable(now, root, w, d) <==>
            HasTable(mem, root, w, d) || (d == k + 1 && Prefix(w, d) == Prefix(v, d))
  {
    var f := Descend(mem, root, 0, v, k).value;
    var i := Index(v, k);
    DescendPlace(mem, root, place, root, v, k);
    PrefixStep(v, k);
    var mid := mem[c := EMPTY_TABLE];
    var now := Store(mid, f, i, Entry(c, flags));
    AddUnplaced(mem, root, place, c, root, w, d);
    if Prefix(w, k + 1) == Prefix(v, k + 1) {
      SamePrefix(v, w, k);
      DescendSame(mem, root, 0, v, w, k);
      AddUnplaced(mem, root, place, c, root, w, k);
      DescendStore(mid, root, place, f, i, Entry(c, flags), root, w, k);
      if d <= k {
        DescendShorter(mem, root, 0, w, k, d);
        DescendShorter(now, root, 0, w, k, d);
      } else {
        DescendExtend(now, root, 0, w, k);
        DescendStops(mem, root, 0, w, k);
        NoShorter(mem, root, w, k + 1, d);
        if d > k + 1 {
          DescendStops(now, root, 0, w, k + 1);
          NoShorter(now, root, w, k + 2, d);
        }
      }
    } else {
      DescendElsewhere(mid, root, place, f, i, Entry(c, flags), root, w, d);
      if d == k + 1 {
        assert Prefix(w, d) != Prefix(v, d);
      }
    }
  }

  lemma NoShorter(mem: Memory, root: nat, v: nat, j: nat, k: nat)
    requires j <= k <= 3 && Descend(mem, root, 0, v, j).None?
    ensures Descend(mem, root, 0, v, k).None?
  {
    if Descend(mem, root, 0, v, k).Some? {
      DescendShorter(mem, root, 0, v, k, j);
    }
  }
}
