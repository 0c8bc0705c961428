/** Writable and executable at once: what the audit of the page tables counts. */
module WxAudit {
  import opened Basics
  import opened PageTables
  import opened Vmm
  import Pmm

  /** v is the first page of a leaf that is writable and executable. */
  ghost predicate BadLeaf(mem: Memory, root: nat, v: nat) {
    match Walk(mem, root, 0, v)
    case Unmapped => false
    case At(d, e) => d <= 3 && e.flags.Wx() && v % Reach(d) == 0
  }

  ghost function BadLeaves(mem: Memory, root: nat, lo: nat, hi: nat): set<nat> {
    set v | lo <= v < hi && BadLeaf(mem, root, v)
  }

  ghost predicate Wx(m: Option<Mapping>) {
    m.Some? && m.value.flags.Wx()
  }

  /** No page is writable and executable. */
  ghost predicate NoWx(mem: Memory, root: nat) {
    forall v: nat | v < PAGES :: !Wx(Flat(mem, root, v))
  }

  /** Pages that agree on the bits above a leaf end in the same leaf. */
  lemma {:induction false} SameLeaf(mem: Memory, f: nat, d: nat, v: nat, w: nat)
    requires d <= 3 && Walk(mem, f, d, v).At? && Walk(mem, f, d, v).depth <= 3
    requires Prefix(v, Walk(mem, f, d, v).depth + 1) == Prefix(w, Walk(mem, f, d, v).depth + 1)
    ensures d <= Walk(mem, f, d, v).depth
    ensures Walk(mem, f, d, w) == Walk(mem, f, d, v)
    decreases 4 - d
  {
    WalkDepth(mem, f, d, v);
    SameIndex(v, w, d, Walk(mem, f, d, v).depth + 1);
    var e := mem[f][Index(v, d)];
    if d < 3 && !(d > 0 && e.flags.huge) {
      SameLeaf(mem, e.frame, d + 1, v, w);
    }
  }

  lemma {:induction false} WalkDepth(mem: Memory, f: nat, d: nat, v: nat)
    requires d <= 3
    ensures Walk(mem, f, d, v).At? ==> d <= Walk(mem, f, d, v).depth <= 3
    decreases 4 - d
  {
    if f in mem {
      var e := mem[f][Index(v, d)];
      if e.flags.present && d < 3 && !(d > 0 && e.flags.huge) {
        WalkDepth(mem, e.frame, d + 1, v);
      }
    }
  }

  lemma FirstPageOf(v: nat, d: nat)
    requires d <= 3 && v < PAGES
    ensures v - v % Reach(d) < PAGES && (v - v % Reach(d)) % Reach(d) == 0
    ensures Prefix(v - v % Reach(d), d + 1) == Prefix(v, d + 1)
  {
    var m := Reach(d);
    var q := v / m;
    assert v - v % m == q * m;
    DivModAdd(q, 0, m);
  }

  /** No leaf is counted exactly when no page is writable and executable. */
  lemma CleanIffNoBadLeaf(mem: Memory, root: nat)
    ensures BadLeaves(mem, root, 0, PAGES) == {} <==> NoWx(mem, root)
  {
    if !NoWx(mem, root) {
      var v: nat :| v < PAGES && Wx(Flat(mem, root, v));
      var d := Walk(mem, root, 0, v).depth;
      WalkDepth(mem, root, 0, v);
      FirstPageOf(v, d);
      var w := v - v % Reach(d);
      SameLeaf(mem, root, 0, v, w);
      assert w in BadLeaves(mem, root, 0, PAGES);
    }
    if BadLeaves(mem, root, 0, PAGES) != {} {
      var v :| v in BadLeaves(mem, root, 0, PAGES);
      assert Wx(Flat(mem, root, v));
    }
  }

  lemma Adjacent(mem: Memory, root: nat, lo: nat, mid: nat, hi: nat)
    requires lo <= mid <= hi
    ensures |BadLeaves(mem, root, lo, hi)| == |BadLeaves(mem, root, lo, mid)| + |BadLeaves(mem, root, mid, hi)|
  {
    assert BadLeaves(mem, root, lo, hi) == BadLeaves(mem, root, lo, mid) + BadLeaves(mem, root, mid, hi);
  }

  /** The pages under entry i of a table that covers the pages from lo on. */
  lemma EntryPages(lo: nat, d: nat, i: nat, w: nat)
    requires d <= 3 && i < 512 && lo % (512 * Reach(d)) == 0 && lo + 512 * Reach(d) <= PAGES
    requires lo + i * Reach(d) <= w < lo + i * Reach(d) + Reach(d)
    ensures w < PAGES && Index(w, d) == i && Prefix(w, d) == Prefix(lo, d)
    ensures w % Reach(d) == 0 <==> w == lo + i * Reach(d)
  {
    var m := Reach(d);
    var q := lo / (512 * m);
    assert lo == (q * 512) * m by {
      assert lo == q * (512 * m);
    }
    var v := lo + i * m;
    assert v == (q * 512 + i) * m;
    DivUnique(w, m, q * 512 + i, w - v);
    DivUnique(q * 512 + i, 512, q, i);
    DivUnique(lo, m, q * 512, 0);
    DivUnique(q * 512, 512, q, 0);
    assert i * m <= 511 * m;
    PrefixStep(w, d);
    PrefixStep(lo, d);
  }

  lemma ReachStep(lo: nat, d: nat, i: nat)
    requires d < 3 && i < 512 && lo % (512 * Reach(d)) == 0 && lo + 512 * Reach(d) <= PAGES
    ensures Reach(d) == 512 * Reach(d + 1)
    ensures (lo + i * Reach(d)) % (512 * Reach(d + 1)) == 0 && lo + i * Reach(d) + 512 * Reach(d + 1) <= PAGES
  {
    EntryPages(lo, d, i, lo + i * Reach(d));
    assert i * Reach(d) <= 511 * Reach(d);
  }

  /** What the pages under one entry add to the count, when it is absent or a leaf. */
  lemma EntryCount(mem: Memory, root: nat, f: nat, lo: nat, d: nat, i: nat)
    requires d <= 3 && i < 512 && lo % (512 * Reach(d)) == 0 && lo + 512 * Reach(d) <= PAGES
    requires Descend(mem, root, 0, lo, d) == Some(f) && f in mem
    requires !mem[f][i].flags.present || d == 3 || (d > 0 && mem[f][i].flags.huge)
    ensures var v := lo + i * Reach(d);
            BadLeaves(mem, root, v, v + Reach(d)) ==
            if mem[f][i].flags.present && mem[f][i].flags.Wx() then {v} else {}
  {
    var v := lo + i * Reach(d);
    forall w: nat | v <= w < v + Reach(d)
      ensures BadLeaf(mem, root, w) <==> mem[f][i].flags.present && mem[f][i].flags.Wx() && w == v
    {
      EntryPages(lo, d, i, w);
      DescendSame(mem, root, 0, lo, w, d);
      DescendWalk(mem, root, 0, w, d);
    }
  }

  /** Count the writable and executable leaves below one table. */
  method AuditTable(space: AddressSpace, f: nat, d: nat, lo: nat) returns (n: nat)
    requires space.Valid() && d <= 3 && lo % (512 * Reach(d)) == 0 && lo + 512 * Reach(d) <= PAGES
    requires Descend(space.mem, space.root, 0, lo, d) == Some(f)
    ensures n == |BadLeaves(space.mem, space.root, lo, lo + 512 * Reach(d))|
    decreases 3 - d
  {
    hide TreeOk, Pmm.PageAllocator.Valid, BadLeaves, Descend, Index, Prefix;
    AtDepth(space.mem, space.root, space.place, lo, d);
    n := 0;
    NoPages(space.mem, space.root, lo);
    var i := 0;
    while i < 512
      invariant i <= 512
      invariant n == |BadLeaves(space.mem, space.root, lo, lo + i * Reach(d))|
    {
      var e := space.mem[f][i];
      ghost var v := lo + i * Reach(d);
      assert v + Reach(d) == lo + (i + 1) * Reach(d);
      Adjacent(space.mem, space.root, lo, v, v + Reach(d));
      if e.flags.present && d < 3 && !(d > 0 && e.flags.huge) {
        SubTable(space.mem, space.root, f, d, lo, i);
        ReachStep(lo, d, i);
        var k := AuditTable(space, e.frame, d + 1, lo + i * Reach(d));
        n := n + k;
      } else {
        EntryCount(space.mem, space.root, f, lo, d, i);
        if e.flags.present && e.flags.write && !e.flags.nx {
          n := n + 1;
        }
      }
      i := i + 1;
    }
  }

  lemma NoPages(mem: Memory, root: nat, lo: nat)
    ensures |BadLeaves(mem, root, lo, lo)| == 0
  {
    assert BadLeaves(mem, root, lo, lo) == {};
  }

  lemma SubTable(mem: Memory, root: nat, f: nat, d: nat, lo: nat, i: nat)
    requires d < 3 && i < 512 && lo % (512 * Reach(d)) == 0 && lo + 512 * Reach(d) <= PAGES
    requires Descend(mem, root, 0, lo, d) == Some(f) && f in mem && IsLink(mem[f][i], d)
    ensures Descend(mem, root, 0, lo + i * Reach(d), d + 1) == Some(mem[f][i].frame)
  {
    var v := lo + i * Reach(d);
    EntryPages(lo, d, i, v);
    DescendSame(mem, root, 0, lo, v, d);
    DescendExtend(mem, root, 0, v, d);
  }

  /** The audit counts every 4 KB and 2 MB leaf that is writable and executable, once. */
  method Audit(space: AddressSpace) returns (violations: nat)
    requires space.Valid()
    ensures violations == |BadLeaves(space.mem, space.root, 0, PAGES)|
    ensures violations == 0 <==> NoWx(space.mem, space.root)
  {
    hide TreeOk, Pmm.PageAllocator.Valid, BadLeaves, NoWx;
    violations := AuditTable(space, space.root, 0, 0);
    CleanIffNoBadLeaf(space.mem, space.root);
  }
}
