/** Slab pages, their slots, and the quarantine between a free and the reuse of a slot, as values. */
module Slabs {
  import opened Basics

  const PAGE: nat := 4096
  const HEADER: nat := 32
  const QUARANTINE_SIZE: nat := 32
  const CLASSES: nat := 8

  // ---------------------------------------------------------------- size classes

  /** The smallest class whose slots hold `size` bytes, or -1. */
  function SizeToClass(size: nat): (c: int)
    ensures -1 <= c < CLASSES
    ensures c >= 0 <==> size <= 2048
    ensures c >= 0 ==> size <= ObjSize(c) && forall b: nat | b < c :: ObjSize(b) < size
  {
    if size <= 16 then 0
    else if size <= 32 then 1
    else if size <= 64 then 2
    else if size <= 128 then 3
    else if size <= 256 then 4
    else if size <= 512 then 5
    else if size <= 1024 then 6
    else if size <= 2048 then 7
    else -1
  }

  /** Slot size of a class: 16 bytes, doubling. */
  function ObjSize(c: nat): (size: nat)
    ensures size >= 16 && size % 16 == 0
  {
    if c == 0 then 16 else 2 * ObjSize(c - 1)
  }

  lemma ObjSizes()
    ensures ObjSize(0) == 16 && ObjSize(1) == 32 && ObjSize(2) == 64 && ObjSize(3) == 128
    ensures ObjSize(4) == 256 && ObjSize(5) == 512 && ObjSize(6) == 1024 && ObjSize(7) == 2048
  {
    assert ObjSize(3) == 2 * ObjSize(2) && ObjSize(5) == 2 * ObjSize(4) && ObjSize(7) == 2 * ObjSize(6);
  }

  lemma ClassOfObjSize(c: nat)
    requires c < CLASSES
    ensures SizeToClass(ObjSize(c)) == c
  {
    ObjSizes();
  }

  // ---------------------------------------------------------------- slots

  /** One slab page: slot size, slots taken, slots in all, and the list of free slots, first first. */
  datatype Slab = Slab(size: nat, used: nat, total: nat, free: seq<nat>)

  /** Slab pages by address. */
  type Pages = map<nat, Slab>

  function PageOf(a: nat): nat {
    a - a % PAGE
  }

  /** a is the address of one of `total` slots of `size` bytes behind the header of the page at base. */
  ghost predicate SlotOf(size: nat, total: nat, base: nat, a: nat) {
    && size > 0 && base + HEADER <= a
    && (a - base - HEADER) % size == 0 && (a - base - HEADER) / size < total
  }

  ghost predicate IsSlot(pages: Pages, a: nat) {
    PageOf(a) in pages && SlotOf(pages[PageOf(a)].size, pages[PageOf(a)].total, PageOf(a), a)
  }

  ghost predicate NoRepeats(q: seq<nat>) {
    forall i, j | 0 <= i < j < |q| :: q[i] != q[j]
  }

  /** The page is aligned, its slots are one class's and fit behind the header, and the number of
      slots taken and the length of the free list add up. */
  ghost predicate SlabOk(s: Slab, base: nat) {
    && base % PAGE == 0
    && s.size >= 16 && s.size % 16 == 0 && s.total > 0 && HEADER + s.total * s.size <= PAGE
    && s.used + |s.free| == s.total
    && NoRepeats(s.free) && forall a | a in s.free :: SlotOf(s.size, s.total, base, a)
  }

  lemma SlotAddress(size: nat, total: nat, base: nat, i: nat)
    requires size > 0 && i < total
    ensures SlotOf(size, total, base, base + HEADER + i * size)
  {
    MulDiv(i, size);
  }

  lemma Multiple16(i: nat, m: nat)
    requires m % 16 == 0
    ensures (i * m) % 16 == 0
  {
    var k := m / 16;
    assert i * m == (i * k) * 16;
    MulDiv(i * k, 16);
  }

  /** A slot's address through its number. */
  lemma SlotNumber(size: nat, total: nat, base: nat, a: nat) returns (i: nat)
    requires SlotOf(size, total, base, a)
    ensures size > 0 && i == (a - base - HEADER) / size < total
    ensures a == base + HEADER + i * size && i * size + size <= total * size
  {
    var x := a - base - HEADER;
    i := x / size;
    Euclid(x, size);
    MulStep(i, total, size);
  }

  /** A slot ends inside the page and starts at a multiple of 16 past the header. */
  lemma SlotBounds(s: Slab, base: nat, a: nat)
    requires SlabOk(s, base) && SlotOf(s.size, s.total, base, a)
    ensures base + HEADER <= a && a + s.size <= base + PAGE && (a - base) % 16 == 0 && PageOf(a) == base
  {
    hide NoRepeats, SlotOf, PageOf;
    var i := SlotNumber(s.size, s.total, base, a);
    Multiple16(i, s.size);
    SamePage(base, a);
  }

  lemma SamePage(base: nat, a: nat)
    requires base % PAGE == 0 && base <= a < base + PAGE
    ensures PageOf(a) == base
  {
  }

  /** Different slots of one slab do not overlap. */
  lemma SlotsApart(s: Slab, base: nat, a: nat, b: nat)
    requires SlabOk(s, base) && SlotOf(s.size, s.total, base, a) && SlotOf(s.size, s.total, base, b) && a < b
    ensures a + s.size <= b
  {
    hide NoRepeats;
    var i := SlotNumber(s.size, s.total, base, a);
    var j := SlotNumber(s.size, s.total, base, b);
    MulLess(i, j, s.size);
    MulStep(i, j, s.size);
  }

  lemma MulLess(i: nat, j: nat, m: nat)
    requires i * m < j * m
    ensures i < j
  {
  }

  /** The address of the i-th slot of a page. */
  function SlotAt(size: nat, base: nat, i: nat): nat {
    base + HEADER + i * size
  }

  /** The addresses of the first n slots. */
  ghost function SlotSet(size: nat, base: nat, n: nat): (r: set<nat>)
    requires size > 0
    ensures |r| == n
    ensures forall a | a in r :: SlotOf(size, n, base, a)
  {
    if n == 0 then {}
    else
      SlotAddress(size, n, base, n - 1);
      MulDiv(n - 1, size);
      SlotSet(size, base, n - 1) + {SlotAt(size, base, n - 1)}
  }

  lemma {:induction false} SlotSetComplete(size: nat, base: nat, n: nat, i: nat)
    requires size > 0 && i < n
    ensures SlotAt(size, base, i) in SlotSet(size, base, n)
  {
    hide SlotOf, SlotAt;
    if i < n - 1 {
      SlotSetComplete(size, base, n - 1, i);
    }
  }

  ghost function AllSlots(s: Slab, base: nat): (r: set<nat>)
    requires s.size > 0
    ensures |r| == s.total
    ensures forall a :: a in r <==> SlotOf(s.size, s.total, base, a)
  {
    var r := SlotSet(s.size, base, s.total);
    assert forall a | SlotOf(s.size, s.total, base, a) :: a in r by {
      forall a | SlotOf(s.size, s.total, base, a)
        ensures a in r
      {
        var i := SlotNumber(s.size, s.total, base, a);
        SlotSetComplete(s.size, base, s.total, i);
      }
    }
    r
  }

  ghost function Elems(q: seq<nat>): set<nat> {
    set a | a in q
  }

  lemma {:induction false} ElemsSize(q: seq<nat>)
    requires NoRepeats(q)
    ensures |Elems(q)| == |q|
  {
    if q != [] {
      var n := |q| - 1;
      ElemsSize(q[..n]);
      assert q == q[..n] + [q[n]];
      assert Elems(q) == Elems(q[..n]) + {q[n]};
    }
  }

  lemma FullSubset(x: set<nat>, y: set<nat>)
    requires x <= y && |x| == |y|
    ensures x == y
  {
    assert y == x + (y - x);
  }

  lemma FreeAreSlots(s: Slab, base: nat)
    requires SlabOk(s, base)
    ensures Elems(s.free) <= AllSlots(s, base) && s.used + |Elems(s.free)| == s.total
  {
    hide SlotOf;
    ElemsSize(s.free);
  }

  /** A slab with nothing taken has every slot on its free list. */
  lemma EmptySlabAllFree(s: Slab, base: nat, a: nat)
    requires SlabOk(s, base) && s.used == 0 && SlotOf(s.size, s.total, base, a)
    ensures a in s.free
  {
    hide NoRepeats, AllSlots, SlotOf;
    FreeAreSlots(s, base);
    FullSubset(Elems(s.free), AllSlots(s, base));
    assert a in Elems(s.free);
  }

  // ---------------------------------------------------------------- the quarantine as a queue

  /** The queue after one more slot is freed: a full queue drops its oldest entry. */
  function Admit(q: seq<nat>, a: nat): seq<nat> {
    (if |q| >= QUARANTINE_SIZE then q[1..] else q) + [a]
  }

  function AdmitAll(q: seq<nat>, later: seq<nat>): seq<nat> {
    if later == [] then q else Admit(AdmitAll(q, later[..|later| - 1]), later[|later| - 1])
  }

  lemma AdmitTail(q: seq<nat>, a: nat, n: nat)
    requires n < |q| <= QUARANTINE_SIZE && n < QUARANTINE_SIZE - 1
    ensures var r := Admit(q, a);
            && n + 1 < |r| <= QUARANTINE_SIZE && (|r| == QUARANTINE_SIZE || |r| == |q| + 1)
            && r[|r| - 2 - n] == q[|q| - 1 - n] && r[|r| - 1 - n..] == q[|q| - n..] + [a]
  {
  }

  /** A freed slot stays in quarantine through the next 31 slab frees and comes out, as the oldest
      entry, at the 32nd. */
  lemma {:induction false} QuarantineDelay(q: seq<nat>, a: nat, later: seq<nat>)
    requires |q| <= QUARANTINE_SIZE && |later| < QUARANTINE_SIZE
    ensures var r := AdmitAll(Admit(q, a), later);
            && |r| <= QUARANTINE_SIZE && |r| > |later|
            && r[|r| - 1 - |later|] == a
            && (|later| == QUARANTINE_SIZE - 1 ==> |r| == QUARANTINE_SIZE && r[0] == a)
            && r[|r| - |later|..] == later
  {
    if later != [] {
      var n := |later| - 1;
      QuarantineDelay(q, a, later[..n]);
      hide Admit;
      AdmitTail(AdmitAll(Admit(q, a), later[..n]), later[n], n);
      assert later[..n] + [later[n]] == later;
    }
  }

  // ---------------------------------------------------------------- where every slot is

  /** Every slot of every slab is in exactly one place: on its slab's free list, in quarantine,
      with a client, or in transit from quarantine to the free list. */
  ghost predicate Placed(pages: Pages, quar: seq<nat>, live: set<nat>, moving: set<nat>) {
    && (forall p | p in pages :: SlabOk(pages[p], p))
    && NoRepeats(quar)
    && (forall a | a in quar :: IsSlot(pages, a) && a !in pages[PageOf(a)].free && a !in live && a !in moving)
    && (forall a | a in live :: IsSlot(pages, a) && a !in pages[PageOf(a)].free && a !in moving)
    && (forall a | a in moving :: IsSlot(pages, a) && a !in pages[PageOf(a)].free)
    && (forall a | IsSlot(pages, a) :: a in pages[PageOf(a)].free || a in quar || a in live || a in moving)
  }

  ghost predicate Taken(quar: seq<nat>, live: set<nat>, moving: set<nat>, a: nat) {
    a in quar || a in live || a in moving
  }

  /** The slots taken on a page are those with clients, in quarantine or in transit. */
  lemma UsedIsLivePlusQuarantined(pages: Pages, quar: seq<nat>, live: set<nat>, moving: set<nat>, base: nat)
    requires Placed(pages, quar, live, moving) && base in pages && pages[base].size > 0
    ensures pages[base].used == |set a | a in AllSlots(pages[base], base) && Taken(quar, live, moving, a)|
  {
    hide NoRepeats, AllSlots, SlotOf, PageOf;
    var s := pages[base];
    assert SlabOk(s, base);
    var taken := set a | a in AllSlots(s, base) && Taken(quar, live, moving, a);
    FreeAreSlots(s, base);
    forall a | a in AllSlots(s, base)
      ensures a in Elems(s.free) <==> a !in taken
    {
      SlotBounds(s, base, a);
      assert IsSlot(pages, a);
    }
    assert AllSlots(s, base) == Elems(s.free) + taken && Elems(s.free) !! taken;
  }

  lemma ShapeSlots(pages: Pages, base: nat, s: Slab)
    requires base in pages && s.size == pages[base].size && s.total == pages[base].total
    ensures forall a {:trigger IsSlot(pages[base := s], a)} {:trigger IsSlot(pages, a)} ::
              IsSlot(pages[base := s], a) <==> IsSlot(pages, a)
  {
  }

  lemma PopSlab(s: Slab, base: nat)
    requires SlabOk(s, base) && s.free != []
    ensures var s' := s.(free := s.free[1..], used := s.used + 1);
            && SlabOk(s', base) && SlotOf(s.size, s.total, base, s.free[0]) && PageOf(s.free[0]) == base
            && forall x :: x in s'.free <==> x in s.free && x != s.free[0]
  {
    hide SlotOf, PageOf;
    SlotBounds(s, base, s.free[0]);
    var rest := s.free[1..];
    assert forall i | 0 <= i < |rest| :: rest[i] == s.free[i + 1];
    forall x | x in s.free && x != s.free[0]
      ensures x in rest
    {
      var i :| 0 <= i < |s.free| && s.free[i] == x;
      assert rest[i - 1] == x;
    }
  }

  /** Hand the first free slot of a slab to a client. */
  lemma PopPlaced(pages: Pages, quar: seq<nat>, live: set<nat>, base: nat)
    requires Placed(pages, quar, live, {}) && base in pages && pages[base].free != []
    ensures var s := pages[base]; var a := s.free[0];
            && a !in live && IsSlot(pages, a) && PageOf(a) == base
            && Placed(pages[base := s.(free := s.free[1..], used := s.used + 1)], quar, live + {a}, {})
  {
    hide SlabOk, SlotOf, PageOf, NoRepeats;
    var s := pages[base];
    var s' := s.(free := s.free[1..], used := s.used + 1);
    PopSlab(s, base);
    ShapeSlots(pages, base, s');
    assert IsSlot(pages, s.free[0]);
  }

  lemma PushSlab(s: Slab, base: nat, a: nat)
    requires SlabOk(s, base) && SlotOf(s.size, s.total, base, a) && a !in s.free
    ensures s.used > 0
    ensures var s' := s.(free := [a] + s.free, used := s.used - 1);
            SlabOk(s', base) && forall x :: x in s'.free <==> x in s.free || x == a
  {
    if s.used == 0 {
      EmptySlabAllFree(s, base, a);
    }
  }

  /** Put the slot in transit on the free list of its slab. */
  lemma PushPlaced(pages: Pages, quar: seq<nat>, live: set<nat>, a: nat)
    requires Placed(pages, quar, live, {a})
    ensures IsSlot(pages, a) && pages[PageOf(a)].used > 0
    ensures var s := pages[PageOf(a)];
            Placed(pages[PageOf(a) := s.(free := [a] + s.free, used := s.used - 1)], quar, live, {})
  {
    hide SlabOk, SlotOf, NoRepeats;
    var base := PageOf(a);
    assert a in {a};
    var s := pages[base];
    PushSlab(s, base, a);
    var s' := s.(free := [a] + s.free, used := s.used - 1);
    ShapeSlots(pages, base, s');
  }

  /** A client's slot goes to the end of the quarantine; a full quarantine lets its oldest slot go. */
  lemma AdmitPlaced(pages: Pages, quar: seq<nat>, live: set<nat>, a: nat)
    requires Placed(pages, quar, live, {}) && a in live
    ensures Placed(pages, Admit(quar, a), live - {a}, if |quar| >= QUARANTINE_SIZE then {quar[0]} else {})
  {
    hide SlabOk, SlotOf, PageOf;
    var q := Admit(quar, a);
    if |quar| >= QUARANTINE_SIZE {
      assert quar[0] in quar;
      forall x
        ensures x in q <==> (x in quar && x != quar[0]) || x == a
      {
        if x in quar && x != quar[0] {
          var i :| 0 <= i < |quar| && quar[i] == x;
          assert q[i - 1] == x;
        }
      }
    } else {
      assert forall x :: x in q <==> x in quar || x == a;
    }
  }

  /** A page with nothing taken holds no slot that anybody could still name. */
  lemma DropPlaced(pages: Pages, quar: seq<nat>, live: set<nat>, base: nat)
    requires Placed(pages, quar, live, {}) && base in pages && pages[base].used == 0
    ensures forall a | a in quar || a in live :: PageOf(a) != base
    ensures Placed(pages - {base}, quar, live, {})
  {
    hide SlabOk, SlotOf, PageOf, NoRepeats;
    forall a | IsSlot(pages, a) && PageOf(a) == base
      ensures a in pages[base].free
    {
      EmptySlabAllFree(pages[base], base, a);
    }
    forall a
      ensures IsSlot(pages - {base}, a) <==> IsSlot(pages, a) && PageOf(a) != base
    {
    }
  }

  /** A new slab page with every slot free. */
  lemma AddPlaced(pages: Pages, quar: seq<nat>, live: set<nat>, base: nat, s: Slab)
    requires Placed(pages, quar, live, {}) && base !in pages && SlabOk(s, base) && s.used == 0
    ensures Placed(pages[base := s], quar, live, {})
  {
    hide SlotOf, PageOf, NoRepeats, SlabOk;
    var pages' := pages[base := s];
    forall a | IsSlot(pages', a)
      ensures a in pages'[PageOf(a)].free || a in quar || a in live
    {
      if PageOf(a) == base {
        EmptySlabAllFree(s, base, a);
      } else {
        assert IsSlot(pages, a);
      }
    }
    forall a | IsSlot(pages, a)
      ensures IsSlot(pages', a) && pages'[PageOf(a)] == pages[PageOf(a)]
    {
    }
  }
}
