/** The byte ring: 32-bit positions that wrap, a size that is a power of two, one producer and one
    consumer. */
module RingBuf {
  import opened Basics
  import opened Dyadic

  const WORD: nat := 0x1_0000_0000

  // ---------------------------------------------------------------- positions

  /** Bitwise and. */
  function And(a: nat, b: nat): nat {
    if a == 0 || b == 0 then 0 else (a % 2) * (b % 2) + 2 * And(a / 2, b / 2)
  }

  /** Masking with 2^k - 1 takes the remainder. */
  lemma {:induction false} AndMask(a: nat, k: nat)
    ensures And(a, Pow2(k) - 1) == a % Pow2(k)
  {
    if a != 0 && k > 0 {
      AndMask(a / 2, k - 1);
      MaskStep(a, Pow2(k - 1));
    }
  }

  lemma MaskStep(a: nat, m: nat)
    requires m > 0
    ensures (2 * m - 1) / 2 == m - 1 && (2 * m - 1) % 2 == 1
    ensures a % (2 * m) == a % 2 + 2 * (a / 2 % m)
  {
    var q, r := a / 2 / m, a / 2 % m;
    assert a / 2 == m * q + r;
    assert q * (2 * m) == 2 * (m * q) by { MulAssoc(2, m, q); }
    DivUnique(a, 2 * m, q, a % 2 + 2 * r);
  }

  /** A size the ring may have: a power of two of at most 31 bits. */
  ghost predicate RingSize(size: nat) {
    exists k: nat :: k <= 31 && size == Pow2(k)
  }

  lemma {:induction false} Pow2Sum(a: nat, b: nat)
    ensures Pow2(a + b) == Pow2(a) * Pow2(b)
  {
    if a > 0 {
      Pow2Sum(a - 1, b);
      MulTwo(Pow2(a - 1), Pow2(b));
    }
  }

  lemma MulTwo(x: nat, y: nat)
    ensures (2 * x) * y == 2 * (x * y)
  {
  }

  lemma SizeDivides(size: nat) returns (m: nat)
    requires RingSize(size)
    ensures 0 < size && 2 * size <= WORD && size * m == WORD
  {
    var k: nat :| k <= 31 && size == Pow2(k);
    m := Pow2(32 - k);
    Pow2Sum(k, 32 - k);
    Pow2Of32();
    Pow2Monotone(k, 31);
  }

  lemma Pow2Of32()
    ensures Pow2(32) == WORD
  {
    assert Pow2(8) == 256;
    Pow2Sum(8, 8);
    Pow2Sum(16, 16);
  }

  /** The cell of an unbounded position. */
  function Spot(p: nat, size: nat): (c: nat)
    requires size > 0
    ensures c < size
  {
    p % size
  }

  /** An unbounded position as the 32-bit field holds it. */
  function Word(p: nat): nat {
    p % WORD
  }

  /** 32-bit subtraction of positions. */
  function Distance(head: nat, tail: nat): nat {
    (head - tail) % WORD
  }

  /** 32-bit addition to a position. */
  function Plus(position: nat, n: nat): nat {
    (position + n) % WORD
  }

  /** The code's index: a 32-bit position plus i, wrapped and masked. */
  function Index(position: nat, i: nat, mask: nat): nat {
    And(Plus(position, i), mask)
  }

  /** Wrapped and masked positions address the cells that unbounded ones would. */
  lemma IndexIsSpot(p: nat, i: nat, size: nat)
    requires RingSize(size)
    ensures 0 < size && Index(Word(p), i, size - 1) == Spot(p + i, size)
  {
    var k: nat :| k <= 31 && size == Pow2(k);
    var x := p % WORD + i;
    AndMask(x % WORD, k);
    var m := SizeDivides(size);
    Wrapped(x, size, m);
    assert p + i == WORD * (p / WORD) + x;
    Shifted(x, size, m, p / WORD);
  }

  lemma Wrapped(x: nat, size: nat, m: nat)
    requires size > 0 && size * m == WORD
    ensures x % WORD % size == x % size
  {
    var y := x % WORD;
    assert x == WORD * (x / WORD) + y && y == size * (y / size) + y % size;
    assert WORD * (x / WORD) == size * (m * (x / WORD)) by { MulAssoc(size, m, x / WORD); }
    MulDistrib(size, m * (x / WORD), y / size);
    DivUnique(x, size, m * (x / WORD) + y / size, y % size);
  }

  lemma Shifted(x: nat, size: nat, m: nat, q: nat)
    requires size > 0 && size * m == WORD
    ensures (WORD * q + x) % size == x % size
  {
    assert x == size * (x / size) + x % size;
    assert WORD * q == size * (m * q) by { MulAssoc(size, m, q); }
    MulDistrib(size, m * q, x / size);
    DivUnique(WORD * q + x, size, m * q + x / size, x % size);
  }

  lemma MulAssoc(x: nat, y: nat, z: nat)
    ensures (x * y) * z == x * (y * z)
  {
  }

  lemma MulDistrib(x: nat, y: nat, z: nat)
    ensures x * (y + z) == x * y + x * z
    ensures (y + z) * x == x * y + x * z
  {
  }

  lemma SameRemainder(a: nat, b: nat, size: nat) returns (d: int)
    requires size > 0 && a % size == b % size
    ensures b - a == size * d
  {
    d := b / size - a / size;
    assert a == size * (a / size) + a % size && b == size * (b / size) + b % size;
    MulMinus(size, b / size, a / size);
  }

  lemma NotMultiple(x: nat, size: nat, d: int)
    requires 0 < x < size
    ensures x != size * d
  {
    if d >= 1 { MulAtLeast(size, d); } else { MulAtMost(size, d); }
  }

  /** Positions less than a ring apart have different cells. */
  lemma CellsApart(a: nat, b: nat, size: nat)
    requires size > 0 && a < b < a + size
    ensures Spot(a, size) != Spot(b, size)
  {
    if a % size == b % size {
      var d := SameRemainder(a, b, size);
      NotMultiple(b - a, size, d);
    }
  }

  lemma MulMinus(x: int, y: int, z: int)
    ensures x * (y - z) == x * y - x * z
  {
  }

  lemma MulAtLeast(x: nat, d: int)
    requires d >= 1
    ensures x * d >= x
  {
  }

  lemma MulAtMost(x: nat, d: int)
    requires d <= 0
    ensures x * d <= 0
  {
  }

  /** The difference of two wrapped positions is the true distance. */
  lemma UsedExact(w: nat, t: nat, size: nat)
    requires RingSize(size) && t <= w <= t + size
    ensures Distance(Word(w), Word(t)) == w - t
  {
    var m := SizeDivides(size);
    assert w == WORD * (w / WORD) + w % WORD && t == WORD * (t / WORD) + t % WORD;
    var d := w / WORD - t / WORD;
    assert w % WORD - t % WORD == (w - t) - WORD * d;
  }

  // ---------------------------------------------------------------- the buffer

  /** The n bytes at the unbounded positions from `from` on. */
  function Window(cells: seq<byte>, from: nat, n: nat): (r: seq<byte>)
    requires |cells| > 0
    ensures |r| == n && forall i | 0 <= i < n :: r[i] == cells[Spot(from + i, |cells|)]
  {
    if n == 0 then [] else Window(cells, from, n - 1) + [cells[Spot(from + n - 1, |cells|)]]
  }

  /** Storing a byte at the next position extends the window by it, and leaves all unread bytes. */
  lemma StoreExtends(cells: seq<byte>, from: nat, n: nat, b: byte)
    requires n < |cells|
    ensures Window(cells[Spot(from + n, |cells|) := b], from, n + 1) == Window(cells, from, n) + [b]
  {
    hide Spot;
    var next := cells[Spot(from + n, |cells|) := b];
    forall i | 0 <= i < n
      ensures Window(next, from, n + 1)[i] == Window(cells, from, n)[i]
    {
      CellsApart(from + i, from + n, |cells|);
    }
  }

  /** Dropping the k oldest. */
  lemma WindowDrop(cells: seq<byte>, from: nat, n: nat, k: nat)
    requires |cells| > 0 && k <= n
    ensures Window(cells, from + k, n - k) == Window(cells, from, n)[k..]
  {
    hide Spot;
    forall i | k <= i < n
      ensures Window(cells, from, n)[i] == Window(cells, from + k, n - k)[i - k]
    {
      assert from + i == (from + k) + (i - k);
    }
  }

  lemma AddWraps(p: nat, n: nat)
    ensures Plus(Word(p), n) == Word(p + n)
  {
  }

  class Ring {
    const data: array<byte>
    const size: nat
    var head: nat
    var tail: nat
    ghost var written: nat
    ghost var taken: nat

    ghost predicate Valid()
      reads this, data
    {
      && RingSize(size) && data.Length == size && size > 0
      && head == Word(written) && tail == Word(taken)
      && taken <= written <= taken + size
    }

    /** The unread bytes, oldest first. */
    ghost function Contents(): seq<byte>
      requires Valid()
      reads this, data
    {
      Window(data[..], taken, written - taken)
    }

    constructor (buf: array<byte>)
      requires RingSize(buf.Length) && buf.Length > 0
      ensures Valid() && Contents() == [] && data == buf && size == buf.Length
    {
      data, size, head, tail, written, taken := buf, buf.Length, 0, 0, 0, 0;
    }

    method Used() returns (n: nat)
      requires Valid()
      ensures n == |Contents()|
    {
      UsedExact(written, taken, size);
      n := Distance(head, tail);
    }

    method Full() returns (full: bool)
      requires Valid()
      ensures full <==> |Contents()| == size
    {
      var n := Used();
      full := n == size;
    }

    /** Append as much of the bytes as there is room for. */
    method Write(src: seq<byte>) returns (n: nat)
      requires Valid()
      modifies this, data
      ensures Valid() && n == Min(|src|, size - |old(Contents())|)
      ensures Contents() == old(Contents()) + src[..n]
    {
      hide Window, Spot, Index, RingSize, Word, Plus;
      var used := Used();
      n := |src|;
      if n > size - used {
        n := size - used;
      }
      ghost var was := Contents();
      for i := 0 to n
        invariant data.Length == size && head == old(head) && tail == old(tail)
        invariant written == old(written) && taken == old(taken)
        invariant Window(data[..], taken, used + i) == was + src[..i]
      {
        IndexIsSpot(written, i, size);
        StoreExtends(data[..], taken, used + i, src[i]);
        ghost var cells := data[..];
        data[Index(head, i, size - 1)] := src[i];
        assert data[..] == cells[Spot(taken + (used + i), size) := src[i]];
        assert src[..i + 1] == src[..i] + [src[i]];
      }
      AddWraps(written, n);
      head := Plus(head, n);
      written := written + n;
    }

    /** The i-th unread byte. */
    method At(i: nat) returns (b: byte)
      requires Valid() && i < |Contents()|
      ensures b == Contents()[i]
    {
      hide RingSize;
      IndexIsSpot(taken, i, size);
      b := data[Index(tail, i, size - 1)];
    }

    /** Copy out the n oldest bytes. */
    method CopyOut(dst: array<byte>, n: nat)
      requires Valid() && n <= dst.Length && n <= |Contents()| && dst != data
      modifies dst
      ensures dst[..n] == Contents()[..n] && dst[n..] == old(dst[n..])
    {
      hide Window, RingSize;
      ghost var was := Contents();
      for i := 0 to n
        invariant Valid() && Contents() == was
        invariant forall j | 0 <= j < i :: dst[j] == was[j]
        invariant forall j | i <= j < dst.Length :: dst[j] == old(dst[j])
      {
        dst[i] := At(i);
      }
    }

    method Advance(n: nat)
      requires Valid() && n <= |Contents()|
      modifies `tail, `taken
      ensures Valid() && Contents() == old(Contents())[n..]
    {
      hide Window, RingSize, Word, Plus;
      WindowDrop(data[..], taken, written - taken, n);
      AddWraps(taken, n);
      tail := Plus(tail, n);
      taken := taken + n;
    }

    /** Take as many of the oldest bytes as asked for and available. */
    method Read(dst: array<byte>, count: nat) returns (n: nat)
      requires Valid() && count <= dst.Length && dst != data
      modifies this, dst
      ensures Valid() && n == Min(count, |old(Contents())|)
      ensures dst[..n] == old(Contents())[..n] && dst[n..] == old(dst[n..])
      ensures Contents() == old(Contents())[n..] && data[..] == old(data[..])
    {
      hide Window, RingSize;
      var used := Used();
      n := count;
      if n > used {
        n := used;
      }
      CopyOut(dst, n);
      Advance(n);
    }
  }
}
