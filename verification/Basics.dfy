/** Definitions the other modules share, and facts about quotients and remainders. */
module Basics {

  newtype byte = x: int | 0 <= x < 256

  const U64: nat := 0x1_0000_0000_0000_0000

  /** A time in timer ticks of ten milliseconds, one at least. */
  function Ticks(ms: nat): (n: nat)
    ensures n >= 1
  {
    if ms / 10 == 0 then 1 else ms / 10
  }

  /** The first place of t in q. */
  function Find(q: seq<nat>, t: nat): (i: nat)
    requires t in q
    ensures i < |q| && q[i] == t && t !in q[..i]
  {
    if q[0] == t then 0
    else
      assert t in q[1..];
      var i := 1 + Find(q[1..], t);
      assert q[..i] == [q[0]] + q[1..][..i - 1];
      i
  }

  /** q with its i-th entry left out. */
  function Without<T>(q: seq<T>, i: nat): seq<T>
    requires i < |q|
  {
    q[..i] + q[i + 1..]
  }

  function Min(a: nat, b: nat): nat {
    if a <= b then a else b
  }

  lemma Euclid(x: nat, m: nat)
    requires m > 0
    ensures x == (x / m) * m + x % m && x % m < m
  {
  }

  lemma MulStep(i: nat, j: nat, m: nat)
    requires i < j
    ensures i * m + m <= j * m
  {
    assert (i + 1) * m <= j * m;
  }

  lemma DivUnique(x: nat, m: nat, q: nat, r: nat)
    requires m > 0 && r < m && x == q * m + r
    ensures x / m == q && x % m == r
  {
    var e := x / m - q;
    assert x == (x / m) * m + x % m;
    assert e * m == r - x % m by {
      assert e * m == (x / m) * m - q * m;
    }
    assert e == 0;
  }

  lemma DivModAdd(z: nat, r: nat, m: nat)
    requires m > 0
    ensures (z * m + r) / m == z + r / m && (z * m + r) % m == r % m
  {
    assert (z + r / m) * m == z * m + (r / m) * m;
    DivUnique(z * m + r, m, z + r / m, r % m);
  }

  lemma MulDiv(i: nat, m: nat)
    requires m > 0
    ensures (i * m) / m == i && (i * m) % m == 0
  {
    var x := i * m;
    assert x == (x / m) * m + x % m;
    var e := x / m - i;
    assert e * m == (x / m) * m - i * m;
    assert e == 0;
  }

  /** The remainder by an even number: that of the half, doubled, and the last bit. */
  lemma EvenRemainder(q: nat, m: nat)
    requires m > 0
    ensures q % (2 * m) == 2 * (q / 2 % m) + q % 2
  {
    var h := q / 2;
    Euclid(h, m);
    var d := h / m;
    assert d * (2 * m) == 2 * (d * m);
    DivUnique(q, 2 * m, d, 2 * (h % m) + q % 2);
  }
}
