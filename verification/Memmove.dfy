/** Copying memory in eight-byte chunks, forwards or backwards, over one array of bytes. */
module Memmove {

  /** Bytes lo to hi of an n-byte copy from s to d done, all read from the memory as it was. */
  function Moved<B>(m: seq<B>, d: nat, s: nat, lo: nat, hi: nat): (r: seq<B>)
    requires lo <= hi && d + hi <= |m| && s + hi <= |m|
    ensures |r| == |m|
    ensures forall i | 0 <= i < |m| :: r[i] == if d + lo <= i < d + hi then m[s + (i - d)] else m[i]
  {
    m[..d + lo] + m[s + lo..s + hi] + m[d + hi..]
  }

  /** A forward chunk reads nothing already overwritten, whatever the overlap. */
  lemma ForwardStep<B>(m: seq<B>, d: nat, s: nat, k: nat, w: nat, n: nat)
    requires k + w <= n && d + n <= |m| && s + n <= |m| && (d < s || d >= s + n)
    ensures Moved(Moved(m, d, s, 0, k), d + k, s + k, 0, w) == Moved(m, d, s, 0, k + w)
  {
  }

  /** Nor does a backward chunk when the destination is above the source. */
  lemma BackwardStep<B>(m: seq<B>, d: nat, s: nat, k: nat, w: nat, n: nat)
    requires w <= k <= n && d + n <= |m| && s + n <= |m| && s < d
    ensures Moved(Moved(m, d, s, k, n), d + k - w, s + k - w, 0, w) == Moved(m, d, s, k - w, n)
  {
  }

  lemma NothingMoved<B>(m: seq<B>, d: nat, s: nat, n: nat)
    requires d + n <= |m| && s + n <= |m|
    ensures Moved(m, d, s, 0, 0) == m && Moved(m, d, s, n, n) == m
    ensures d == s ==> Moved(m, d, s, 0, n) == m
  {
  }

  /** One move instruction: w bytes are read, then w bytes are written. */
  method MoveChunk<B>(a: array<B>, d: nat, s: nat, w: nat)
    requires d + w <= a.Length && s + w <= a.Length
    modifies a
    ensures a[..] == Moved(old(a[..]), d, s, 0, w)
  {
    forall i | 0 <= i < w {
      a[d + i] := a[s + i];
    }
    assert forall i | 0 <= i < a.Length :: d <= i < d + w ==> a[i] == old(a[s + (i - d)]);
  }

  /** Copy n bytes forwards: right when the regions are disjoint, or the destination is lower. */
  method Memcpy<B>(a: array<B>, d: nat, s: nat, n: nat)
    requires d + n <= a.Length && s + n <= a.Length && (d < s || d >= s + n)
    modifies a
    ensures a[..] == Moved(old(a[..]), d, s, 0, n)
  {
    hide Moved;
    ghost var m := a[..];
    NothingMoved(m, d, s, n);
    var k := 0;
    if n >= 8 {
      var qwords := n / 8;
      while qwords > 0
        invariant qwords >= 0 && k + 8 * qwords + n % 8 == n && k <= n && a[..] == Moved(m, d, s, 0, k)
      {
        MoveChunk(a, d + k, s + k, 8);
        ForwardStep(m, d, s, k, 8, n);
        k, qwords := k + 8, qwords - 1;
      }
    }
    while k < n
      invariant k <= n && a[..] == Moved(m, d, s, 0, k)
    {
      MoveChunk(a, d + k, s + k, 1);
      ForwardStep(m, d, s, k, 1, n);
      k := k + 1;
    }
  }

  /** Copy n bytes backwards: the odd bytes first, then the eight-byte chunks. */
  method CopyBackwards<B>(a: array<B>, d: nat, s: nat, n: nat)
    requires d + n <= a.Length && s + n <= a.Length && s < d
    modifies a
    ensures a[..] == Moved(old(a[..]), d, s, 0, n)
  {
    hide Moved;
    ghost var m := a[..];
    NothingMoved(m, d, s, n);
    var k, remain := n, if n >= 8 then n % 8 else n;
    while remain > 0
      invariant 0 <= remain <= k <= n && (k - remain) % 8 == 0 && a[..] == Moved(m, d, s, k, n)
    {
      MoveChunk(a, d + k - 1, s + k - 1, 1);
      BackwardStep(m, d, s, k, 1, n);
      k, remain := k - 1, remain - 1;
    }
    while k > 0
      invariant 0 <= k <= n && k % 8 == 0 && a[..] == Moved(m, d, s, k, n)
    {
      MoveChunk(a, d + k - 8, s + k - 8, 8);
      BackwardStep(m, d, s, k, 8, n);
      k := k - 8;
    }
  }

  /** The result is that of reading all n bytes first and writing them afterwards, for every overlap
      of the two regions, and no other byte changes. */
  method Move<B>(a: array<B>, d: nat, s: nat, n: nat)
    requires d + n <= a.Length && s + n <= a.Length
    modifies a
    ensures a[d..d + n] == old(a[s..s + n])
    ensures forall i | 0 <= i < a.Length && !(d <= i < d + n) :: a[i] == old(a[i])
  {
    if d == s || n == 0 {
      return;
    }
    if d < s || d >= s + n {
      Memcpy(a, d, s, n);
    } else {
      CopyBackwards(a, d, s, n);
    }
    assert forall i | 0 <= i < a.Length :: a[..][i] == a[i];
  }
}
