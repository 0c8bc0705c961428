/** The kernel log: a ring that drops its oldest character to make room for a new one. */
module Klog {
  import opened Basics
  import opened Dyadic
  import opened RingBuf

  const LOG_SIZE := 4096

  /** The last n elements, or all. */
  function Last(s: seq<byte>, n: nat): (r: seq<byte>)
    ensures |r| == Min(|s|, n) && r == s[|s| - |r|..]
  {
    if |s| <= n then s else s[|s| - n..]
  }

  lemma LastAppend(s: seq<byte>, c: byte, n: nat)
    requires n > 0
    ensures Last(s + [c], n) == (if |s| < n then Last(s, n) else Last(s, n)[1..]) + [c]
  {
  }

  lemma LogSize()
    ensures RingSize(LOG_SIZE)
  {
    assert Pow2(6) == 64;
    Pow2Sum(6, 6);
    assert Pow2(12) == 4096;
  }

  class KernelLog {
    const ring: Ring
    ghost var log: seq<byte>    // every character ever put

    ghost predicate Valid()
      reads this, ring, ring.data
    {
      ring.size == LOG_SIZE && ring.Valid() && ring.Contents() == Last(log, LOG_SIZE)
    }

    constructor ()
      ensures Valid() && log == [] && fresh(ring) && fresh(ring.data)
    {
      LogSize();
      var storage := new byte[LOG_SIZE];
      ring := new Ring(storage);
      log := [];
    }

    /** Put one character: the log holds the last 4096 put so far. */
    method PutChar(c: byte)
      requires Valid()
      modifies this, ring, ring.data
      ensures Valid() && log == old(log) + [c]
    {
      hide RingSize, Window, Last;
      LastAppend(log, c, LOG_SIZE);
      var full := ring.Full();
      if full {
        var discard := new byte[1];
        var n := ring.Read(discard, 1);
      }
      var n := ring.Write([c]);
      log := log + [c];
    }

    /** Put the characters of a string up to its terminating zero. */
    method Write(msg: seq<byte>)
      requires Valid() && 0 in msg
      modifies this, ring, ring.data
      ensures Valid() && log == old(log) + msg[..Length(msg, 0)]
    {
      hide KernelLog.Valid, Length;
      var i := 0;
      while msg[i] != 0
        invariant Valid() && i <= Length(msg, 0) && log == old(log) + msg[..i]
        decreases |msg| - i
      {
        PutChar(msg[i]);
        assert msg[..i + 1] == msg[..i] + [msg[i]];
        i := i + 1;
      }
    }
  }

  /** The place of the terminating zero of a string, from i on. */
  function Length(msg: seq<byte>, i: nat): (n: nat)
    requires i <= |msg| && 0 in msg[i..]
    ensures i <= n < |msg| && msg[n] == 0 && forall j | i <= j < n :: msg[j] != 0
    decreases |msg| - i
  {
    assert msg[i..] == [msg[i]] + msg[i + 1..];
    if msg[i] == 0 then i else Length(msg, i + 1)
  }
}
