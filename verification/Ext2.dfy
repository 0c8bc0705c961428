/** Reading inodes and files of an ext2 image held in memory. */
module Ext2 {
  import opened Basics

  const DIRECT := 12
  const INODE_BYTES := 128

  datatype Error = IoError | Invalid
  datatype Result<T> = Ok(value: T) | Err(error: Error)

  /** A mounted image: its bytes, the superblock's sizes, and each group's inode table block. */
  datatype Image = Image(disk: seq<byte>, mounted: bool, blockSize: nat, inodeSize: nat, inodes: nat,
                         perGroup: nat, tables: seq<nat>)

  datatype Inode = Inode(mode: nat, size: nat, blocks: seq<nat>)

  /** The superblock of a mounted image has no zero where the reader divides by it; mounting does not
      check that. */
  predicate Mounted(f: Image) {
    f.mounted ==> f.blockSize > 0 && f.perGroup > 0
  }

  // ---------------------------------------------------------------- inodes

  function Le16(d: seq<byte>, at: nat): (v: nat)
    requires at + 2 <= |d|
  {
    d[at] as nat + 256 * d[at + 1] as nat
  }

  function Le32(d: seq<byte>, at: nat): (v: nat)
    requires at + 4 <= |d|
    ensures v < 0x1_0000_0000
  {
    Le16(d, at) + 0x1_0000 * Le16(d, at + 2)
  }

  /** An inode as it lies on disk, little endian. */
  function Decode(d: seq<byte>, at: nat): (n: Inode)
    requires at + INODE_BYTES <= |d|
    ensures |n.blocks| == DIRECT && n.size < 0x1_0000_0000
  {
    Inode(Le16(d, at), Le32(d, at + 4), seq(DIRECT, i requires 0 <= i < DIRECT => Le32(d, at + 40 + 4 * i)))
  }

  /** Where an inode lies: they are numbered from 1 and kept group by group. */
  function InodeOffset(f: Image, ino: nat): nat
    requires f.perGroup > 0 && ino > 0 && (ino - 1) / f.perGroup < |f.tables|
  {
    f.tables[(ino - 1) / f.perGroup] * f.blockSize + (ino - 1) % f.perGroup * f.inodeSize
  }

  function ReadInode(f: Image, ino: nat): (r: Result<Inode>)
    requires Mounted(f)
    ensures r.Ok? ==> |r.value.blocks| == DIRECT && r.value.size < 0x1_0000_0000
  {
    if !f.mounted then Err(IoError)
    else if ino == 0 || ino > f.inodes || (ino - 1) / f.perGroup >= |f.tables| then Err(Invalid)
    else if InodeOffset(f, ino) + INODE_BYTES > |f.disk| then Err(IoError)
    else Ok(Decode(f.disk, InodeOffset(f, ino)))
  }

  /** Different inodes of one group never overlap, so long as an inode fits its slot. */
  lemma InodesApart(f: Image, a: nat, b: nat)
    requires f.perGroup > 0 && f.inodeSize >= INODE_BYTES && 0 < a < b
    requires (a - 1) / f.perGroup == (b - 1) / f.perGroup < |f.tables|
    ensures InodeOffset(f, a) + INODE_BYTES <= InodeOffset(f, b)
  {
    var i, j := (a - 1) % f.perGroup, (b - 1) % f.perGroup;
    assert a - 1 == f.perGroup * ((a - 1) / f.perGroup) + i && b - 1 == f.perGroup * ((b - 1) / f.perGroup) + j;
    assert i + 1 <= j;
    MulMono(i + 1, j, f.inodeSize);
    assert (i + 1) * f.inodeSize == i * f.inodeSize + f.inodeSize;
  }

  lemma MulMono(x: nat, y: nat, z: nat)
    requires x <= y
    ensures x * z <= y * z
  {
  }

  // ---------------------------------------------------------------- what a file holds

  /** The block's bytes lie within the image, or it is a hole. */
  predicate BlockOk(f: Image, b: nat) {
    b == 0 || b * f.blockSize + f.blockSize <= |f.disk|
  }

  /** The byte at a position of the twelve direct blocks laid end to end; holes read as zero. */
  function ByteAt(f: Image, n: Inode, pos: nat): byte
    requires f.blockSize > 0 && |n.blocks| == DIRECT && pos / f.blockSize < DIRECT
  {
    var b := n.blocks[pos / f.blockSize];
    if b == 0 || !BlockOk(f, b) then 0
    else InBlock(f, b, pos % f.blockSize); f.disk[b * f.blockSize + pos % f.blockSize]
  }

  lemma InBlock(f: Image, b: nat, off: nat)
    requires off < f.blockSize && b != 0 && BlockOk(f, b)
    ensures 0 <= b * f.blockSize + off < |f.disk|
  {
  }

  predicate Readable(f: Image, n: Inode, pos: nat)
    requires f.blockSize > 0 && |n.blocks| == DIRECT && pos / f.blockSize < DIRECT
  {
    BlockOk(f, n.blocks[pos / f.blockSize])
  }

  /** What direct blocks can hold. */
  function Capacity(f: Image): nat {
    DIRECT * f.blockSize
  }

  lemma WithinBlocks(f: Image, pos: nat)
    requires f.blockSize > 0
    ensures pos / f.blockSize < DIRECT <==> pos < Capacity(f)
  {
    assert pos == f.blockSize * (pos / f.blockSize) + pos % f.blockSize;
  }

  /** The file's content: cut at its size and at what direct blocks hold. */
  function Content(f: Image, n: Inode): (c: seq<byte>)
    requires f.blockSize > 0 && |n.blocks| == DIRECT
    ensures |c| == Min(n.size, Capacity(f))
    ensures forall p | 0 <= p < |c| :: p / f.blockSize < DIRECT && c[p] == ByteAt(f, n, p)
  {
    ContentUpTo(f, n, Min(n.size, Capacity(f)))
  }

  function ContentUpTo(f: Image, n: Inode, len: nat): (c: seq<byte>)
    requires f.blockSize > 0 && |n.blocks| == DIRECT && len <= Capacity(f)
    ensures |c| == len
    ensures forall p | 0 <= p < len :: p / f.blockSize < DIRECT && c[p] == ByteAt(f, n, p)
  {
    if len == 0 then []
    else
      WithinBlocks(f, len - 1);
      ContentUpTo(f, n, len - 1) + [ByteAt(f, n, len - 1)]
  }

  /** The part of the content from offset on, count bytes at most. */
  function Slice(c: seq<byte>, offset: nat, count: nat): seq<byte> {
    c[Min(offset, |c|)..Min(offset + count, |c|)]
  }

  lemma SlicesCompose(c: seq<byte>, offset: nat, a: nat, b: nat)
    ensures Slice(c, offset, a + b) == Slice(c, offset, a) + Slice(c, offset + a, b)
  {
  }

  // ---------------------------------------------------------------- reading

  ghost predicate AllReadable(f: Image, n: Inode, from: nat, to: nat)
    requires f.blockSize > 0 && |n.blocks| == DIRECT && to <= Capacity(f)
  {
    forall p | from <= p < to && p / f.blockSize < DIRECT :: Readable(f, n, p)
  }

  /** The first k bytes of the buffer hold the file's bytes from offset on. */
  ghost predicate Holds(f: Image, n: Inode, offset: nat, d: seq<byte>, k: nat)
    requires f.blockSize > 0 && |n.blocks| == DIRECT && k <= |d|
  {
    forall i | 0 <= i < k :: IsByte(f, n, offset + i, d[i])
  }

  ghost predicate IsByte(f: Image, n: Inode, pos: nat, b: byte)
    requires f.blockSize > 0 && |n.blocks| == DIRECT
  {
    pos / f.blockSize < DIRECT && b == ByteAt(f, n, pos)
  }

  /** The positions of one chunk lie in one block. */
  lemma SameBlock(bs: nat, pos: nat, j: nat)
    requires bs > 0 && pos % bs + j < bs
    ensures (pos + j) / bs == pos / bs && (pos + j) % bs == pos % bs + j
  {
    assert pos == bs * (pos / bs) + pos % bs;
    DivUnique(pos + j, bs, pos / bs, pos % bs + j);
  }

  /** A chunk of a block, or zeros for a hole. */
  function Chunk(f: Image, b: nat, o: nat, chunk: nat): (c: seq<byte>)
    requires o + chunk <= f.blockSize && BlockOk(f, b)
    ensures |c| == chunk
  {
    if b == 0 then seq(chunk, _ => 0) else f.disk[b * f.blockSize + o..b * f.blockSize + o + chunk]
  }

  lemma ChunkByte(f: Image, b: nat, o: nat, chunk: nat, j: nat)
    requires o + chunk <= f.blockSize && BlockOk(f, b) && j < chunk
    ensures b == 0 ==> Chunk(f, b, o, chunk)[j] == 0
    ensures b != 0 ==> 0 <= b * f.blockSize + (o + j) < |f.disk| && Chunk(f, b, o, chunk)[j] == f.disk[b * f.blockSize + (o + j)]
  {
    if b != 0 {
      InBlock(f, b, o + j);
    }
  }

  lemma ChunkBytes(f: Image, n: Inode, pos: nat, chunk: nat, j: nat)
    requires f.blockSize > 0 && |n.blocks| == DIRECT && pos / f.blockSize < DIRECT
    requires pos % f.blockSize + chunk <= f.blockSize && j < chunk
    requires BlockOk(f, n.blocks[pos / f.blockSize])
    ensures IsByte(f, n, pos + j, Chunk(f, n.blocks[pos / f.blockSize], pos % f.blockSize, chunk)[j])
  {
    hide Chunk, BlockOk;
    SameBlock(f.blockSize, pos, j);
    ChunkByte(f, n.blocks[pos / f.blockSize], pos % f.blockSize, chunk, j);
  }

  method Store(dst: array<byte>, at: nat, src: seq<byte>)
    requires at + |src| <= dst.Length
    modifies dst
    ensures forall i | 0 <= i < dst.Length :: dst[i] == if at <= i < at + |src| then src[i - at] else old(dst[i])
  {
    for j := 0 to |src|
      invariant forall i | 0 <= i < dst.Length :: dst[i] == if at <= i < at + j then src[i - at] else old(dst[i])
    {
      dst[at + j] := src[j];
    }
  }

  /** Fill one chunk of the buffer. */
  method CopyChunk(f: Image, n: Inode, dst: array<byte>, offset: nat, done: nat, chunk: nat)
    requires f.blockSize > 0 && |n.blocks| == DIRECT && done + chunk <= dst.Length
    requires (offset + done) / f.blockSize < DIRECT && (offset + done) % f.blockSize + chunk <= f.blockSize
    requires BlockOk(f, n.blocks[(offset + done) / f.blockSize]) && Holds(f, n, offset, dst[..], done)
    modifies dst
    ensures Holds(f, n, offset, dst[..], done + chunk)
    ensures forall i | done + chunk <= i < dst.Length :: dst[i] == old(dst[i])
  {
    hide IsByte, Chunk, BlockOk;
    ghost var was := dst[..];
    var pos := offset + done;
    var data := Chunk(f, n.blocks[pos / f.blockSize], pos % f.blockSize, chunk);
    Store(dst, done, data);
    forall i | 0 <= i < done + chunk
      ensures IsByte(f, n, offset + i, dst[..][i])
    {
      if i < done {
        assert IsByte(f, n, offset + i, was[i]);
      } else {
        ChunkBytes(f, n, pos, chunk, i - done);
        assert pos + (i - done) == offset + i;
      }
    }
  }

  /** What one round of the loop comes to. */
  datatype Round = PastBlocks | BadBlock | Copied(chunk: nat)

  /** Read on to the end of the block that byte `done` lies in, or to the count. */
  method ReadChunk(f: Image, n: Inode, dst: array<byte>, offset: nat, done: nat, count: nat) returns (r: Round)
    requires f.blockSize > 0 && |n.blocks| == DIRECT && done < count <= dst.Length
    requires Holds(f, n, offset, dst[..], done) && AllReadable(f, n, offset, Min(offset + done, Capacity(f)))
    modifies dst
    ensures r.PastBlocks? ==> offset + done >= Capacity(f)
    ensures r.BadBlock? ==> !AllReadable(f, n, offset, Min(offset + count, Capacity(f)))
    ensures !r.Copied? ==> dst[..] == old(dst[..])
    ensures r.Copied? ==>
              && 0 < r.chunk <= count - done && offset + done + r.chunk <= Capacity(f)
              && Holds(f, n, offset, dst[..], done + r.chunk)
              && AllReadable(f, n, offset, Min(offset + done + r.chunk, Capacity(f)))
              && forall i | done + r.chunk <= i < dst.Length :: dst[i] == old(dst[i])
  {
    hide AllReadable, Holds, BlockOk, NextChunk;
    var pos := offset + done;
    WithinBlocks(f, pos);
    if pos / f.blockSize >= DIRECT {
      return PastBlocks;
    }
    if !BlockOk(f, n.blocks[pos / f.blockSize]) {
      NotReadable(f, n, offset, pos, Min(offset + count, Capacity(f)));
      return BadBlock;
    }
    var chunk := NextChunk(f, pos, count - done);
    CopyChunk(f, n, dst, offset, done, chunk);
    ChunkReadable(f, n, offset, done, chunk);
    return Copied(chunk);
  }

  /** Read count bytes block by block, stopping where the direct blocks end. */
  method ReadBlocks(f: Image, n: Inode, dst: array<byte>, offset: nat, count: nat) returns (r: Result<nat>)
    requires f.blockSize > 0 && |n.blocks| == DIRECT && count <= dst.Length
    modifies dst
    ensures r.Ok? <==> AllReadable(f, n, offset, Min(offset + count, Capacity(f)))
    ensures r.Err? ==> r.error == IoError
    ensures r.Ok? ==> r.value == if offset < Capacity(f) then Min(offset + count, Capacity(f)) - offset else 0
    ensures r.Ok? ==> r.value <= count && Holds(f, n, offset, dst[..], r.value)
    ensures forall i | (if r.Ok? then r.value else count) <= i < dst.Length :: dst[i] == old(dst[i])
  {
    hide AllReadable, Holds, Capacity;
    var done := 0;
    NothingRead(f, n, offset, dst[..]);
    while done < count
      invariant done <= count && (done > 0 ==> offset + done <= Capacity(f))
      invariant Holds(f, n, offset, dst[..], done)
      invariant AllReadable(f, n, offset, Min(offset + done, Capacity(f)))
      invariant forall i | done <= i < dst.Length :: dst[i] == old(dst[i])
    {
      var round := ReadChunk(f, n, dst, offset, done, count);
      match round
      case PastBlocks => return Ok(done);
      case BadBlock => return Err(IoError);
      case Copied(chunk) => done := done + chunk;
    }
    return Ok(done);
  }

  lemma NothingRead(f: Image, n: Inode, offset: nat, d: seq<byte>)
    requires f.blockSize > 0 && |n.blocks| == DIRECT
    ensures Holds(f, n, offset, d, 0) && AllReadable(f, n, offset, Min(offset, Capacity(f)))
  {
  }

  lemma NotReadable(f: Image, n: Inode, offset: nat, pos: nat, to: nat)
    requires f.blockSize > 0 && |n.blocks| == DIRECT && offset <= pos < to <= Capacity(f)
    requires pos / f.blockSize < DIRECT && !BlockOk(f, n.blocks[pos / f.blockSize])
    ensures !AllReadable(f, n, offset, to)
  {
    assert !Readable(f, n, pos);
  }

  /** What is left of the block at pos, and of the count. */
  function NextChunk(f: Image, pos: nat, left: nat): (chunk: nat)
    requires f.blockSize > 0 && left > 0
    ensures 0 < chunk <= left && pos % f.blockSize + chunk <= f.blockSize
  {
    Min(f.blockSize - pos % f.blockSize, left)
  }

  lemma ChunkReadable(f: Image, n: Inode, offset: nat, done: nat, chunk: nat)
    requires f.blockSize > 0 && |n.blocks| == DIRECT
    requires (offset + done) / f.blockSize < DIRECT && (offset + done) % f.blockSize + chunk <= f.blockSize
    requires BlockOk(f, n.blocks[(offset + done) / f.blockSize])
    requires AllReadable(f, n, offset, Min(offset + done, Capacity(f)))
    ensures offset + done + chunk <= Capacity(f)
    ensures AllReadable(f, n, offset, Min(offset + done + chunk, Capacity(f)))
  {
    var pos := offset + done;
    WithinBlocks(f, pos);
    assert pos == f.blockSize * (pos / f.blockSize) + pos % f.blockSize;
    MulMono(pos / f.blockSize + 1, DIRECT, f.blockSize);
    assert (pos / f.blockSize + 1) * f.blockSize == f.blockSize * (pos / f.blockSize) + f.blockSize;
    forall p | offset <= p < offset + done + chunk && p / f.blockSize < DIRECT
      ensures Readable(f, n, p)
    {
      if p >= pos {
        SameBlock(f.blockSize, pos, p - pos);
      }
    }
  }

  predicate Regular(n: Inode) {
    n.mode / 0x1000 % 16 == 8
  }

  /** The count after it is cut at the file's end; the sum is a 64-bit one. */
  function Clamp(offset: nat, count: nat, size: nat): nat
    requires offset < size
  {
    if (offset + count) % U64 > size then size - offset else count
  }

  /** The 64-bit sum of offset and count does not wrap, or wraps to something past the file's end. */
  predicate SumSeen(offset: nat, count: nat, size: nat) {
    offset + count < U64 || (offset + count) % U64 > size
  }

  /** That is exactly when the cut keeps the read inside the file. */
  lemma ClampStaysInsideIff(offset: nat, count: nat, size: nat)
    requires offset < size < U64 && count < U64
    ensures offset + Clamp(offset, count, size) <= size <==> SumSeen(offset, count, size)
  {
  }

  /** The file as a read sees it: where the sum wraps unseen, one that goes on to the end of the read. */
  function AsSeen(n: Inode, offset: nat, count: nat): Inode {
    if offset >= n.size || SumSeen(offset, count, n.size) then n else n.(size := offset + count)
  }

  lemma PastEnd(n: Inode, offset: nat, count: nat)
    requires offset >= n.size
    ensures AsSeen(n, offset, count) == n
  {
  }

  /** The count cut at the end of the file as it is seen. */
  lemma ClampSeen(n: Inode, offset: nat, count: nat)
    requires offset < n.size < U64 && count < U64
    ensures var c, m := Clamp(offset, count, n.size), AsSeen(n, offset, count);
            && c <= count && offset + c == Min(offset + count, m.size) && m.blocks == n.blocks
            && offset < m.size && (offset + c <= m.size)
  {
    ClampStaysInsideIff(offset, count, n.size);
  }

  /** A sum that wraps to zero goes unnoticed. */
  lemma WrappedSumPassesEnd()
    ensures 1 + Clamp(1, U64 - 1, 2) > 2
  {
  }

  /** The bytes held are the file's content from offset on. */
  lemma HoldsSlice(f: Image, n: Inode, offset: nat, count: nat, d: seq<byte>, k: nat)
    requires f.blockSize > 0 && |n.blocks| == DIRECT && k <= |d| && Holds(f, n, offset, d, k)
    requires offset < n.size && offset + count <= n.size
    requires k == if offset < Capacity(f) then Min(offset + count, Capacity(f)) - offset else 0
    ensures d[..k] == Slice(Content(f, n), offset, count)
  {
    hide ByteAt;
    var c := Content(f, n);
    var part := Slice(c, offset, count);
    assert |part| == k;
    forall i | 0 <= i < k
      ensures d[i] == part[i]
    {
      assert IsByte(f, n, offset + i, d[i]);
      assert part[i] == c[offset + i];
    }
  }

  /** The part of the file to be read lies in readable blocks. */
  ghost predicate Intact(f: Image, n: Inode, offset: nat, count: nat)
    requires f.blockSize > 0 && |n.blocks| == DIRECT
  {
    AllReadable(f, n, offset, Min(Min(offset + count, n.size), Capacity(f)))
  }

  /** What a read of a regular file's inode leaves in the buffer. */
  ghost predicate ReadOk(f: Image, n: Inode, offset: nat, count: nat, before: seq<byte>, after: seq<byte>, r: Result<nat>)
    requires f.blockSize > 0 && |n.blocks| == DIRECT
  {
    if !Intact(f, n, offset, count) then
      r == Err(IoError) && |after| == |before| && forall i | count <= i < |after| :: after[i] == before[i]
    else
      var s := Slice(Content(f, n), offset, count);
      r == Ok(|s|) && |s| <= |after| == |before| && after[..|s|] == s && after[|s|..] == before[|s|..]
  }

  ghost predicate IsFile(f: Image, ino: nat)
    requires Mounted(f)
  {
    f.mounted && ReadInode(f, ino).Ok? && Regular(ReadInode(f, ino).value)
  }

  /** What holds of the blocks does not depend on the size. */
  lemma SizeUnused(f: Image, n: Inode, m: Inode, offset: nat, to: nat, d: seq<byte>, k: nat)
    requires f.blockSize > 0 && |n.blocks| == DIRECT && m.blocks == n.blocks && to <= Capacity(f) && k <= |d|
    ensures AllReadable(f, m, offset, to) == AllReadable(f, n, offset, to)
    ensures Holds(f, n, offset, d, k) ==> Holds(f, m, offset, d, k)
  {
    hide ByteAt;
    assert forall p: nat | p / f.blockSize < DIRECT ::
        ByteAt(f, m, p) == ByteAt(f, n, p) && Readable(f, m, p) == Readable(f, n, p) by {
      forall p: nat | p / f.blockSize < DIRECT
        ensures ByteAt(f, m, p) == ByteAt(f, n, p) && Readable(f, m, p) == Readable(f, n, p)
      {
        SameByte(f, n, m, p);
      }
    }
    if Holds(f, n, offset, d, k) {
      assert forall i | 0 <= i < k :: IsByte(f, n, offset + i, d[i]);
    }
  }

  lemma SameByte(f: Image, n: Inode, m: Inode, pos: nat)
    requires f.blockSize > 0 && |n.blocks| == DIRECT && m.blocks == n.blocks && pos / f.blockSize < DIRECT
    ensures ByteAt(f, m, pos) == ByteAt(f, n, pos)
  {
  }

  /** Read count bytes of a regular file from offset on: exactly that slice of its content, or an error. */
  method ReadFile(f: Image, ino: nat, dst: array?<byte>, offset: nat, count: nat) returns (r: Result<nat>)
    requires Mounted(f) && offset < U64 && count < U64 && (dst != null ==> count <= dst.Length)
    modifies if dst == null then {} else {dst}
    ensures !f.mounted ==> r == Err(IoError)
    ensures f.mounted && dst == null ==> r == Err(Invalid)
    ensures f.mounted && dst != null && ReadInode(f, ino).Err? ==> r == Err(ReadInode(f, ino).error)
    ensures f.mounted && dst != null && ReadInode(f, ino).Ok? ==>
              var n := ReadInode(f, ino).value;
              if !Regular(n) then r == Err(Invalid)
              else ReadOk(f, AsSeen(n, offset, count), offset, count, old(dst[..]), dst[..], r)
    ensures dst != null && !IsFile(f, ino) ==> dst[..] == old(dst[..])
  {
    hide AllReadable, Holds, ReadInode, Content, Clamp, AsSeen;
    if !f.mounted {
      return Err(IoError);
    }
    if dst == null {
      return Err(Invalid);
    }
    var found := ReadInode(f, ino);
    if found.Err? {
      return Err(found.error);
    }
    var n := found.value;
    if !Regular(n) {
      return Err(Invalid);
    }
    if offset >= n.size {
      PastEnd(n, offset, count);
      NothingToRead(f, n, offset, count);
      return Ok(0);
    }
    var clamped := Clamp(offset, count, n.size);
    ghost var m := AsSeen(n, offset, count);
    ClampSeen(n, offset, count);
    r := ReadBlocks(f, n, dst, offset, clamped);
    SizeUnused(f, n, m, offset, Min(offset + clamped, Capacity(f)), dst[..], if r.Ok? then r.value else 0);
    if r.Ok? {
      HoldsSlice(f, m, offset, clamped, dst[..], r.value);
      assert Slice(Content(f, m), offset, clamped) == Slice(Content(f, m), offset, count);
    }
  }

  lemma NothingToRead(f: Image, n: Inode, offset: nat, count: nat)
    requires f.blockSize > 0 && |n.blocks| == DIRECT && offset >= n.size
    ensures Intact(f, n, offset, count) && Slice(Content(f, n), offset, count) == []
  {
  }

  /** The part read by two adjacent reads is readable exactly when both are. */
  lemma IntactSplits(f: Image, n: Inode, offset: nat, a: nat, b: nat)
    requires f.blockSize > 0 && |n.blocks| == DIRECT
    ensures Intact(f, n, offset, a + b) <==> Intact(f, n, offset, a) && Intact(f, n, offset + a, b)
  {
    hide Readable;
  }

  /** Two adjacent reads make one: the bytes they return, one after the other, are those a single read
      returns, and that one fails exactly when one of the two does. */
  lemma ReadsCompose(f: Image, n: Inode, offset: nat, a: nat, b: nat,
                     first: (seq<byte>, seq<byte>, Result<nat>), second: (seq<byte>, seq<byte>, Result<nat>),
                     both: (seq<byte>, seq<byte>, Result<nat>))
    requires f.blockSize > 0 && |n.blocks| == DIRECT
    requires ReadOk(f, n, offset, a, first.0, first.1, first.2)
    requires ReadOk(f, n, offset + a, b, second.0, second.1, second.2)
    requires ReadOk(f, n, offset, a + b, both.0, both.1, both.2)
    ensures both.2.Ok? <==> first.2.Ok? && second.2.Ok?
    ensures both.2.Ok? ==>
              && both.2.value == first.2.value + second.2.value
              && both.1[..both.2.value] == first.1[..first.2.value] + second.1[..second.2.value]
  {
    hide Intact, Content;
    IntactSplits(f, n, offset, a, b);
    SlicesCompose(Content(f, n), offset, a, b);
  }

  /** The bytes read so far are the start of the file, and all of that start was readable. */
  ghost predicate ReadSoFar(f: Image, n: Inode, data: seq<byte>)
    requires f.blockSize > 0 && |n.blocks| == DIRECT
  {
    data <= Content(f, n) && Intact(f, n, 0, |data|)
  }

  /** One more read where the bytes so far end: what it adds, and what it means when it adds nothing. */
  lemma ReadOn(f: Image, n: Inode, data: seq<byte>, count: nat, before: seq<byte>, after: seq<byte>, r: Result<nat>)
    requires f.blockSize > 0 && |n.blocks| == DIRECT && ReadSoFar(f, n, data) && count > 0
    requires ReadOk(f, n, |data|, count, before, after, r)
    ensures r.Err? ==> r.error == IoError && !Intact(f, n, 0, n.size)
    ensures r.Ok? ==> r.value <= |after| && ReadSoFar(f, n, data + after[..r.value])
    ensures r == Ok(0) ==> data == Content(f, n) && Intact(f, n, 0, n.size)
  {
    hide Readable, Content, AllReadable;
    var c := Content(f, n);
    IntactSplits(f, n, 0, |data|, count);
    if r.Ok? {
      var s := Slice(c, |data|, count);
      assert data + s == c[..|data| + |s|];
      assert |data| + |s| == Min(|data| + count, |c|);
    }
    IntactWhole(f, n, |data| + count);
  }

  lemma IntactWhole(f: Image, n: Inode, to: nat)
    requires f.blockSize > 0 && |n.blocks| == DIRECT
    ensures Intact(f, n, 0, n.size) ==> Intact(f, n, 0, to)
    ensures Intact(f, n, 0, to) ==> Intact(f, n, 0, Min(to, |Content(f, n)|))
    ensures Intact(f, n, 0, to) && to >= |Content(f, n)| ==> Intact(f, n, 0, n.size)
  {
    hide Readable;
  }

  /** Reading on with a buffer of any size until a read returns nothing gives the whole content, or the
      error when some block of it cannot be read. */
  method ReadInPieces(f: Image, ino: nat, buf: array<byte>) returns (r: Result<seq<byte>>)
    requires Mounted(f) && 0 < buf.Length <= U64 - 0x1_0000_0000
    modifies buf
    ensures !f.mounted ==> r == Err(IoError)
    ensures f.mounted && ReadInode(f, ino).Err? ==> r == Err(ReadInode(f, ino).error)
    ensures f.mounted && ReadInode(f, ino).Ok? && !IsFile(f, ino) ==> r == Err(Invalid)
    ensures IsFile(f, ino) ==>
              var n := ReadInode(f, ino).value;
              r == if Intact(f, n, 0, n.size) then Ok(Content(f, n)) else Err(IoError)
  {
    hide Intact, Content, ReadInode, ReadOk, Slice;
    var data: seq<byte> := [];
    if IsFile(f, ino) {
      StartRead(f, ReadInode(f, ino).value);
    }
    while true
      invariant !IsFile(f, ino) ==> data == []
      invariant IsFile(f, ino) ==> ReadSoFar(f, ReadInode(f, ino).value, data)
      decreases if IsFile(f, ino) then |Content(f, ReadInode(f, ino).value)| - |data| else 0
    {
      hide ReadSoFar;
      ghost var before := buf[..];
      assert IsFile(f, ino) ==> |data| <= |Content(f, ReadInode(f, ino).value)|;
      var got := ReadFile(f, ino, buf, |data|, buf.Length);
      if got.Err? {
        if IsFile(f, ino) {
          ReadOn(f, ReadInode(f, ino).value, data, buf.Length, before, buf[..], got);
        }
        return Err(got.error);
      }
      ReadOn(f, ReadInode(f, ino).value, data, buf.Length, before, buf[..], got);
      if got.value == 0 {
        return Ok(data);
      }
      data := data + buf[..got.value];
    }
  }

  lemma StartRead(f: Image, n: Inode)
    requires f.blockSize > 0 && |n.blocks| == DIRECT
    ensures ReadSoFar(f, n, [])
  {
  }
}
