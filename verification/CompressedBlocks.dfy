/** The resource fork of a compressed file: a header, a table of blocks, and the blocks. */
module CompressedBlocks {
  import opened Bits
  import opened Codecs
  import opened Collections
  import opened Extents
  import opened HfsRawFile
  import opened HfsFileRuns
  import opened Numbers

  const CHUNK := 0x1_0000

  datatype Block = Block(offset: nat, size: nat)

  // ----- Chunks -----

  /** How many chunks a file is cut into. */
  function Chunks(size: nat): nat {
    (size + 0xFFFF) / CHUNK
  }

  function ChunkEnd(size: nat, i: nat): nat {
    if size - CHUNK * i > CHUNK then CHUNK * i + CHUNK else size
  }

  lemma ChunkBounds(size: nat, i: nat)
    ensures i < Chunks(size) <==> CHUNK * i < size
    ensures i < Chunks(size) ==> CHUNK * i < ChunkEnd(size, i) <= size && ChunkEnd(size, i) <= CHUNK * i + CHUNK
    ensures i + 1 < Chunks(size) ==> ChunkEnd(size, i) == CHUNK * (i + 1)
  {}

  ghost function ChunkAt(s: seq<Byte>, i: nat): (c: seq<Byte>)
    requires i < Chunks(|s|)
    ensures 0 < |c| <= CHUNK
  {
    ChunkBounds(|s|, i);
    s[CHUNK * i..ChunkEnd(|s|, i)]
  }

  /** A block of the fork holds a chunk. */
  ghost predicate Holds(c: Codec, fork: seq<Byte>, base: nat, b: Block, chunk: seq<Byte>) {
    base + b.offset + b.size <= |fork| && c.inflate(fork[base + b.offset..base + b.offset + b.size]) == chunk
  }

  /** The blocks hold the chunks of the contents. */
  ghost predicate Stored(c: Codec, fork: seq<Byte>, base: nat, blocks: seq<Block>, contents: seq<Byte>) {
    && |blocks| == Chunks(|contents|)
    && forall i: nat | i < |blocks| :: Holds(c, fork, base, blocks[i], ChunkAt(contents, i))
  }

  // ----- Writing to the fork -----

  /** Bytes written to a file that grows if need be. */
  ghost function Put(f: seq<Byte>, at: nat, data: seq<Byte>): seq<Byte> {
    PlainWrite(f, WriteOp(at, data))
  }

  lemma PutInside(f: seq<Byte>, at: nat, data: seq<Byte>)
    ensures at + |data| <= |Put(f, at, data)| && Put(f, at, data)[at..at + |data|] == data && |f| <= |Put(f, at, data)|
  {}

  lemma PutElsewhere(f: seq<Byte>, at: nat, data: seq<Byte>, i: nat, j: nat)
    requires i <= j <= |f| && (j <= at || at + |data| <= i)
    ensures j <= |Put(f, at, data)| && Put(f, at, data)[i..j] == f[i..j]
  {
    var g := Put(f, at, data);
    assert j <= |g|;
    forall k | i <= k < j ensures g[k] == f[k] {
      WrittenByte(f, |g|, WriteOp(at, data), k);
    }
    SameSlice(g, f, i, j);
  }

  lemma SameSlice(s: seq<Byte>, t: seq<Byte>, i: nat, j: nat)
    requires i <= j <= |s| && j <= |t| && forall k | i <= k < j :: s[k] == t[k]
    ensures s[i..j] == t[i..j]
  {}

  /** A block is still there if nothing has been written into it. */
  lemma HoldsStill(c: Codec, f: seq<Byte>, base: nat, b: Block, chunk: seq<Byte>, at: nat, data: seq<Byte>)
    requires Holds(c, f, base, b, chunk)
    requires base + b.offset + b.size <= at || at + |data| <= base + b.offset
    ensures Holds(c, Put(f, at, data), base, b, chunk)
  {
    PutElsewhere(f, at, data, base + b.offset, base + b.offset + b.size);
  }

  // ----- The table -----

  /** The table's entries, as bytes. */
  function Entries(blocks: seq<Block>): (b: seq<Byte>)
    requires AllFit(blocks)
    ensures |b| == 8 * |blocks|
  {
    if blocks == [] then []
    else Entries(blocks[..|blocks| - 1]) + Le32(blocks[|blocks| - 1].offset) + Le32(blocks[|blocks| - 1].size)
  }

  ghost predicate AllFit(blocks: seq<Block>) {
    forall i | 0 <= i < |blocks| :: blocks[i].offset < TWO32 && blocks[i].size < TWO32
  }

  lemma {:induction false} EntryAt(blocks: seq<Block>, i: nat)
    requires AllFit(blocks) && i < |blocks|
    ensures Entries(blocks)[8 * i..8 * i + 4] == Le32(blocks[i].offset) && Entries(blocks)[8 * i + 4..8 * i + 8] == Le32(blocks[i].size)
  {
    var n := |blocks| - 1;
    var e := Entries(blocks[..n]);
    if i == n {
      var b := Entries(blocks);
      assert b[8 * n..8 * n + 4] == Le32(blocks[n].offset);
      assert b[8 * n + 4..8 * n + 8] == Le32(blocks[n].size);
    } else {
      EntryAt(blocks[..n], i);
      assert Entries(blocks)[8 * i..8 * i + 4] == e[8 * i..8 * i + 4];
      assert Entries(blocks)[8 * i + 4..8 * i + 8] == e[8 * i + 4..8 * i + 8];
    }
  }

  /** The fork has a table of these blocks. */
  ghost predicate HasTable(fork: seq<Byte>, at: nat, blocks: seq<Block>) {
    && at + 8 + 8 * |blocks| <= |fork| && |blocks| < TWO32 && AllFit(blocks)
    && fork[at + 4..at + 8] == Le32(|blocks|) && fork[at + 8..at + 8 + 8 * |blocks|] == Entries(blocks)
  }

  /** Reading a number out of a table. */
  lemma NumberRead(s: seq<Byte>, at: nat, table: seq<Byte>, k: nat, n: nat)
    requires at + |table| <= |s| && s[at..at + |table|] == table
    requires n < TWO32 && k + 4 <= |table| && table[k..k + 4] == Le32(n)
    ensures ReadLe32(s, at + k) == n
  {
    hide Le32, ReadLe32;
    SliceOfSlice(s, at, |table|, k, 4);
    Le32Read(s, at + k, n);
  }

  /** Reading an entry of the table. */
  lemma TableRead(fork: seq<Byte>, at: nat, blocks: seq<Block>, i: nat)
    requires HasTable(fork, at, blocks) && i < |blocks|
    ensures at + 16 + 8 * i <= |fork|
    ensures Block(ReadLe32(fork, at + 8 + 8 * i), ReadLe32(fork, at + 12 + 8 * i)) == blocks[i]
  {
    hide Le32, Entries, ReadLe32;
    EntryAt(blocks, i);
    NumberRead(fork, at + 8, Entries(blocks), 8 * i, blocks[i].offset);
    NumberRead(fork, at + 8, Entries(blocks), 8 * i + 4, blocks[i].size);
  }

  lemma CountRead(fork: seq<Byte>, at: nat, blocks: seq<Block>)
    requires HasTable(fork, at, blocks)
    ensures ReadLe32(fork, at + 4) == |blocks|
  {
    Le32Read(fork, at + 4, |blocks|);
  }

  // ----- Laying out -----

  /** How many bytes the first i chunks take when they are compressed. */
  ghost function DeflatedUpTo(c: Codec, contents: seq<Byte>, i: nat): nat
    requires i <= Chunks(|contents|)
  {
    if i == 0 then 0 else DeflatedUpTo(c, contents, i - 1) + |c.deflate(ChunkAt(contents, i - 1))|
  }

  lemma {:induction false} DeflatedGrows(c: Codec, contents: seq<Byte>, i: nat, j: nat)
    requires i <= j <= Chunks(|contents|)
    ensures DeflatedUpTo(c, contents, i) <= DeflatedUpTo(c, contents, j)
  {
    if i < j {
      DeflatedGrows(c, contents, i, j - 1);
    }
  }

  /** A chunk has been written behind those before it. */
  ghost predicate LaidAt(c: Codec, fork: seq<Byte>, base: nat, b: Block, contents: seq<Byte>, j: nat, start: nat) {
    && j < Chunks(|contents|)
    && b == Block(start + DeflatedUpTo(c, contents, j), |c.deflate(ChunkAt(contents, j))|)
    && Holds(c, fork, base, b, ChunkAt(contents, j))
  }

  /** The first chunks have been written one behind the other, from an offset on. */
  ghost predicate LaidOut(c: Codec, fork: seq<Byte>, base: nat, blocks: seq<Block>, contents: seq<Byte>, start: nat) {
    && |blocks| <= Chunks(|contents|)
    && forall j: nat | j < |blocks| :: LaidAt(c, fork, base, blocks[j], contents, j, start)
  }

  /** Writing in front of the blocks, or behind them, leaves each of them alone. */
  lemma LaidAtKept(c: Codec, fork: seq<Byte>, base: nat, b: Block, contents: seq<Byte>, j: nat, i: nat, start: nat,
                   at: nat, data: seq<Byte>)
    requires LaidAt(c, fork, base, b, contents, j, start) && j < i <= Chunks(|contents|)
    requires at + |data| <= base + start || at >= base + start + DeflatedUpTo(c, contents, i)
    ensures LaidAt(c, Put(fork, at, data), base, b, contents, j, start)
  {
    hide ChunkAt, Put, Holds, Chunks;
    DeflatedGrows(c, contents, j + 1, i);
    HoldsStill(c, fork, base, b, ChunkAt(contents, j), at, data);
  }

  lemma LayKept(c: Codec, fork: seq<Byte>, base: nat, blocks: seq<Block>, contents: seq<Byte>, start: nat,
                at: nat, data: seq<Byte>)
    requires LaidOut(c, fork, base, blocks, contents, start)
    requires at + |data| <= base + start || at >= base + start + DeflatedUpTo(c, contents, |blocks|)
    ensures LaidOut(c, Put(fork, at, data), base, blocks, contents, start)
  {
    hide LaidAt, Put, Chunks, DeflatedUpTo;
    forall j: nat | j < |blocks| ensures LaidAt(c, Put(fork, at, data), base, blocks[j], contents, j, start) {
      LaidAtKept(c, fork, base, blocks[j], contents, j, |blocks|, start, at, data);
    }
  }

  /** A compressed chunk written at a block's place can be read back. */
  lemma HoldsNow(c: Codec, f: seq<Byte>, base: nat, b: Block, chunk: seq<Byte>)
    requires c.inflate(c.deflate(chunk)) == chunk && b.size == |c.deflate(chunk)|
    ensures Holds(c, Put(f, base + b.offset, c.deflate(chunk)), base, b, chunk)
  {
    hide Put;
    PutInside(f, base + b.offset, c.deflate(chunk));
  }

  /** One chunk more. */
  lemma LayOne(c: Codec, fork: seq<Byte>, base: nat, blocks: seq<Block>, contents: seq<Byte>, start: nat)
    requires Inverse(c) && LaidOut(c, fork, base, blocks, contents, start) && |blocks| < Chunks(|contents|)
    ensures var data, offset := c.deflate(ChunkAt(contents, |blocks|)), start + DeflatedUpTo(c, contents, |blocks|);
      LaidOut(c, Put(fork, base + offset, data), base, blocks + [Block(offset, |data|)], contents, start)
  {
    hide ChunkAt, Put, Holds, DeflatedUpTo, Chunks;
    var i := |blocks|;
    var data, offset := c.deflate(ChunkAt(contents, i)), start + DeflatedUpTo(c, contents, i);
    var fork', blocks' := Put(fork, base + offset, data), blocks + [Block(offset, |data|)];
    LayKept(c, fork, base, blocks, contents, start, base + offset, data);
    HoldsNow(c, fork, base, Block(offset, |data|), ChunkAt(contents, i));
    Appended(c, fork', base, blocks, Block(offset, |data|), contents, start);
  }

  lemma Appended(c: Codec, fork: seq<Byte>, base: nat, blocks: seq<Block>, b: Block, contents: seq<Byte>, start: nat)
    requires LaidOut(c, fork, base, blocks, contents, start) && LaidAt(c, fork, base, b, contents, |blocks|, start)
    ensures LaidOut(c, fork, base, blocks + [b], contents, start)
  {
    assert |blocks| < Chunks(|contents|);
    hide LaidAt, Chunks;
  }

  /** All chunks laid out are all chunks stored, and their numbers fit into the table. */
  lemma LaidIsStored(c: Codec, fork: seq<Byte>, base: nat, blocks: seq<Block>, contents: seq<Byte>, start: nat)
    requires LaidOut(c, fork, base, blocks, contents, start) && |blocks| == Chunks(|contents|)
    requires start + DeflatedUpTo(c, contents, |blocks|) < TWO32
    ensures Stored(c, fork, base, blocks, contents) && AllFit(blocks)
  {
    hide ChunkAt, Holds, Chunks;
    forall j | 0 <= j < |blocks|
      ensures blocks[j].offset < TWO32 && blocks[j].size < TWO32
      ensures Holds(c, fork, base, blocks[j], ChunkAt(contents, j))
    {
      assert LaidAt(c, fork, base, blocks[j], contents, j, start);
      DeflatedGrows(c, contents, j + 1, |blocks|);
    }
  }

  // ----- The finished fork -----

  const HEADER_SIZE := 0x100

  /** The blocks' offsets count from the table's second word. */
  const BASE := HEADER_SIZE + 4

  /** The offset of the first block: behind the table. */
  function FirstOffset(n: nat): nat {
    4 + 8 * n
  }

  function Head(totalSize: nat, dataSize: nat): (b: seq<Byte>)
    requires totalSize < TWO32 && dataSize < TWO32
    ensures |b| == 16
  {
    Be32(HEADER_SIZE) + Be32(totalSize) + Be32(dataSize) + Be32(0x32)
  }

  function Table(dataSize: nat, blocks: seq<Block>): (b: seq<Byte>)
    requires dataSize < TWO32 && |blocks| < TWO32 && AllFit(blocks)
    ensures |b| == 8 + 8 * |blocks|
  {
    Be32(dataSize) + Le32(|blocks|) + Entries(blocks)
  }

  /** The fork names its header's size, and holds a table behind the header and the blocks that are in it. */
  ghost predicate StoredInFork(c: Codec, fork: seq<Byte>, blocks: seq<Block>, contents: seq<Byte>) {
    && 16 <= |fork| && ReadBe32(fork, 0) <= |fork|
    && HasTable(fork, ReadBe32(fork, 0), blocks) && Stored(c, fork, ReadBe32(fork, 0) + 4, blocks, contents)
  }

  lemma HeadRead(fork: seq<Byte>, totalSize: nat, dataSize: nat)
    requires totalSize < TWO32 && dataSize < TWO32 && 16 <= |fork| && fork[..16] == Head(totalSize, dataSize)
    ensures ReadBe32(fork, 0) == HEADER_SIZE
  {
    hide Be32, ReadBe32;
    assert fork[0..4] == fork[..16][..4] == Be32(HEADER_SIZE);
    Be32Read(fork, 0, HEADER_SIZE);
  }

  lemma TableHere(fork: seq<Byte>, at: nat, dataSize: nat, blocks: seq<Block>)
    requires dataSize < TWO32 && |blocks| < TWO32 && AllFit(blocks)
    requires at + 8 + 8 * |blocks| <= |fork| && fork[at..at + 8 + 8 * |blocks|] == Table(dataSize, blocks)
    ensures HasTable(fork, at, blocks)
  {
    hide Be32, Le32, Entries, AllFit;
    var n := 8 + 8 * |blocks|;
    SliceOfSlice(fork, at, n, 4, 4);
    SliceOfSlice(fork, at, n, 8, 8 * |blocks|);
    assert Table(dataSize, blocks)[4..8] == Le32(|blocks|);
    assert Table(dataSize, blocks)[8..n] == Entries(blocks);
  }

  /** The whole fork: a header of four numbers, 256 bytes from the beginning the table with its size and the number of
      blocks, the blocks behind it, and at the end a marker of fifty bytes. */
  ghost predicate IsFork(c: Codec, fork: seq<Byte>, blocks: seq<Block>, contents: seq<Byte>) {
    var n, deflated := |blocks|, DeflatedUpTo(c, contents, Chunks(|contents|));
    var total := 0x108 + 8 * n + deflated;
    && n == Chunks(|contents|) && AllFit(blocks) && total < TWO32 && total + 50 <= |fork|
    && LaidOut(c, fork, 0x104, blocks, contents, 4 + 8 * n)
    && fork[..16] == Be32(0x100) + Be32(total) + Be32(total - 0x100) + Be32(0x32)
    && fork[0x100..0x108 + 8 * n] == Be32(total - 0x104) + Le32(n) + Entries(blocks)
    && fork[total..total + 50] == Marker()
  }

  /** Zeros, and the numbers of the marker; it is named "cmpf". */
  ghost function Marker(): (b: seq<Byte>)
    ensures |b| == 50
  {
    Zeros(24) + [0, 0x1C, 0, 0x32, 0, 0] + ['c' as int, 'm' as int, 'p' as int, 'f' as int] + Be32(10) + Le32(0xFFFF01) + Zeros(8)
  }

  /** Once the blocks are laid out, the header in front of them, the table between, and the marker behind
      complete the fork, and disturb nothing. */
  lemma ForkComplete(c: Codec, fork: seq<Byte>, blocks: seq<Block>, contents: seq<Byte>, totalSize: nat, dataSize: nat,
                     blockData: nat, marker: seq<Byte>)
    requires LaidOut(c, fork, BASE, blocks, contents, FirstOffset(|blocks|)) && |blocks| == Chunks(|contents|)
    requires totalSize == BASE + FirstOffset(|blocks|) + DeflatedUpTo(c, contents, |blocks|) < TWO32
    requires totalSize == dataSize + HEADER_SIZE == blockData + BASE && marker == Marker()
    ensures AllFit(blocks) && |blocks| < TWO32
    ensures var f1 := Put(fork, 0, Head(totalSize, dataSize));
      var f3 := Put(Put(f1, HEADER_SIZE, Table(blockData, blocks)), totalSize, marker);
      StoredInFork(c, f3, blocks, contents) && IsFork(c, f3, blocks, contents)
  {
    hide LaidOut, Put, Head, Table, Stored, HasTable, ReadBe32, AllFit, Chunks, DeflatedUpTo, IsFork;
    LaidIsStored(c, fork, BASE, blocks, contents, FirstOffset(|blocks|));
    var head, table := Head(totalSize, dataSize), Table(blockData, blocks);
    var f1 := Put(fork, 0, head);
    var f2 := Put(f1, HEADER_SIZE, table);
    var f3 := Put(f2, totalSize, marker);
    LayKept(c, fork, BASE, blocks, contents, FirstOffset(|blocks|), 0, head);
    LayKept(c, f1, BASE, blocks, contents, FirstOffset(|blocks|), HEADER_SIZE, table);
    LayKept(c, f2, BASE, blocks, contents, FirstOffset(|blocks|), totalSize, marker);
    LaidIsStored(c, f3, BASE, blocks, contents, FirstOffset(|blocks|));
    PutInside(fork, 0, head);
    PutElsewhere(f1, HEADER_SIZE, table, 0, 16);
    PutElsewhere(f2, totalSize, marker, 0, 16);
    HeadRead(f3, totalSize, dataSize);
    PutInside(f1, HEADER_SIZE, table);
    PutElsewhere(f2, totalSize, marker, HEADER_SIZE, HEADER_SIZE + |table|);
    TableHere(f3, HEADER_SIZE, blockData, blocks);
    PutInside(f2, totalSize, marker);
    PartsOfFork(c, f3, blocks, contents, totalSize, dataSize, blockData);
  }

  lemma PartsOfFork(c: Codec, fork: seq<Byte>, blocks: seq<Block>, contents: seq<Byte>, totalSize: nat, dataSize: nat, blockData: nat)
    requires LaidOut(c, fork, BASE, blocks, contents, FirstOffset(|blocks|)) && |blocks| == Chunks(|contents|) && AllFit(blocks)
    requires totalSize == BASE + FirstOffset(|blocks|) + DeflatedUpTo(c, contents, |blocks|) < TWO32
    requires totalSize == dataSize + HEADER_SIZE == blockData + BASE && |blocks| < TWO32
    requires totalSize + 50 <= |fork| && fork[..16] == Head(totalSize, dataSize)
    requires fork[HEADER_SIZE..HEADER_SIZE + |Table(blockData, blocks)|] == Table(blockData, blocks)
    requires fork[totalSize..totalSize + 50] == Marker()
    ensures IsFork(c, fork, blocks, contents)
  {
    hide LaidOut, Be32, Le32, Entries, Marker, Chunks, DeflatedUpTo, AllFit;
  }

  /** A file of one chunk. */
  lemma OneChunk(s: seq<Byte>)
    requires s != [] && Chunks(|s|) <= 1
    ensures Chunks(|s|) == 1 && ChunkAt(s, 0) == s
  {
    ChunkBounds(|s|, 1);
    ChunkBounds(|s|, 0);
  }
}
