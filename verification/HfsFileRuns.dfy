/** Whole runs of writes to one file of a volume, seen as updates of a plain byte array, beside another file. */
module HfsFileRuns {
  import opened Bits
  import opened Extents
  import opened ExtentRecords
  import opened HfsRawFile
  import opened HfsVolume

  datatype WriteOp = WriteOp(at: nat, data: seq<Byte>)

  /** A write to a plain array, which grows with zeros. */
  ghost function PlainWrite(s: seq<Byte>, op: WriteOp): (t: seq<Byte>)
    ensures |t| == Max(|s|, op.at + |op.data|)
  {
    Overwrite(Resized(s, Max(|s|, op.at + |op.data|)), op.at, op.data)
  }

  ghost function Plain(s: seq<Byte>, ops: seq<WriteOp>): seq<Byte> {
    if ops == [] then s else PlainWrite(Plain(s, ops[..|ops| - 1]), ops[|ops| - 1])
  }

  /** The bytes from i up to j are zero. */
  ghost predicate Blank(s: seq<Byte>, i: nat, j: nat) {
    forall k | i <= k < j && k < |s| :: s[k] == 0
  }

  lemma WrittenByte(s: seq<Byte>, size: nat, op: WriteOp, k: nat)
    requires op.at + |op.data| <= size && k < size
    ensures Overwrite(Resized(s, size), op.at, op.data)[k] ==
      if op.at <= k < op.at + |op.data| then op.data[k - op.at] else if k < |s| then s[k] else 0
  {}

  /** A write to the blocks of a file, of which the first n bytes count, is a write to the plain array just
      when no old bytes come to light between the end of the file and the place of the write. */
  lemma WriteIsPlain(blocks: seq<Byte>, n: nat, size: nat, op: WriteOp)
    requires n <= |blocks| && op.at + |op.data| <= size && n <= size
    ensures var n' := Max(n, op.at + |op.data|);
      var blocks' := Overwrite(Resized(blocks, size), op.at, op.data);
      blocks'[..n'] == PlainWrite(blocks[..n], op) <==> Blank(blocks, n, op.at)
  {
    hide Overwrite, Resized;
    var n' := Max(n, op.at + |op.data|);
    var blocks' := Overwrite(Resized(blocks, size), op.at, op.data);
    var plain := PlainWrite(blocks[..n], op);
    forall k | 0 <= k < n'
      ensures blocks'[k] == plain[k] <==> !(n <= k < op.at && k < |blocks| && blocks[k] != 0)
    {
      WrittenByte(blocks, size, op, k);
      WrittenByte(blocks[..n], n', op, k);
    }
    if blocks'[..n'] == plain {
      forall k | n <= k < op.at && k < |blocks| ensures blocks[k] == 0 {
        assert blocks'[..n'][k] == blocks'[k];
      }
    }
  }

  /** Behind the end of the file all stays blank. */
  lemma StaysBlank(blocks: seq<Byte>, n: nat, size: nat, op: WriteOp)
    requires n <= |blocks| && op.at + |op.data| <= size && n <= size && Blank(blocks, n, |blocks|)
    ensures Blank(Overwrite(Resized(blocks, size), op.at, op.data), Max(n, op.at + |op.data|), size)
  {}

  /** Only the first bytes count. */
  ghost function Logical(f: RawFile): seq<Byte>
    requires f.Valid()
    reads f, f.volume, f.volume.allocation, f.volume.image
  {
    f.ContentsLength();
    f.Contents()[..f.logicalSize]
  }

  ghost predicate BlankEnd(f: RawFile)
    requires f.Valid()
    reads f, f.volume, f.volume.allocation, f.volume.image
  {
    Blank(f.Contents(), f.logicalSize, |f.Contents()|)
  }

  /** Two files of one volume. */
  ghost predicate Neighbours(f: RawFile, g: RawFile) {
    f != g && f.volume == g.volume && f.id != g.id
  }

  ghost predicate NoSharing(f: RawFile, g: RawFile)
    reads f`extents, g`extents
  {
    forall b | b in Blocks(g.extents) :: b !in Blocks(f.extents)
  }

  /** What a write to one file leaves of another. */
  lemma NeighbourKept(used0: seq<bool>, used: seq<bool>, image0: seq<Byte>, image: seq<Byte>, size: nat,
                      bs0: seq<nat>, bs: seq<nat>, cs: seq<nat>)
    requires Owned(used0, cs) && Apart(used0, used, bs0, bs) && SameElsewhere(image0, image, size, bs)
    requires |image0| == |used0| * size && forall c | c in cs :: c !in bs0
    ensures Owned(used, cs) && forall c | c in cs :: c !in bs
    ensures Inside(image0, size, cs) && Inside(image, size, cs) && Flat(image, size, cs) == Flat(image0, size, cs)
  {
    OwnedInside(used0, image0, size, cs);
    forall i | 0 <= i < |cs| ensures used[cs[i]] && cs[i] !in bs {
      assert used0[cs[i]] && cs[i] in cs;
    }
    FlatFrame(image0, image, size, cs);
  }

  lemma RecordsKept(fork: seq<Extent>, tree: Tree, tree': Tree, other: nat, id: nat, es: seq<Extent>)
    requires SameForOthers(tree, tree', other) && id != other
    ensures Readable(fork, tree', id, es) <==> Readable(fork, tree, id, es)
    ensures NoOthers(tree', id, es) <==> NoOthers(tree, id, es)
  {
    assert forall b: nat :: (id, b).0 != other;
  }

  /** One write, beside another file. */
  method WriteBeside(f: RawFile, g: RawFile, op: WriteOp) returns (ok: bool)
    requires f.Valid() && g.Valid() && Neighbours(f, g) && NoSharing(f, g)
    requires BlankEnd(f) && op.at + |op.data| > 0 && (op.at + |op.data| > f.logicalSize ==> f.Recorded(f.extents))
    modifies f`extents, f`fork, f`totalBlocks, f`logicalSize, f.volume, f.volume.allocation, f.volume.image
    ensures f.Valid() && g.Valid() && NoSharing(f, g) && BlankEnd(f)
    ensures ok <==> (op.at + |op.data| <= old(f.logicalSize) ||
      BlocksFor(op.at + |op.data|, f.volume.blockSize) <= old(f.totalBlocks) + old(f.volume.freeBlocks))
    ensures Logical(f) == if ok then PlainWrite(old(Logical(f)), op) else old(Logical(f))
    ensures f.totalBlocks + f.volume.freeBlocks == old(f.totalBlocks) + old(f.volume.freeBlocks)
    ensures !ok ==> f.logicalSize == old(f.logicalSize)
    ensures f.Recorded(f.extents) <==>
      if ok && op.at + |op.data| > old(f.logicalSize) then KeysMatch(f.extents) else old(f.Recorded(f.extents))
    ensures g.Contents() == old(g.Contents()) && (g.Recorded(g.extents) <==> old(g.Recorded(g.extents)))
  {
    hide Blocks, Flat, Readable, NoOthers, KeysMatch, SameElsewhere, Apart, SameForOthers, Owned, NoDuplicates;
    hide BitsOf, CountFree, Overwrite, Resized, PlainWrite, Blank;
    ghost var volume, used0, image0, tree0 := f.volume, f.volume.Used(), f.volume.image[..], f.volume.overflow;
    ghost var bs0, cs, n0 := Blocks(f.extents), Blocks(g.extents), f.logicalSize;
    ghost var flat0 := f.Contents();
    f.ContentsLength();
    ok := f.Write(op.at, op.data);
    f.ContentsLength();
    NeighbourKept(used0, volume.Used(), image0, volume.image[..], volume.blockSize, bs0, Blocks(f.extents), cs);
    RecordsKept(g.fork, tree0, volume.overflow, f.id, g.id, g.extents);
    if ok {
      StaysBlank(flat0, n0, |f.Contents()|, op);
      BlankPart(flat0, n0, op.at);
      WriteIsPlain(flat0, n0, |f.Contents()|, op);
    }
  }

  lemma BlankPart(s: seq<Byte>, n: nat, j: nat)
    requires Blank(s, n, |s|)
    ensures Blank(s, n, j)
  {}

  /** Whether the two kinds of key agree. */
  method CheckKeys(es: seq<Extent>) returns (ok: bool)
    ensures ok <==> KeysMatch(es)
  {
    hide FileBlock;
    ok := true;
    var i, block := 0, 0;
    FileStart(es);
    while i < |es|
      invariant 0 <= i <= |es| && block == FileBlock(es, i)
      invariant forall g: nat | First(g) < i :: es[First(g)].startBlock == FileBlock(es, First(g))
    {
      if i >= 8 && i % 8 == 0 && es[i].startBlock != block {
        assert i == First(i / 8 - 1);
        return false;
      }
      FileBlockNext(es, i);
      block := block + es[i].blockCount;
      i := i + 1;
    }
  }

  lemma FileStart(es: seq<Extent>)
    ensures FileBlock(es, 0) == 0
  {
    assert es[..0] == [];
  }

  /** The write is beyond the end of a file whose extents on disk cannot be read, or the volume is full. */
  ghost predicate Stops(f: RawFile, op: WriteOp)
    requires f.Valid()
    reads f, f.volume, f.volume.allocation, f.volume.image
  {
    && op.at + |op.data| > f.logicalSize
    && (!f.Recorded(f.extents) || BlocksFor(op.at + |op.data|, f.volume.blockSize) > f.totalBlocks + f.volume.freeBlocks)
  }

  /** A run of writes, which stops when a write that must grow the file meets extents that cannot be read, or a full
      volume: the file reads as a plain array after the same writes, and the other file as before. */
  method RunWrites(f: RawFile, g: RawFile, ops: seq<WriteOp>, recorded: bool) returns (n: nat)
    requires f.Valid() && g.Valid() && Neighbours(f, g) && NoSharing(f, g)
    requires (recorded <==> f.Recorded(f.extents)) && BlankEnd(f) && forall op | op in ops :: op.at + |op.data| > 0
    modifies f`extents, f`fork, f`totalBlocks, f`logicalSize, f.volume, f.volume.allocation, f.volume.image
    ensures f.Valid() && g.Valid() && NoSharing(f, g) && BlankEnd(f) && n <= |ops|
    ensures Logical(f) == Plain(old(Logical(f)), ops[..n])
    ensures f.totalBlocks + f.volume.freeBlocks == old(f.totalBlocks) + old(f.volume.freeBlocks)
    ensures n < |ops| ==> Stops(f, ops[n])
    ensures g.Contents() == old(g.Contents()) && (g.Recorded(g.extents) <==> old(g.Recorded(g.extents)))
  {
    hide Logical, BlankEnd, NoSharing, KeysMatch, PlainWrite, RawFile.Valid, RawFile.Contents, RawFile.Recorded;
    n := 0;
    var readable := recorded;
    ghost var plain := Logical(f);
    assert ops[..0] == [];
    while n < |ops|
      invariant f.Valid() && g.Valid() && NoSharing(f, g) && BlankEnd(f) && n <= |ops| && (readable <==> f.Recorded(f.extents))
      invariant Logical(f) == Plain(plain, ops[..n])
      invariant f.totalBlocks + f.volume.freeBlocks == old(f.totalBlocks) + old(f.volume.freeBlocks)
      invariant g.Contents() == old(g.Contents()) && (g.Recorded(g.extents) <==> old(g.Recorded(g.extents)))
    {
      var grows := ops[n].at + |ops[n].data| > f.logicalSize;
      if grows && !readable {
        return;
      }
      var ok := WriteBeside(f, g, ops[n]);
      if !ok {
        return;
      }
      assert ops[..n + 1][..n] == ops[..n];
      n := n + 1;
      if grows {
        readable := CheckKeys(f.extents);
      }
    }
    assert ops[..n] == ops;
  }

  /** What is read after a run of writes is what the plain array holds. */
  method RunThenRead(f: RawFile, g: RawFile, ops: seq<WriteOp>, recorded: bool, at: nat, size: nat, buffer: array<Byte>)
    returns (n: nat, ok: bool)
    requires f.Valid() && g.Valid() && Neighbours(f, g) && NoSharing(f, g)
    requires (recorded <==> f.Recorded(f.extents)) && BlankEnd(f) && forall op | op in ops :: op.at + |op.data| > 0
    requires size <= buffer.Length && buffer !in {f.volume.image, f.volume.allocation}
    modifies f`extents, f`fork, f`totalBlocks, f`logicalSize, f.volume, f.volume.allocation, f.volume.image, buffer
    ensures n <= |ops|
    ensures var plain := Plain(old(Logical(f)), ops[..n]);
      0 < size && at + size <= |plain| ==> ok && buffer[..size] == plain[at..at + size]
  {
    hide Plain, PartOf, Logical, BlankEnd, NoSharing, RawFile.Valid, RawFile.Contents, RawFile.Recorded;
    n := RunWrites(f, g, ops, recorded);
    if 0 < |Logical(f)| {
      PlaceInFile(f);
    }
    ghost var plain, flat := Logical(f), f.Contents();
    ok := f.Read(at, size, buffer);
    PartOfLogical(buffer[..size], flat, at, |plain|);
  }

  lemma PlaceInFile(f: RawFile)
    requires f.Valid() && 0 < |Logical(f)|
    ensures f.extents != [] && |Logical(f)| <= |f.Contents()| && Logical(f) == f.Contents()[..|Logical(f)|]
  {
    f.HasExtents();
  }

  lemma PartOfLogical(data: seq<Byte>, flat: seq<Byte>, at: nat, n: nat)
    ensures PartOf(data, flat, at) && at + |data| <= n <= |flat| ==> data == flat[..n][at..at + |data|]
  {}
}
