/** Files as lists of extents: the blocks they name, and the flat byte array those blocks make up. */
module Extents {
  import opened Bits
  import opened Collections
  import opened Numbers

  /** A run of consecutive volume blocks. */
  datatype Extent = Extent(startBlock: nat, blockCount: nat)

  ghost function Range(start: nat, count: nat): (bs: seq<nat>)
    ensures |bs| == count && forall i | 0 <= i < count :: bs[i] == start + i
  {
    seq(count, i requires 0 <= i < count => start + i)
  }

  /** The blocks of a file in file order. */
  ghost function Blocks(es: seq<Extent>): seq<nat> {
    if es == [] then []
    else Blocks(es[..|es| - 1]) + Range(es[|es| - 1].startBlock, es[|es| - 1].blockCount)
  }

  lemma {:induction false} BlocksAppend(es: seq<Extent>, fs: seq<Extent>)
    ensures Blocks(es + fs) == Blocks(es) + Blocks(fs)
  {
    if fs == [] {
      assert es + fs == es;
    } else {
      assert (es + fs)[..|es + fs| - 1] == es + fs[..|fs| - 1];
      BlocksAppend(es, fs[..|fs| - 1]);
    }
  }

  lemma BlocksOfOne(e: Extent)
    ensures Blocks([e]) == Range(e.startBlock, e.blockCount)
  {
    assert [e][..0] == [];
  }

  lemma BlocksAt(es: seq<Extent>, i: nat)
    requires i <= |es|
    ensures Blocks(es) == Blocks(es[..i]) + Blocks(es[i..])
  {
    BlocksAppend(es[..i], es[i..]);
    assert es[..i] + es[i..] == es;
  }

  lemma BlocksFrom(es: seq<Extent>, i: nat)
    requires i < |es|
    ensures Blocks(es[i..]) == Range(es[i].startBlock, es[i].blockCount) + Blocks(es[i + 1..])
  {
    hide Range;
    BlocksOfOne(es[i]);
    BlocksAppend([es[i]], es[i + 1..]);
    assert es[i..] == [es[i]] + es[i + 1..];
  }

  lemma BlocksUpTo(es: seq<Extent>, i: nat)
    requires i < |es|
    ensures Blocks(es[..i + 1]) == Blocks(es[..i]) + Range(es[i].startBlock, es[i].blockCount)
  {
    assert es[..i + 1][..i] == es[..i];
  }

  ghost predicate NoDuplicates(bs: seq<nat>) {
    forall i, j | 0 <= i < j < |bs| :: bs[i] != bs[j]
  }

  // ----- Bytes -----

  /** The blocks lie inside an image of blocks of the given size. */
  ghost predicate Inside(image: seq<Byte>, size: nat, bs: seq<nat>) {
    forall i | 0 <= i < |bs| :: Fits(image, size, bs[i])
  }

  ghost predicate Fits(image: seq<Byte>, size: nat, b: nat) {
    b * size + size <= |image|
  }

  ghost function BlockAt(image: seq<Byte>, size: nat, b: nat): (s: seq<Byte>)
    requires Fits(image, size, b)
    ensures |s| == size
  {
    image[b * size..b * size + size]
  }

  /** The flat byte array that a list of blocks makes up. */
  ghost function Flat(image: seq<Byte>, size: nat, bs: seq<nat>): (s: seq<Byte>)
    requires Inside(image, size, bs)
    ensures |s| == |bs| * size
  {
    if bs == [] then []
    else
      MulNext(|bs| - 1, size);
      Flat(image, size, bs[..|bs| - 1]) + BlockAt(image, size, bs[|bs| - 1])
  }

  lemma {:induction false} FlatAppend(image: seq<Byte>, size: nat, bs: seq<nat>, cs: seq<nat>)
    requires Inside(image, size, bs) && Inside(image, size, cs)
    ensures Inside(image, size, bs + cs)
    ensures Flat(image, size, bs + cs) == Flat(image, size, bs) + Flat(image, size, cs)
  {
    if cs == [] {
      assert bs + cs == bs;
    } else {
      assert (bs + cs)[..|bs + cs| - 1] == bs + cs[..|cs| - 1];
      FlatAppend(image, size, bs, cs[..|cs| - 1]);
    }
  }

  /** Consecutive blocks are consecutive bytes of the image. */
  lemma {:induction false} FlatRange(image: seq<Byte>, size: nat, start: nat, count: nat)
    requires Inside(image, size, Range(start, count)) && start * size <= |image|
    ensures 0 <= start * size <= start * size + count * size <= |image|
    ensures Flat(image, size, Range(start, count)) == image[start * size..start * size + count * size]
  {
    if count > 0 {
      var bs := Range(start, count);
      assert bs[..count - 1] == Range(start, count - 1);
      assert bs[count - 1] == start + (count - 1) && Fits(image, size, bs[count - 1]);
      FlatRange(image, size, start, count - 1);
      MulAdd(start, count - 1, size);
      MulNext(start + (count - 1), size);
      MulNext(count - 1, size);
    }
  }

  /** Only the contents of the blocks matter. */
  lemma {:induction false} FlatFrame(image: seq<Byte>, image': seq<Byte>, size: nat, bs: seq<nat>)
    requires Inside(image, size, bs) && |image'| == |image|
    requires forall i | 0 <= i < |bs| :: BlockAt(image', size, bs[i]) == BlockAt(image, size, bs[i])
    ensures Inside(image', size, bs) && Flat(image', size, bs) == Flat(image, size, bs)
  {
    if bs != [] {
      FlatFrame(image, image', size, bs[..|bs| - 1]);
    }
  }

  // ----- Writing to the image -----

  /** The image after some bytes have been overwritten. */
  ghost function Overwrite(image: seq<Byte>, offset: nat, data: seq<Byte>): (image': seq<Byte>)
    requires offset + |data| <= |image|
    ensures |image'| == |image|
  {
    image[..offset] + data + image[offset + |data|..]
  }

  lemma OverwritePrefix(d: seq<Byte>, at: nat, data: seq<Byte>)
    requires at + |data| <= |d|
    ensures Overwrite(d, at, data)[..at + |data|] == d[..at] + data
  {}

  lemma OverwriteNone(s: seq<Byte>, at: nat)
    requires at <= |s|
    ensures Overwrite(s, at, []) == s
  {}

  lemma OverwriteTwice(s: seq<Byte>, at: nat, data: seq<Byte>, i: nat, n: nat)
    requires at + |data| <= |s| && i + n <= |data|
    ensures Overwrite(Overwrite(s, at, data[..i]), at + i, data[i..i + n]) == Overwrite(s, at, data[..i + n])
  {}

  lemma SliceExtends(s: seq<Byte>, i: nat, j: nat, n: nat)
    requires i <= j && j + n <= |s|
    ensures s[i..j] + s[j..j + n] == s[i..j + n]
  {}

  /** Overwriting bytes of the blocks from start on, count of them, leaves all other blocks alone. */
  lemma OverwriteFrame(image: seq<Byte>, size: nat, start: nat, count: nat, offset: nat, data: seq<Byte>, b: nat)
    requires start * size <= offset && offset + |data| <= start * size + count * size <= |image|
    requires Fits(image, size, b) && !(start <= b < start + count)
    ensures Fits(Overwrite(image, offset, data), size, b)
    ensures BlockAt(Overwrite(image, offset, data), size, b) == BlockAt(image, size, b)
  {
    MulNext(b, size);
    MulAdd(start, count, size);
    if b < start {
      MulMonotone(b + 1, start, size);
    } else {
      MulMonotone(start + count, b, size);
    }
  }

  // ----- Extents as stretches of the flat array -----

  /** The byte of the flat array at which extent i starts. */
  ghost function Offset(es: seq<Extent>, size: nat, i: nat): nat
    requires i <= |es|
  {
    |Blocks(es[..i])| * size
  }

  /** How many bytes an extent holds. */
  function Bytes(e: Extent, size: nat): nat {
    e.blockCount * size
  }

  lemma OffsetNext(es: seq<Extent>, size: nat, i: nat)
    requires i < |es|
    ensures Offset(es, size, i + 1) == Offset(es, size, i) + Bytes(es[i], size)
  {
    BlocksUpTo(es, i);
    MulAdd(|Blocks(es[..i])|, es[i].blockCount, size);
  }

  lemma OffsetEnd(es: seq<Extent>, size: nat)
    ensures Offset(es, size, |es|) == |Blocks(es)| * size && Offset(es, size, 0) == 0
  {
    assert es[..|es|] == es && es[..0] == [];
  }

  lemma InsidePart(image: seq<Byte>, size: nat, a: seq<nat>, b: seq<nat>)
    requires Inside(image, size, a + b)
    ensures Inside(image, size, a) && Inside(image, size, b)
  {
    forall i | 0 <= i < |a| ensures Fits(image, size, a[i]) {
      assert (a + b)[i] == a[i];
    }
    forall i | 0 <= i < |b| ensures Fits(image, size, b[i]) {
      assert (a + b)[|a| + i] == b[i];
    }
  }

  /** The flat array in three parts: before extent i, extent i itself, and after it. */
  lemma FlatParts(image: seq<Byte>, size: nat, es: seq<Extent>, i: nat)
    requires i < |es| && es[i].blockCount > 0 && Inside(image, size, Blocks(es))
    ensures var p, q := Blocks(es[..i]), Blocks(es[i + 1..]);
      var start, len := es[i].startBlock * size, es[i].blockCount * size;
      && Inside(image, size, p) && Inside(image, size, q) && 0 <= start <= start + len <= |image|
      && |Flat(image, size, p)| == Offset(es, size, i)
      && Flat(image, size, Blocks(es)) == Flat(image, size, p) + (image[start..start + len] + Flat(image, size, q))
  {
    hide Blocks, Flat, Range;
    var e := es[i];
    var p, r, q := Blocks(es[..i]), Range(e.startBlock, e.blockCount), Blocks(es[i + 1..]);
    BlocksAt(es, i);
    BlocksFrom(es, i);
    InsidePart(image, size, p, r + q);
    InsidePart(image, size, r, q);
    assert Fits(image, size, r[0]);
    FlatRange(image, size, e.startBlock, e.blockCount);
    FlatAppend(image, size, p, r + q);
    FlatAppend(image, size, r, q);
  }

  lemma SliceOfThree(p: seq<Byte>, m: seq<Byte>, q: seq<Byte>, o: nat, n: nat)
    requires o + n <= |m|
    ensures (p + (m + q))[|p| + o..|p| + o + n] == m[o..o + n]
  {}

  lemma OverwriteOfThree(p: seq<Byte>, m: seq<Byte>, q: seq<Byte>, o: nat, data: seq<Byte>)
    requires o + |data| <= |m|
    ensures Overwrite(p + (m + q), |p| + o, data) == p + (Overwrite(m, o, data) + q)
  {}

  lemma SliceOfOverwrite(image: seq<Byte>, start: nat, len: nat, o: nat, data: seq<Byte>)
    requires start + len <= |image| && o + |data| <= len
    ensures Overwrite(image, start + o, data)[start..start + len] == Overwrite(image[start..start + len], o, data)
  {}

  /** Bytes of one extent, read where they lie on the volume, are bytes of the flat array. */
  lemma ReadPart(image: seq<Byte>, size: nat, es: seq<Extent>, i: nat, o: nat, n: nat)
    requires i < |es| && es[i].blockCount > 0 && Inside(image, size, Blocks(es))
    requires o + n <= es[i].blockCount * size
    ensures var at, from := Offset(es, size, i) + o, es[i].startBlock * size + o;
      && at + n <= |Flat(image, size, Blocks(es))| && 0 <= from && from + n <= |image|
      && Flat(image, size, Blocks(es))[at..at + n] == image[from..from + n]
  {
    hide Blocks, Flat, Inside, Offset;
    FlatParts(image, size, es, i);
    var p, q := Blocks(es[..i]), Blocks(es[i + 1..]);
    var start, len := es[i].startBlock * size, es[i].blockCount * size;
    SliceOfThree(Flat(image, size, p), image[start..start + len], Flat(image, size, q), o, n);
    SliceOfSlice(image, start, len, o, n);
  }

  /** The block is not one of extent i's when it is another block of the list. */
  lemma OtherBlocks(es: seq<Extent>, i: nat)
    requires i < |es| && NoDuplicates(Blocks(es))
    ensures var e := es[i];
      && (forall b | b in Blocks(es[..i]) || b in Blocks(es[i + 1..]) :: !(e.startBlock <= b < e.startBlock + e.blockCount))
      && (forall b: nat | e.startBlock <= b < e.startBlock + e.blockCount :: b in Blocks(es))
  {
    var e := es[i];
    var p, r, q := Blocks(es[..i]), Range(e.startBlock, e.blockCount), Blocks(es[i + 1..]);
    BlocksAt(es, i);
    BlocksFrom(es, i);
    hide Blocks, NoDuplicates;
    DisjointParts(p, r, q);
    forall b: nat | e.startBlock <= b < e.startBlock + e.blockCount ensures b in r && b in p + (r + q) {
      assert r[b - e.startBlock] == b;
    }
  }

  lemma DisjointParts(p: seq<nat>, r: seq<nat>, q: seq<nat>)
    requires NoDuplicates(p + (r + q))
    ensures forall b | b in p || b in q :: b !in r
    ensures forall b | b in r :: b in p + (r + q)
  {
    var all := p + (r + q);
    forall i, j | 0 <= i < |p| && 0 <= j < |r| ensures p[i] != r[j] {
      assert all[i] == p[i] && all[|p| + j] == r[j];
    }
    forall i, j | 0 <= i < |q| && 0 <= j < |r| ensures q[i] != r[j] {
      assert all[|p| + |r| + i] == q[i] && all[|p| + j] == r[j];
    }
    forall j | 0 <= j < |r| ensures r[j] in all {
      assert all[|p| + j] == r[j];
    }
  }

  /** Only the given blocks may have changed. */
  ghost predicate SameElsewhere(image: seq<Byte>, image': seq<Byte>, size: nat, bs: seq<nat>) {
    && |image'| == |image|
    && forall b: nat | Fits(image, size, b) && b !in bs :: BlockAt(image', size, b) == BlockAt(image, size, b)
  }

  /** Writing inside one extent leaves the blocks before and after it in the list alone, and all others. */
  lemma WriteFrame(image: seq<Byte>, size: nat, es: seq<Extent>, i: nat, from: nat, data: seq<Byte>)
    requires i < |es| && Inside(image, size, Blocks(es)) && NoDuplicates(Blocks(es))
    requires es[i].startBlock * size <= from
    requires from + |data| <= es[i].startBlock * size + es[i].blockCount * size <= |image|
    ensures var image' := Overwrite(image, from, data);
      && SameElsewhere(image, image', size, Blocks(es))
      && (forall b | b in Blocks(es[..i]) || b in Blocks(es[i + 1..]) :: Fits(image, size, b) ==> BlockAt(image', size, b) == BlockAt(image, size, b))
  {
    hide Blocks, BlockAt, Overwrite;
    var e := es[i];
    var image' := Overwrite(image, from, data);
    OtherBlocks(es, i);
    forall b: nat | Fits(image, size, b) && !(e.startBlock <= b < e.startBlock + e.blockCount)
      ensures BlockAt(image', size, b) == BlockAt(image, size, b)
    {
      OverwriteFrame(image, size, e.startBlock, e.blockCount, from, data, b);
    }
  }

  /** Writing inside one extent is writing to the flat array, and touches no block outside the list. */
  lemma WritePart(image: seq<Byte>, size: nat, es: seq<Extent>, i: nat, o: nat, data: seq<Byte>)
    requires i < |es| && es[i].blockCount > 0 && Inside(image, size, Blocks(es)) && NoDuplicates(Blocks(es))
    requires o + |data| <= es[i].blockCount * size
    ensures var at, from := Offset(es, size, i) + o, es[i].startBlock * size + o;
      && at + |data| <= |Flat(image, size, Blocks(es))| && 0 <= from && from + |data| <= |image|
      && Inside(Overwrite(image, from, data), size, Blocks(es))
      && Flat(Overwrite(image, from, data), size, Blocks(es)) == Overwrite(Flat(image, size, Blocks(es)), at, data)
      && SameElsewhere(image, Overwrite(image, from, data), size, Blocks(es))
  {
    hide Blocks, Flat, BlockAt, Overwrite, SameElsewhere, Offset, NoDuplicates;
    var p, q := Blocks(es[..i]), Blocks(es[i + 1..]);
    var start, len := es[i].startBlock * size, es[i].blockCount * size;
    FlatParts(image, size, es, i);
    var image' := Overwrite(image, start + o, data);
    WriteFrame(image, size, es, i, start + o, data);
    FlatFrame(image, image', size, p);
    FlatFrame(image, image', size, q);
    FlatParts(image', size, es, i);
    SliceOfOverwrite(image, start, len, o, data);
    OverwriteOfThree(Flat(image, size, p), image[start..start + len], Flat(image, size, q), o, data);
  }

  lemma SameStart(image: seq<Byte>, size: nat, bs: seq<nat>)
    ensures SameElsewhere(image, image, size, bs)
  {}

  lemma SameTwice(image0: seq<Byte>, image1: seq<Byte>, image2: seq<Byte>, size: nat, bs: seq<nat>)
    requires SameElsewhere(image0, image1, size, bs) && SameElsewhere(image1, image2, size, bs)
    ensures SameElsewhere(image0, image2, size, bs)
  {}
}
