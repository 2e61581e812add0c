/** A file as a list of extents on a volume: growing, shrinking, reading and writing. */
module HfsRawFile {
  import opened Bits
  import opened BlockChoice
  import opened Collections
  import opened Extents
  import opened ExtentRecords
  import opened HfsVolume
  import opened Numbers

  /** All the blocks are marked used, and none is the reserved last block. */
  ghost predicate Owned(used: seq<bool>, bs: seq<nat>) {
    forall i | 0 <= i < |bs| :: bs[i] + 1 < |used| && used[bs[i]]
  }

  /** The blocks were free. */
  ghost predicate AllFree(used: seq<bool>, bs: seq<nat>) {
    forall i | 0 <= i < |bs| :: bs[i] < |used| && !used[bs[i]]
  }

  /** The bitmap after the blocks have been marked. */
  ghost predicate Marked(used: seq<bool>, used': seq<bool>, bs: seq<nat>, v: bool) {
    |used'| == |used| && forall b | 0 <= b < |used| :: used'[b] == if b in bs then v else used[b]
  }

  /** The blocks hold zeros, and all others are as before. */
  ghost predicate Zeroed(image: seq<Byte>, image': seq<Byte>, size: nat, bs: seq<nat>) {
    && |image'| == |image|
    && forall b: nat | Fits(image, size, b) ::
      BlockAt(image', size, b) == if b in bs then Zeros(size) else BlockAt(image, size, b)
  }

  lemma {:induction false} FlatZeros(image: seq<Byte>, image': seq<Byte>, size: nat, added: seq<nat>, bs: seq<nat>)
    requires Inside(image, size, bs) && Zeroed(image, image', size, added)
    requires forall i | 0 <= i < |bs| :: bs[i] in added
    ensures Inside(image', size, bs) && Flat(image', size, bs) == Zeros(|bs| * size)
  {
    if bs != [] {
      FlatZeros(image, image', size, added, bs[..|bs| - 1]);
      MulNext(|bs| - 1, size);
      assert Fits(image, size, bs[|bs| - 1]);
    }
  }

  lemma ZeroBlock(image0: seq<Byte>, image: seq<Byte>, size: nat, added: seq<nat>, b: nat)
    requires Zeroed(image0, image, size, added) && Fits(image, size, b)
    ensures Zeroed(image0, Overwrite(image, b * size, Zeros(size)), size, added + [b])
  {
    var image' := Overwrite(image, b * size, Zeros(size));
    forall c: nat | Fits(image0, size, c)
      ensures BlockAt(image', size, c) == if c in added + [b] then Zeros(size) else BlockAt(image0, size, c)
    {
      if c != b {
        MulNext(b, size);
        OverwriteFrame(image, size, b, 1, b * size, Zeros(size), c);
      }
    }
  }

  /** What has happened to a volume after some free blocks have been taken. */
  ghost predicate Taken(used0: seq<bool>, used: seq<bool>, image0: seq<Byte>, image: seq<Byte>, size: nat, added: seq<nat>) {
    && AllFree(used0, added) && NoDuplicates(added)
    && Marked(used0, used, added, true) && Zeroed(image0, image, size, added)
  }

  lemma TakeOne(used0: seq<bool>, used: seq<bool>, image0: seq<Byte>, image: seq<Byte>, size: nat, added: seq<nat>, b: nat)
    requires Taken(used0, used, image0, image, size, added) && b < |used| && !used[b] && Fits(image, size, b)
    ensures Taken(used0, used[b := true], image0, Overwrite(image, b * size, Zeros(size)), size, added + [b])
  {
    ZeroBlock(image0, image, size, added, b);
    assert b !in added;
    forall c | 0 <= c < |used| ensures used[b := true][c] == if c in added + [b] then true else used0[c] {
      assert c in added + [b] <==> c in added || c == b;
    }
  }

  lemma TakeNone(used: seq<bool>, image: seq<Byte>, size: nat)
    ensures Taken(used, used, image, image, size, [])
  {}

  /** The last extent of a list, which the next block is to extend, or to start. */
  ghost predicate EndsAt(es: seq<Extent>, block: nat) {
    && es != []
    && (es[|es| - 1].blockCount > 0 ==> block == es[|es| - 1].startBlock + es[|es| - 1].blockCount)
  }

  lemma ExtendLast(es: seq<Extent>, block: nat)
    requires EndsAt(es, block)
    ensures var last := es[|es| - 1];
      var start := if last.blockCount == 0 then block else last.startBlock;
      var es' := es[|es| - 1 := Extent(start, last.blockCount + 1)];
      Blocks(es') == Blocks(es) + [block] && EndsAt(es', block + 1)
  {
    var last := es[|es| - 1];
    var start := if last.blockCount == 0 then block else last.startBlock;
    var es' := es[|es| - 1 := Extent(start, last.blockCount + 1)];
    assert es'[..|es| - 1] == es[..|es| - 1];
    if last.blockCount == 0 {
      assert Range(last.startBlock, 0) == [];
    }
    assert Range(start, last.blockCount + 1) == Range(last.startBlock, last.blockCount) + [block];
  }

  lemma NoBlocks()
    ensures Blocks([]) == [] && Blocks([Extent(0, 0)]) == []
  {
    BlocksOfOne(Extent(0, 0));
  }

  lemma SomeFree(used: seq<bool>, n: nat) returns (free: nat)
    requires n == CountFree(used) > 0
    ensures free < |used| && !used[free]
  {
    FreeBlockExists(used);
    free :| free < |used| && !used[free];
  }

  lemma NewExtent(es: seq<Extent>)
    ensures Blocks(es + [Extent(0, 0)]) == Blocks(es)
  {
    BlocksAppend(es, [Extent(0, 0)]);
    NoBlocks();
  }

  /** The last block of a list ends its last extent. */
  lemma LastBlock(es: seq<Extent>)
    requires es != [] && es[|es| - 1].blockCount > 0
    ensures Blocks(es) != []
    ensures Blocks(es)[|Blocks(es)| - 1] == es[|es| - 1].startBlock + es[|es| - 1].blockCount - 1
  {}

  // ----- Which blocks are taken -----

  /** The blocks that a growing file has taken are those it has to take, its list has been made longer by just these, and
      the volume's search has come as far as that. */
  ghost predicate GrownBy(used0: seq<bool>, es0: seq<Extent>, next0: nat, added: seq<nat>, es: seq<Extent>, next: nat) {
    && Chosen(used0, Place(es0, next0), next0, added)
    && es == Joined(es0, added) && next == Rotor(|used0|, Place(es0, next0), next0, added, |added|)
  }

  /** The file has grown by some blocks, and the search for the next one has come to a block. */
  ghost predicate Choosing(used0: seq<bool>, es0: seq<Extent>, next0: nat, added: seq<nat>, es: seq<Extent>, cur: nat, next: nat) {
    && Chosen(used0, Place(es0, next0), next0, added)
    && Searching(used0, Place(es0, next0), next0, added, cur, next) && Extending(used0, es0, added, es)
    && (es[|es| - 1].blockCount > 0 ==> cur == EndOf(es[|es| - 1]) && next == Rotor(|used0|, Place(es0, next0), next0, added, |added|))
  }

  lemma ChoiceStarts(used0: seq<bool>, es0: seq<Extent>, es: seq<Extent>, next0: nat, cur: nat)
    requires AllPositive(es0) && es == (if es0 == [] then [Extent(0, 0)] else es0) && cur == Place(es0, next0)
    requires cur < |used0| && next0 < |used0|
    ensures Choosing(used0, es0, next0, [], es, cur, next0)
  {}

  lemma StillFree(used0: seq<bool>, used: seq<bool>, image0: seq<Byte>, image: seq<Byte>, size: nat, added: seq<nat>, b: nat)
    requires Taken(used0, used, image0, image, size, added) && b < |used|
    ensures |used| == |used0| && (IsFree(used0, added, b) <==> !used[b])
  {}

  lemma ChoiceGoesOn(used0: seq<bool>, es0: seq<Extent>, next0: nat, added: seq<nat>, es: seq<Extent>, cur: nat, next: nat)
    requires Choosing(used0, es0, next0, added, es, cur, next) && !IsFree(used0, added, cur)
    ensures es != []
    ensures var es' := if es[|es| - 1].blockCount > 0 then es + [Extent(0, 0)] else es;
      Choosing(used0, es0, next0, added, es', next, if next + 1 >= |used0| then 0 else next + 1)
  {
    hide Chosen, IsFree, NoneBefore, Joined, Rotor, Behind;
    assert es != [] && next < |used0|;
    SearchOn(used0, Place(es0, next0), next0, added, cur, next);
    NextRound(next, |used0|);
    hide Searching;
    ExtendingOn(used0, es0, added, es, if es[|es| - 1].blockCount > 0 then es + [Extent(0, 0)] else es);
    hide Extending;
  }

  lemma ChoiceMade(used0: seq<bool>, es0: seq<Extent>, next0: nat, added: seq<nat>, es: seq<Extent>, cur: nat, next: nat, es': seq<Extent>)
    requires Choosing(used0, es0, next0, added, es, cur, next) && IsFree(used0, added, cur) && cur + 1 < |used0|
    requires var last := es[|es| - 1];
      es' == es[|es| - 1 := Extent(if last.blockCount == 0 then cur else last.startBlock, last.blockCount + 1)]
    ensures Choosing(used0, es0, next0, added + [cur], es', cur + 1, next)
  {
    hide Chosen, IsFree, NoneBefore, Searching, Extending;
    SearchEnds(used0, Place(es0, next0), next0, added, cur, next);
    assert es != [] by { NotEmpty(used0, es0, added, es); }
    ExtendingMore(used0, es0, added, es, es', cur);
  }

  lemma NotEmpty(used0: seq<bool>, es0: seq<Extent>, added: seq<nat>, es: seq<Extent>)
    requires Extending(used0, es0, added, es)
    ensures es != []
  {}

  lemma ChoiceDone(used0: seq<bool>, es0: seq<Extent>, next0: nat, added: seq<nat>, es: seq<Extent>, cur: nat, next: nat)
    requires Choosing(used0, es0, next0, added, es, cur, next) && es != [] && es[|es| - 1].blockCount > 0
    ensures GrownBy(used0, es0, next0, added, es, next)
  {}

  // ----- Shrinking -----

  /** The state after some of a file's blocks have been given back. */
  ghost predicate Freed(used0: seq<bool>, used: seq<bool>, freed: seq<nat>) {
    && Owned(used0, freed) && NoDuplicates(freed) && Marked(used0, used, freed, false)
  }

  lemma FreeOne(used0: seq<bool>, used: seq<bool>, freed: seq<nat>, b: nat)
    requires Freed(used0, used, freed) && b + 1 < |used0| && used0[b] && b !in freed
    ensures used[b] && Freed(used0, used[b := false], freed + [b])
  {
    forall c | 0 <= c < |used| ensures used[b := false][c] == if c in freed + [b] then false else used0[c] {
      assert c in freed + [b] <==> c in freed || c == b;
    }
  }

  lemma NextToFree(used0: seq<bool>, freed: seq<nat>, start: nat, count: nat, b: nat)
    requires start <= b < start + count
    requires Owned(used0, freed + Range(start, count)) && NoDuplicates(freed + Range(start, count))
    ensures b + 1 < |used0| && used0[b] && b !in freed + Range(start, b - start)
    ensures freed + Range(start, b - start) + [b] == freed + Range(start, b + 1 - start)
  {
    var all, now := freed + Range(start, count), freed + Range(start, b - start);
    assert all[|now|] == b;
    assert now == all[..|now|];
    forall i | 0 <= i < |now| ensures now[i] != b {
      assert all[i] == now[i];
    }
  }

  /** Where a list of extents is cut: after `rest` blocks of extent i. */
  ghost predicate CutAt(es: seq<Extent>, needed: nat, i: nat, rest: nat) {
    && i < |es| && rest <= es[i].blockCount && |Blocks(es[..i])| + rest == needed
    && (needed > 0 ==> rest > 0) && (needed == 0 ==> i == 0)
  }

  /** A list that begins like another one, but may have a shorter last extent. */
  ghost predicate CutFrom(es: seq<Extent>, es': seq<Extent>) {
    && |es'| <= |es|
    && forall i | 0 <= i < |es'| :: es'[i].startBlock == es[i].startBlock && (i + 1 < |es'| ==> es'[i] == es[i])
  }

  lemma CutList(es: seq<Extent>, needed: nat, i: nat, rest: nat)
    requires CutAt(es, needed, i, rest)
    ensures needed <= |Blocks(es)|
    ensures Blocks(es[..i] + [es[i].(blockCount := rest)]) == Blocks(es)[..needed]
    ensures Blocks(es)[..needed] + Range(es[i].startBlock + rest, es[i].blockCount - rest) == Blocks(es[..i + 1])
  {
    hide Blocks, Range;
    var e := es[i];
    BlocksAt(es, i + 1);
    BlocksUpTo(es, i);
    BlocksAppend(es[..i], [e.(blockCount := rest)]);
    BlocksOfOne(e.(blockCount := rest));
    RangeSplit(e.startBlock, e.blockCount, rest);
    Regroup3(Blocks(es[..i]), Range(e.startBlock, rest), Range(e.startBlock + rest, e.blockCount - rest), Blocks(es[i + 1..]));
  }

  lemma RangeSplit(start: nat, count: nat, rest: nat)
    requires rest <= count
    ensures Range(start, count) == Range(start, rest) + Range(start + rest, count - rest)
  {}

  lemma Regroup3<T>(p: seq<T>, a: seq<T>, b: seq<T>, q: seq<T>)
    ensures (p + (a + b) + q)[..|p| + |a|] == p + a && p + a + b == p + (a + b)
  {}

  lemma TailOfPrefix(bs: seq<nat>, cs: seq<nat>, rest: seq<nat>, needed: nat, tail: seq<nat>)
    requires bs == cs + rest && needed <= |bs| && bs[..needed] + tail == cs
    ensures needed + |tail| <= |bs| && forall i | 0 <= i < |tail| :: tail[i] == bs[needed + i]
  {
    forall i | 0 <= i < |tail| ensures tail[i] == bs[needed + i] {
      assert cs[needed + i] == tail[i];
    }
  }

  /** The blocks behind the cut, up to extent j. */
  lemma TailBlocks(es: seq<Extent>, needed: nat, j: nat, used: seq<bool>, tail: seq<nat>)
    requires j < |es| && needed <= |Blocks(es)| && NoDuplicates(Blocks(es)) && Owned(used, Blocks(es))
    requires Blocks(es)[..needed] + tail == Blocks(es[..j + 1])
    ensures NoDuplicates(tail) && Owned(used, tail)
  {
    hide Blocks;
    BlocksAt(es, j + 1);
    TailOfPrefix(Blocks(es), Blocks(es[..j + 1]), Blocks(es[j + 1..]), needed, tail);
  }

  lemma FreeNone(used: seq<bool>)
    ensures Freed(used, used, [])
  {}

  lemma NextTail(es: seq<Extent>, needed: nat, freed: seq<nat>, i: nat, j: nat, rest: nat)
    requires i <= j < |es| && needed <= |Blocks(es)|
    requires j == i ==> freed == [] && CutAt(es, needed, i, rest)
    requires j > i ==> rest == 0 && Blocks(es)[..needed] + freed == Blocks(es[..j])
    ensures rest <= es[j].blockCount
    ensures Blocks(es)[..needed] + (freed + Range(es[j].startBlock + rest, es[j].blockCount - rest)) == Blocks(es[..j + 1])
  {
    hide Blocks, Range;
    var tail := Range(es[j].startBlock + rest, es[j].blockCount - rest);
    if j == i {
      CutList(es, needed, i, rest);
      assert [] + tail == tail;
    } else {
      BlocksUpTo(es, j);
      assert Blocks(es)[..needed] + (freed + tail) == Blocks(es)[..needed] + freed + tail;
    }
  }

  // ----- Sizes -----

  /** How many blocks a size takes, as the allocator computes it. */
  function BlocksFor(size: nat, blockSize: nat): nat
    requires blockSize > 0
  {
    size / blockSize + if size % blockSize == 0 then 0 else 1
  }

  /** It is the least number of blocks that hold the size. */
  lemma BlocksForIsLeast(size: nat, blockSize: nat, n: nat)
    requires blockSize > 0
    ensures size <= n * blockSize <==> BlocksFor(size, blockSize) <= n
  {
    var q, r := size / blockSize, size % blockSize;
    assert size == q * blockSize + r;
    MulNext(q, blockSize);
    if n <= q {
      MulMonotone(n, q, blockSize);
      if n < q {
        MulNext(n, blockSize);
        MulMonotone(n + 1, q, blockSize);
      }
    } else {
      MulMonotone(q + 1, n, blockSize);
    }
  }

  // ----- What the steps mean for a file -----

  /** The blocks of an owned list lie inside the image. */
  lemma OwnedInside(used: seq<bool>, image: seq<Byte>, size: nat, bs: seq<nat>)
    requires Owned(used, bs) && |image| == |used| * size
    ensures Inside(image, size, bs)
  {
    forall i | 0 <= i < |bs| ensures Fits(image, size, bs[i]) {
      MulNext(bs[i], size);
      MulMonotone(bs[i] + 1, |used|, size);
    }
  }

  /** The array cut or grown, with zeros, to n bytes. */
  ghost function Resized(s: seq<Byte>, n: nat): (t: seq<Byte>)
    ensures |t| == n
  {
    if n <= |s| then s[..n] else s + Zeros(n - |s|)
  }

  /** A file whose blocks were taken from the free ones owns old and new blocks, and its contents have grown
      by zeros. */
  lemma TakenFile(used0: seq<bool>, used: seq<bool>, image0: seq<Byte>, image: seq<Byte>, size: nat, bs: seq<nat>, added: seq<nat>)
    requires Taken(used0, used, image0, image, size, added) && Owned(used0, bs) && NoDuplicates(bs)
    requires |used0| > 0 && used0[|used0| - 1] && |image0| == |used0| * size
    ensures Owned(used, bs + added) && NoDuplicates(bs + added)
    ensures Inside(image0, size, bs) && Inside(image, size, bs + added)
    ensures Flat(image, size, bs + added) == Flat(image0, size, bs) + Zeros(|added| * size)
  {
    forall i | 0 <= i < |bs| ensures bs[i] !in added {}
    assert Owned(used, bs + added);
    OwnedInside(used0, image0, size, bs);
    OwnedInside(used, image, size, bs + added);
    InsidePart(image, size, bs, added);
    forall i | 0 <= i < |bs| ensures BlockAt(image, size, bs[i]) == BlockAt(image0, size, bs[i]) {
      assert Fits(image0, size, bs[i]);
    }
    FlatFrame(image0, image, size, bs);
    assert Inside(image0, size, added);
    FlatZeros(image0, image, size, added, added);
    FlatAppend(image, size, bs, added);
  }

  lemma FlatPrefix(image: seq<Byte>, size: nat, used: seq<bool>, bs: seq<nat>, n: nat)
    requires Owned(used, bs) && |image| == |used| * size && n <= |bs|
    ensures Inside(image, size, bs) && Inside(image, size, bs[..n]) && n * size <= |bs| * size
    ensures Flat(image, size, bs[..n]) == Flat(image, size, bs)[..n * size]
  {
    OwnedInside(used, image, size, bs);
    InsidePart(image, size, bs[..n], bs[n..]);
    FlatAppend(image, size, bs[..n], bs[n..]);
    MulMonotone(n, |bs|, size);
    assert bs[..n] + bs[n..] == bs;
  }

  /** A file that gave blocks back still owns the others. */
  lemma FreedFile(used0: seq<bool>, used: seq<bool>, bs: seq<nat>, n: nat)
    requires n <= |bs| && Owned(used0, bs) && NoDuplicates(bs) && Freed(used0, used, bs[n..])
    ensures Owned(used, bs[..n]) && NoDuplicates(bs[..n])
  {
    forall i | 0 <= i < n ensures bs[i] !in bs[n..] {}
  }

  /** No extent starts behind the end. */
  lemma {:induction false} OffsetsGrow(es: seq<Extent>, size: nat, i: nat)
    requires i <= |es|
    ensures Offset(es, size, i) <= Offset(es, size, |es|)
    decreases |es| - i
  {
    if i < |es| {
      OffsetNext(es, size, i);
      OffsetsGrow(es, size, i + 1);
    }
  }

  /** The data are the bytes of the array from the given place on. */
  ghost predicate PartOf(data: seq<Byte>, flat: seq<Byte>, at: nat) {
    at + |data| <= |flat| && data == flat[at..at + |data|]
  }

  function Max(a: nat, b: nat): nat {
    if a > b then a else b
  }

  /** Blocks in use that were not the file's still are in use, and not the file's. */
  ghost predicate Apart(used0: seq<bool>, used: seq<bool>, bs0: seq<nat>, bs: seq<nat>) {
    && |used| == |used0|
    && forall b | 0 <= b < |used0| && used0[b] && b !in bs0 :: used[b] && b !in bs
  }

  lemma TakenApart(used0: seq<bool>, used: seq<bool>, image0: seq<Byte>, image: seq<Byte>, size: nat, bs: seq<nat>, added: seq<nat>)
    requires Taken(used0, used, image0, image, size, added)
    ensures Apart(used0, used, bs, bs + added) && SameElsewhere(image0, image, size, bs + added)
  {}

  lemma FreedApart(used0: seq<bool>, used: seq<bool>, bs: seq<nat>, n: nat)
    requires n <= |bs| && Freed(used0, used, bs[n..])
    ensures Apart(used0, used, bs, bs[..n])
  {}

  /** A file is opened with the extents it has; id, fork and totalBlocks are what the catalog says of it. */
  class RawFile {
    const volume: Volume
    const id: nat
    var fork: seq<Extent>
    var extents: seq<Extent>
    var totalBlocks: nat
    var logicalSize: nat

    constructor (volume: Volume, id: nat, fork: seq<Extent>, totalBlocks: nat, logicalSize: nat)
      ensures this.volume == volume && this.id == id && this.fork == fork && extents == []
      ensures this.totalBlocks == totalBlocks && this.logicalSize == logicalSize
    {
      this.volume, this.id, this.fork := volume, id, fork;
      this.totalBlocks, this.logicalSize, extents := totalBlocks, logicalSize, [];
    }

    ghost predicate Valid()
      reads this`extents, this`totalBlocks, this`logicalSize
      reads volume`freeBlocks, volume`nextAllocation, volume.allocation
    {
      && volume.Valid() && HasBlocks(volume.Used())
      && logicalSize <= totalBlocks * volume.blockSize
    }

    /** No extent is empty, and they name totalBlocks different blocks, all of them in use. */
    ghost predicate HasBlocks(used: seq<bool>)
      reads this`extents, this`totalBlocks
    {
      && AllPositive(extents) && |Blocks(extents)| == totalBlocks && NoDuplicates(Blocks(extents)) && Owned(used, Blocks(extents))
    }

    /** Zeroes a free block, marks it used and adds it to the last extent. */
    method TakeBlock(block: nat)
      requires volume.Shape() && block < volume.totalBlocks && !volume.Used()[block] && volume.freeBlocks > 0
      requires EndsAt(extents, block)
      modifies this`extents, volume`freeBlocks, volume.allocation, volume.image
      ensures Blocks(extents) == old(Blocks(extents)) + [block]
      ensures EndsAt(extents, block + 1) && extents[|extents| - 1].blockCount > 0
      ensures var es := old(extents); var last := es[|es| - 1];
        extents == es[|es| - 1 := Extent(if last.blockCount == 0 then block else last.startBlock, last.blockCount + 1)]
      ensures volume.Used() == old(volume.Used())[block := true]
      ensures volume.freeBlocks == old(volume.freeBlocks) - 1
      ensures Fits(old(volume.image[..]), volume.blockSize, block)
      ensures volume.image[..] == Overwrite(old(volume.image[..]), block * volume.blockSize, Zeros(volume.blockSize))
    {
      var last := extents[|extents| - 1];
      var start := if last.blockCount == 0 then block else last.startBlock;
      MulNext(block, volume.blockSize);
      MulMonotone(block + 1, volume.totalBlocks, volume.blockSize);
      volume.WriteImage(block * volume.blockSize, seq(volume.blockSize, _ => 0));
      volume.SetBlockUsed(block, true);
      volume.freeBlocks := volume.freeBlocks - 1;
      ExtendLast(extents, block);
      extents := extents[|extents| - 1 := Extent(start, last.blockCount + 1)];
    }

    /** Growing, with the blocks `added` taken so far and `block` to be tried next. */
    ghost predicate Growing(used0: seq<bool>, image0: seq<Byte>, blocks0: seq<nat>, added: seq<nat>, block: nat)
      reads this`extents, volume`freeBlocks, volume`nextAllocation, volume.allocation, volume.image
    {
      && volume.Valid() && block < volume.totalBlocks
      && Blocks(extents) == blocks0 + added && EndsAt(extents, block)
      && (forall i | 0 <= i < |extents| - 1 :: extents[i].blockCount > 0)
      && Taken(used0, volume.Used(), image0, volume.image[..], volume.blockSize, added)
    }

    /** Gives up on the current place: the next block starts a new extent, where the rotating search is. */
    method MoveOn(ghost used0: seq<bool>, ghost image0: seq<Byte>, ghost blocks0: seq<nat>, ghost added: seq<nat>,
                  ghost block: nat)
      returns (block': nat)
      requires Growing(used0, image0, blocks0, added, block)
      modifies this`extents, volume`nextAllocation
      ensures Growing(used0, image0, blocks0, added, block')
      ensures block' == old(volume.nextAllocation) && block' < volume.totalBlocks
      ensures volume.nextAllocation == if block' + 1 >= volume.totalBlocks then 0 else block' + 1
      ensures old(extents) != []
      ensures extents == if old(extents)[|old(extents)| - 1].blockCount > 0 then old(extents) + [Extent(0, 0)] else old(extents)
    {
      hide Taken, Blocks;
      if extents[|extents| - 1].blockCount > 0 {
        NewExtent(extents);
        extents := extents + [Extent(0, 0)];
      }
      block' := volume.nextAllocation;
      volume.nextAllocation := volume.nextAllocation + 1;
      if volume.nextAllocation >= volume.totalBlocks {
        volume.nextAllocation := 0;
      }
    }

    /** Takes a free block; since the last block of the volume is reserved, there is always a next one. */
    method TakeNext(block: nat, ghost used0: seq<bool>, ghost image0: seq<Byte>, ghost blocks0: seq<nat>,
                    ghost added: seq<nat>)
      returns (block': nat)
      requires Growing(used0, image0, blocks0, added, block) && !volume.Used()[block] && volume.freeBlocks > 0
      modifies this`extents, volume`freeBlocks, volume.allocation, volume.image
      ensures Growing(used0, image0, blocks0, added + [block], block')
      ensures extents != [] && extents[|extents| - 1].blockCount > 0 && old(extents) != []
      ensures var es := old(extents); var last := es[|es| - 1];
        && (last.blockCount > 0 ==> block == EndOf(last))
        && extents == es[|es| - 1 := Extent(if last.blockCount == 0 then block else last.startBlock, last.blockCount + 1)]
      ensures volume.freeBlocks == old(volume.freeBlocks) - 1 && block' == block + 1 < volume.totalBlocks
    {
      hide Taken, Blocks, Overwrite, BitsOf;
      ghost var used, image := volume.Used(), volume.image[..];
      TakeBlock(block);
      TakeOne(used0, used, image0, image, volume.blockSize, added, block);
      CountUpdate(used, block, true);
      assert blocks0 + added + [block] == blocks0 + (added + [block]);
      assert forall i | 0 <= i < |extents| - 1 :: extents[i] == extents[..|extents| - 1][i];
      var next := volume.nextAllocation;
      block' := block + 1;
      if block' >= volume.totalBlocks {
        block' := next;
      }
    }

    lemma GrowingInside(used0: seq<bool>, image0: seq<Byte>, blocks0: seq<nat>, added: seq<nat>, block: nat)
      requires Growing(used0, image0, blocks0, added, block)
      ensures volume.Valid() && volume.nextAllocation < volume.totalBlocks && block < volume.totalBlocks
      ensures volume.freeBlocks == CountFree(volume.Used()) && extents != []
    {}

    lemma GrowingTaken(used0: seq<bool>, image0: seq<Byte>, blocks0: seq<nat>, added: seq<nat>, block: nat)
      requires Growing(used0, image0, blocks0, added, block)
      ensures Taken(used0, volume.Used(), image0, volume.image[..], volume.blockSize, added)
    {}

    lemma GrowingDone(used0: seq<bool>, image0: seq<Byte>, blocks0: seq<nat>, added: seq<nat>, block: nat)
      requires Growing(used0, image0, blocks0, added, block)
      requires extents != [] && extents[|extents| - 1].blockCount > 0
      ensures volume.Valid() && Blocks(extents) == blocks0 + added
      ensures AllPositive(extents)
      ensures Taken(used0, volume.Used(), image0, volume.image[..], volume.blockSize, added)
    {}

    /** The block behind the file, or that where the search begins; a file without extents gets an empty one. */
    method FirstPlace() returns (block: nat)
      requires Valid()
      modifies this`extents
      ensures block < volume.totalBlocks && block == Place(old(extents), volume.nextAllocation)
      ensures AllPositive(old(extents)) && extents == if old(extents) == [] then [Extent(0, 0)] else old(extents)
      ensures Growing(volume.Used(), volume.image[..], old(Blocks(extents)), [], block)
    {
      TakeNone(volume.Used(), volume.image[..], volume.blockSize);
      if extents == [] {
        NoBlocks();
        extents := [Extent(0, 0)];
        block := volume.nextAllocation;
      } else {
        var last := extents[|extents| - 1];
        block := last.startBlock + last.blockCount;
        LastBlock(extents);
      }
      assert Blocks(extents) == old(Blocks(extents)) + [];
    }

    /** Takes `count` more blocks: behind the last extent as long as they are free, then wherever the
        rotating search finds some. */
    method Grow(count: nat) returns (ghost added: seq<nat>)
      requires Valid() && 0 < count <= volume.freeBlocks
      modifies this`extents, volume`freeBlocks, volume`nextAllocation, volume.allocation, volume.image
      ensures volume.Valid() && volume.freeBlocks == old(volume.freeBlocks) - count
      ensures AllPositive(extents)
      ensures Blocks(extents) == old(Blocks(extents)) + added && |added| == count
      ensures Taken(old(volume.Used()), volume.Used(), old(volume.image[..]), volume.image[..], volume.blockSize, added)
      ensures GrownBy(old(volume.Used()), old(extents), old(volume.nextAllocation), added, extents, volume.nextAllocation)
    {
      hide Growing, Taken, Blocks, EndsAt, CountFree, BitsOf, HasBlocks, Choosing, GrownBy, IsFree, EndOf, Place;
      ghost var es0, next0 := extents, volume.nextAllocation;
      ghost var used0, image0, blocks0, n := volume.Used(), volume.image[..], Blocks(extents), volume.totalBlocks;
      var curBlock := FirstPlace();
      ChoiceStarts(used0, es0, extents, next0, curBlock);
      var toAllocate := count;
      added := [];
      ghost var free: nat := SomeFree(used0, volume.freeBlocks);
      while toAllocate > 0
        invariant Growing(used0, image0, blocks0, added, curBlock)
        invariant Choosing(used0, es0, next0, added, extents, curBlock, volume.nextAllocation)
        invariant 0 <= toAllocate <= volume.freeBlocks && |added| + toAllocate == count
        invariant volume.freeBlocks - toAllocate == old(volume.freeBlocks) - count
        invariant volume.Shape() && curBlock < n && volume.nextAllocation < n
        invariant toAllocate == 0 ==> extents != [] && extents[|extents| - 1].blockCount > 0
        invariant toAllocate > 0 ==> free < n && !volume.Used()[free]
        decreases toAllocate,
          if volume.Used()[curBlock] then 1 + Ahead(free, volume.nextAllocation, n) else 0
      {
        GrowingInside(used0, image0, blocks0, added, curBlock);
        var isUsed := volume.IsBlockUsed(curBlock);
        StillFree(used0, volume.Used(), image0, volume.image[..], volume.blockSize, added, curBlock) by {
          GrowingTaken(used0, image0, blocks0, added, curBlock);
        }
        ghost var es := extents;
        if isUsed {
          ChoiceGoesOn(used0, es0, next0, added, extents, curBlock, volume.nextAllocation);
          curBlock := MoveOn(used0, image0, blocks0, added, curBlock);
        } else {
          ghost var block := curBlock;
          curBlock := TakeNext(curBlock, used0, image0, blocks0, added);
          ChoiceMade(used0, es0, next0, added, es, block, volume.nextAllocation, extents);
          added := added + [block];
          toAllocate := toAllocate - 1;
          if toAllocate > 0 {
            GrowingInside(used0, image0, blocks0, added, curBlock);
            free := SomeFree(volume.Used(), volume.freeBlocks);
          }
        }
      }
      GrowingDone(used0, image0, blocks0, added, curBlock);
      ChoiceDone(used0, es0, next0, added, extents, curBlock, volume.nextAllocation);
    }

    /** Gives back `count` consecutive blocks. */
    method FreeRange(start: nat, count: nat, ghost used0: seq<bool>, ghost freed: seq<nat>)
      requires volume.Valid() && Freed(used0, volume.Used(), freed)
      requires Owned(used0, freed + Range(start, count)) && NoDuplicates(freed + Range(start, count))
      modifies volume`freeBlocks, volume.allocation
      ensures volume.Valid() && Freed(used0, volume.Used(), freed + Range(start, count))
      ensures volume.freeBlocks == old(volume.freeBlocks) + count
    {
      var block := start;
      assert freed + Range(start, 0) == freed;
      while block < start + count
        invariant start <= block <= start + count && volume.Valid()
        invariant Freed(used0, volume.Used(), freed + Range(start, block - start))
        invariant volume.freeBlocks == old(volume.freeBlocks) + (block - start)
      {
        ghost var all, now, used := freed + Range(start, count), freed + Range(start, block - start), volume.Used();
        NextToFree(used0, freed, start, count, block);
        FreeOne(used0, used, now, block);
        CountUpdate(used, block, false);
        volume.SetBlockUsed(block, false);
        volume.freeBlocks := volume.freeBlocks + 1;
        block := block + 1;
      }
    }

    /** Finds the extent in which the last block to be kept lies. */
    method FindCut(needed: nat) returns (i: nat, rest: nat)
      requires needed < |Blocks(extents)|
      ensures CutAt(extents, needed, i, rest)
    {
      i, rest := 0, needed;
      BlocksAt(extents, 0);
      assert extents[..0] == [];
      assert extents == [] ==> Blocks(extents) == [];
      while rest > 0
        invariant i < |extents| && |Blocks(extents[..i])| + rest == needed
        invariant (needed > 0 ==> rest > 0) && (needed == 0 ==> i == 0)
        decreases |extents| - i
      {
        if rest > extents[i].blockCount {
          rest := rest - extents[i].blockCount;
          BlocksUpTo(extents, i);
          BlocksAt(extents, i + 1);
          assert extents[..i + 1] == extents || i + 1 < |extents|;
          i := i + 1;
        } else {
          break;
        }
      }
    }

    /** Gives back the blocks behind the first `needed` ones. */
    method Shrink(needed: nat)
      requires Valid() && needed < totalBlocks
      modifies this`extents, volume`freeBlocks, volume.allocation
      ensures volume.Valid() && volume.freeBlocks == old(volume.freeBlocks) + (totalBlocks - needed)
      ensures AllPositive(extents)
      ensures Blocks(extents) == old(Blocks(extents))[..needed]
      ensures Freed(old(volume.Used()), volume.Used(), old(Blocks(extents))[needed..])
      ensures CutFrom(old(extents), extents)
    {
      hide Blocks, BitsOf, CountFree, Marked;
      ghost var used0, bs := volume.Used(), Blocks(extents);
      var i, rest := FindCut(needed);
      var es := extents;
      var listEnd := |es|;
      if rest == 0 && i > 0 {
        listEnd := i;
      } else if needed == 0 {
        listEnd := 0;
      }
      CutList(es, needed, i, rest);
      ghost var freed: seq<nat> := [];
      FreeNone(used0);
      assert needed == 0 ==> Blocks([]) == bs[..0] by { NoBlocks(); }
      extents := if listEnd == 0 then [] else es[..i] + [es[i].(blockCount := rest)];
      var j := i;
      while j < |es|
        invariant i <= j <= |es| && volume.Valid() && Freed(used0, volume.Used(), freed)
        invariant j == i ==> freed == [] && CutAt(es, needed, i, rest)
        invariant j > i ==> rest == 0 && bs[..needed] + freed == Blocks(es[..j])
        invariant volume.freeBlocks == old(volume.freeBlocks) + |freed|
        invariant forall i | 0 <= i < |extents| :: extents[i].blockCount > 0
        invariant Blocks(extents) == bs[..needed] && CutFrom(es, extents)
      {
        var start, count := es[j].startBlock + rest, es[j].blockCount - rest;
        NextTail(es, needed, freed, i, j, rest);
        TailBlocks(es, needed, j, used0, freed + Range(start, count));
        FreeRange(start, count, used0, freed);
        freed := freed + Range(start, count);
        rest := 0;
        j := j + 1;
      }
      assert es[..j] == es;
      assert freed == bs[needed..];
    }

    // ----- The records on disk -----

    /** The records on disk describe the list es, and no others are filed for the file. */
    ghost predicate Recorded(es: seq<Extent>)
      reads this`fork, volume`overflow
    {
      Readable(fork, volume.overflow, id, es) && NoOthers(volume.overflow, id, es)
    }

    /** Reads the extent list, looking overflow records up by file-relative block. */
    method ReadExtents(ghost es: seq<Extent>) returns (ok: bool)
      requires Readable(fork, volume.overflow, id, es) && AllPositive(es) && |Blocks(es)| == totalBlocks
      requires extents == []
      modifies this`extents
      ensures ok && extents == es
    {
      hide Blocks, FileBlock, Readable;
      var blocksLeft := totalBlocks;
      var currentExtent: nat, currentBlock: nat := 0, 0;
      var descriptor := fork;
      ghost var i := 0;
      WalkStarts(fork, volume.overflow, id, es);
      while blocksLeft > 0
        invariant Walking(descriptor, currentExtent, es, i, currentBlock)
        invariant blocksLeft == totalBlocks - currentBlock && extents == es[..i]
        decreases blocksLeft, currentExtent
      {
        WalkEnds(es, i, totalBlocks);
        if currentExtent == 8 {
          WalkToRecord(fork, volume.overflow, id, descriptor, es, i, currentBlock);
          var key := (id, currentBlock);
          if key !in volume.overflow {
            return false;
          }
          descriptor := volume.overflow[key];
          currentExtent := 0;
        } else {
          WalkStep(descriptor, currentExtent, es, i, currentBlock);
          extents := extents + [descriptor[currentExtent]];
          currentBlock := currentBlock + descriptor[currentExtent].blockCount;
          blocksLeft := blocksLeft - descriptor[currentExtent].blockCount;
          currentExtent := currentExtent + 1;
          i := i + 1;
        }
      }
      WalkEnds(es, i, totalBlocks);
      ok := true;
    }

    /** Removes the overflow records of the list es. */
    method RemoveExtents(ghost es: seq<Extent>) returns (ok: bool)
      requires Recorded(es) && AllPositive(es) && |Blocks(es)| == totalBlocks
      modifies volume`overflow
      ensures ok && WithoutFile(old(volume.overflow), volume.overflow, id)
    {
      hide Blocks, FileBlock, Readable, Cleared, NoOthers;
      ghost var tree := volume.overflow;
      var blocksLeft := totalBlocks;
      var currentExtent: nat, currentBlock: nat := 0, 0;
      var descriptor := fork;
      ghost var i := 0;
      WalkStarts(fork, tree, id, es);
      ClearNone(tree, id, es);
      while blocksLeft > 0
        invariant Walking(descriptor, currentExtent, es, i, currentBlock)
        invariant Cleared(tree, volume.overflow, id, es, i - currentExtent + 8)
        invariant blocksLeft == totalBlocks - currentBlock
        decreases blocksLeft, currentExtent
      {
        WalkEnds(es, i, totalBlocks);
        if currentExtent == 8 {
          WalkToRecord(fork, tree, id, descriptor, es, i, currentBlock);
          ClearOne(tree, volume.overflow, id, es, i, (i - 8) / 8);
          ClearedSame(tree, volume.overflow, id, es, i, currentBlock);
          var key := (id, currentBlock);
          if key !in volume.overflow {
            return false;
          }
          descriptor := volume.overflow[key];
          volume.overflow := volume.overflow - {key};
          currentExtent := 0;
        } else {
          WalkStep(descriptor, currentExtent, es, i, currentBlock);
          currentBlock := currentBlock + descriptor[currentExtent].blockCount;
          blocksLeft := blocksLeft - descriptor[currentExtent].blockCount;
          currentExtent := currentExtent + 1;
          i := i + 1;
        }
      }
      WalkEnds(es, i, totalBlocks);
      ClearedAll(tree, volume.overflow, id, es, i - currentExtent + 8);
      ok := true;
    }

    /** Saves the extent list; es is the list saved before. A tree insertion leaves a key that is present
        alone. */
    method WriteExtents(ghost es: seq<Extent>) returns (ok: bool)
      requires Recorded(es) && AllPositive(es) && |Blocks(es)| == totalBlocks
      requires AllPositive(extents) && NoDuplicates(Blocks(extents))
      modifies this`fork, volume`overflow
      ensures ok && Written(fork, volume.overflow, id, extents)
      ensures SameForOthers(old(volume.overflow), volume.overflow, id)
    {
      hide Blocks, RecordIs;
      ghost var tree := volume.overflow;
      ok := RemoveExtents(es);
      var i: nat := 0;
      var record := seq(8, _ => NO_EXTENT);
      while i < |extents| && i < 8
        invariant i <= 8 && i <= |extents| && |record| == 8
        invariant forall k | 0 <= k < 8 :: record[k] == if k < i then extents[0 + k] else Blank(extents, 0, k)
      {
        record := record[i := extents[i]];
        i := i + 1;
      }
      RecordFilled(record, extents, 0, i);
      fork := record;
      if i < |extents| {
        WriteOverflow();
      } else {
        FiledNone(volume.overflow, id, extents);
        FiledAll(volume.overflow, volume.overflow, id, extents, 0, fork);
      }
    }

    /** Files the extents from the eighth on. The record is blanked only once: the last one may end with
        descriptors of the one before. */
    method WriteOverflow()
      requires |extents| > 8 && AllPositive(extents) && NoDuplicates(Blocks(extents))
      requires RecordIs(fork, extents, 0) && forall b: nat :: (id, b) !in volume.overflow
      modifies volume`overflow
      ensures Written(fork, volume.overflow, id, extents)
      ensures SameForOthers(old(volume.overflow), volume.overflow, id)
    {
      hide Blocks, RecordIs;
      ghost var tree, es := volume.overflow, extents;
      ghost var g: nat := 0;
      FiledNone(tree, id, es);
      var i: nat, at: nat := 8, 0;
      var record := [];
      while i < |extents|
        invariant 8 <= i <= |es| && at <= 8 && i == First(g) + at && (at == 0 <==> i == 8)
        invariant i > 8 ==> |record| == 8
        invariant i > 8 ==> forall k | 0 <= k < 8 :: record[k] == if k < at then es[First(g) + k] else Blank(es, First(g), k)
        invariant Filed(tree, volume.overflow, id, es, g)
      {
        if at == 0 {
          record := seq(8, _ => NO_EXTENT);
        }
        if at == 8 {
          RecordFilled(record, es, First(g), at);
          FileOne(tree, volume.overflow, id, es, g, record);
          volume.overflow := AddToTree(volume.overflow, (id, record[0].startBlock), record);
          g := g + 1;
          at := 0;
        }
        record := record[at := extents[i]];
        i, at := i + 1, at + 1;
      }
      RecordFilled(record, es, First(g), at);
      FileOne(tree, volume.overflow, id, es, g, record);
      volume.overflow := AddToTree(volume.overflow, (id, record[0].startBlock), record);
      FiledAll(tree, volume.overflow, id, es, g + 1, fork);
    }

    // ----- Allocation -----

    /** The file as a flat byte array. */
    ghost function Contents(): seq<Byte>
      requires Valid()
      reads this`extents, this`totalBlocks, this`logicalSize, volume`freeBlocks, volume`nextAllocation, volume.allocation, volume.image
    {
      OwnedInside(volume.Used(), volume.image[..], volume.blockSize, Blocks(extents));
      Flat(volume.image[..], volume.blockSize, Blocks(extents))
    }

    /** Grows or shrinks the file to the blocks its new size takes. */
    method Allocate(size: nat) returns (ok: bool, ghost added: seq<nat>)
      requires Valid() && Recorded(extents)
      modifies this`extents, this`fork, this`totalBlocks, this`logicalSize
      modifies volume, volume.allocation, volume.image
      ensures Valid()
      ensures ok <==> BlocksFor(size, volume.blockSize) <= old(totalBlocks) + old(volume.freeBlocks)
      ensures !ok ==> unchanged(this) && unchanged(volume) && unchanged(volume.allocation) && unchanged(volume.image)
      ensures ok ==> totalBlocks == BlocksFor(size, volume.blockSize) && logicalSize == size
      ensures totalBlocks + volume.freeBlocks == old(totalBlocks) + old(volume.freeBlocks)
      ensures ok && totalBlocks > old(totalBlocks) ==>
        Blocks(extents) == old(Blocks(extents)) + added && |added| == totalBlocks - old(totalBlocks)
      ensures ok && totalBlocks > old(totalBlocks) ==>
        Taken(old(volume.Used()), volume.Used(), old(volume.image[..]), volume.image[..], volume.blockSize, added)
      ensures ok ==> Contents() == Resized(old(Contents()), totalBlocks * volume.blockSize)
      ensures ok && totalBlocks <= old(totalBlocks) ==>
        added == [] && Blocks(extents) == old(Blocks(extents))[..totalBlocks]
      ensures ok && totalBlocks <= old(totalBlocks) ==>
        Freed(old(volume.Used()), volume.Used(), old(Blocks(extents))[totalBlocks..])
      ensures ok && totalBlocks <= old(totalBlocks) ==> volume.image[..] == old(volume.image[..])
      ensures ok && totalBlocks > old(totalBlocks) ==>
        GrownBy(old(volume.Used()), old(extents), old(volume.nextAllocation), added, extents, volume.nextAllocation)
      ensures ok && totalBlocks <= old(totalBlocks) ==>
        CutFrom(old(extents), extents) && volume.nextAllocation == old(volume.nextAllocation)
      ensures ok && totalBlocks == old(totalBlocks) ==> extents == old(extents)
      ensures ok ==> (Recorded(extents) <==> KeysMatch(extents))
      ensures SameForOthers(old(volume.overflow), volume.overflow, id)
    {
      hide Blocks, Taken, Freed, BitsOf, CountFree, Readable, NoOthers, Written, Owned, NoDuplicates, GrownBy;
      ghost var es, used0, image0 := extents, volume.Used(), volume.image[..];
      var blocksNeeded := BlocksFor(size, volume.blockSize);
      added := [];
      if blocksNeeded > totalBlocks {
        var toAllocate := blocksNeeded - totalBlocks;
        if toAllocate > volume.freeBlocks {
          return false, [];
        }
        added := Grow(toAllocate);
        TakenFile(used0, volume.Used(), image0, volume.image[..], volume.blockSize, Blocks(es), added);
      } else if blocksNeeded < totalBlocks {
        Shrink(blocksNeeded);
        FlatPrefix(image0, volume.blockSize, used0, Blocks(es), blocksNeeded);
        FreedFile(used0, volume.Used(), Blocks(es), blocksNeeded);
      }
      if blocksNeeded == totalBlocks {
        FreeNone(used0);
        assert Blocks(es)[totalBlocks..] == [] && Blocks(es)[..totalBlocks] == Blocks(es);
      }
      var saved := WriteExtents(es);
      WrittenIsReadable(fork, volume.overflow, id, extents);
      BlocksForIsLeast(size, volume.blockSize, blocksNeeded);
      logicalSize := size;
      totalBlocks := blocksNeeded;
      ok := true;
    }

    // ----- Reading and writing -----

    /** The extent in which a byte of the file lies, and the byte's place in it; past the end of the file
        the extent is missing. */
    method Seek(location: nat) returns (i: nat, o: int)
      requires Valid() && extents != []
      ensures i <= |extents| && o == location - Offset(extents, volume.blockSize, i) && o >= 0
      ensures i < |extents| ==> o < Bytes(extents[i], volume.blockSize)
      ensures i == |extents| <==> location >= |Contents()|
    {
      hide Blocks, Offset, Bytes, RawFile.Contents, RawFile.Valid;
      ghost var size := volume.blockSize;
      i, o := 0, location;
      var fileLoc := 0;
      ContentsLength();
      OffsetEnd(extents, size);
      while true
        invariant i < |extents| && fileLoc == Offset(extents, size, i) <= location && o == location - fileLoc
        decreases |extents| - i
      {
        OffsetNext(extents, size, i);
        OffsetsGrow(extents, size, i + 1);
        fileLoc := fileLoc + Bytes(extents[i], volume.blockSize);
        if fileLoc <= location {
          o := o - Bytes(extents[i], volume.blockSize);
          i := i + 1;
          if i == |extents| {
            break;
          }
        } else {
          break;
        }
      }
    }

    lemma ContentsLength()
      requires Valid()
      ensures |Contents()| == totalBlocks * volume.blockSize == Offset(extents, volume.blockSize, |extents|)
      ensures |Blocks(extents)| == totalBlocks
    {
      OffsetEnd(extents, volume.blockSize);
    }

    /** Reads n bytes of extent i, from byte o of it. */
    method ReadChunk(i: nat, o: nat, n: nat, buffer: array<Byte>, done: nat, ghost location: nat)
      requires Valid() && buffer !in {volume.image, volume.allocation} && done + n <= buffer.Length
      requires i < |extents| && o + n <= Bytes(extents[i], volume.blockSize)
      requires Located(i, o, location + done)
      requires done > 0 ==> PartOf(buffer[..done], Contents(), location)
      modifies buffer
      ensures PartOf(buffer[..done + n], Contents(), location)
    {
      hide Blocks, Offset, Flat, Inside, BitsOf, CountFree, Overwrite;
      ghost var size, flat, image, d := volume.blockSize, Contents(), volume.image[..], buffer[..];
      OwnedInside(volume.Used(), image, size, Blocks(extents));
      ReadPart(image, size, extents, i, o, n);
      var from := extents[i].startBlock * volume.blockSize + o;
      volume.ReadImage(from, n, buffer, done);
      OverwritePrefix(d, done, image[from..from + n]);
      SliceExtends(flat, location, location + done, n);
      assert d[..done] == flat[location..location + done];
    }

    /** Byte `at` of the file is byte o of extent i, or there are no more extents. */
    ghost predicate Located(i: nat, o: int, at: nat)
      reads this`extents
    {
      i <= |extents| && o >= 0 && at == Offset(extents, volume.blockSize, i) + o
      && (i < |extents| ==> o <= Bytes(extents[i], volume.blockSize))
    }

    /** Behind the bytes left in an extent comes the next one. */
    lemma NextExtent(i: nat, o: nat, at: nat)
      requires Valid() && Located(i, o, at) && i < |extents|
      ensures o <= Bytes(extents[i], volume.blockSize)
      ensures at + (Bytes(extents[i], volume.blockSize) - o) <= |Contents()|
      ensures Located(i + 1, 0, at + (Bytes(extents[i], volume.blockSize) - o))
    {
      hide Blocks, Offset, Bytes, RawFile.Contents, RawFile.Valid;
      ContentsLength();
      OffsetNext(extents, volume.blockSize, i);
      OffsetsGrow(extents, volume.blockSize, i + 1);
    }

    /** Past the last extent lies nothing. */
    lemma NoExtent(o: nat, at: nat)
      requires Valid() && Located(|extents|, o, at)
      ensures at >= |Contents()|
    {
      ContentsLength();
    }

    /** Reads `size` bytes at a location of the file; fails when the file's blocks end before that. */
    method Read(location: nat, size: nat, buffer: array<Byte>) returns (ok: bool)
      requires Valid() && size <= buffer.Length && buffer !in {volume.image, volume.allocation}
      modifies buffer
      ensures ok <==> extents != [] && (size == 0 || location + size <= |Contents()|)
      ensures ok && size > 0 ==> PartOf(buffer[..size], Contents(), location)
    {
      if extents == [] {
        return false;
      }
      hide Blocks, Offset, Bytes, PartOf, RawFile.Contents, RawFile.Valid;
      ghost var flat := Contents();
      var i, o := Seek(location);
      var done: nat, left: nat := 0, size;
      ok := true;
      while left > 0
        invariant done + left == size && Located(i, o, location + done)
        invariant done > 0 ==> PartOf(buffer[..done], flat, location)
        decreases |extents| - i, left
      {
        hide RawFile.Located;
        if i == |extents| {
          NoExtent(o, location + done);
          return false;
        }
        NextExtent(i, o, location + done);
        var possible := Bytes(extents[i], volume.blockSize) - o;
        if left > possible {
          ReadChunk(i, o, possible, buffer, done, location);
          done, left := done + possible, left - possible;
          i := i + 1;
        } else {
          ReadChunk(i, o, left, buffer, done, location);
          done, left := size, 0;
          break;
        }
        o := 0;
      }
    }

    /** Writes some bytes into extent i, from byte o of it. */
    method WriteChunk(i: nat, o: nat, data: seq<Byte>, ghost at: nat)
      requires Valid() && i < |extents| && Located(i, o, at) && o + |data| <= Bytes(extents[i], volume.blockSize)
      modifies volume.image
      ensures Valid() && at + |data| <= |old(Contents())|
      ensures Contents() == Overwrite(old(Contents()), at, data)
      ensures SameElsewhere(old(volume.image[..]), volume.image[..], volume.blockSize, Blocks(extents))
    {
      hide Blocks, Offset, Flat, Inside, BitsOf, CountFree, Overwrite, SameElsewhere, NoDuplicates, Owned;
      OwnedInside(volume.Used(), volume.image[..], volume.blockSize, Blocks(extents));
      WritePart(volume.image[..], volume.blockSize, extents, i, o, data);
      volume.WriteImage(extents[i].startBlock * volume.blockSize + o, data);
    }

    /** Writes the data into the blocks the file has. */
    method WriteBlocks(location: nat, data: seq<Byte>) returns (ok: bool)
      requires Valid() && extents != [] && location + |data| <= |Contents()|
      modifies volume.image
      ensures ok && Valid() && Contents() == Overwrite(old(Contents()), location, data)
      ensures SameElsewhere(old(volume.image[..]), volume.image[..], volume.blockSize, Blocks(extents))
    {
      hide Blocks, Offset, Bytes, Overwrite, SameElsewhere, RawFile.Contents, RawFile.Valid;
      ghost var flat, image := Contents(), volume.image[..];
      OverwriteNone(flat, location);
      SameStart(image, volume.blockSize, Blocks(extents));
      var i, o := Seek(location);
      var done: nat := 0;
      ok := true;
      while done < |data|
        invariant done <= |data| && Located(i, o, location + done)
        invariant Valid() && Contents() == Overwrite(flat, location, data[..done])
        invariant SameElsewhere(image, volume.image[..], volume.blockSize, Blocks(extents))
        decreases |extents| - i, |data| - done
      {
        hide RawFile.Located;
        if i == |extents| {
          NoExtent(o, location + done);
          return false;
        }
        NextExtent(i, o, location + done);
        var possible := Bytes(extents[i], volume.blockSize) - o;
        ghost var image' := volume.image[..];
        if |data| - done > possible {
          WriteChunk(i, o, data[done..done + possible], location + done);
          OverwriteTwice(flat, location, data, done, possible);
          SameTwice(image, image', volume.image[..], volume.blockSize, Blocks(extents));
          done := done + possible;
          i := i + 1;
        } else {
          WriteChunk(i, o, data[done..], location + done);
          OverwriteTwice(flat, location, data, done, |data| - done);
          SameTwice(image, image', volume.image[..], volume.blockSize, Blocks(extents));
          done := |data|;
          break;
        }
        o := 0;
      }
      assert data[..|data|] == data;
    }

    /** Gives the file the blocks its new size takes, unless it is long enough. */
    method MakeRoom(size: nat) returns (ok: bool)
      requires Valid() && (size > logicalSize ==> Recorded(extents))
      modifies this`extents, this`fork, this`totalBlocks, this`logicalSize
      modifies volume, volume.allocation, volume.image
      ensures Valid()
      ensures ok <==> (size <= old(logicalSize) ||
        BlocksFor(size, volume.blockSize) <= old(totalBlocks) + old(volume.freeBlocks))
      ensures !ok ==> unchanged(this) && unchanged(volume) && unchanged(volume.allocation) && unchanged(volume.image)
      ensures ok ==> logicalSize == Max(old(logicalSize), size)
      ensures ok ==> (totalBlocks ==
        if size <= old(logicalSize) then old(totalBlocks) else BlocksFor(size, volume.blockSize))
      ensures ok ==> Contents() == Resized(old(Contents()), totalBlocks * volume.blockSize)
      ensures ok ==> (Recorded(extents) <==> if size <= old(logicalSize) then old(Recorded(extents)) else KeysMatch(extents))
      ensures totalBlocks + volume.freeBlocks == old(totalBlocks) + old(volume.freeBlocks)
      ensures Apart(old(volume.Used()), volume.Used(), old(Blocks(extents)), Blocks(extents))
      ensures SameElsewhere(old(volume.image[..]), volume.image[..], volume.blockSize, Blocks(extents))
      ensures SameForOthers(old(volume.overflow), volume.overflow, id)
    {
      hide Blocks, Taken, Freed, KeysMatch, Readable, NoOthers, SameElsewhere, Zeros, Flat, BitsOf, CountFree;
      hide NoDuplicates, Owned, RawFile.Contents;
      ghost var bs, used0, image0, flat0 := Blocks(extents), volume.Used(), volume.image[..], Contents();
      ContentsLength();
      SameStart(image0, volume.blockSize, bs);
      if logicalSize >= size {
        return true;
      }
      ghost var added;
      ok, added := Allocate(size);
      if ok {
        ContentsLength();
        if totalBlocks > |bs| {
          TakenApart(used0, volume.Used(), image0, volume.image[..], volume.blockSize, bs, added);
        } else {
          FreedApart(used0, volume.Used(), bs, totalBlocks);
          SameStart(image0, volume.blockSize, Blocks(extents));
        }
      } else {
        assert volume.image[..] == image0 && volume.Used() == used0;
      }
    }

    /** Writes the data at a location of the file, which is first made as long as that needs. */
    method Write(location: nat, data: seq<Byte>) returns (ok: bool)
      requires Valid() && location + |data| > 0 && (location + |data| > logicalSize ==> Recorded(extents))
      modifies this`extents, this`fork, this`totalBlocks, this`logicalSize
      modifies volume, volume.allocation, volume.image
      ensures Valid()
      ensures ok <==> (location + |data| <= old(logicalSize) ||
        BlocksFor(location + |data|, volume.blockSize) <= old(totalBlocks) + old(volume.freeBlocks))
      ensures !ok ==> unchanged(this) && unchanged(volume) && unchanged(volume.allocation) && unchanged(volume.image)
      ensures ok ==> logicalSize == Max(old(logicalSize), location + |data|)
      ensures ok ==> (totalBlocks ==
        if logicalSize == old(logicalSize) then old(totalBlocks) else BlocksFor(location + |data|, volume.blockSize))
      ensures ok ==> location + |data| <= totalBlocks * volume.blockSize
      ensures ok ==> Contents() == Overwrite(Resized(old(Contents()), totalBlocks * volume.blockSize), location, data)
      ensures ok ==> (Recorded(extents) <==>
        if location + |data| <= old(logicalSize) then old(Recorded(extents)) else KeysMatch(extents))
      ensures totalBlocks + volume.freeBlocks == old(totalBlocks) + old(volume.freeBlocks)
      ensures Apart(old(volume.Used()), volume.Used(), old(Blocks(extents)), Blocks(extents))
      ensures SameElsewhere(old(volume.image[..]), volume.image[..], volume.blockSize, Blocks(extents))
      ensures SameForOthers(old(volume.overflow), volume.overflow, id)
    {
      hide Blocks, KeysMatch, Readable, NoOthers, Overwrite, SameElsewhere, Resized, RawFile.Contents, RawFile.HasBlocks;
      ghost var image0 := volume.image[..];
      ok := MakeRoom(location + |data|);
      if !ok {
        return;
      }
      ContentsLength();
      HasExtents();
      BlocksForIsLeast(location + |data|, volume.blockSize, totalBlocks);
      ghost var image1, bs := volume.image[..], Blocks(extents);
      ok := WriteBlocks(location, data);
      SameTwice(image0, image1, volume.image[..], volume.blockSize, bs);
    }

    lemma HasExtents()
      requires Valid()
      ensures extents == [] ==> totalBlocks == 0 && logicalSize == 0
    {}
  }
}
