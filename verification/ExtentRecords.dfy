/** Extent lists on disk: eight descriptors in the fork data, the rest in records of eight in the extents
    overflow tree (here a map from file and start block to a record). */
module ExtentRecords {
  import opened Collections
  import opened Extents

  type Key = (nat, nat)
  type Tree = map<Key, seq<Extent>>

  const NO_EXTENT := Extent(0, 0)

  /** Where overflow record g starts in the list. */
  ghost function First(g: nat): nat {
    8 + 8 * g
  }

  /** The file-relative block at which extent i starts. */
  ghost function FileBlock(es: seq<Extent>, i: nat): nat
    requires i <= |es|
  {
    |Blocks(es[..i])|
  }

  /** The record agrees with the list from extent i on, as far as both go. */
  ghost predicate RecordHolds(record: seq<Extent>, es: seq<Extent>, i: nat) {
    |record| == 8 && forall k | 0 <= k < 8 && i + k < |es| :: record[k] == es[i + k]
  }

  /** The record as it is written: behind the end of the list, descriptors without blocks in the fork data and in the
      first overflow record; those of the record before it in any other. */
  ghost predicate RecordIs(record: seq<Extent>, es: seq<Extent>, i: nat) {
    && |record| == 8
    && forall k | 0 <= k < 8 :: record[k] == Descriptor(es, i, k)
  }

  ghost function Descriptor(es: seq<Extent>, i: nat, k: nat): Extent {
    if i + k < |es| then es[i + k] else if i >= 16 && i + k < |es| + 8 then es[i + k - 8] else Extent(0, 0)
  }

  lemma IsHolds(record: seq<Extent>, es: seq<Extent>, i: nat)
    requires RecordIs(record, es, i)
    ensures RecordHolds(record, es, i)
  {}

  /** What readExtents needs to find in order to rebuild the list: overflow records under their file-relative
      start blocks. */
  ghost predicate Readable(fork: seq<Extent>, tree: Tree, id: nat, es: seq<Extent>) {
    && RecordHolds(fork, es, 0)
    && forall g: nat | First(g) < |es| ::
      && (id, FileBlock(es, First(g))) in tree
      && RecordHolds(tree[(id, FileBlock(es, First(g)))], es, First(g))
  }

  /** The tree has no other records of the file than those. */
  ghost predicate NoOthers(tree: Tree, id: nat, es: seq<Extent>) {
    forall b: nat | (id, b) in tree :: exists g: nat :: First(g) < |es| && b == FileBlock(es, First(g))
  }

  /** What writeExtents leaves: overflow records under the volume block their first extent starts at. */
  ghost predicate Written(fork: seq<Extent>, tree: Tree, id: nat, es: seq<Extent>) {
    && RecordIs(fork, es, 0)
    && (forall g: nat | First(g) < |es| ::
      && (id, es[First(g)].startBlock) in tree
      && RecordIs(tree[(id, es[First(g)].startBlock)], es, First(g)))
    && forall b: nat | (id, b) in tree :: exists g: nat :: First(g) < |es| && b == es[First(g)].startBlock
  }

  /** The two kinds of key agree: the overflowing extents lie on the volume where they lie in the file. */
  ghost predicate KeysMatch(es: seq<Extent>) {
    forall g: nat | First(g) < |es| :: es[First(g)].startBlock == FileBlock(es, First(g))
  }

  /** A list that has been written can be read back if and only if the keys match. */
  lemma WrittenIsReadable(fork: seq<Extent>, tree: Tree, id: nat, es: seq<Extent>)
    requires Written(fork, tree, id, es)
    ensures Readable(fork, tree, id, es) && NoOthers(tree, id, es) <==> KeysMatch(es)
  {
    hide Blocks, FileBlock, RecordHolds, RecordIs;
    IsHolds(fork, es, 0);
    forall g: nat | First(g) < |es| ensures RecordHolds(tree[(id, es[First(g)].startBlock)], es, First(g)) {
      IsHolds(tree[(id, es[First(g)].startBlock)], es, First(g));
    }
    if KeysMatch(es) {
      forall b: nat | (id, b) in tree ensures exists g: nat :: First(g) < |es| && b == FileBlock(es, First(g)) {
        var g: nat :| First(g) < |es| && b == es[First(g)].startBlock;
      }
    } else if Readable(fork, tree, id, es) {
      var g: nat :| First(g) < |es| && es[First(g)].startBlock != FileBlock(es, First(g));
      var b := FileBlock(es, First(g));
      assert (id, b) in tree;
      var h: nat :| First(h) < |es| && b == es[First(h)].startBlock;
      HeadOfRecord(tree[(id, b)], es, First(g));
      HeadOfRecord(tree[(id, b)], es, First(h));
    }
  }

  lemma HeadOfRecord(record: seq<Extent>, es: seq<Extent>, i: nat)
    requires RecordHolds(record, es, i) && i < |es|
    ensures |record| == 8 && record[0] == es[i]
  {
    assert record[0] == es[i + 0];
  }

  /** Up to eight extents nothing overflows. */
  lemma FewExtentsMatch(es: seq<Extent>)
    requires |es| <= 8
    ensures KeysMatch(es)
  {}

  lemma FileBlockNext(es: seq<Extent>, i: nat)
    requires i < |es|
    ensures FileBlock(es, i + 1) == FileBlock(es, i) + es[i].blockCount
  {
    BlocksUpTo(es, i);
  }

  /** Extents of one block each, with a gap behind every one. */
  ghost function Scattered(n: nat): (es: seq<Extent>)
    ensures |es| == n
  {
    seq(n, i requires 0 <= i => Extent(2 * i, 1))
  }

  lemma {:induction false} ScatteredBlock(n: nat, i: nat)
    requires i <= n
    ensures FileBlock(Scattered(n), i) == i
  {
    if i == 0 {
      assert Scattered(n)[..0] == [];
    } else {
      ScatteredBlock(n, i - 1);
      FileBlockNext(Scattered(n), i - 1);
    }
  }

  /** Nine of them: the ninth starts at block 16 of the volume, and at block 8 of the file. */
  lemma NineExtentsDiffer()
    ensures FileBlock(Scattered(9), 8) == 8 && Scattered(9)[8].startBlock == 16 && !KeysMatch(Scattered(9))
  {
    ScatteredBlock(9, 8);
    assert First(0) == 8;
  }

  // ----- Reading and removing -----

  ghost predicate AllPositive(es: seq<Extent>) {
    forall i | 0 <= i < |es| :: es[i].blockCount > 0
  }

  lemma {:induction false} FileBlockGrows(es: seq<Extent>, i: nat, j: nat)
    requires i < j <= |es| && AllPositive(es)
    ensures FileBlock(es, i) < FileBlock(es, j)
  {
    FileBlockNext(es, j - 1);
    if i < j - 1 {
      FileBlockGrows(es, i, j - 1);
    }
  }

  /** A walk over the records of a list: the descriptor in hand is number `at` of the record that starts at
      extent i - at, and the walk is at file block `block`. */
  ghost predicate Walking(record: seq<Extent>, at: nat, es: seq<Extent>, i: nat, block: nat) {
    && at <= 8 && at <= i <= |es| && (i - at) % 8 == 0
    && RecordHolds(record, es, i - at) && block == FileBlock(es, i)
  }

  lemma WalkEnds(es: seq<Extent>, i: nat, total: nat)
    requires i <= |es| && AllPositive(es) && total == |Blocks(es)|
    ensures FileBlock(es, i) <= total && (FileBlock(es, i) == total <==> i == |es|)
  {
    assert es[..|es|] == es;
    if i < |es| {
      FileBlockGrows(es, i, |es|);
    }
  }

  lemma WalkStep(record: seq<Extent>, at: nat, es: seq<Extent>, i: nat, block: nat)
    requires Walking(record, at, es, i, block) && at < 8 && i < |es|
    ensures record[at] == es[i] && Walking(record, at + 1, es, i + 1, block + es[i].blockCount)
  {
    assert es[i - at + at] == es[i];
    FileBlockNext(es, i);
  }

  /** Eight descriptors on, the next record is the one filed under the current block. */
  lemma WalkToRecord(fork: seq<Extent>, tree: Tree, id: nat, record: seq<Extent>, es: seq<Extent>, i: nat, block: nat)
    requires Readable(fork, tree, id, es) && Walking(record, 8, es, i, block) && i < |es|
    ensures i == First((i - 8) / 8)
    ensures (id, block) in tree && Walking(tree[(id, block)], 0, es, i, block)
  {
    var g := (i - 8) / 8;
    assert First(g) == i;
  }

  /** The tree without the records of the file that start before extent i. */
  ghost predicate Cleared(tree: Tree, tree': Tree, id: nat, es: seq<Extent>, i: nat) {
    && tree'.Keys <= tree.Keys && (forall key | key in tree' :: tree'[key] == tree[key])
    && forall key | key in tree ::
      key !in tree' <==> key.0 == id && exists g: nat :: First(g) < i && First(g) < |es| && key.1 == FileBlock(es, First(g))
  }

  lemma ClearOne(tree: Tree, tree': Tree, id: nat, es: seq<Extent>, i: nat, g: nat)
    requires AllPositive(es) && i == First(g) && i < |es| && Cleared(tree, tree', id, es, i)
    requires (id, FileBlock(es, i)) in tree
    ensures (id, FileBlock(es, i)) in tree'
    ensures Cleared(tree, tree' - {(id, FileBlock(es, i))}, id, es, i + 8)
  {
    hide FileBlock;
    var k := (id, FileBlock(es, i));
    forall h: nat | First(h) < i ensures FileBlock(es, First(h)) < k.1 {
      FileBlockGrows(es, First(h), i);
    }
    var now := tree' - {k};
    forall key | key in tree
      ensures key !in now <==>
        key.0 == id && exists h: nat :: First(h) < i + 8 && First(h) < |es| && key.1 == FileBlock(es, First(h))
    {
      if key == k {
        assert First(g) < i + 8;
      } else if key.0 == id && exists h: nat :: First(h) < i + 8 && First(h) < |es| && key.1 == FileBlock(es, First(h)) {
        var h: nat :| First(h) < i + 8 && First(h) < |es| && key.1 == FileBlock(es, First(h));
        assert h == g || First(h) < i;
      }
    }
  }

  lemma WalkStarts(fork: seq<Extent>, tree: Tree, id: nat, es: seq<Extent>)
    requires Readable(fork, tree, id, es)
    ensures Walking(fork, 0, es, 0, 0)
  {
    assert es[..0] == [];
  }

  ghost predicate SameForOthers(tree: Tree, tree': Tree, id: nat) {
    forall key: Key | key.0 != id :: (key in tree' <==> key in tree) && (key in tree ==> tree'[key] == tree[key])
  }

  ghost predicate WithoutFile(tree: Tree, tree': Tree, id: nat) {
    SameForOthers(tree, tree', id) && forall b: nat :: (id, b) !in tree'
  }

  lemma ClearNone(tree: Tree, id: nat, es: seq<Extent>)
    ensures Cleared(tree, tree, id, es, 8)
  {}

  lemma ClearedSame(tree: Tree, tree': Tree, id: nat, es: seq<Extent>, i: nat, block: nat)
    requires i <= |es| && block == FileBlock(es, i) && (id, FileBlock(es, i)) in tree'
    requires Cleared(tree, tree', id, es, i)
    ensures (id, block) in tree' && tree'[(id, block)] == tree[(id, block)]
  {}

  lemma ClearedAll(tree: Tree, tree': Tree, id: nat, es: seq<Extent>, i: nat)
    requires Cleared(tree, tree', id, es, i) && i >= |es| && NoOthers(tree, id, es)
    ensures WithoutFile(tree, tree', id)
  {
    forall b: nat ensures (id, b) !in tree' {
      if (id, b) in tree {
        var g: nat :| First(g) < |es| && b == FileBlock(es, First(g));
      }
    }
  }

  // ----- Writing -----

  /** A descriptor that has not been written yet. */
  ghost function Blank(es: seq<Extent>, i: nat, k: nat): Extent {
    if 16 <= i <= |es| && k < 8 then es[i - 8 + k] else NO_EXTENT
  }

  lemma RecordFilled(record: seq<Extent>, es: seq<Extent>, i: nat, n: nat)
    requires |record| == 8 && n <= 8 && i + n <= |es| && (n == 8 || i + n == |es|)
    requires forall k | 0 <= k < 8 :: record[k] == if k < n then es[i + k] else Blank(es, i, k)
    ensures RecordIs(record, es, i) && (n > 0 ==> record[0] == es[i])
  {
    assert n > 0 ==> record[0] == es[i + 0];
  }

  /** The first g overflow records have been filed. */
  ghost predicate Filed(tree: Tree, tree': Tree, id: nat, es: seq<Extent>, g: nat) {
    && First(g) <= |es| + 8
    && (forall key: Key | key.0 != id :: (key in tree' <==> key in tree) && (key in tree ==> tree'[key] == tree[key]))
    && (forall h: nat | h < g && First(h) < |es| ::
      (id, es[First(h)].startBlock) in tree' && RecordIs(tree'[(id, es[First(h)].startBlock)], es, First(h)))
    && forall b: nat | (id, b) in tree' :: exists h: nat :: h < g && First(h) < |es| && b == es[First(h)].startBlock
  }

  lemma FiledNone(tree: Tree, id: nat, es: seq<Extent>)
    requires forall b: nat :: (id, b) !in tree
    ensures Filed(tree, tree, id, es, 0)
  {}

  /** Different extents start at different blocks, so every record gets a key of its own. */
  lemma StartsDiffer(es: seq<Extent>, i: nat, j: nat)
    requires i < j < |es| && AllPositive(es) && NoDuplicates(Blocks(es))
    ensures es[i].startBlock != es[j].startBlock
  {
    StartIsBlock(es, i);
    StartIsBlock(es, j);
    FileBlockGrows(es, i, j);
  }

  lemma StartIsBlock(es: seq<Extent>, i: nat)
    requires i < |es| && AllPositive(es)
    ensures FileBlock(es, i) < |Blocks(es)| && Blocks(es)[FileBlock(es, i)] == es[i].startBlock
  {
    BlocksAt(es, i);
    BlocksFrom(es, i);
  }

  lemma FileOne(tree: Tree, tree': Tree, id: nat, es: seq<Extent>, g: nat, record: seq<Extent>)
    requires Filed(tree, tree', id, es, g) && First(g) < |es| && RecordIs(record, es, First(g))
    requires |record| == 8 && record[0] == es[First(g)] && AllPositive(es) && NoDuplicates(Blocks(es))
    ensures Filed(tree, AddToTree(tree', (id, record[0].startBlock), record), id, es, g + 1)
  {
    hide Blocks, RecordIs;
    var key := (id, record[0].startBlock);
    forall h: nat | h < g ensures es[First(h)].startBlock != key.1 {
      StartsDiffer(es, First(h), First(g));
    }
    assert key !in tree';
    var now := AddToTree(tree', key, record);
    forall b: nat | (id, b) in now
      ensures exists h: nat :: h < g + 1 && First(h) < |es| && b == es[First(h)].startBlock
    {
      if b == key.1 {
        assert g < g + 1 && b == es[First(g)].startBlock;
      } else {
        var h: nat :| h < g && First(h) < |es| && b == es[First(h)].startBlock;
        assert h < g + 1;
      }
    }
  }

  lemma FiledAll(tree: Tree, tree': Tree, id: nat, es: seq<Extent>, g: nat, fork: seq<Extent>)
    requires Filed(tree, tree', id, es, g) && RecordIs(fork, es, 0) && First(g) >= |es|
    ensures Written(fork, tree', id, es) && SameForOthers(tree, tree', id)
  {
    forall h: nat | First(h) < |es| ensures h < g {}
  }
}
