/** What removing a record does to a tree of levels, from the leaf up. */
module BTreeRemoving {
  import opened BTreeRecords
  import opened BTreeLevels
  import opened BTreeSteps
  import opened BTreeSearching

  /** What became of a node under which a key was to be removed. Astray: the search for the key has run past
      the last record of a leaf. */
  datatype Removal = Stays | Gone | Astray

  /** Record c of node p has been taken out, and the node with it if it was the last one. */
  ghost predicate Shrunk(nodes0: Nodes, level0: seq<nat>, nodes1: Nodes, level1: seq<nat>, p: nat, c: nat, gone: bool) {
    && p < |level0| && c < |Recs(nodes0, level0[p])| && (gone <==> |Recs(nodes0, level0[p])| == 1)
    && level1 == (if gone then RemoveAt(level0, p) else level0)
    && Flat(nodes1, level1) ==
       Flat(nodes0, level0[..p]) + RemoveAt(Recs(nodes0, level0[p]), c) + Flat(nodes0, level0[p + 1..])
    && IndexShrunk(nodes0, level0, nodes1, level1, p, gone)
    && (c > 0 ==> Head(nodes1, level0[p]) == Head(nodes0, level0[p]))
  }

  ghost predicate IndexShrunk(nodes0: Nodes, level0: seq<nat>, nodes1: Nodes, level1: seq<nat>, p: nat, gone: bool)
    requires p < |level0|
  {
    Index(nodes1, level1) ==
      if gone then RemoveAt(Index(nodes0, level0), p) else Index(nodes0, level0)[p := Rec(Head(nodes1, level0[p]), level0[p])]
  }

  /** Taking a record out of a node takes it out of the level's list. */
  lemma TakenFromLevel(nodes: Nodes, used: seq<bool>, level: seq<nat>, k: nat, caps: Caps, p: nat, c: nat)
    requires LevelOK(nodes, used, level, k, caps) && p < |level| && c < |Recs(nodes, level[p])|
    ensures |Flat(nodes, level[..p])| + c < |Flat(nodes, level)|
    ensures Flat(nodes, level)[|Flat(nodes, level[..p])| + c] == Recs(nodes, level[p])[c]
    ensures Flat(nodes, level[..p]) + RemoveAt(Recs(nodes, level[p]), c) + Flat(nodes, level[p + 1..])
         == RemoveAt(Flat(nodes, level), |Flat(nodes, level[..p])| + c)
    ensures Sorted(RemoveAt(Flat(nodes, level), |Flat(nodes, level[..p])| + c))
  {
    hide Flat, RemoveAt, Sorted;
    var a, recs, b := Flat(nodes, level[..p]), Recs(nodes, level[p]), Flat(nodes, level[p + 1..]);
    FlatAround(nodes, level, p);
    RemoveInPart(a, recs, b, c);
    assert (a + recs + b)[|a| + c] == recs[c];
    SortedRemove(Flat(nodes, level), |a| + c);
  }

  /** The node keeps other records. */
  lemma ShrinkPut(nodes: Nodes, used: seq<bool>, level: seq<nat>, k: nat, caps: Caps, p: nat, c: nat)
    requires LevelOK(nodes, used, level, k, caps) && p < |level| && level[p] < |nodes|
    requires c < |nodes[level[p]].recs| && |nodes[level[p]].recs| > 1
    ensures var nodes' := WithRecs(nodes, level[p], RemoveAt(nodes[level[p]].recs, c));
      && LevelOK(nodes', used, level, k, caps) && Shrunk(nodes, level, nodes', level, p, c, false)
      && SameAtOthers(nodes, used, nodes', used, k + 1)
  {
    hide Flat, Sorted, LevelOK, WithRecs, Index;
    var recs := nodes[level[p]].recs;
    TakenFromLevel(nodes, used, level, k, caps, p, c);
    NodeNotEmpty(nodes, used, level, k, caps, p);
    PutLevel(nodes, used, level, k, caps, p, RemoveAt(recs, c));
    RecsOfWith(nodes, level[p], RemoveAt(recs, c), level[p]);
  }

  /** The node was left without records and has been dropped. */
  lemma ShrinkDrop(nodes: Nodes, nodes': Nodes, used: seq<bool>, level: seq<nat>, k: nat, caps: Caps, p: nat)
    requires LevelOK(nodes, used, level, k, caps) && p < |level| && level[p] < |nodes| && |nodes[level[p]].recs| == 1
    requires IsUnlinked(WithRecs(nodes, level[p], []), nodes', level[p])
    ensures level[p] < |used|
    ensures var level' := RemoveAt(level, p);
      && LevelOK(nodes', used[level[p] := false], level', k, caps) && Shrunk(nodes, level, nodes', level', p, 0, true)
      && SameAtOthers(nodes, used, nodes', used[level[p] := false], k + 1)
  {
    hide Flat, Sorted, LevelOK, Index, SameAtOthers;
    LinksInUse(nodes, used, level, k, caps, p);
    NodeNotEmpty(nodes, used, level, k, caps, p);
    EmptiedUnlinked(nodes, nodes', level[p]);
    hide WithRecs, IsUnlinked;
    DropLevel(nodes, nodes', used, level, k, caps, p);
    var a, b := Flat(nodes, level[..p]), Flat(nodes, level[p + 1..]);
    assert RemoveAt(nodes[level[p]].recs, 0) == [];
    assert a + [] + b == a + b;
  }

  lemma EmptiedUnlinked(nodes: Nodes, nodes': Nodes, id: nat)
    requires id < |nodes| && IsUnlinked(WithRecs(nodes, id, []), nodes', id)
    requires id !in {nodes[id].fLink, nodes[id].bLink}
    ensures IsUnlinked(nodes, nodes', id)
  {}

  /** The length and the ends of a level after a record has been taken out. */
  lemma ShrunkEnds(nodes0: Nodes, level0: seq<nat>, nodes1: Nodes, level1: seq<nat>, p: nat, c: nat, gone: bool)
    requires Shrunk(nodes0, level0, nodes1, level1, p, c, gone)
    ensures |Flat(nodes1, level1)| == |Flat(nodes0, level0)| - 1 && p < |level0|
    ensures (if level1 == [] then 0 else level1[0]) == if gone && p == 0 then Next(level0, p) else level0[0]
    ensures (if level1 == [] then 0 else level1[|level1| - 1])
         == if gone && p == |level0| - 1 then Prev(level0, p) else level0[|level0| - 1]
  {
    hide Flat, RemoveAt, IndexShrunk;
    FlatAround(nodes0, level0, p);
    RemoveEnds(level0, p);
  }

  lemma RemoveEnds(level: seq<nat>, p: nat)
    requires p < |level|
    ensures var t := RemoveAt(level, p);
      && (if t == [] then 0 else t[0]) == (if p == 0 then Next(level, p) else level[0])
      && (if t == [] then 0 else t[|t| - 1]) == (if p == |level| - 1 then Prev(level, p) else level[|level| - 1])
  {}

  /** A node above the leaves is not one of them. */
  lemma NotALeaf(nodes: Nodes, used: seq<bool>, lev: seq<seq<nat>>, h: nat, caps: Caps, p: nat)
    requires 0 < h < |lev| && TreeOK(nodes, used, lev, h, caps) && LevelOK(nodes, used, lev[h], h, caps) && p < |lev[h]|
    ensures lev[0] != [] ==> lev[h][p] != lev[0][0] && lev[h][p] != lev[0][|lev[0]| - 1]
    ensures lev[h][p] != 0
  {
    NodeNotEmpty(nodes, used, lev[h], h, caps, p);
    if lev[0] != [] {
      LevelOf(nodes, used, lev, h, 0, caps);
      NodeNotEmpty(nodes, used, lev[0], 0, caps, 0);
      NodeNotEmpty(nodes, used, lev[0], 0, caps, |lev[0]| - 1);
    }
  }

  /** Removing a key under node p of level h has removed it from the leaves. The node is gone, or has another
      first key, only if that key was its first one. */
  ghost predicate Removed(nodes0: Nodes, used0: seq<bool>, lev0: seq<seq<nat>>, nodes1: Nodes, used1: seq<bool>,
                          lev1: seq<seq<nat>>, h: nat, p: nat, gone: bool, key: int) {
    && |lev1| == |lev0| && h < |lev0| && p < |lev0[h]| && (forall k | h < k < |lev0| :: lev1[k] == lev0[k])
    && lev1[h] == (if gone then RemoveAt(lev0[h], p) else lev0[h])
    && IndexShrunk(nodes0, lev0[h], nodes1, lev1[h], p, gone)
    && (gone || Head(nodes1, lev0[h][p]) != Head(nodes0, lev0[h][p]) ==> key == Head(nodes0, lev0[h][p]))
    && Flat(nodes1, lev1[0]) == Without(Flat(nodes0, lev0[0]), key)
    && SameAbove(nodes0, used0, nodes1, used1, h + 1)
  }

  /** A record has been taken out of a leaf. */
  lemma RemovedFromLeaf(nodes0: Nodes, used0: seq<bool>, lev0: seq<seq<nat>>, nodes1: Nodes, used1: seq<bool>,
                        lev1: seq<seq<nat>>, caps: Caps, p: nat, gone: bool, key: int)
    requires TreeOK(nodes0, used0, lev0, 1, caps) && p < |lev0[0]| && Routed(nodes0, lev0[0], p, key)
    requires |lev1| == |lev0| && forall k | 0 < k < |lev0| :: lev1[k] == lev0[k]
    requires var recs := Recs(nodes0, lev0[0][p]);
      var i := Place(recs, key);
      i < |recs| && recs[i].key == key && Shrunk(nodes0, lev0[0], nodes1, lev1[0], p, i, gone)
    requires LevelOK(nodes1, used1, lev1[0], 0, caps) && SameAtOthers(nodes0, used0, nodes1, used1, 1)
    ensures TreeOK(nodes1, used1, lev1, 1, caps) && Removed(nodes0, used0, lev0, nodes1, used1, lev1, 0, p, gone, key)
  {
    hide Flat, Sorted, Has, Place, IndexShrunk, RemoveAt, LevelOK;
    LevelOf(nodes0, used0, lev0, 1, 0, caps);
    KeyInLevel(nodes0, used0, lev0[0], 0, caps, p, key);
    TakenFromLevel(nodes0, used0, lev0[0], 0, caps, p, Place(Recs(nodes0, lev0[0][p]), key));
  }

  lemma KeyInLevel(nodes: Nodes, used: seq<bool>, level: seq<nat>, k: nat, caps: Caps, p: nat, key: int)
    requires LevelOK(nodes, used, level, k, caps) && Routed(nodes, level, p, key)
    ensures Recs(nodes, level[p]) != []
    ensures Place(Flat(nodes, level), key) == |Flat(nodes, level[..p])| + Place(Recs(nodes, level[p]), key)
    ensures Has(Flat(nodes, level), key) <==> Has(Recs(nodes, level[p]), key)
  {
    NodeNotEmpty(nodes, used, level, k, caps, p);
    PlaceInLevel(nodes, used, level, k, caps, p, key);
  }

  /** The key is not there: nothing has to be done. */
  lemma NotThere(nodes: Nodes, used: seq<bool>, lev: seq<seq<nat>>, h: nat, caps: Caps, p: nat, key: int)
    requires TreeOK(nodes, used, lev, h + 1, caps) && p < |lev[h]| && !Has(Flat(nodes, lev[0]), key)
    ensures Removed(nodes, used, lev, nodes, used, lev, h, p, false, key)
  {
    hide Flat;
    IndexAt(nodes, lev[h], p);
    assert Index(nodes, lev[h])[p := Index(nodes, lev[h])[p]] == Index(nodes, lev[h]);
  }

  // ----- Keys past the end of a leaf -----

  /** The key is not in the tree and belongs behind the last record of some leaf. */
  ghost predicate PastLeafEnd(nodes: Nodes, leaves: seq<nat>, key: int) {
    !Has(Flat(nodes, leaves), key) && exists q :: 0 <= q < |leaves| && EndsAt(nodes, leaves, q, Place(Flat(nodes, leaves), key))
  }

  /** The records up to leaf q are i. */
  ghost predicate EndsAt(nodes: Nodes, leaves: seq<nat>, q: nat, i: nat)
    requires q < |leaves|
  {
    i == |Flat(nodes, leaves[..q + 1])|
  }

  lemma {:induction false} PrefixesGrow(nodes: Nodes, used: seq<bool>, level: seq<nat>, k: nat, caps: Caps, i: nat, j: nat)
    requires AllOK(nodes, used, level, k, caps) && i < j <= |level|
    ensures |Flat(nodes, level[..i])| < |Flat(nodes, level[..j])|
  {
    assert NodeOK(nodes, used, level[j - 1], k, caps);
    assert level[..j][..j - 1] == level[..j - 1];
    if i < j - 1 {
      PrefixesGrow(nodes, used, level, k, caps, i, j - 1);
    }
  }

  /** In the leaf to which the key is routed one can see whether it is past the end. */
  lemma PastEndInLeaf(nodes: Nodes, used: seq<bool>, lev: seq<seq<nat>>, caps: Caps, p: nat, key: int)
    requires TreeOK(nodes, used, lev, 1, caps) && Routed(nodes, lev[0], p, key)
    ensures PastLeafEnd(nodes, lev[0], key) <==> Place(Recs(nodes, lev[0][p]), key) == |Recs(nodes, lev[0][p])|
  {
    hide Flat, Has;
    var level, recs := lev[0], Recs(nodes, lev[0][p]);
    var i := Place(Flat(nodes, level), key);
    LevelOf(nodes, used, lev, 1, 0, caps);
    KeyInLevel(nodes, used, level, 0, caps, p, key);
    SortedNode(nodes, used, level, 0, caps, p);
    HasAtPlace(recs, key);
    assert level[..p + 1][..p] == level[..p] && level[..p + 1][p + 1..] == [];
    FlatAround(nodes, level[..p + 1], p);
    FlatEmpty(nodes);
    if Place(recs, key) == |recs| {
      assert EndsAt(nodes, level, p, i);
    }
    if PastLeafEnd(nodes, level, key) {
      var q :| 0 <= q < |level| && EndsAt(nodes, level, q, i);
      if q < p {
        if q + 1 < p {
          PrefixesGrow(nodes, used, level, 0, caps, q + 1, p);
        }
        FirstRoutedKey(nodes, level, p, key);
      } else if p < q {
        PrefixesGrow(nodes, used, level, 0, caps, p + 1, q + 1);
      }
    }
  }

  lemma FirstRoutedKey(nodes: Nodes, level: seq<nat>, p: nat, key: int)
    requires Routed(nodes, level, p, key) && 0 < p && Recs(nodes, level[p]) != []
    ensures Place(Recs(nodes, level[p]), key) > 0 || Has(Recs(nodes, level[p]), key)
  {
    assert Recs(nodes, level[p])[0].key <= key;
  }

  /** A key smaller than all others is not past the end of a leaf. */
  lemma SmallestNotPast(nodes: Nodes, used: seq<bool>, lev: seq<seq<nat>>, h: nat, caps: Caps, p: nat, key: int)
    requires TreeOK(nodes, used, lev, h + 1, caps) && Routed(nodes, lev[h], p, key) && Recs(nodes, lev[h][p]) != []
    requires key < Head(nodes, lev[h][p])
    ensures !Has(Flat(nodes, lev[0]), key) && !PastLeafEnd(nodes, lev[0], key)
  {
    hide Flat, Has;
    LevelOf(nodes, used, lev, h + 1, h, caps);
    LevelOf(nodes, used, lev, h + 1, 0, caps);
    FirstKey(nodes, used, lev, h + 1, caps, h);
    FlatHead(nodes, lev[h]);
    PlaceIs(Flat(nodes, lev[0]), key, 0);
    HasAtPlace(Flat(nodes, lev[0]), key);
    assert lev[0][..0] == [];
    FlatEmpty(nodes);
    forall q | 0 <= q < |lev[0]| ensures !EndsAt(nodes, lev[0], q, 0) {
      PrefixesGrow(nodes, used, lev[0], 0, caps, 0, q + 1);
    }
  }

  // ----- Index nodes -----

  /** The key has been removed under child c of node p of level h, whose entry has not been looked after yet. */
  ghost predicate Orphaned(nodes0: Nodes, used0: seq<bool>, lev0: seq<seq<nat>>, nodes1: Nodes, used1: seq<bool>,
                           lev1: seq<seq<nat>>, h: nat, caps: Caps, p: nat, c: nat, gone: bool, key: int) {
    && 0 < h < |lev0| && |lev1| == |lev0| && (forall k | h <= k < |lev0| :: lev1[k] == lev0[k]) && p < |lev0[h]|
    && TreeOK(nodes1, used1, lev1, h, caps) && LevelOK(nodes1, used1, lev1[h], h, caps)
    && Index(nodes1, lev1[h]) == Index(nodes0, lev0[h]) && Recs(nodes1, lev1[h][p]) == Recs(nodes0, lev0[h][p])
    && Flat(nodes1, lev1[0]) == Without(Flat(nodes0, lev0[0]), key) && SameAbove(nodes0, used0, nodes1, used1, h + 1)
    && AwaitsCare(nodes1, lev1[h], lev1[h - 1], p, c, gone, key)
  }

  /** The index of the lower level differs from the upper level in the entry that is record c of node p: it is
      gone, or has another key; either only if the key was that entry's. */
  ghost predicate AwaitsCare(nodes: Nodes, upper: seq<nat>, lower: seq<nat>, p: nat, c: nat, gone: bool, key: int) {
    && p < |upper| && c < |Recs(nodes, upper[p])| && |Flat(nodes, upper[..p])| + c < |Flat(nodes, upper)|
    && var i, entry := |Flat(nodes, upper[..p])| + c, Recs(nodes, upper[p])[c];
    && Index(nodes, lower) ==
       (if gone then RemoveAt(Flat(nodes, upper), i) else Flat(nodes, upper)[i := Rec(Head(nodes, entry.data), entry.data)])
    && (gone || Head(nodes, entry.data) != entry.key ==> key == entry.key)
  }

  lemma ChildBelow(nodes: Nodes, used: seq<bool>, lev: seq<seq<nat>>, h: nat, caps: Caps, pc: nat)
    requires 0 < h && TreeOK(nodes, used, lev, h, caps) && pc < |lev[h - 1]|
    ensures lev[h - 1][pc] < |nodes| && nodes[lev[h - 1][pc]].height == h && nodes[lev[h - 1][pc]].recs != []
  {
    LevelOf(nodes, used, lev, h, h - 1, caps);
    NodeNotEmpty(nodes, used, lev[h - 1], h - 1, caps, pc);
  }

  lemma AfterRemoval(nodes0: Nodes, used0: seq<bool>, lev0: seq<seq<nat>>, nodes1: Nodes, used1: seq<bool>, lev1: seq<seq<nat>>,
                     h: nat, caps: Caps, p: nat, c: nat, gone: bool, key: int)
    requires 0 < h && TreeOK(nodes0, used0, lev0, h + 1, caps) && p < |lev0[h]| && c < |Recs(nodes0, lev0[h][p])|
    requires Removed(nodes0, used0, lev0, nodes1, used1, lev1, h - 1, |Flat(nodes0, lev0[h][..p])| + c, gone, key)
    requires TreeOK(nodes1, used1, lev1, h, caps)
    ensures Orphaned(nodes0, used0, lev0, nodes1, used1, lev1, h, caps, p, c, gone, key)
    ensures h < |lev1| && lev1[h] == lev0[h] && Recs(nodes1, lev0[h][p]) == Recs(nodes0, lev0[h][p])
  {
    hide Flat, Sorted, RemoveAt, Index, LevelOK, Without;
    LevelOf(nodes0, used0, lev0, h + 1, h, caps);
    assert Joined(nodes0, lev0[h - 1 + 1], lev0[h - 1]);
    ChildOf(nodes0, lev0[h], lev0[h - 1], p, c);
    AboveFrame(nodes0, used0, nodes1, used1, h, lev0[h], h, caps);
    FlatFrame(nodes0, nodes1, lev0[h][..p]);
  }

  /** The node whose entry waits is not a leaf. */
  lemma OrphanedNode(nodes0: Nodes, used0: seq<bool>, lev0: seq<seq<nat>>, nodes1: Nodes, used1: seq<bool>, lev1: seq<seq<nat>>,
                     h: nat, caps: Caps, p: nat, c: nat, gone: bool, key: int)
    requires Orphaned(nodes0, used0, lev0, nodes1, used1, lev1, h, caps, p, c, gone, key)
    ensures 0 < h < |lev1| == |lev0| && p < |lev1[h]| && lev1[h] == lev0[h] && LevelOK(nodes1, used1, lev1[h], h, caps)
    ensures lev1[h][p] < |nodes1| && lev1[h][p] != 0
    ensures lev1[0] != [] ==> lev1[h][p] != lev1[0][0] && lev1[h][p] != lev1[0][|lev1[0]| - 1]
    ensures c < |Recs(nodes1, lev1[h][p])|
  {
    hide Flat, Sorted, Index, LevelOK, TreeOK, Without, SameAbove;
    NotALeaf(nodes1, used1, lev1, h, caps, p);
    NodeNotEmpty(nodes1, used1, lev1[h], h, caps, p);
  }

  /** The child that still is there has records. */
  lemma OrphanedChild(nodes0: Nodes, used0: seq<bool>, lev0: seq<seq<nat>>, nodes1: Nodes, used1: seq<bool>, lev1: seq<seq<nat>>,
                      h: nat, caps: Caps, p: nat, c: nat, key: int)
    requires Orphaned(nodes0, used0, lev0, nodes1, used1, lev1, h, caps, p, c, false, key)
    ensures c < |Recs(nodes1, lev1[h][p])|
    ensures var child := Recs(nodes1, lev1[h][p])[c].data; child < |nodes1| && nodes1[child].recs != []
  {
    hide Flat, Sorted, LevelOK, TreeOK, Without, SameAbove;
    var i, child := |Flat(nodes1, lev1[h][..p])| + c, Recs(nodes1, lev1[h][p])[c].data;
    assert Index(nodes1, lev1[h - 1])[i] == Rec(Head(nodes1, child), child);
    IndexAt(nodes1, lev1[h - 1], i);
    ChildBelow(nodes1, used1, lev1, h, caps, i);
  }

  /** The entry of a child that is gone has been taken out. */
  lemma EntryDropped(nodes0: Nodes, used0: seq<bool>, lev0: seq<seq<nat>>, nodes1: Nodes, used1: seq<bool>, lev1: seq<seq<nat>>,
                     nodes2: Nodes, used2: seq<bool>, lev2: seq<seq<nat>>, h: nat, caps: Caps, p: nat, c: nat, gone: bool, key: int)
    requires Orphaned(nodes0, used0, lev0, nodes1, used1, lev1, h, caps, p, c, true, key)
    requires |lev2| == |lev1| && forall k | 0 <= k < |lev1| && k != h :: lev2[k] == lev1[k]
    requires Shrunk(nodes1, lev1[h], nodes2, lev2[h], p, c, gone)
    requires LevelOK(nodes2, used2, lev2[h], h, caps) && SameAtOthers(nodes1, used1, nodes2, used2, h + 1)
    ensures TreeOK(nodes2, used2, lev2, h + 1, caps) && Removed(nodes0, used0, lev0, nodes2, used2, lev2, h, p, gone, key)
    ensures Flat(nodes2, lev2[0]) == Flat(nodes1, lev1[0])
  {
    hide Flat, Sorted, RemoveAt, Index, LevelOK, TreeOK, Without, SameAbove, SameAtOthers;
    TakenFromLevel(nodes1, used1, lev1[h], h, caps, p, c);
    Rejoin(nodes1, used1, lev1, nodes2, used2, lev2, h, caps);
    SameAboveThen(nodes0, used0, nodes1, used1, nodes2, used2, h + 1);
    IndexAt(nodes0, lev0[h], p);
    IndexAt(nodes1, lev1[h], p);
  }

  /** The entry of a child that lost its first key has been given the new one. */
  lemma EntryRenewed(nodes0: Nodes, used0: seq<bool>, lev0: seq<seq<nat>>, nodes1: Nodes, used1: seq<bool>, lev1: seq<seq<nat>>,
                     h: nat, caps: Caps, p: nat, c: nat, key: int)
    requires Orphaned(nodes0, used0, lev0, nodes1, used1, lev1, h, caps, p, c, false, key)
    requires c < |Recs(nodes1, lev1[h][p])| && Recs(nodes1, lev1[h][p])[c].key == key
    ensures lev1[h][p] < |nodes1|
    ensures var recs := Recs(nodes1, lev1[h][p]);
      var nodes2 := WithRecs(nodes1, lev1[h][p], recs[c := Rec(Head(nodes1, recs[c].data), recs[c].data)]);
      && TreeOK(nodes2, used1, lev1, h + 1, caps) && Removed(nodes0, used0, lev0, nodes2, used1, lev1, h, p, false, key)
      && Flat(nodes2, lev1[0]) == Flat(nodes1, lev1[0])
  {
    hide Flat, Sorted, Index, LevelOK, TreeOK, Without, SameAbove, SameAtOthers, WithRecs;
    var level, recs := lev1[h], Recs(nodes1, lev1[h][p]);
    var recs' := recs[c := Rec(Head(nodes1, recs[c].data), recs[c].data)];
    NodeNotEmpty(nodes1, used1, level, h, caps, p);
    FlatAround(nodes1, level, p);
    UpdateInPart(Flat(nodes1, level[..p]), recs, Flat(nodes1, level[p + 1..]), c, Rec(Head(nodes1, recs[c].data), recs[c].data));
    LevelOf(nodes1, used1, lev1, h, h - 1, caps);
    LevelIndexSorted(nodes1, used1, lev1[h - 1], h - 1, caps);
    PutLevel(nodes1, used1, level, h, caps, p, recs');
    var nodes2 := WithRecs(nodes1, level[p], recs');
    Rejoin(nodes1, used1, lev1, nodes2, used1, lev1, h, caps);
    SameAboveThen(nodes0, used0, nodes1, used1, nodes2, used1, h + 1);
    RecsOfWith(nodes1, level[p], recs', level[p]);
    IndexAt(nodes0, lev0[h], p);
    IndexAt(nodes1, level, p);
  }

  /** The entry is still right. */
  lemma EntryKept(nodes0: Nodes, used0: seq<bool>, lev0: seq<seq<nat>>, nodes1: Nodes, used1: seq<bool>, lev1: seq<seq<nat>>,
                  h: nat, caps: Caps, p: nat, c: nat, gone: bool, key: int)
    requires Orphaned(nodes0, used0, lev0, nodes1, used1, lev1, h, caps, p, c, gone, key)
    requires c < |Recs(nodes1, lev1[h][p])| && Recs(nodes1, lev1[h][p])[c].key != key
    ensures !gone
    ensures TreeOK(nodes1, used1, lev1, h + 1, caps) && Removed(nodes0, used0, lev0, nodes1, used1, lev1, h, p, false, key)
  {
    hide Flat, Sorted, Index, LevelOK, TreeOK, Without, SameAbove, RemoveAt;
    var recs := Recs(nodes1, lev1[h][p]);
    FlatAround(nodes1, lev1[h], p);
    var i := |Flat(nodes1, lev1[h][..p])| + c;
    assert Flat(nodes1, lev1[h])[i] == recs[c];
    assert Flat(nodes1, lev1[h])[i := recs[c]] == Flat(nodes1, lev1[h]);
    SameNone(nodes1, used1, h + 1);
    Rejoin(nodes1, used1, lev1, nodes1, used1, lev1, h, caps);
    IndexAt(nodes0, lev0[h], p);
    IndexAt(nodes1, lev1[h], p);
    assert Index(nodes0, lev0[h])[p := Index(nodes0, lev0[h])[p]] == Index(nodes0, lev0[h]);
  }

  // ----- The root -----

  /** When a level is empty, so are those below it. */
  lemma {:induction false} EmptyBelow(nodes: Nodes, used: seq<bool>, lev: seq<seq<nat>>, n: nat, caps: Caps, k: nat, j: nat)
    requires TreeOK(nodes, used, lev, n, caps) && j <= k < n && lev[k] == []
    ensures lev[j] == []
    decreases k - j
  {
    if j < k {
      assert Joined(nodes, lev[k - 1 + 1], lev[k - 1]);
      FlatEmpty(nodes);
      EmptyBelow(nodes, used, lev, n, caps, k - 1, j);
    }
  }

  // ----- Going astray -----

  /** A search shows beforehand whether the removal will go astray: it finds no such key and ends up behind the
      last record of a leaf. */
  lemma SearchForesees(nodes: Nodes, used: seq<bool>, leaves: seq<nat>, caps: Caps, key: int, r: SearchResult)
    requires LevelOK(nodes, used, leaves, 0, caps) && IsResult(nodes, leaves, key, r)
    ensures PastLeafEnd(nodes, leaves, key) <==> r.Found? && !r.exact && r.record == |Recs(nodes, r.node)|
  {
    hide Flat, Has, Sorted;
    var i := Place(Flat(nodes, leaves), key);
    FlatEmpty(nodes);
    assert leaves[..0] == [];
    if r.Panic? || r.exact {
      forall q | 0 <= q < |leaves| ensures r.Panic? ==> !EndsAt(nodes, leaves, q, i) {
        PrefixesGrow(nodes, used, leaves, 0, caps, 0, q + 1);
      }
    } else {
      var p :| 0 <= p < |leaves| && leaves[p] == r.node && |Flat(nodes, leaves[..p])| + r.record == i;
      FlatUpTo(nodes, leaves, p);
      if r.record == |Recs(nodes, r.node)| {
        assert EndsAt(nodes, leaves, p, i);
      } else {
        forall q | 0 <= q < |leaves| ensures !EndsAt(nodes, leaves, q, i) {
          if q < p {
            if q + 1 < p { PrefixesGrow(nodes, used, leaves, 0, caps, q + 1, p); }
          } else if p < q {
            PrefixesGrow(nodes, used, leaves, 0, caps, p + 1, q + 1);
          }
        }
      }
    }
  }

  lemma FlatUpTo(nodes: Nodes, level: seq<nat>, p: nat)
    requires p < |level|
    ensures Flat(nodes, level[..p + 1]) == Flat(nodes, level[..p]) + Recs(nodes, level[p])
  {
    assert level[..p + 1][..p] == level[..p];
  }

  /** The node to which a removal that goes astray turns next: the data of a leaf's last record. */
  ghost function StrayTarget(nodes: Nodes, leaf: nat): nat
    requires Recs(nodes, leaf) != []
  {
    Recs(nodes, leaf)[|Recs(nodes, leaf)| - 1].data
  }

  /** A tree of one leaf with the record 1 under the key 1: to remove the key 2, which is not there, is to go
      astray, and to come back to that leaf again and again. */
  lemma StrayForever()
    ensures var nodes := [Node(0, 0, false, 0, []), Node(0, 0, true, 1, [Rec(1, 1)])];
      && TreeOK(nodes, [true, true], [[1]], 1, Caps(2, 2))
      && !Has(Flat(nodes, [1]), 2) && PastLeafEnd(nodes, [1], 2)
      && Recs(nodes, 1) != [] && StrayTarget(nodes, 1) == 1
  {
    var nodes := [Node(0, 0, false, 0, []), Node(0, 0, true, 1, [Rec(1, 1)])];
    FlatOfOne(nodes, 1);
    assert [1][..1] == [1];
    PlaceIs([Rec(1, 1)], 2, 1);
    assert EndsAt(nodes, [1], 0, 1);
  }
}
