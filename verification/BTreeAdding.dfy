/** What adding a record does to a tree of levels, from the leaf up. */
module BTreeAdding {
  import opened BTreeRecords
  import opened BTreeLevels
  import opened BTreeSteps

  function Min(a: int, b: int): int {
    if a < b then a else b
  }

  /** Adding a record under node p of level h has added it to the leaves; the node's first key may have become
      smaller, and there may be a new node behind it. */
  ghost predicate Inserted(nodes0: Nodes, used0: seq<bool>, lev0: seq<seq<nat>>, nodes1: Nodes, used1: seq<bool>,
                           lev1: seq<seq<nat>>, h: nat, p: nat, newNode: nat, rec: Rec) {
    && |lev1| == |lev0| && h < |lev0| && p < |lev0[h]| && (forall k | h < k < |lev0| :: lev1[k] == lev0[k])
    && lev1[h] == (if newNode == 0 then lev0[h] else InsertAt(lev0[h], p + 1, newNode))
    && IndexGrown(nodes0, lev0[h], nodes1, lev1[h], p, newNode, Min(rec.key, Head(nodes0, lev0[h][p])))
    && Flat(nodes1, lev1[0]) == Added(Flat(nodes0, lev0[0]), rec)
    && SameAbove(nodes0, used0, nodes1, used1, h + 1)
  }

  /** The key is there already. */
  lemma AlreadyThere(nodes: Nodes, used: seq<bool>, lev: seq<seq<nat>>, h: nat, caps: Caps, p: nat, rec: Rec)
    requires TreeOK(nodes, used, lev, h + 1, caps) && p < |lev[h]|
    requires Has(Recs(nodes, lev[h][p]), rec.key)
    ensures Inserted(nodes, used, lev, nodes, used, lev, h, p, 0, rec) && Has(Flat(nodes, lev[0]), rec.key)
  {
    hide Flat;
    var recs := Recs(nodes, lev[h][p]);
    var i :| 0 <= i < |recs| && recs[i].key == rec.key;
    assert LevelOK(nodes, used, lev[h], h, caps);
    SortedNode(nodes, used, lev[h], h, caps, p);
    FlatAround(nodes, lev[h], p);
    var j := |Flat(nodes, lev[h][..p])| + i;
    assert Flat(nodes, lev[h])[j] == recs[i];
    IndexKeyIsKey(nodes, used, lev, h + 1, caps, h, j);
    IndexAt(nodes, lev[h], p);
    assert Min(rec.key, Head(nodes, lev[h][p])) == Head(nodes, lev[h][p]);
    assert Index(nodes, lev[h])[p := Index(nodes, lev[h])[p]] == Index(nodes, lev[h]);
  }

  /** Where a routed key is not in the node, adding the record to the node's records adds it to the level's. */
  lemma AddedInLevel(nodes: Nodes, used: seq<bool>, level: seq<nat>, k: nat, caps: Caps, p: nat, rec: Rec)
    requires LevelOK(nodes, used, level, k, caps) && Routed(nodes, level, p, rec.key) && !Has(Recs(nodes, level[p]), rec.key)
    ensures Flat(nodes, level[..p]) + Added(Recs(nodes, level[p]), rec) + Flat(nodes, level[p + 1..]) == Added(Flat(nodes, level), rec)
    ensures Sorted(Added(Flat(nodes, level), rec)) && !Has(Flat(nodes, level), rec.key)
    ensures (if Place(Recs(nodes, level[p]), rec.key) == 0 then rec.key else Head(nodes, level[p]))
         == Min(rec.key, Head(nodes, level[p]))
  {
    hide Flat, InsertAt, Has;
    PlaceInLevel(nodes, used, level, k, caps, p, rec.key);
    FlatAround(nodes, level, p);
    NodeNotEmpty(nodes, used, level, k, caps, p);
    var recs, flat := Recs(nodes, level[p]), Flat(nodes, level);
    var at, i := Place(recs, rec.key), Place(flat, rec.key);
    InsertInPart(Flat(nodes, level[..p]), recs, Flat(nodes, level[p + 1..]), at, rec);
    HasAtPlace(recs, rec.key);
    HasAtPlace(flat, rec.key);
    SortedInsert(flat, i, rec);
  }

  /** A record has been added to a leaf. */
  lemma InsertedInLeaf(nodes0: Nodes, used0: seq<bool>, lev0: seq<seq<nat>>, nodes1: Nodes, used1: seq<bool>,
                       lev1: seq<seq<nat>>, caps: Caps, p: nat, newNode: nat, rec: Rec)
    requires TreeOK(nodes0, used0, lev0, 1, caps) && p < |lev0[0]| && Routed(nodes0, lev0[0], p, rec.key)
    requires !Has(Recs(nodes0, lev0[0][p]), rec.key)
    requires |lev1| == |lev0| && forall k | 0 < k < |lev0| :: lev1[k] == lev0[k]
    requires LevelOK(nodes1, used1, lev1[0], 0, caps) && Grown(nodes0, lev0[0], nodes1, lev1[0], p, newNode, rec)
    requires SameAtOthers(nodes0, used0, nodes1, used1, 1)
    ensures TreeOK(nodes1, used1, lev1, 1, caps) && Inserted(nodes0, used0, lev0, nodes1, used1, lev1, 0, p, newNode, rec)
  {
    hide Flat, Added, Sorted, Has, Place, IndexGrown;
    assert LevelOK(nodes0, used0, lev0[0], 0, caps);
    AddedInLevel(nodes0, used0, lev0[0], 0, caps, p, rec);
  }

  // ----- Index nodes -----

  /** The upper level is the index the lower one will have, up to a new node, once the key is added under
      its node pc. */
  ghost predicate Awaits(nodes: Nodes, upper: seq<nat>, lower: seq<nat>, pc: nat, key: int) {
    && pc < |lower|
    && Flat(nodes, upper) == Index(nodes, lower)[pc := Rec(Min(key, Head(nodes, lower[pc])), lower[pc])]
  }

  /** An index node whose keys are all greater than the new one gets it as its first key. */
  lemma FirstKeyLowered(nodes: Nodes, used: seq<bool>, lev: seq<seq<nat>>, h: nat, caps: Caps, p: nat, key: int)
    requires 0 < h && TreeOK(nodes, used, lev, h + 1, caps) && Routed(nodes, lev[h], p, key)
    requires Recs(nodes, lev[h][p]) != [] && key < Head(nodes, lev[h][p]) && lev[h][p] < |nodes|
    ensures p == 0 && lev[h - 1] != [] && Recs(nodes, lev[h][0])[0].data == lev[h - 1][0]
    ensures var recs := Recs(nodes, lev[h][0]);
      var nodes' := WithRecs(nodes, lev[h][0], recs[0 := Rec(key, recs[0].data)]);
      && TreeOK(nodes', used, lev, h, caps) && LevelOK(nodes', used, lev[h], h, caps)
      && Awaits(nodes', lev[h], lev[h - 1], 0, key) && Routed(nodes', lev[h - 1], 0, key)
      && Index(nodes', lev[h]) == Index(nodes, lev[h])[0 := Rec(key, lev[h][0])]
      && SameAtOthers(nodes, used, nodes', used, h + 1)
      && forall k | 0 <= k < h :: Flat(nodes', lev[k]) == Flat(nodes, lev[k])
  {
    hide Flat, Sorted, WithRecs, InsertAt;
    var upper, lower := lev[h], lev[h - 1];
    var recs := Recs(nodes, upper[0]);
    var recs' := recs[0 := Rec(key, recs[0].data)];
    var nodes' := WithRecs(nodes, upper[0], recs');
    assert LevelOK(nodes, used, upper, h, caps) && Joined(nodes, lev[h - 1 + 1], lower);
    NodeNotEmpty(nodes, used, upper, h, caps, 0);
    FlatAround(nodes, upper, 0);
    assert upper[..0] == [];
    FlatEmpty(nodes);
    ChildOf(nodes, upper, lower, 0, 0);
    var c := Flat(nodes, upper[1..]);
    assert [] + recs + c == recs + c;
    LoweredSorted(recs, c, key);
    PutLevel(nodes, used, upper, h, caps, 0, recs');
    TreePrefix(nodes, used, lev, h, caps);
    BelowFrame(nodes, used, nodes', used, lev, h, caps);
    assert LevelOK(nodes, used, lower, h - 1, caps);
    if |lower| > 1 {
      IndexSorted(nodes, used, lower, h - 1, caps);
      IndexAt(nodes, lower, 0);
      IndexAt(nodes, lower, 1);
      IndexAt(nodes', lower, 1);
    }
    IndexAt(nodes, lower, 0);
    IndexAt(nodes', lower, 0);
  }

  lemma LoweredSorted(recs: seq<Rec>, c: seq<Rec>, key: int)
    requires recs != [] && Sorted(recs + c) && key < recs[0].key
    ensures var recs' := recs[0 := Rec(key, recs[0].data)];
      Sorted([] + recs' + c) && [] + recs' + c == (recs + c)[0 := Rec(key, recs[0].data)]
  {
    var s, s' := recs + c, (recs + c)[0 := Rec(key, recs[0].data)];
    assert Sorted(s') by {
      forall i, j | 0 <= i < j < |s'| ensures s'[i].key < s'[j].key {
        assert s[0].key <= s[i].key < s[j].key;
      }
    }
    assert [] + recs[0 := Rec(key, recs[0].data)] + c == s';
  }

  /** An index node with a key that is not greater leads to the child under the last such key. */
  lemma ChildFor(nodes: Nodes, used: seq<bool>, lev: seq<seq<nat>>, h: nat, caps: Caps, p: nat, key: int, i: nat)
    requires 0 < h && TreeOK(nodes, used, lev, h + 1, caps) && Routed(nodes, lev[h], p, key)
    requires i == Place(Recs(nodes, lev[h][p]), key) > 0 && !Has(Recs(nodes, lev[h][p]), key)
    ensures var pc := |Flat(nodes, lev[h][..p])| + (i - 1);
      && pc < |lev[h - 1]| && Recs(nodes, lev[h][p])[i - 1].data == lev[h - 1][pc]
      && Routed(nodes, lev[h - 1], pc, key) && Awaits(nodes, lev[h], lev[h - 1], pc, key)
  {
    hide Flat;
    var upper, lower := lev[h], lev[h - 1];
    var recs := Recs(nodes, upper[p]);
    assert LevelOK(nodes, used, upper, h, caps) && Joined(nodes, lev[h - 1 + 1], lower);
    SortedNode(nodes, used, upper, h, caps, p);
    RouteChild(nodes, used, upper, lower, h, caps, p, key, i - 1);
    var pc := |Flat(nodes, upper[..p])| + (i - 1);
    IndexAt(nodes, lower, pc);
    assert Min(key, Head(nodes, lower[pc])) == Head(nodes, lower[pc]);
    assert Index(nodes, lower)[pc := Index(nodes, lower)[pc]] == Index(nodes, lower);
  }

  /** What the addition under a child has left at the level above. */
  lemma AfterChild(nodes0: Nodes, used0: seq<bool>, lev0: seq<seq<nat>>, nodes1: Nodes, used1: seq<bool>, lev1: seq<seq<nat>>,
                   h: nat, caps: Caps, p: nat, pc: nat, newNode: nat, rec: Rec)
    requires 0 < h < |lev0| && p < |lev0[h]| && LevelOK(nodes0, used0, lev0[h], h, caps) && Awaits(nodes0, lev0[h], lev0[h - 1], pc, rec.key)
    requires Inserted(nodes0, used0, lev0, nodes1, used1, lev1, h - 1, pc, newNode, rec) && TreeOK(nodes1, used1, lev1, h, caps)
    ensures lev1[h] == lev0[h] && LevelOK(nodes1, used1, lev0[h], h, caps)
    ensures Flat(nodes1, lev0[h]) == Flat(nodes0, lev0[h]) && Index(nodes1, lev0[h]) == Index(nodes0, lev0[h])
    ensures Recs(nodes1, lev0[h][p]) == Recs(nodes0, lev0[h][p]) && Flat(nodes1, lev0[h][..p]) == Flat(nodes0, lev0[h][..p])
    ensures newNode == 0 ==> TreeOK(nodes1, used1, lev1, h + 1, caps)
    ensures pc < |Flat(nodes1, lev0[h])|
    ensures newNode != 0 ==>
      var index := InsertAt(Flat(nodes1, lev0[h]), pc + 1, Rec(Head(nodes1, newNode), newNode));
      Index(nodes1, lev1[h - 1]) == index && Sorted(index)
  {
    hide Flat, Sorted, InsertAt, Added, Index, LevelOK, SameAbove;
    AboveFrame(nodes0, used0, nodes1, used1, h, lev0[h], h, caps);
    FlatFrame(nodes0, nodes1, lev0[h][..p]);
    if newNode != 0 {
      LevelIndexSorted(nodes1, used1, lev1[h - 1], h - 1, caps);
    }
  }

  /** The new entry goes behind its elder sister. */
  lemma NewEntry(a: seq<Rec>, recs: seq<Rec>, b: seq<Rec>, c: nat, rec: Rec)
    requires c < |recs| && Sorted(recs) && Sorted(InsertAt(a + recs + b, |a| + c + 1, rec))
    ensures Place(recs, rec.key) == c + 1 && !Has(recs, rec.key)
    ensures a + Added(recs, rec) + b == InsertAt(a + recs + b, |a| + c + 1, rec)
  {
    hide InsertAt, Has;
    var flat, i := a + recs + b, |a| + c + 1;
    var t := InsertAt(flat, i, rec);
    InsertedAt(flat, i, rec, i - 1);
    InsertedAt(flat, i, rec, i);
    assert recs[c].key < rec.key by {
      assert flat[i - 1] == recs[c] && t[i - 1].key < t[i].key;
    }
    if c + 1 < |recs| {
      InsertedAt(flat, i, rec, i + 1);
      assert rec.key < recs[c + 1].key by {
        assert flat[i] == recs[c + 1] && t[i].key < t[i + 1].key;
      }
    }
    PlaceIs(recs, rec.key, c + 1);
    HasAtPlace(recs, rec.key);
    InsertInPart(a, recs, b, c + 1, rec);
  }

  /** The record has been added under child c of node p of level h, and the node has the right first key; the
      new child, if there is one, has no entry yet. */
  ghost predicate Halfway(nodes0: Nodes, used0: seq<bool>, lev0: seq<seq<nat>>, nodes1: Nodes, used1: seq<bool>,
                          lev1: seq<seq<nat>>, h: nat, caps: Caps, p: nat, c: nat, newNode: nat, rec: Rec) {
    && 0 < h < |lev0| && |lev1| == |lev0| && (forall k | h <= k < |lev0| :: lev1[k] == lev0[k]) && p < |lev0[h]|
    && TreeOK(nodes1, used1, lev1, if newNode == 0 then h + 1 else h, caps) && LevelOK(nodes1, used1, lev1[h], h, caps)
    && Index(nodes1, lev1[h]) == Index(nodes0, lev0[h])[p := Rec(Min(rec.key, Head(nodes0, lev0[h][p])), lev0[h][p])]
    && Flat(nodes1, lev1[0]) == Added(Flat(nodes0, lev0[0]), rec)
    && SameAbove(nodes0, used0, nodes1, used1, h + 1)
    && (newNode != 0 ==> AwaitsEntry(nodes1, lev1[h], lev1[h - 1], p, c, Rec(Head(nodes1, newNode), newNode)))
  }

  /** The index of the lower level has one entry more than the upper level, behind record c of node p. */
  ghost predicate AwaitsEntry(nodes: Nodes, upper: seq<nat>, lower: seq<nat>, p: nat, c: nat, entry: Rec) {
    && p < |upper| && c < |Recs(nodes, upper[p])| && |Flat(nodes, upper[..p])| + c < |Flat(nodes, upper)|
    && Index(nodes, lower) == InsertAt(Flat(nodes, upper), |Flat(nodes, upper[..p])| + c + 1, entry)
    && Sorted(Index(nodes, lower))
  }

  /** A child has been chosen for the key; if the key is smaller than all others the node has got it as its
      first key. */
  ghost predicate Chosen(nodes0: Nodes, used: seq<bool>, lev: seq<seq<nat>>, nodes1: Nodes, h: nat, caps: Caps, p: nat, c: nat,
                         child: nat, key: int) {
    && 0 < h < |lev| && p < |lev[h]| && TreeOK(nodes1, used, lev, h, caps) && LevelOK(nodes1, used, lev[h], h, caps)
    && c < |Recs(nodes1, lev[h][p])|
    && var pc := |Flat(nodes1, lev[h][..p])| + c;
    && pc < |lev[h - 1]| && Awaits(nodes1, lev[h], lev[h - 1], pc, key) && Routed(nodes1, lev[h - 1], pc, key) && child == lev[h - 1][pc]
    && SameAtOthers(nodes0, used, nodes1, used, h + 1) && Flat(nodes1, lev[0]) == Flat(nodes0, lev[0])
    && Index(nodes1, lev[h]) == Index(nodes0, lev[h])[p := Rec(Min(key, Head(nodes0, lev[h][p])), lev[h][p])]
    && |Recs(nodes1, lev[h][p])| == |Recs(nodes0, lev[h][p])|
  }

  lemma ChosenFirst(nodes: Nodes, used: seq<bool>, lev: seq<seq<nat>>, h: nat, caps: Caps, p: nat, key: int)
    requires 0 < h && TreeOK(nodes, used, lev, h + 1, caps) && Routed(nodes, lev[h], p, key) && lev[h][p] < |nodes|
    requires Recs(nodes, lev[h][p]) != [] && Place(Recs(nodes, lev[h][p]), key) == 0 && !Has(Recs(nodes, lev[h][p]), key)
    ensures var recs := nodes[lev[h][p]].recs;
      Chosen(nodes, used, lev, WithRecs(nodes, lev[h][p], recs[0 := Rec(key, recs[0].data)]), h, caps, p, 0, recs[0].data, key)
  {
    hide Flat, Sorted, Index, LevelOK, TreeOK, SameAtOthers, Awaits, Has, Place;
    LevelOf(nodes, used, lev, h + 1, h, caps);
    SortedNode(nodes, used, lev[h], h, caps, p);
    HasAtPlace(nodes[lev[h][p]].recs, key);
    FirstKeyLowered(nodes, used, lev, h, caps, p, key);
    assert lev[h][..0] == [];
    FlatEmpty(WithRecs(nodes, lev[h][p], nodes[lev[h][p]].recs[0 := Rec(key, nodes[lev[h][p]].recs[0].data)]));
  }

  lemma ChosenLater(nodes: Nodes, used: seq<bool>, lev: seq<seq<nat>>, h: nat, caps: Caps, p: nat, key: int, i: nat)
    requires 0 < h && TreeOK(nodes, used, lev, h + 1, caps) && Routed(nodes, lev[h], p, key) && lev[h][p] < |nodes|
    requires i == Place(Recs(nodes, lev[h][p]), key) > 0 && !Has(Recs(nodes, lev[h][p]), key)
    ensures Chosen(nodes, used, lev, nodes, h, caps, p, i - 1, nodes[lev[h][p]].recs[i - 1].data, key)
  {
    hide Flat, Sorted, Index, LevelOK, TreeOK, SameAtOthers, Awaits, Has;
    LevelOf(nodes, used, lev, h + 1, h, caps);
    ChildFor(nodes, used, lev, h, caps, p, key, i);
    SameNone(nodes, used, h + 1);
    TreePrefix(nodes, used, lev, h, caps);
    SortedNode(nodes, used, lev[h], h, caps, p);
    IndexAt(nodes, lev[h], p);
    FirstIsLeast(Recs(nodes, lev[h][p]), key, i);
    assert Index(nodes, lev[h])[p := Index(nodes, lev[h])[p]] == Index(nodes, lev[h]);
  }

  lemma FirstIsLeast(recs: seq<Rec>, key: int, i: nat)
    requires i == Place(recs, key) > 0
    ensures recs[0].key < key
  {}

  lemma HalfwayThere(nodes: Nodes, used: seq<bool>, lev: seq<seq<nat>>, nodes0: Nodes, nodes1: Nodes, used1: seq<bool>,
                     lev1: seq<seq<nat>>, h: nat, caps: Caps, p: nat, c: nat, child: nat, newNode: nat, rec: Rec)
    requires Chosen(nodes, used, lev, nodes0, h, caps, p, c, child, rec.key) && TreeOK(nodes1, used1, lev1, h, caps)
    requires Inserted(nodes0, used, lev, nodes1, used1, lev1, h - 1, |Flat(nodes0, lev[h][..p])| + c, newNode, rec)
    ensures Halfway(nodes, used, lev, nodes1, used1, lev1, h, caps, p, c, newNode, rec)
    ensures lev1[h] == lev[h] && |Recs(nodes1, lev[h][p])| == |Recs(nodes, lev[h][p])|
  {
    hide Flat, Sorted, InsertAt, Added, Index, LevelOK, TreeOK, IndexGrown, SameAbove, SameAtOthers;
    AfterChild(nodes0, used, lev, nodes1, used1, lev1, h, caps, p, |Flat(nodes0, lev[h][..p])| + c, newNode, rec);
    SameNone(nodes1, used1, h + 1);
    SameAboveTwice(nodes, used, nodes0, used, nodes1, used1, nodes1, used1, h);
  }

  /** Nothing is left to be done. */
  lemma NoEntry(nodes0: Nodes, used0: seq<bool>, lev0: seq<seq<nat>>, nodes1: Nodes, used1: seq<bool>, lev1: seq<seq<nat>>,
                h: nat, caps: Caps, p: nat, c: nat, rec: Rec)
    requires Halfway(nodes0, used0, lev0, nodes1, used1, lev1, h, caps, p, c, 0, rec)
    ensures TreeOK(nodes1, used1, lev1, h + 1, caps) && Inserted(nodes0, used0, lev0, nodes1, used1, lev1, h, p, 0, rec)
  {
    hide Flat, Added, Index, LevelOK, TreeOK, SameAbove;
  }

  lemma EntryPlace(nodes: Nodes, used: seq<bool>, upper: seq<nat>, lower: seq<nat>, k: nat, caps: Caps, p: nat, c: nat, entry: Rec)
    requires LevelOK(nodes, used, upper, k, caps) && AwaitsEntry(nodes, upper, lower, p, c, entry)
    ensures p < |upper|
    ensures var recs := Recs(nodes, upper[p]);
      && Place(recs, entry.key) == c + 1 && !Has(recs, entry.key)
      && Index(nodes, lower) == Flat(nodes, upper[..p]) + Added(recs, entry) + Flat(nodes, upper[p + 1..])
      && Sorted(Index(nodes, lower))
  {
    hide Flat, InsertAt, Has, Added, Place, Index;
    FlatAround(nodes, upper, p);
    SortedNode(nodes, used, upper, k, caps, p);
    NewEntry(Flat(nodes, upper[..p]), Recs(nodes, upper[p]), Flat(nodes, upper[p + 1..]), c, entry);
  }

  /** The new child is a node of its level. */
  lemma EntryNode(nodes: Nodes, used: seq<bool>, lev: seq<seq<nat>>, h: nat, caps: Caps, p: nat, c: nat, newNode: nat)
    requires 0 < h < |lev| && TreeOK(nodes, used, lev, h, caps)
    requires AwaitsEntry(nodes, lev[h], lev[h - 1], p, c, Rec(Head(nodes, newNode), newNode))
    ensures newNode < |nodes| && nodes[newNode].recs != []
  {
    hide Flat, InsertAt, Sorted, Index, LevelOK, TreeOK;
    var i := |Flat(nodes, lev[h][..p])| + c + 1;
    InsertedAt(Flat(nodes, lev[h]), i, Rec(Head(nodes, newNode), newNode), i);
    IndexAt(nodes, lev[h - 1], i);
    LevelOf(nodes, used, lev, h, h - 1, caps);
    NodeNotEmpty(nodes, used, lev[h - 1], h - 1, caps, i);
  }

  /** The new child's entry can be added to its mother. */
  lemma EntryFits(nodes0: Nodes, used0: seq<bool>, lev0: seq<seq<nat>>, nodes1: Nodes, used1: seq<bool>, lev1: seq<seq<nat>>,
                  h: nat, caps: Caps, p: nat, c: nat, newNode: nat, rec: Rec)
    requires Halfway(nodes0, used0, lev0, nodes1, used1, lev1, h, caps, p, c, newNode, rec) && newNode != 0
    ensures 0 < h < |lev1| == |lev0| && p < |lev1[h]| && lev1[h] == lev0[h] && LevelOK(nodes1, used1, lev1[h], h, caps)
    ensures newNode < |nodes1| && nodes1[newNode].recs != [] && lev1[h][p] < |nodes1| && !nodes1[lev1[h][p]].leaf
    ensures var entry, recs := Rec(Head(nodes1, newNode), newNode), Recs(nodes1, lev1[h][p]);
      && Place(recs, entry.key) == c + 1 && !Has(recs, entry.key)
      && Index(nodes1, lev1[h - 1]) == Flat(nodes1, lev1[h][..p]) + Added(recs, entry) + Flat(nodes1, lev1[h][p + 1..])
      && Sorted(Flat(nodes1, lev1[h][..p]) + Added(recs, entry) + Flat(nodes1, lev1[h][p + 1..]))
  {
    hide Flat, Added, Index, LevelOK, TreeOK, SameAbove, Sorted, Has, Place, InsertAt, AwaitsEntry;
    EntryPlace(nodes1, used1, lev1[h], lev1[h - 1], h, caps, p, c, Rec(Head(nodes1, newNode), newNode));
    EntryNode(nodes1, used1, lev1, h, caps, p, c, newNode);
    NodeNotEmpty(nodes1, used1, lev1[h], h, caps, p);
  }

  /** The new child's entry has been added to its mother, who may have been split in turn. */
  lemma EntryAdded(nodes0: Nodes, used0: seq<bool>, lev0: seq<seq<nat>>, nodes1: Nodes, used1: seq<bool>, lev1: seq<seq<nat>>,
                   nodes2: Nodes, used2: seq<bool>, lev2: seq<seq<nat>>,
                   h: nat, caps: Caps, p: nat, c: nat, newNode: nat, newNode2: nat, rec: Rec)
    requires Halfway(nodes0, used0, lev0, nodes1, used1, lev1, h, caps, p, c, newNode, rec) && newNode != 0
    requires |lev2| == |lev1| && forall k | 0 <= k < |lev1| && k != h :: lev2[k] == lev1[k]
    requires Grown(nodes1, lev1[h], nodes2, lev2[h], p, newNode2, Rec(Head(nodes1, newNode), newNode))
    requires LevelOK(nodes2, used2, lev2[h], h, caps) && SameAtOthers(nodes1, used1, nodes2, used2, h + 1)
    ensures TreeOK(nodes2, used2, lev2, h + 1, caps) && Inserted(nodes0, used0, lev0, nodes2, used2, lev2, h, p, newNode2, rec)
    ensures Flat(nodes2, lev2[0]) == Flat(nodes1, lev1[0])
  {
    hide Flat, Added, Index, LevelOK, TreeOK, SameAbove, SameAtOthers, Sorted, Has, Place, InsertAt, Grown;
    EntryFits(nodes0, used0, lev0, nodes1, used1, lev1, h, caps, p, c, newNode, rec);
    GrownIndex(nodes1, lev1[h], nodes2, lev2[h], p, newNode2, Rec(Head(nodes1, newNode), newNode));
    IndexAt(nodes1, lev1[h], p);
    Rejoin(nodes1, used1, lev1, nodes2, used2, lev2, h, caps);
    SameAboveThen(nodes0, used0, nodes1, used1, nodes2, used2, h + 1);
  }

  lemma GrownIndex(nodes1: Nodes, level1: seq<nat>, nodes2: Nodes, level2: seq<nat>, p: nat, newNode: nat, entry: Rec)
    requires Grown(nodes1, level1, nodes2, level2, p, newNode, entry) && p < |level1|
    requires Place(Recs(nodes1, level1[p]), entry.key) > 0
    ensures Flat(nodes2, level2) == Flat(nodes1, level1[..p]) + Added(Recs(nodes1, level1[p]), entry) + Flat(nodes1, level1[p + 1..])
    ensures level2 == if newNode == 0 then level1 else InsertAt(level1, p + 1, newNode)
    ensures Index(nodes2, level2) ==
      if newNode == 0 then Index(nodes1, level1)
      else InsertAt(Index(nodes1, level1), p + 1, Rec(Head(nodes2, newNode), newNode))
  {
    hide Flat, Added, Index, Place, InsertAt;
    IndexAt(nodes1, level1, p);
    assert Index(nodes1, level1)[p := Index(nodes1, level1)[p]] == Index(nodes1, level1);
  }

  /** A new root over the two nodes of the top level. */
  lemma NewRoot(nodes: Nodes, used: seq<bool>, lev: seq<seq<nat>>, caps: Caps, a: nat, b: nat, root: nat)
    requires lev != [] && TreeOK(nodes, used, lev, |lev|, caps) && lev[|lev| - 1] == [a, b] && caps.index >= 2
    requires 0 < root < |nodes| == |used| && !used[root]
    ensures a < |nodes| && b < |nodes| && nodes[a].recs != [] && nodes[b].recs != []
    ensures var recs := [Rec(nodes[a].recs[0].key, a), Rec(nodes[b].recs[0].key, b)];
      var nodes' := nodes[root := Node(0, 0, false, |lev| + 1, recs)];
      && TreeOK(nodes', used[root := true], lev + [[root]], |lev| + 1, caps)
      && Flat(nodes', lev[0]) == Flat(nodes, lev[0])
  {
    hide Flat, Sorted, Index, Linked;
    var n, top := |lev|, lev[|lev| - 1];
    LevelOf(nodes, used, lev, n, n - 1, caps);
    NodeNotEmpty(nodes, used, top, n - 1, caps, 0);
    NodeNotEmpty(nodes, used, top, n - 1, caps, 1);
    LevelIndexSorted(nodes, used, top, n - 1, caps);
    IndexAt(nodes, top, 0);
    IndexAt(nodes, top, 1);
    var recs := [Rec(nodes[a].recs[0].key, a), Rec(nodes[b].recs[0].key, b)];
    var nodes', used', lev' := nodes[root := Node(0, 0, false, n + 1, recs)], used[root := true], lev + [[root]];
    assert Index(nodes, top) == recs;
    FlatOfOne(nodes', root);
    BelowFrame(nodes, used, nodes', used', lev, n, caps);
    TopLevel(nodes', used', root, n, caps, recs);
    forall k | 0 <= k < n + 1 ensures LevelOK(nodes', used', lev'[k], k, caps) {
      if k < n {
        assert LevelOK(nodes', used', lev[k], k, caps);
      }
    }
    forall k | 0 <= k < n ensures Joined(nodes', lev'[k + 1], lev'[k]) {
      if k + 1 < n {
        assert Joined(nodes', lev[k + 1], lev[k]);
      }
    }
  }

  lemma TopLevel(nodes: Nodes, used: seq<bool>, root: nat, k: nat, caps: Caps, recs: seq<Rec>)
    requires 0 < root < |nodes| && root < |used| && used[root] && Sorted(recs)
    requires nodes[root] == Node(0, 0, k == 0, k + 1, recs) && 1 <= |recs| <= if k == 0 then caps.leaf else caps.index
    ensures LevelOK(nodes, used, [root], k, caps)
  {
    FlatOfOne(nodes, root);
  }
}
