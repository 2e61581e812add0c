/** What the steps on a single level do to it: new records for a node, splitting a node, dropping a node. */
module BTreeSteps {
  import opened BTreeRecords
  import opened BTreeLevels

  /** The nodes after one has got other records. */
  ghost function WithRecs(nodes: Nodes, id: nat, recs: seq<Rec>): (nodes': Nodes)
    requires id < |nodes|
    ensures |nodes'| == |nodes|
  {
    nodes[id := nodes[id].(recs := recs)]
  }

  /** A node's records are replaced, where the level stays in order. */
  lemma PutLevel(nodes: Nodes, used: seq<bool>, level: seq<nat>, k: nat, caps: Caps, p: nat, recs: seq<Rec>)
    requires LevelOK(nodes, used, level, k, caps) && p < |level| && level[p] < |nodes|
    requires 1 <= |recs| <= if k == 0 then caps.leaf else caps.index
    requires Sorted(Flat(nodes, level[..p]) + recs + Flat(nodes, level[p + 1..]))
    ensures var nodes' := WithRecs(nodes, level[p], recs);
      && LevelOK(nodes', used, level, k, caps)
      && Flat(nodes', level) == Flat(nodes, level[..p]) + recs + Flat(nodes, level[p + 1..])
      && Index(nodes', level) == Index(nodes, level)[p := Rec(recs[0].key, level[p])]
      && SameAtOthers(nodes, used, nodes', used, k + 1)
  {
    hide Flat, Sorted, Linked, WithRecs, Index;
    FlatPut(nodes, level, p, recs);
    PutNodes(nodes, used, level, k, caps, p, recs);
  }

  lemma PutNodes(nodes: Nodes, used: seq<bool>, level: seq<nat>, k: nat, caps: Caps, p: nat, recs: seq<Rec>)
    requires AllOK(nodes, used, level, k, caps) && Distinct(level) && p < |level| && level[p] < |nodes|
    requires 1 <= |recs| <= if k == 0 then caps.leaf else caps.index
    ensures var nodes' := WithRecs(nodes, level[p], recs);
      && AllOK(nodes', used, level, k, caps) && (Linked(nodes, level) ==> Linked(nodes', level))
      && Index(nodes', level) == Index(nodes, level)[p := Rec(recs[0].key, level[p])]
      && SameAtOthers(nodes, used, nodes', used, k + 1)
  {
    var nodes', index := WithRecs(nodes, level[p], recs), Index(nodes, level)[p := Rec(recs[0].key, level[p])];
    forall j: nat | j < |level|
      ensures NodeOK(nodes', used, level[j], k, caps) && Index(nodes', level)[j] == index[j]
      ensures Linked(nodes, level) ==> LinksOK(nodes', level, j)
    {
      assert NodeOK(nodes, used, level[j], k, caps);
      Unique(level, j, p);
      if Linked(nodes, level) {
        assert LinksOK(nodes, level, j);
      }
    }
    assert NodeOK(nodes, used, level[p], k, caps);
  }

  lemma FlatPut(nodes: Nodes, level: seq<nat>, p: nat, recs: seq<Rec>)
    requires Distinct(level) && p < |level| && level[p] < |nodes|
    ensures var nodes' := WithRecs(nodes, level[p], recs);
      && Flat(nodes', level[..p]) == Flat(nodes, level[..p]) && Flat(nodes', level[p + 1..]) == Flat(nodes, level[p + 1..])
      && Flat(nodes', level) == Flat(nodes, level[..p]) + recs + Flat(nodes, level[p + 1..])
  {
    var nodes' := WithRecs(nodes, level[p], recs);
    FlatFrame(nodes, nodes', level[..p]);
    FlatFrame(nodes, nodes', level[p + 1..]);
    FlatAround(nodes', level, p);
  }

  // ----- Between levels -----

  lemma TreePrefix(nodes: Nodes, used: seq<bool>, lev: seq<seq<nat>>, n: nat, caps: Caps)
    requires TreeOK(nodes, used, lev, n + 1, caps)
    ensures TreeOK(nodes, used, lev, n, caps)
  {}

  lemma LevelIndexSorted(nodes: Nodes, used: seq<bool>, level: seq<nat>, k: nat, caps: Caps)
    requires LevelOK(nodes, used, level, k, caps)
    ensures Sorted(Index(nodes, level))
  {
    IndexSorted(nodes, used, level, k, caps);
  }

  /** Changes below a height, then at it, leave the nodes above alone. */
  lemma SameAboveTwice(nodes0: Nodes, used0: seq<bool>, nodes1: Nodes, used1: seq<bool>, nodes2: Nodes, used2: seq<bool>,
                       nodes3: Nodes, used3: seq<bool>, height: nat)
    requires SameAtOthers(nodes0, used0, nodes1, used1, height + 1)
    requires SameAbove(nodes1, used1, nodes2, used2, height)
    requires SameAtOthers(nodes2, used2, nodes3, used3, height + 1)
    ensures SameAbove(nodes0, used0, nodes3, used3, height + 1)
  {}

  lemma SameNone(nodes: Nodes, used: seq<bool>, height: nat)
    ensures SameAtOthers(nodes, used, nodes, used, height)
  {}

  lemma SameAboveThen(nodes0: Nodes, used0: seq<bool>, nodes1: Nodes, used1: seq<bool>, nodes2: Nodes, used2: seq<bool>, height: nat)
    requires SameAbove(nodes0, used0, nodes1, used1, height) && SameAtOthers(nodes1, used1, nodes2, used2, height)
    ensures SameAbove(nodes0, used0, nodes2, used2, height)
  {}

  /** A level that has become the index of the one below is joined to it. */
  lemma Rejoin(nodes1: Nodes, used1: seq<bool>, lev1: seq<seq<nat>>, nodes2: Nodes, used2: seq<bool>, lev2: seq<seq<nat>>,
               h: nat, caps: Caps)
    requires 0 < h < |lev1| && |lev2| == |lev1| && TreeOK(nodes1, used1, lev1, h, caps)
    requires forall k | 0 <= k < |lev1| && k != h :: lev2[k] == lev1[k]
    requires LevelOK(nodes2, used2, lev2[h], h, caps) && SameAtOthers(nodes1, used1, nodes2, used2, h + 1)
    requires Flat(nodes2, lev2[h]) == Index(nodes1, lev1[h - 1])
    ensures TreeOK(nodes2, used2, lev2, h + 1, caps) && Flat(nodes2, lev2[0]) == Flat(nodes1, lev1[0])
  {
    hide Flat, Sorted, Index, LevelOK;
    BelowFrame(nodes1, used1, nodes2, used2, lev1, h, caps);
    forall k | 0 <= k < h ensures LevelOK(nodes2, used2, lev2[k], k, caps) {
      assert LevelOK(nodes2, used2, lev1[k], k, caps);
    }
    forall k | 0 <= k < h ensures Joined(nodes2, lev2[k + 1], lev2[k]) {
      if k + 1 < h {
        assert Joined(nodes2, lev1[k + 1], lev1[k]);
      }
    }
  }

  // ----- Splitting -----

  /** The upper half of a node's records has moved to a new node behind it. */
  ghost predicate IsSplit(nodes: Nodes, nodes': Nodes, id: nat, newNode: nat) {
    && |nodes'| == |nodes| && id < |nodes| && newNode < |nodes| && id != newNode
    && var d := nodes[id];
       var half := |d.recs| / 2;
    && nodes'[id] == d.(fLink := newNode, recs := d.recs[..half])
    && nodes'[newNode] == Node(d.fLink, id, d.leaf, d.height, d.recs[half..])
    && (d.fLink != 0 ==> d.fLink < |nodes| && nodes'[d.fLink] == nodes[d.fLink].(bLink := newNode))
    && forall x | 0 <= x < |nodes| && x != id && x != newNode && (x == d.fLink ==> x == 0) ::
      nodes'[x] == nodes[x]
  }

  lemma InsertedNode(level: seq<nat>, i: nat, x: nat, j: nat)
    requires i <= |level| && j <= |level|
    ensures InsertAt(level, i, x)[j] == if j < i then level[j] else if j == i then x else level[j - 1]
  {}

  lemma DistinctInsert(level: seq<nat>, i: nat, x: nat)
    requires Distinct(level) && i <= |level| && x !in level
    ensures Distinct(InsertAt(level, i, x))
  {
    var t := InsertAt(level, i, x);
    forall a, b | 0 <= a < b < |t| ensures t[a] != t[b] {
      InsertedNode(level, i, x, a);
      InsertedNode(level, i, x, b);
    }
  }

  lemma Unique(level: seq<nat>, i: nat, j: nat)
    requires Distinct(level) && i < |level| && j < |level|
    ensures level[i] == level[j] <==> i == j
  {}

  lemma SplitSize(nodes: Nodes, nodes': Nodes, id: nat, newNode: nat)
    requires IsSplit(nodes, nodes', id, newNode)
    ensures newNode < |nodes| == |nodes'|
  {}

  /** The links of any node after a split. */
  lemma SplitLinks(nodes: Nodes, nodes': Nodes, id: nat, newNode: nat, x: nat)
    requires IsSplit(nodes, nodes', id, newNode) && 0 < x < |nodes| && nodes[id].fLink !in {id, newNode}
    ensures nodes'[x].fLink == if x == id then newNode else if x == newNode then nodes[id].fLink else nodes[x].fLink
    ensures nodes'[x].bLink == if x == newNode then id else if x == nodes[id].fLink then newNode else nodes[x].bLink
  {}

  lemma LinkInsert(nodes: Nodes, nodes': Nodes, level: seq<nat>, p: nat, newNode: nat)
    requires Linked(nodes, level) && Distinct(level) && p < |level| && newNode !in level && newNode > 0
    requires IsSplit(nodes, nodes', level[p], newNode)
    ensures Linked(nodes', InsertAt(level, p + 1, newNode))
  {
    hide LinksOK, InsertAt, IsSplit, Distinct;
    var level' := InsertAt(level, p + 1, newNode);
    forall j: nat | j < |level'| ensures LinksOK(nodes', level', j) {
      LinkInserted(nodes, nodes', level, p, newNode, j);
    }
  }

  lemma NextInserted(level: seq<nat>, p: nat, newNode: nat, j: nat)
    requires p < |level| && j <= |level|
    ensures var t := InsertAt(level, p + 1, newNode);
      if j <= p then t[j] == level[j] && Prev(t, j) == Prev(level, j) && Next(t, j) == if j == p then newNode else Next(level, j)
      else if j == p + 1 then t[j] == newNode && Prev(t, j) == level[p] && Next(t, j) == Next(level, p)
      else
        && t[j] == level[j - 1] && Next(t, j) == Next(level, j - 1)
        && Prev(t, j) == if j == p + 2 then newNode else Prev(level, j - 1)
  {}

  lemma LinkInserted(nodes: Nodes, nodes': Nodes, level: seq<nat>, p: nat, newNode: nat, j: nat)
    requires Linked(nodes, level) && Distinct(level) && p < |level| && j <= |level| && newNode !in level && newNode > 0
    requires IsSplit(nodes, nodes', level[p], newNode)
    ensures LinksOK(nodes', InsertAt(level, p + 1, newNode), j)
  {
    hide InsertAt, IsSplit, Distinct;
    NextInserted(level, p, newNode, j);
    SplitSize(nodes, nodes', level[p], newNode);
    assert LinksOK(nodes, level, p);
    if p + 1 < |level| {
      assert LinksOK(nodes, level, p + 1);
      Unique(level, p, p + 1);
    }
    if j == p + 1 {
      SplitLinks(nodes, nodes', level[p], newNode, newNode);
    } else {
      var i := if j <= p then j else j - 1;
      assert LinksOK(nodes, level, i);
      Unique(level, i, p);
      if p + 1 < |level| { Unique(level, i, p + 1); }
      SplitLinks(nodes, nodes', level[p], newNode, level[i]);
    }
  }

  /** Splitting a node leaves the records of the level as they are; its index gets the new node's first key. */
  lemma SplitLevel(nodes: Nodes, nodes': Nodes, used: seq<bool>, level: seq<nat>, k: nat, caps: Caps, p: nat, newNode: nat)
    requires LevelOK(nodes, used, level, k, caps) && p < |level| && IsSplit(nodes, nodes', level[p], newNode)
    requires 0 < newNode < |used| && !used[newNode] && |Recs(nodes, level[p])| >= 2
    ensures var level', recs := InsertAt(level, p + 1, newNode), Recs(nodes, level[p]);
      && LevelOK(nodes', used[newNode := true], level', k, caps)
      && Flat(nodes', level') == Flat(nodes, level)
      && Flat(nodes', level'[..p]) == Flat(nodes, level[..p])
      && Flat(nodes', level'[..p + 1]) == Flat(nodes, level[..p]) + recs[..|recs| / 2]
      && Flat(nodes', level'[p + 1..]) == recs[|recs| / 2..] + Flat(nodes, level[p + 1..])
      && Flat(nodes', level'[p + 2..]) == Flat(nodes, level[p + 1..])
      && Index(nodes', level') == InsertAt(Index(nodes, level), p + 1, Rec(recs[|recs| / 2].key, newNode))
      && SameAtOthers(nodes, used, nodes', used[newNode := true], k + 1)
  {
    hide Flat, Sorted, Linked;
    var level', recs := InsertAt(level, p + 1, newNode), Recs(nodes, level[p]);
    assert newNode !in level by {
      forall j | 0 <= j < |level| ensures level[j] != newNode { assert NodeOK(nodes, used, level[j], k, caps); }
    }
    DistinctInsert(level, p + 1, newNode);
    LinkInsert(nodes, nodes', level, p, newNode);
    SplitNodes(nodes, nodes', used, level, k, caps, p, newNode);
    SplitFlat(nodes, nodes', level, p, newNode);
    SplitFrame(nodes, nodes', used, level, k, caps, p, newNode);
  }

  lemma SplitNodes(nodes: Nodes, nodes': Nodes, used: seq<bool>, level: seq<nat>, k: nat, caps: Caps, p: nat, newNode: nat)
    requires AllOK(nodes, used, level, k, caps) && p < |level| && IsSplit(nodes, nodes', level[p], newNode)
    requires 0 < newNode < |used| && !used[newNode] && |Recs(nodes, level[p])| >= 2
    ensures var level', recs := InsertAt(level, p + 1, newNode), Recs(nodes, level[p]);
      && AllOK(nodes', used[newNode := true], level', k, caps)
      && Index(nodes', level') == InsertAt(Index(nodes, level), p + 1, Rec(recs[|recs| / 2].key, newNode))
  {
    var level', recs := InsertAt(level, p + 1, newNode), Recs(nodes, level[p]);
    var index, index' := InsertAt(Index(nodes, level), p + 1, Rec(recs[|recs| / 2].key, newNode)), Index(nodes', level');
    assert NodeOK(nodes, used, level[p], k, caps);
    forall j | 0 <= j < |level'| ensures NodeOK(nodes', used[newNode := true], level'[j], k, caps) && index'[j] == index[j] {
      InsertedNode(level, p + 1, newNode, j);
      if j != p + 1 {
        var i := if j <= p then j else j - 1;
        assert NodeOK(nodes, used, level[i], k, caps) && index[j] == Index(nodes, level)[i];
      }
    }
  }

  lemma SplitFlat(nodes: Nodes, nodes': Nodes, level: seq<nat>, p: nat, newNode: nat)
    requires Distinct(level) && p < |level| && IsSplit(nodes, nodes', level[p], newNode) && newNode !in level
    ensures var level', recs := InsertAt(level, p + 1, newNode), Recs(nodes, level[p]);
      && Flat(nodes', level') == Flat(nodes, level)
      && Flat(nodes', level'[..p]) == Flat(nodes, level[..p])
      && Flat(nodes', level'[..p + 1]) == Flat(nodes, level[..p]) + recs[..|recs| / 2]
      && Flat(nodes', level'[p + 1..]) == recs[|recs| / 2..] + Flat(nodes, level[p + 1..])
      && Flat(nodes', level'[p + 2..]) == Flat(nodes, level[p + 1..])
  {
    hide Flat;
    var level', recs := InsertAt(level, p + 1, newNode), Recs(nodes, level[p]);
    assert level'[..p] == level[..p] && level'[p + 1..] == [newNode] + level[p + 1..] && level'[p] == level[p];
    assert level'[p + 2..] == level[p + 1..] && level'[..p + 1] == level[..p] + [level[p]];
    SplitRest(nodes, nodes', level[..p], level[p], newNode);
    SplitRest(nodes, nodes', level[p + 1..], level[p], newNode);
    FlatAround(nodes, level, p);
    FlatAround(nodes', level', p);
    FlatAppend(nodes', [newNode], level[p + 1..]);
    FlatOfOne(nodes', newNode);
    FlatAppend(nodes', level[..p], [level[p]]);
    FlatOfOne(nodes', level[p]);
    var a, c, half := Flat(nodes, level[..p]), Flat(nodes, level[p + 1..]), |recs| / 2;
    assert recs[..half] + recs[half..] == recs;
    Regroup(a, recs[..half], recs[half..], recs, c);
  }

  lemma SplitRest(nodes: Nodes, nodes': Nodes, ids: seq<nat>, id: nat, newNode: nat)
    requires IsSplit(nodes, nodes', id, newNode) && id !in ids && newNode !in ids
    ensures Flat(nodes', ids) == Flat(nodes, ids)
  {
    FlatFrame(nodes, nodes', ids);
  }

  lemma SplitFrame(nodes: Nodes, nodes': Nodes, used: seq<bool>, level: seq<nat>, k: nat, caps: Caps, p: nat, newNode: nat)
    requires AllOK(nodes, used, level, k, caps) && Linked(nodes, level) && p < |level| && IsSplit(nodes, nodes', level[p], newNode)
    requires newNode < |used| && !used[newNode]
    ensures SameAtOthers(nodes, used, nodes', used[newNode := true], k + 1)
  {
    assert NodeOK(nodes, used, level[p], k, caps) && LinksOK(nodes, level, p);
    if p + 1 < |level| {
      assert NodeOK(nodes, used, level[p + 1], k, caps);
    }
  }

  // ----- Growing -----

  /** The index after node p has got the first key `head`, and maybe a new node behind it. */
  ghost predicate IndexGrown(nodes0: Nodes, level0: seq<nat>, nodes1: Nodes, level1: seq<nat>, p: nat, newNode: nat, head: int)
    requires p < |level0|
  {
    var index := Index(nodes0, level0)[p := Rec(head, level0[p])];
    Index(nodes1, level1) == if newNode == 0 then index else InsertAt(index, p + 1, Rec(Head(nodes1, newNode), newNode))
  }

  /** What adding a record to node p of a level, which may split the node, does to the level's list, its order
      and its index. */
  ghost predicate Grown(nodes0: Nodes, level0: seq<nat>, nodes1: Nodes, level1: seq<nat>, p: nat, newNode: nat, rec: Rec) {
    && p < |level0|
    && level1 == (if newNode == 0 then level0 else InsertAt(level0, p + 1, newNode))
    && Flat(nodes1, level1) == Flat(nodes0, level0[..p]) + Added(Recs(nodes0, level0[p]), rec) + Flat(nodes0, level0[p + 1..])
    && IndexGrown(nodes0, level0, nodes1, level1, p, newNode,
                  if Place(Recs(nodes0, level0[p]), rec.key) == 0 then rec.key else Head(nodes0, level0[p]))
  }

  lemma GrownEnds(nodes0: Nodes, level0: seq<nat>, nodes1: Nodes, level1: seq<nat>, p: nat, newNode: nat, rec: Rec)
    requires Grown(nodes0, level0, nodes1, level1, p, newNode, rec) && p < |level0|
    requires !Has(Recs(nodes0, level0[p]), rec.key)
    ensures |Flat(nodes1, level1)| == |Flat(nodes0, level0)| + 1 && level1 != [] && level1[0] == level0[0]
    ensures level1[|level1| - 1] == if newNode != 0 && p == |level0| - 1 then newNode else level0[|level0| - 1]
  {
    hide Flat, Has, Place, InsertAt, IndexGrown, Added;
    FlatAround(nodes0, level0, p);
    HeadOfAdded(Recs(nodes0, level0[p]), rec);
    InsertEnds(level0, p, newNode);
  }

  lemma InsertEnds(level: seq<nat>, p: nat, x: nat)
    requires p < |level|
    ensures var t := InsertAt(level, p + 1, x);
      t[0] == level[0] && t[|t| - 1] == if p == |level| - 1 then x else level[|level| - 1]
  {}

  lemma HeadOfAdded(recs: seq<Rec>, rec: Rec)
    requires !Has(recs, rec.key)
    ensures Added(recs, rec) != [] && |Added(recs, rec)| == |recs| + 1
    ensures Added(recs, rec)[0].key == if Place(recs, rec.key) == 0 then rec.key else recs[0].key
  {}

  /** There is room in the node. */
  lemma GrowPut(nodes: Nodes, used: seq<bool>, level: seq<nat>, k: nat, caps: Caps, p: nat, rec: Rec)
    requires LevelOK(nodes, used, level, k, caps) && p < |level| && level[p] < |nodes|
    requires |nodes[level[p]].recs| < (if k == 0 then caps.leaf else caps.index) && !Has(nodes[level[p]].recs, rec.key)
    requires Sorted(Flat(nodes, level[..p]) + Added(nodes[level[p]].recs, rec) + Flat(nodes, level[p + 1..]))
    ensures var nodes' := WithRecs(nodes, level[p], Added(nodes[level[p]].recs, rec));
      && LevelOK(nodes', used, level, k, caps) && Grown(nodes, level, nodes', level, p, 0, rec)
      && SameAtOthers(nodes, used, nodes', used, k + 1)
  {
    hide Flat, Sorted, LevelOK, WithRecs, Index, Added;
    HeadOfAdded(nodes[level[p]].recs, rec);
    NodeNotEmpty(nodes, used, level, k, caps, p);
    PutLevel(nodes, used, level, k, caps, p, Added(nodes[level[p]].recs, rec));
  }

  lemma NodeNotEmpty(nodes: Nodes, used: seq<bool>, level: seq<nat>, k: nat, caps: Caps, p: nat)
    requires LevelOK(nodes, used, level, k, caps) && p < |level|
    ensures Recs(nodes, level[p]) != [] && level[p] < |nodes| && 0 < level[p] < |used| && used[level[p]]
    ensures nodes[level[p]].height == k + 1 && (nodes[level[p]].leaf <==> k == 0)
    ensures |Recs(nodes, level[p])| <= if k == 0 then caps.leaf else caps.index
  {
    assert NodeOK(nodes, used, level[p], k, caps);
  }

  lemma InsertLow<T>(s: seq<T>, half: nat, at: nat, x: T)
    requires at <= half <= |s|
    ensures InsertAt(s[..half], at, x) + s[half..] == InsertAt(s, at, x)
  {}

  lemma InsertHigh<T>(s: seq<T>, half: nat, at: nat, x: T)
    requires half <= at <= |s|
    ensures s[..half] + InsertAt(s[half..], at - half, x) == InsertAt(s, at, x)
  {}

  lemma InsertThenUpdate<T>(s: seq<T>, p: nat, x: T, y: T)
    requires p < |s|
    ensures InsertAt(s, p + 1, x)[p := y] == InsertAt(s[p := y], p + 1, x)
    ensures InsertAt(s, p + 1, x)[p + 1 := y] == InsertAt(s, p + 1, y)
  {}

  lemma PlaceLow(recs: seq<Rec>, key: int, half: nat)
    requires Sorted(recs) && !Has(recs, key) && Place(recs, key) <= half <= |recs|
    ensures Sorted(recs[..half]) && !Has(recs[..half], key) && Place(recs[..half], key) == Place(recs, key)
  {
    var lower := recs[..half];
    assert forall j | 0 <= j < |lower| :: lower[j] == recs[j];
    PlaceIs(lower, key, Place(recs, key));
  }

  lemma PlaceHigh(recs: seq<Rec>, key: int, half: nat)
    requires Sorted(recs) && !Has(recs, key) && half <= Place(recs, key)
    ensures half <= |recs| && Sorted(recs[half..]) && !Has(recs[half..], key)
    ensures Place(recs[half..], key) == Place(recs, key) - half
  {
    var upper := recs[half..];
    assert forall j | 0 <= j < |upper| :: upper[j] == recs[half + j];
    PlaceIs(upper, key, Place(recs, key) - half);
  }

  /** Adding to one of the halves is adding to the whole. */
  lemma AddedLow(recs: seq<Rec>, rec: Rec, half: nat)
    requires Sorted(recs) && !Has(recs, rec.key) && Place(recs, rec.key) <= half <= |recs|
    ensures Sorted(recs[..half]) && !Has(recs[..half], rec.key) && Place(recs[..half], rec.key) == Place(recs, rec.key)
    ensures Added(recs[..half], rec) + recs[half..] == Added(recs, rec)
  {
    hide Sorted, Has, Place, InsertAt;
    PlaceLow(recs, rec.key, half);
    InsertLow(recs, half, Place(recs, rec.key), rec);
  }

  lemma AddedHigh(recs: seq<Rec>, rec: Rec, half: nat)
    requires Sorted(recs) && !Has(recs, rec.key) && half <= Place(recs, rec.key)
    ensures half <= |recs| && Sorted(recs[half..]) && !Has(recs[half..], rec.key)
    ensures recs[..half] + Added(recs[half..], rec) == Added(recs, rec)
  {
    hide Sorted, Has, Place, InsertAt;
    PlaceHigh(recs, rec.key, half);
    InsertHigh(recs, half, Place(recs, rec.key), rec);
  }

  lemma RecsOfWith(nodes: Nodes, id: nat, recs: seq<Rec>, x: nat)
    requires id < |nodes|
    ensures Recs(WithRecs(nodes, id, recs), x) == if x == id then recs else Recs(nodes, x)
  {}

  lemma SplitKind(nodes: Nodes, nodes': Nodes, id: nat, newNode: nat)
    requires IsSplit(nodes, nodes', id, newNode)
    ensures |nodes'| == |nodes| && id < |nodes| && newNode < |nodes|
    ensures nodes'[id].height == nodes[id].height == nodes'[newNode].height
  {}

  lemma Regroup<T>(a: seq<T>, x: seq<T>, y: seq<T>, r: seq<T>, c: seq<T>)
    requires x + y == r
    ensures a + x + (y + c) == a + r + c && a + x + y + c == a + r + c
  {}

  lemma SplitRecs(nodes: Nodes, nodes': Nodes, id: nat, newNode: nat)
    requires IsSplit(nodes, nodes', id, newNode)
    ensures |nodes'| == |nodes| && id < |nodes| && newNode < |nodes| && id != newNode
    ensures Recs(nodes', id) == Recs(nodes, id)[..|Recs(nodes, id)| / 2]
    ensures Recs(nodes', newNode) == Recs(nodes, id)[|Recs(nodes, id)| / 2..]
  {}

  lemma LowFlat(nodes: Nodes, nodes1: Nodes, level: seq<nat>, p: nat, newNode: nat, rec: Rec)
    requires Distinct(level) && p < |level| && IsSplit(nodes, nodes1, level[p], newNode) && newNode !in level
    requires Sorted(Recs(nodes, level[p])) && !Has(Recs(nodes, level[p]), rec.key)
    requires Place(Recs(nodes, level[p]), rec.key) <= |Recs(nodes, level[p])| / 2
    ensures !Has(Recs(nodes1, level[p]), rec.key) && Sorted(Recs(nodes1, level[p]))
    ensures var level' := InsertAt(level, p + 1, newNode);
      Flat(nodes1, level'[..p]) + Added(Recs(nodes1, level[p]), rec) + Flat(nodes1, level'[p + 1..])
      == Flat(nodes, level[..p]) + Added(Recs(nodes, level[p]), rec) + Flat(nodes, level[p + 1..])
  {
    hide Flat, Sorted, Added, InsertAt, Has, Place, IsSplit, Distinct;
    var recs0, recs := Recs(nodes, level[p]), Recs(nodes1, level[p]);
    var half := |recs0| / 2;
    var a, c := Flat(nodes, level[..p]), Flat(nodes, level[p + 1..]);
    SplitRecs(nodes, nodes1, level[p], newNode);
    SplitFlat(nodes, nodes1, level, p, newNode);
    AddedLow(recs0, rec, half);
    Regroup(a, Added(recs, rec), recs0[half..], Added(recs0, rec), c);
  }

  /** The node was full and has been split: its lower half takes the record. */
  lemma GrowLow(nodes: Nodes, nodes1: Nodes, used: seq<bool>, level: seq<nat>, k: nat, caps: Caps, p: nat, newNode: nat, rec: Rec)
    requires LevelOK(nodes, used, level, k, caps) && p < |level| && IsSplit(nodes, nodes1, level[p], newNode)
    requires 0 < newNode < |used| && !used[newNode] && |Recs(nodes, level[p])| >= 2
    requires !Has(Recs(nodes, level[p]), rec.key)
    requires Place(Recs(nodes, level[p]), rec.key) <= |Recs(nodes, level[p])| / 2
    requires Sorted(Flat(nodes, level[..p]) + Added(Recs(nodes, level[p]), rec) + Flat(nodes, level[p + 1..]))
    ensures level[p] < |nodes1| && Sorted(Recs(nodes1, level[p])) && !Has(Recs(nodes1, level[p]), rec.key)
    ensures var nodes', level' := WithRecs(nodes1, level[p], Added(Recs(nodes1, level[p]), rec)), InsertAt(level, p + 1, newNode);
      && LevelOK(nodes', used[newNode := true], level', k, caps)
      && Grown(nodes, level, nodes', level', p, newNode, rec)
      && SameAtOthers(nodes, used, nodes', used[newNode := true], k + 1)
  {
    hide Flat, Sorted, LevelOK, Recs, WithRecs, Index, Added, InsertAt, Has, Place, SameAtOthers, IsSplit, IndexGrown;
    var level', used' := InsertAt(level, p + 1, newNode), used[newNode := true];
    var recs0, recs := Recs(nodes, level[p]), Recs(nodes1, level[p]);
    NodeNotEmpty(nodes, used, level, k, caps, p);
    SortedNode(nodes, used, level, k, caps, p);
    SplitLevel(nodes, nodes1, used, level, k, caps, p, newNode);
    SplitRecs(nodes, nodes1, level[p], newNode);
    NotInLevel(nodes, used, level, k, caps, newNode);
    InsertedNode(level, p + 1, newNode, p);
    InsertedNode(level, p + 1, newNode, p + 1);
    var nodes' := WithRecs(nodes1, level[p], Added(recs, rec));
    RecsOfWith(nodes1, level[p], Added(recs, rec), newNode);
    LowFlat(nodes, nodes1, level, p, newNode, rec);
    HeadOfAdded(recs, rec);
    PutLevel(nodes1, used', level', k, caps, p, Added(recs, rec));
    SameTwice(nodes, used, nodes1, used', nodes', used', k + 1);
    SplitIndex(nodes, nodes1, nodes', level, p, newNode, rec, true);
  }

  lemma HighFlat(nodes: Nodes, nodes1: Nodes, level: seq<nat>, p: nat, newNode: nat, rec: Rec)
    requires Distinct(level) && p < |level| && IsSplit(nodes, nodes1, level[p], newNode) && newNode !in level
    requires Sorted(Recs(nodes, level[p])) && !Has(Recs(nodes, level[p]), rec.key)
    requires Place(Recs(nodes, level[p]), rec.key) >= |Recs(nodes, level[p])| / 2
    ensures !Has(Recs(nodes1, newNode), rec.key) && Sorted(Recs(nodes1, newNode))
    ensures var level' := InsertAt(level, p + 1, newNode);
      Flat(nodes1, level'[..p + 1]) + Added(Recs(nodes1, newNode), rec) + Flat(nodes1, level'[p + 2..])
      == Flat(nodes, level[..p]) + Added(Recs(nodes, level[p]), rec) + Flat(nodes, level[p + 1..])
  {
    hide Flat, Sorted, Added, InsertAt, Has, Place, IsSplit, Distinct;
    var recs0, recs := Recs(nodes, level[p]), Recs(nodes1, newNode);
    var half := |recs0| / 2;
    var a, c := Flat(nodes, level[..p]), Flat(nodes, level[p + 1..]);
    SplitRecs(nodes, nodes1, level[p], newNode);
    SplitFlat(nodes, nodes1, level, p, newNode);
    AddedHigh(recs0, rec, half);
    Regroup(a, recs0[..half], Added(recs, rec), Added(recs0, rec), c);
  }

  /** The node was full and has been split: the new node takes the record. */
  lemma GrowHigh(nodes: Nodes, nodes1: Nodes, used: seq<bool>, level: seq<nat>, k: nat, caps: Caps, p: nat, newNode: nat, rec: Rec)
    requires LevelOK(nodes, used, level, k, caps) && p < |level| && IsSplit(nodes, nodes1, level[p], newNode)
    requires 0 < newNode < |used| && !used[newNode] && |Recs(nodes, level[p])| >= 2
    requires !Has(Recs(nodes, level[p]), rec.key)
    requires Place(Recs(nodes, level[p]), rec.key) >= |Recs(nodes, level[p])| / 2
    requires Sorted(Flat(nodes, level[..p]) + Added(Recs(nodes, level[p]), rec) + Flat(nodes, level[p + 1..]))
    ensures newNode < |nodes1| && Sorted(Recs(nodes1, newNode)) && !Has(Recs(nodes1, newNode), rec.key)
    ensures var nodes', level' := WithRecs(nodes1, newNode, Added(Recs(nodes1, newNode), rec)), InsertAt(level, p + 1, newNode);
      && LevelOK(nodes', used[newNode := true], level', k, caps)
      && Grown(nodes, level, nodes', level', p, newNode, rec)
      && SameAtOthers(nodes, used, nodes', used[newNode := true], k + 1)
  {
    hide Flat, Sorted, LevelOK, Recs, WithRecs, Index, Added, InsertAt, Has, Place, SameAtOthers, IsSplit, IndexGrown;
    var level', used' := InsertAt(level, p + 1, newNode), used[newNode := true];
    var recs0, recs := Recs(nodes, level[p]), Recs(nodes1, newNode);
    NodeNotEmpty(nodes, used, level, k, caps, p);
    SortedNode(nodes, used, level, k, caps, p);
    SplitLevel(nodes, nodes1, used, level, k, caps, p, newNode);
    SplitRecs(nodes, nodes1, level[p], newNode);
    NotInLevel(nodes, used, level, k, caps, newNode);
    InsertedNode(level, p + 1, newNode, p);
    InsertedNode(level, p + 1, newNode, p + 1);
    var nodes' := WithRecs(nodes1, newNode, Added(recs, rec));
    RecsOfWith(nodes1, newNode, Added(recs, rec), newNode);
    HighFlat(nodes, nodes1, level, p, newNode, rec);
    HeadOfAdded(recs, rec);
    PutLevel(nodes1, used', level', k, caps, p + 1, Added(recs, rec));
    SameTwice(nodes, used, nodes1, used', nodes', used', k + 1);
    SplitIndex(nodes, nodes1, nodes', level, p, newNode, rec, false);
  }

  lemma NotInLevel(nodes: Nodes, used: seq<bool>, level: seq<nat>, k: nat, caps: Caps, x: nat)
    requires LevelOK(nodes, used, level, k, caps) && x < |used| && !used[x]
    ensures x !in level && Distinct(level)
  {
    forall j | 0 <= j < |level| ensures level[j] != x {
      assert NodeOK(nodes, used, level[j], k, caps);
    }
  }

  lemma LinksInUse(nodes: Nodes, used: seq<bool>, level: seq<nat>, k: nat, caps: Caps, p: nat)
    requires LevelOK(nodes, used, level, k, caps) && p < |level|
    ensures level[p] < |nodes| && level[p] < |used|
    ensures var f, b := nodes[level[p]].fLink, nodes[level[p]].bLink;
      && (f == 0 || (0 < f < |nodes| && f < |used| && used[f] && f != level[p]))
      && (b == 0 || (0 < b < |nodes| && b < |used| && used[b] && b != level[p]))
      && (f == b ==> f == 0)
      && f == Next(level, p) && b == Prev(level, p)
    ensures level[p] == level[|level| - 1] <==> p == |level| - 1
    ensures level[p] == level[0] <==> p == 0
  {
    assert NodeOK(nodes, used, level[p], k, caps) && LinksOK(nodes, level, p);
    if p + 1 < |level| {
      assert NodeOK(nodes, used, level[p + 1], k, caps);
    }
    if p > 0 {
      assert NodeOK(nodes, used, level[p - 1], k, caps);
    }
    Unique(level, p, |level| - 1);
    Unique(level, p, 0);
  }

  lemma SortedNode(nodes: Nodes, used: seq<bool>, level: seq<nat>, k: nat, caps: Caps, p: nat)
    requires LevelOK(nodes, used, level, k, caps) && p < |level|
    ensures Sorted(Recs(nodes, level[p]))
  {
    hide Flat;
    FlatAround(nodes, level, p);
    SortedParts(Flat(nodes, level[..p]), Recs(nodes, level[p]), Flat(nodes, level[p + 1..]));
  }

  lemma SameTwice(nodes0: Nodes, used0: seq<bool>, nodes1: Nodes, used1: seq<bool>, nodes2: Nodes, used2: seq<bool>, height: nat)
    requires SameAtOthers(nodes0, used0, nodes1, used1, height) && SameAtOthers(nodes1, used1, nodes2, used2, height)
    ensures SameAtOthers(nodes0, used0, nodes2, used2, height)
  {}

  lemma SplitIndex(nodes: Nodes, nodes1: Nodes, nodes': Nodes, level: seq<nat>, p: nat, newNode: nat, rec: Rec, low: bool)
    requires p < |level| && Recs(nodes, level[p]) != [] && newNode > 0
    requires var recs0, level' := Recs(nodes, level[p]), InsertAt(level, p + 1, newNode);
      var half, at := |recs0| / 2, Place(recs0, rec.key);
      && half > 0 && !Has(recs0, rec.key)
      && Index(nodes1, level') == InsertAt(Index(nodes, level), p + 1, Rec(recs0[half].key, newNode))
      && (if low then
            at <= half && Recs(nodes', newNode) == recs0[half..]
            && Index(nodes', level') == Index(nodes1, level')[p := Rec(if at == 0 then rec.key else recs0[0].key, level[p])]
          else
            at >= half && Index(nodes', level') == Index(nodes1, level')[p + 1 := Rec(Head(nodes', newNode), newNode)])
    ensures IndexGrown(nodes, level, nodes', InsertAt(level, p + 1, newNode), p, newNode,
                       if Place(Recs(nodes, level[p]), rec.key) == 0 then rec.key else Head(nodes, level[p]))
  {
    hide InsertAt, Index, Place, Has;
    var recs0, index := Recs(nodes, level[p]), Index(nodes, level);
    var x := Rec(recs0[|recs0| / 2].key, newNode);
    IndexAt(nodes, level, p);
    InsertThenUpdate(index, p, x, Rec(if Place(recs0, rec.key) == 0 then rec.key else recs0[0].key, level[p]));
    InsertThenUpdate(index, p, x, Rec(Head(nodes', newNode), newNode));
    assert index[p := index[p]] == index;
  }

  lemma IndexAt(nodes: Nodes, level: seq<nat>, p: nat)
    requires p < |level|
    ensures Index(nodes, level)[p] == Rec(Head(nodes, level[p]), level[p])
  {}

  // ----- Dropping a node -----

  /** A node has been unlinked from its neighbours. */
  ghost predicate IsUnlinked(nodes: Nodes, nodes': Nodes, id: nat) {
    && |nodes'| == |nodes| && id < |nodes|
    && var d := nodes[id];
    && (d.bLink != 0 ==> d.bLink < |nodes| && nodes'[d.bLink] == nodes[d.bLink].(fLink := d.fLink))
    && (d.fLink != 0 ==> d.fLink < |nodes| && nodes'[d.fLink] == nodes[d.fLink].(bLink := d.bLink))
    && forall x | 0 <= x < |nodes| && x != id && (x == d.fLink || x == d.bLink ==> x == 0) ::
      nodes'[x] == nodes[x]
  }

  lemma UnlinkedSo(nodes: Nodes, nodes': Nodes, id: nat)
    requires id < |nodes| && nodes[id].fLink < |nodes| && nodes[id].bLink < |nodes| && id !in {nodes[id].fLink, nodes[id].bLink}
    requires nodes[id].fLink == nodes[id].bLink ==> nodes[id].fLink == 0
    requires var d := nodes[id];
      var nodes1 := if d.bLink != 0 then nodes[d.bLink := nodes[d.bLink].(fLink := d.fLink)] else nodes;
      nodes' == if d.fLink != 0 then nodes1[d.fLink := nodes1[d.fLink].(bLink := d.bLink)] else nodes1
    ensures IsUnlinked(nodes, nodes', id)
  {}

  lemma RemovedNode(level: seq<nat>, i: nat, j: nat)
    requires i < |level| && j + 1 < |level|
    ensures RemoveAt(level, i)[j] == level[if j < i then j else j + 1]
  {}

  lemma DistinctRemove(level: seq<nat>, i: nat)
    requires Distinct(level) && i < |level|
    ensures Distinct(RemoveAt(level, i)) && level[i] !in RemoveAt(level, i)
  {
    var t := RemoveAt(level, i);
    forall a, b | 0 <= a < b < |t| ensures t[a] != t[b] {
      RemovedNode(level, i, a);
      RemovedNode(level, i, b);
    }
    forall a | 0 <= a < |t| ensures t[a] != level[i] {
      RemovedNode(level, i, a);
    }
  }

  lemma UnlinkSize(nodes: Nodes, nodes': Nodes, id: nat)
    requires IsUnlinked(nodes, nodes', id)
    ensures |nodes'| == |nodes|
  {}

  /** The links of any other node after one has been unlinked. */
  lemma UnlinkLinks(nodes: Nodes, nodes': Nodes, id: nat, x: nat)
    requires IsUnlinked(nodes, nodes', id) && 0 < x < |nodes| && x != id
    requires nodes[id].fLink == nodes[id].bLink ==> nodes[id].fLink == 0
    ensures nodes'[x].fLink == if x == nodes[id].bLink then nodes[id].fLink else nodes[x].fLink
    ensures nodes'[x].bLink == if x == nodes[id].fLink then nodes[id].bLink else nodes[x].bLink
  {}

  lemma LinkRemove(nodes: Nodes, nodes': Nodes, level: seq<nat>, p: nat)
    requires Linked(nodes, level) && Distinct(level) && p < |level| && IsUnlinked(nodes, nodes', level[p])
    ensures Linked(nodes', RemoveAt(level, p))
  {
    hide LinksOK, RemoveAt, IsUnlinked, Distinct;
    var level' := RemoveAt(level, p);
    forall j: nat | j < |level'| ensures LinksOK(nodes', level', j) {
      LinkRemoved(nodes, nodes', level, p, j);
    }
  }

  lemma NextRemoved(level: seq<nat>, p: nat, j: nat)
    requires p < |level| && j + 1 < |level|
    ensures var t := RemoveAt(level, p);
      if j < p then
        && t[j] == level[j] && Prev(t, j) == Prev(level, j)
        && Next(t, j) == if j + 1 == p then Next(level, p) else Next(level, j)
      else
        && t[j] == level[j + 1] && Next(t, j) == Next(level, j + 1)
        && Prev(t, j) == if j == p then Prev(level, p) else Prev(level, j + 1)
  {}

  lemma LinkRemoved(nodes: Nodes, nodes': Nodes, level: seq<nat>, p: nat, j: nat)
    requires Linked(nodes, level) && Distinct(level) && p < |level| && j + 1 < |level| && IsUnlinked(nodes, nodes', level[p])
    ensures LinksOK(nodes', RemoveAt(level, p), j)
  {
    hide RemoveAt, IsUnlinked, Distinct;
    NextRemoved(level, p, j);
    UnlinkSize(nodes, nodes', level[p]);
    assert LinksOK(nodes, level, p);
    var i := if j < p then j else j + 1;
    assert LinksOK(nodes, level, i);
    Unique(level, i, p);
    if p + 1 < |level| {
      assert LinksOK(nodes, level, p + 1);
      Unique(level, i, p + 1);
    }
    if p > 0 {
      assert LinksOK(nodes, level, p - 1);
      Unique(level, i, p - 1);
      if p + 1 < |level| { Unique(level, p - 1, p + 1); }
    }
    UnlinkLinks(nodes, nodes', level[p], level[i]);
  }

  /** Dropping a node takes its records from the level and its entry from the index. */
  lemma DropLevel(nodes: Nodes, nodes': Nodes, used: seq<bool>, level: seq<nat>, k: nat, caps: Caps, p: nat)
    requires LevelOK(nodes, used, level, k, caps) && p < |level| && IsUnlinked(nodes, nodes', level[p])
    ensures level[p] < |used|
    ensures var level' := RemoveAt(level, p);
      && LevelOK(nodes', used[level[p] := false], level', k, caps)
      && Flat(nodes', level') == Flat(nodes, level[..p]) + Flat(nodes, level[p + 1..])
      && Index(nodes', level') == RemoveAt(Index(nodes, level), p)
      && SameAtOthers(nodes, used, nodes', used[level[p] := false], k + 1)
  {
    hide Flat, Sorted, Linked, IsUnlinked;
    DistinctRemove(level, p);
    LinkRemove(nodes, nodes', level, p);
    DropNodes(nodes, nodes', used, level, k, caps, p);
    DropFlat(nodes, nodes', level, p);
    DropFrame(nodes, nodes', used, level, k, caps, p);
  }

  lemma DropNodes(nodes: Nodes, nodes': Nodes, used: seq<bool>, level: seq<nat>, k: nat, caps: Caps, p: nat)
    requires AllOK(nodes, used, level, k, caps) && Distinct(level) && p < |level| && IsUnlinked(nodes, nodes', level[p])
    ensures level[p] < |used|
    ensures AllOK(nodes', used[level[p] := false], RemoveAt(level, p), k, caps)
    ensures Index(nodes', RemoveAt(level, p)) == RemoveAt(Index(nodes, level), p)
  {
    var level', index, index' := RemoveAt(level, p), RemoveAt(Index(nodes, level), p), Index(nodes', RemoveAt(level, p));
    assert NodeOK(nodes, used, level[p], k, caps);
    forall j | 0 <= j < |level'|
      ensures NodeOK(nodes', used[level[p] := false], level'[j], k, caps) && index'[j] == index[j]
    {
      RemovedNode(level, p, j);
      var i := if j < p then j else j + 1;
      assert NodeOK(nodes, used, level[i], k, caps) && index[j] == Index(nodes, level)[i];
    }
  }

  lemma DropFlat(nodes: Nodes, nodes': Nodes, level: seq<nat>, p: nat)
    requires Distinct(level) && p < |level| && IsUnlinked(nodes, nodes', level[p])
    ensures Flat(nodes', RemoveAt(level, p)) == Flat(nodes, level[..p]) + Flat(nodes, level[p + 1..])
    ensures Sorted(Flat(nodes, level)) ==> Sorted(Flat(nodes', RemoveAt(level, p)))
  {
    hide Flat, Sorted;
    var a, b, c := Flat(nodes, level[..p]), Recs(nodes, level[p]), Flat(nodes, level[p + 1..]);
    FlatAround(nodes, level, p);
    FlatFrame(nodes, nodes', level[..p]);
    FlatFrame(nodes, nodes', level[p + 1..]);
    FlatAppend(nodes', level[..p], level[p + 1..]);
    if Sorted(Flat(nodes, level)) {
      SortedOuter(a, b, c);
    }
  }

  lemma SortedOuter(a: seq<Rec>, b: seq<Rec>, c: seq<Rec>)
    requires Sorted(a + b + c)
    ensures Sorted(a + c)
  {
    SortedParts(a, b, c);
  }

  lemma DropFrame(nodes: Nodes, nodes': Nodes, used: seq<bool>, level: seq<nat>, k: nat, caps: Caps, p: nat)
    requires AllOK(nodes, used, level, k, caps) && Linked(nodes, level) && p < |level| && IsUnlinked(nodes, nodes', level[p])
    ensures level[p] < |used| && SameAtOthers(nodes, used, nodes', used[level[p] := false], k + 1)
  {
    assert NodeOK(nodes, used, level[p], k, caps);
    assert LinksOK(nodes, level, p);
    if p + 1 < |level| {
      assert NodeOK(nodes, used, level[p + 1], k, caps);
    }
    if p > 0 {
      assert NodeOK(nodes, used, level[p - 1], k, caps);
    }
  }
}
