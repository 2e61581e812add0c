/** Which nodes are split when a record is added: those on the way of its key, from the leaf up to the first that has room. */
module BTreeSplitting {
  import opened BTreeRecords
  import opened BTreeLevels
  import opened BTreeSteps
  import opened BTreeAdding

  ghost predicate IsFull(nodes: Nodes, id: nat, caps: Caps) {
    id < |nodes| && |nodes[id].recs| >= if nodes[id].leaf then caps.leaf else caps.index
  }

  /** The node of the level to which the key is routed has no room for another record. */
  ghost predicate FullOnWay(nodes: Nodes, level: seq<nat>, key: int, caps: Caps) {
    exists p: nat :: Routed(nodes, level, p, key) && IsFull(nodes, level[p], caps)
  }

  /** How many of the n lowest levels get another node when a key that is not there is added. */
  ghost function Splits(nodes: Nodes, lev: seq<seq<nat>>, n: nat, key: int, caps: Caps): (m: nat)
    ensures m <= n
  {
    if n == 0 then 0
    else
      var m := Splits(nodes, lev, n - 1, key, caps);
      if m == n - 1 && n <= |lev| && FullOnWay(nodes, lev[n - 1], key, caps) then n else m
  }

  /** What adding a key under a node of the topmost of n levels has taken: one node for each level that is split, and none
      if the key is there already. The node itself has been split if all levels have. */
  ghost predicate HasSplit(nodes: Nodes, lev: seq<seq<nat>>, n: nat, key: int, caps: Caps, newNode: nat, taken: int) {
    && 0 < n <= |lev|
    && var m := if Has(Flat(nodes, lev[0]), key) then 0 else Splits(nodes, lev, n, key, caps);
    (newNode != 0 <==> m == n) && taken == m
  }

  ghost predicate IsThere(nodes: Nodes, lev: seq<seq<nat>>, key: int) {
    lev != [] && Has(Flat(nodes, lev[0]), key)
  }

  /** A tree gets a level more when a key is added that is not there and all nodes on its way are full. */
  ghost function Grows(nodes: Nodes, lev: seq<seq<nat>>, key: int, caps: Caps): nat {
    if !IsThere(nodes, lev, key) && Splits(nodes, lev, |lev|, key, caps) == |lev| then 1 else 0
  }

  /** How many nodes adding a key takes: one for each full node on its way up to the first that has room, and one for the
      new level. */
  ghost function NewNodes(nodes: Nodes, lev: seq<seq<nat>>, key: int, caps: Caps): nat {
    if IsThere(nodes, lev, key) then 0 else Splits(nodes, lev, |lev|, key, caps) + Grows(nodes, lev, key, caps)
  }

  lemma NewNodesBound(nodes: Nodes, lev: seq<seq<nat>>, key: int, caps: Caps)
    ensures NewNodes(nodes, lev, key, caps) <= |lev| + 1
  {}

  /** A node that takes a record at place i, or in its half: the first half of a split node keeps the places up to the
      middle, and the new node has the middle and what is behind it. */
  ghost predicate Halved(recs: seq<Rec>, nodes: Nodes, node: nat, newNode: nat, i: nat, rec: Rec) {
    var half := |recs| / 2;
    node < |nodes| && newNode < |nodes|
    && if newNode == 0 then nodes[node].recs == Added(recs, rec)
       else if i < half then nodes[node].recs == Added(recs[..half], rec) && nodes[newNode].recs == recs[half..]
       else nodes[node].recs == recs[..half] && nodes[newNode].recs == Added(recs[half..], rec)
  }

  lemma NotHalved(nodes: Nodes, nodes': Nodes, node: nat, i: nat, rec: Rec)
    requires node < |nodes| && nodes' == WithRecs(nodes, node, Added(nodes[node].recs, rec))
    ensures Halved(nodes[node].recs, nodes', node, 0, i, rec)
  {
    hide Added;
  }

  lemma HalvedLow(nodes: Nodes, nodes1: Nodes, nodes': Nodes, node: nat, newNode: nat, i: nat, rec: Rec)
    requires IsSplit(nodes, nodes1, node, newNode) && newNode != 0 && i < |nodes[node].recs| / 2
    requires nodes' == WithRecs(nodes1, node, Added(nodes1[node].recs, rec))
    ensures Halved(nodes[node].recs, nodes', node, newNode, i, rec)
  {
    hide Added;
  }

  lemma HalvedHigh(nodes: Nodes, nodes1: Nodes, nodes': Nodes, node: nat, newNode: nat, i: nat, rec: Rec)
    requires IsSplit(nodes, nodes1, node, newNode) && newNode != 0 && i >= |nodes[node].recs| / 2
    requires nodes' == WithRecs(nodes1, newNode, Added(nodes1[newNode].recs, rec))
    ensures Halved(nodes[node].recs, nodes', node, newNode, i, rec)
  {
    hide Added;
  }

  /** A key is routed to one node only. */
  lemma RoutedOnce(nodes: Nodes, used: seq<bool>, level: seq<nat>, k: nat, caps: Caps, p: nat, q: nat, key: int)
    requires LevelOK(nodes, used, level, k, caps) && Routed(nodes, level, p, key) && Routed(nodes, level, q, key)
    ensures p == q
  {
    if p < q {
      HeadsAscend(nodes, used, level, k, caps, p + 1, q);
    } else if q < p {
      HeadsAscend(nodes, used, level, k, caps, q + 1, p);
    }
  }

  lemma HeadsAscend(nodes: Nodes, used: seq<bool>, level: seq<nat>, k: nat, caps: Caps, i: nat, j: nat)
    requires LevelOK(nodes, used, level, k, caps) && i <= j < |level|
    ensures Head(nodes, level[i]) <= Head(nodes, level[j])
  {
    IndexSorted(nodes, used, level, k, caps);
    IndexAt(nodes, level, i);
    IndexAt(nodes, level, j);
  }

  lemma FullExactly(nodes: Nodes, used: seq<bool>, level: seq<nat>, k: nat, caps: Caps, p: nat, key: int)
    requires LevelOK(nodes, used, level, k, caps) && Routed(nodes, level, p, key)
    ensures FullOnWay(nodes, level, key, caps) <==> IsFull(nodes, level[p], caps)
  {
    hide LevelOK, IsFull;
    if FullOnWay(nodes, level, key, caps) {
      var q: nat :| Routed(nodes, level, q, key) && IsFull(nodes, level[q], caps);
      RoutedOnce(nodes, used, level, k, caps, p, q, key);
    }
  }

  /** A level whose nodes are as before. */
  lemma FullStill(nodes: Nodes, nodes': Nodes, level: seq<nat>, key: int, caps: Caps)
    requires |nodes'| == |nodes| && forall j | 0 <= j < |level| :: level[j] < |nodes| && nodes'[level[j]] == nodes[level[j]]
    ensures FullOnWay(nodes', level, key, caps) <==> FullOnWay(nodes, level, key, caps)
  {
    forall p: nat | p < |level|
      ensures Routed(nodes', level, p, key) <==> Routed(nodes, level, p, key)
      ensures IsFull(nodes', level[p], caps) <==> IsFull(nodes, level[p], caps)
    {}
  }

  lemma LevelStill(nodes: Nodes, used: seq<bool>, nodes': Nodes, used': seq<bool>, level: seq<nat>, k: nat, height: nat, caps: Caps)
    requires LevelOK(nodes, used, level, k, caps) && SameAtOthers(nodes, used, nodes', used', height) && k + 1 != height
    ensures |nodes'| == |nodes| && forall j | 0 <= j < |level| :: level[j] < |nodes| && nodes'[level[j]] == nodes[level[j]]
  {
    forall j | 0 <= j < |level| ensures level[j] < |nodes| && nodes'[level[j]] == nodes[level[j]] {
      assert NodeOK(nodes, used, level[j], k, caps);
    }
  }

  /** A change above does not matter. */
  lemma {:induction false} SplitsStill(nodes: Nodes, used: seq<bool>, nodes': Nodes, used': seq<bool>, lev: seq<seq<nat>>, n: nat, h: nat,
                                       key: int, caps: Caps)
    requires TreeOK(nodes, used, lev, n, caps) && n <= h && SameAtOthers(nodes, used, nodes', used', h + 1)
    ensures Splits(nodes', lev, n, key, caps) == Splits(nodes, lev, n, key, caps)
  {
    hide LevelOK, FullOnWay, SameAtOthers;
    if n > 0 {
      TreePrefix(nodes, used, lev, n - 1, caps);
      SplitsStill(nodes, used, nodes', used', lev, n - 1, h, key, caps);
      LevelOf(nodes, used, lev, n, n - 1, caps);
      LevelStill(nodes, used, nodes', used', lev[n - 1], n - 1, h + 1, caps);
      FullStill(nodes, nodes', lev[n - 1], key, caps);
    }
  }

  // ----- Steps -----

  /** A record has been added to a leaf. */
  lemma SplitLeaf(nodes: Nodes, used: seq<bool>, lev: seq<seq<nat>>, caps: Caps, p: nat, key: int, newNode: nat, taken: int)
    requires TreeOK(nodes, used, lev, 1, caps) && Routed(nodes, lev[0], p, key) && !Has(Flat(nodes, lev[0]), key)
    requires newNode != 0 <==> IsFull(nodes, lev[0][p], caps)
    requires taken == if newNode != 0 then 1 else 0
    ensures HasSplit(nodes, lev, 1, key, caps, newNode, taken)
  {
    hide LevelOK, Routed, IsFull, FullOnWay, Has, Flat;
    LevelOf(nodes, used, lev, 1, 0, caps);
    FullExactly(nodes, used, lev[0], 0, caps, p, key);
    assert Splits(nodes, lev, 0, key, caps) == 0;
  }

  /** The child has not been split. */
  lemma SplitBelow(nodes: Nodes, lev: seq<seq<nat>>, h: nat, key: int, caps: Caps, taken: int)
    requires 0 < h < |lev| && HasSplit(nodes, lev, h, key, caps, 0, taken)
    ensures HasSplit(nodes, lev, h + 1, key, caps, 0, taken)
  {
    hide FullOnWay, Has, Flat;
  }

  /** The child has been split, and its node takes the entry of the new one. */
  lemma SplitNext(nodes: Nodes, used: seq<bool>, lev: seq<seq<nat>>, h: nat, caps: Caps, p: nat, key: int, child: nat, taken: int,
                  newNode: nat, more: int)
    requires 0 < h < |lev| && TreeOK(nodes, used, lev, h + 1, caps) && Routed(nodes, lev[h], p, key)
    requires child != 0 && HasSplit(nodes, lev, h, key, caps, child, taken)
    requires newNode != 0 <==> IsFull(nodes, lev[h][p], caps)
    requires more == if newNode != 0 then 1 else 0
    ensures HasSplit(nodes, lev, h + 1, key, caps, newNode, taken + more)
  {
    hide LevelOK, Routed, IsFull, FullOnWay, Has, Flat;
    LevelOf(nodes, used, lev, h + 1, h, caps);
    FullExactly(nodes, used, lev[h], h, caps, p, key);
  }

  /** What has been taken under a child of a node whose first key may have been lowered. */
  lemma SplitUnder(nodes: Nodes, used: seq<bool>, nodes1: Nodes, lev: seq<seq<nat>>, h: nat, caps: Caps, p: nat, c: nat, child: nat,
                   key: int, newNode: nat, taken: int)
    requires TreeOK(nodes, used, lev, h + 1, caps) && Chosen(nodes, used, lev, nodes1, h, caps, p, c, child, key)
    requires HasSplit(nodes1, lev, h, key, caps, newNode, taken)
    ensures HasSplit(nodes, lev, h, key, caps, newNode, taken)
  {
    hide LevelOK, TreeOK, Routed, FullOnWay, Has, Flat, SameAtOthers, Awaits, Index;
    TreePrefix(nodes, used, lev, h, caps);
    SplitsStill(nodes, used, nodes1, used, lev, h, h, key, caps);
  }

  /** The key is in the node. */
  lemma NotSplit(nodes: Nodes, lev: seq<seq<nat>>, h: nat, key: int, caps: Caps)
    requires h < |lev| && Has(Flat(nodes, lev[0]), key)
    ensures HasSplit(nodes, lev, h + 1, key, caps, 0, 0)
  {}
}
