/** A B-tree seen level by level: the nodes of one height in order, their records joined into one list, and
    the index that the next level up keeps of them. */
module BTreeLevels {
  import opened BTreeRecords

  datatype Node = Node(fLink: nat, bLink: nat, leaf: bool, height: nat, recs: seq<Rec>)

  type Nodes = seq<Node>

  ghost function Recs(nodes: Nodes, id: nat): seq<Rec> {
    if id < |nodes| then nodes[id].recs else []
  }

  /** The first key of a node. */
  ghost function Head(nodes: Nodes, id: nat): int {
    if Recs(nodes, id) == [] then 0 else Recs(nodes, id)[0].key
  }

  /** The records of a level. */
  ghost function Flat(nodes: Nodes, level: seq<nat>): seq<Rec> {
    if level == [] then [] else Flat(nodes, level[..|level| - 1]) + Recs(nodes, level[|level| - 1])
  }

  /** What the next level up has to hold of a level: each node under its first key. */
  ghost function Index(nodes: Nodes, level: seq<nat>): (recs: seq<Rec>)
    ensures |recs| == |level|
  {
    seq(|level|, j requires 0 <= j < |level| => Rec(Head(nodes, level[j]), level[j]))
  }

  lemma {:induction false} FlatAppend(nodes: Nodes, a: seq<nat>, b: seq<nat>)
    ensures Flat(nodes, a + b) == Flat(nodes, a) + Flat(nodes, b)
  {
    if b == [] {
      assert a + b == a;
    } else {
      assert (a + b)[..|a + b| - 1] == a + b[..|b| - 1] && (a + b)[|a + b| - 1] == b[|b| - 1];
      FlatAppend(nodes, a, b[..|b| - 1]);
      Associate(Flat(nodes, a), Flat(nodes, b[..|b| - 1]), Recs(nodes, b[|b| - 1]));
    }
  }

  lemma Associate<T>(a: seq<T>, b: seq<T>, c: seq<T>)
    ensures a + b + c == a + (b + c)
  {}

  lemma {:induction false} FlatFrame(nodes: Nodes, nodes': Nodes, level: seq<nat>)
    requires forall j | 0 <= j < |level| :: Recs(nodes', level[j]) == Recs(nodes, level[j])
    ensures Flat(nodes', level) == Flat(nodes, level)
  {
    if level != [] {
      FlatFrame(nodes, nodes', level[..|level| - 1]);
    }
  }

  lemma FlatOfOne(nodes: Nodes, id: nat)
    ensures Flat(nodes, [id]) == Recs(nodes, id)
  {
    assert [id][..0] == [];
  }

  /** The records before, in and behind one node. */
  lemma FlatAround(nodes: Nodes, level: seq<nat>, p: nat)
    requires p < |level|
    ensures Flat(nodes, level) == Flat(nodes, level[..p]) + Recs(nodes, level[p]) + Flat(nodes, level[p + 1..])
  {
    assert level == level[..p] + ([level[p]] + level[p + 1..]);
    FlatAppend(nodes, level[..p], [level[p]] + level[p + 1..]);
    FlatAppend(nodes, [level[p]], level[p + 1..]);
    FlatOfOne(nodes, level[p]);
  }

  // ----- The shape of a level -----

  /** How many records a leaf and an index node have room for. */
  datatype Caps = Caps(leaf: nat, index: nat)

  ghost predicate Distinct(level: seq<nat>) {
    forall i, j | 0 <= i < j < |level| :: level[i] != level[j]
  }

  /** A node in use at a height, neither empty nor overfull. */
  ghost predicate NodeOK(nodes: Nodes, used: seq<bool>, id: nat, k: nat, caps: Caps) {
    && 0 < id < |nodes| && id < |used| && used[id]
    && nodes[id].height == k + 1 && (nodes[id].leaf <==> k == 0)
    && 1 <= |nodes[id].recs| <= if nodes[id].leaf then caps.leaf else caps.index
  }

  ghost function Prev(level: seq<nat>, j: nat): nat
    requires j < |level|
  {
    if j == 0 then 0 else level[j - 1]
  }

  ghost function Next(level: seq<nat>, j: nat): nat
    requires j < |level|
  {
    if j + 1 == |level| then 0 else level[j + 1]
  }

  /** A node's links are the numbers of its neighbours in the level. */
  ghost predicate LinksOK(nodes: Nodes, level: seq<nat>, j: nat)
    requires j < |level|
  {
    0 < level[j] < |nodes| && nodes[level[j]].fLink == Next(level, j) && nodes[level[j]].bLink == Prev(level, j)
  }

  ghost predicate Linked(nodes: Nodes, level: seq<nat>) {
    forall j: nat | j < |level| :: LinksOK(nodes, level, j)
  }

  ghost predicate AllOK(nodes: Nodes, used: seq<bool>, level: seq<nat>, k: nat, caps: Caps) {
    forall j | 0 <= j < |level| :: NodeOK(nodes, used, level[j], k, caps)
  }

  /** A level: nodes of one height, doubly linked in order, their records in ascending order. */
  ghost predicate LevelOK(nodes: Nodes, used: seq<bool>, level: seq<nat>, k: nat, caps: Caps) {
    AllOK(nodes, used, level, k, caps) && Distinct(level) && Linked(nodes, level) && Sorted(Flat(nodes, level))
  }

  /** An upper level is the index of a lower one. */
  ghost predicate Joined(nodes: Nodes, upper: seq<nat>, lower: seq<nat>) {
    Flat(nodes, upper) == Index(nodes, lower)
  }

  /** The n lowest levels are a tree, or several side by side. */
  ghost predicate TreeOK(nodes: Nodes, used: seq<bool>, lev: seq<seq<nat>>, n: nat, caps: Caps) {
    && n <= |lev|
    && (forall k | 0 <= k < n :: LevelOK(nodes, used, lev[k], k, caps))
    && forall k | 0 <= k < n - 1 :: Joined(nodes, lev[k + 1], lev[k])
  }

  lemma LevelOf(nodes: Nodes, used: seq<bool>, lev: seq<seq<nat>>, n: nat, k: nat, caps: Caps)
    requires TreeOK(nodes, used, lev, n, caps) && k < n
    ensures k < |lev| && LevelOK(nodes, used, lev[k], k, caps)
  {}

  // ----- Frames -----

  /** Nodes in use at other heights are as before. */
  ghost predicate SameAtOthers(nodes: Nodes, used: seq<bool>, nodes': Nodes, used': seq<bool>, height: nat) {
    && |nodes'| == |nodes| && |used'| == |used|
    && forall id | 0 <= id < |nodes| && id < |used| && used[id] && nodes[id].height != height ::
      nodes'[id] == nodes[id] && used'[id]
  }

  lemma LevelFrame(nodes: Nodes, used: seq<bool>, nodes': Nodes, used': seq<bool>, height: nat, level: seq<nat>, k: nat, caps: Caps)
    requires AllOK(nodes, used, level, k, caps) && SameAtOthers(nodes, used, nodes', used', height) && k + 1 != height
    ensures AllOK(nodes', used', level, k, caps)
    ensures Flat(nodes', level) == Flat(nodes, level) && Index(nodes', level) == Index(nodes, level)
    ensures Linked(nodes, level) ==> Linked(nodes', level)
  {
    forall j | 0 <= j < |level| ensures nodes'[level[j]] == nodes[level[j]] && NodeOK(nodes', used', level[j], k, caps) {
      assert NodeOK(nodes, used, level[j], k, caps);
    }
    FlatFrame(nodes, nodes', level);
    if Linked(nodes, level) {
      forall j: nat | j < |level| ensures LinksOK(nodes', level, j) {
        assert LinksOK(nodes, level, j);
      }
    }
  }

  /** The levels below the one that changes. */
  lemma BelowFrame(nodes: Nodes, used: seq<bool>, nodes': Nodes, used': seq<bool>, lev: seq<seq<nat>>, n: nat, caps: Caps)
    requires TreeOK(nodes, used, lev, n, caps) && SameAtOthers(nodes, used, nodes', used', n + 1)
    ensures TreeOK(nodes', used', lev, n, caps)
    ensures forall k | 0 <= k < n :: Flat(nodes', lev[k]) == Flat(nodes, lev[k]) && Index(nodes', lev[k]) == Index(nodes, lev[k])
  {
    forall k | 0 <= k < n
      ensures LevelOK(nodes', used', lev[k], k, caps)
      ensures Flat(nodes', lev[k]) == Flat(nodes, lev[k]) && Index(nodes', lev[k]) == Index(nodes, lev[k])
    {
      assert LevelOK(nodes, used, lev[k], k, caps);
      LevelFrame(nodes, used, nodes', used', n + 1, lev[k], k, caps);
    }
    forall k | 0 <= k < n - 1 ensures Joined(nodes', lev[k + 1], lev[k]) {
      assert Joined(nodes, lev[k + 1], lev[k]);
    }
  }

  // ----- What follows for keys -----

  /** The index of a sorted level is sorted. */
  lemma IndexSorted(nodes: Nodes, used: seq<bool>, level: seq<nat>, k: nat, caps: Caps)
    requires AllOK(nodes, used, level, k, caps) && Sorted(Flat(nodes, level))
    ensures Sorted(Index(nodes, level))
  {
    forall i, j | 0 <= i < j < |level| ensures Head(nodes, level[i]) < Head(nodes, level[j]) {
      assert NodeOK(nodes, used, level[i], k, caps) && NodeOK(nodes, used, level[j], k, caps);
      HeadBefore(nodes, level, i, j);
    }
  }

  lemma HeadBefore(nodes: Nodes, level: seq<nat>, i: nat, j: nat)
    requires i < j < |level| && Sorted(Flat(nodes, level))
    requires Recs(nodes, level[i]) != [] && Recs(nodes, level[j]) != []
    ensures Recs(nodes, level[i])[|Recs(nodes, level[i])| - 1].key < Head(nodes, level[j])
    ensures Head(nodes, level[i]) < Head(nodes, level[j])
  {
    hide Flat;
    FlatAround(nodes, level, j);
    FlatAround(nodes, level[..j], i);
    assert level[..j][i] == level[i];
    SortedParts(Flat(nodes, level[..j]), Recs(nodes, level[j]), Flat(nodes, level[j + 1..]));
    SortedParts(Flat(nodes, level[..j][..i]), Recs(nodes, level[i]), Flat(nodes, level[..j][i + 1..]));
    var a, r := Flat(nodes, level[..j][..i]), Recs(nodes, level[i]);
    assert Flat(nodes, level[..j])[|a| + |r| - 1] == r[|r| - 1];
    assert Flat(nodes, level[..j])[|a|] == r[0];
  }

  /** The first record of a level is the first of its first node. */
  lemma FlatHead(nodes: Nodes, level: seq<nat>)
    requires level != [] && Recs(nodes, level[0]) != []
    ensures Flat(nodes, level) != [] && Flat(nodes, level)[0] == Recs(nodes, level[0])[0]
  {
    FlatAround(nodes, level, 0);
    assert level[..0] == [];
  }

  /** The first key is the same at all levels. */
  lemma {:induction false} FirstKey(nodes: Nodes, used: seq<bool>, lev: seq<seq<nat>>, n: nat, caps: Caps, k: nat)
    requires TreeOK(nodes, used, lev, n, caps) && k < n && lev[k] != []
    ensures Flat(nodes, lev[k]) != [] && lev[0] != [] && Flat(nodes, lev[0]) != []
    ensures Flat(nodes, lev[k])[0].key == Flat(nodes, lev[0])[0].key
  {
    hide Flat;
    assert LevelOK(nodes, used, lev[k], k, caps) && NodeOK(nodes, used, lev[k][0], k, caps);
    FlatHead(nodes, lev[k]);
    if k > 0 {
      assert Joined(nodes, lev[k - 1 + 1], lev[k - 1]);
      FirstKey(nodes, used, lev, n, caps, k - 1);
      assert LevelOK(nodes, used, lev[k - 1], k - 1, caps) && NodeOK(nodes, used, lev[k - 1][0], k - 1, caps);
      FlatHead(nodes, lev[k - 1]);
    }
  }

  /** Index keys are keys of leaf records. */
  lemma {:induction false} IndexKeyIsKey(nodes: Nodes, used: seq<bool>, lev: seq<seq<nat>>, n: nat, caps: Caps, k: nat, i: nat)
    requires TreeOK(nodes, used, lev, n, caps) && k < n && i < |Flat(nodes, lev[k])|
    ensures Has(Flat(nodes, lev[0]), Flat(nodes, lev[k])[i].key)
  {
    hide Flat;
    if k > 0 {
      assert Joined(nodes, lev[k - 1 + 1], lev[k - 1]);
      var below := lev[k - 1];
      assert LevelOK(nodes, used, below, k - 1, caps) && NodeOK(nodes, used, below[i], k - 1, caps);
      FlatAround(nodes, below, i);
      var j := |Flat(nodes, below[..i])|;
      assert Flat(nodes, below)[j] == Recs(nodes, below[i])[0];
      IndexKeyIsKey(nodes, used, lev, n, caps, k - 1, j);
    }
  }

  /** Nodes in use above a height are as before. */
  ghost predicate SameAbove(nodes: Nodes, used: seq<bool>, nodes': Nodes, used': seq<bool>, height: nat) {
    && |nodes'| == |nodes| && |used'| == |used|
    && forall id | 0 <= id < |nodes| && id < |used| && used[id] && nodes[id].height > height ::
      nodes'[id] == nodes[id] && used'[id]
  }

  lemma AboveFrame(nodes: Nodes, used: seq<bool>, nodes': Nodes, used': seq<bool>, height: nat, level: seq<nat>, k: nat, caps: Caps)
    requires LevelOK(nodes, used, level, k, caps) && SameAbove(nodes, used, nodes', used', height) && k + 1 > height
    ensures LevelOK(nodes', used', level, k, caps)
    ensures Flat(nodes', level) == Flat(nodes, level) && Index(nodes', level) == Index(nodes, level)
    ensures forall j | 0 <= j < |level| :: Recs(nodes', level[j]) == Recs(nodes, level[j])
  {
    forall j: nat | j < |level|
      ensures nodes'[level[j]] == nodes[level[j]] && NodeOK(nodes', used', level[j], k, caps) && LinksOK(nodes', level, j)
    {
      assert NodeOK(nodes, used, level[j], k, caps) && LinksOK(nodes, level, j);
    }
    FlatFrame(nodes, nodes', level);
  }

  // ----- Routing -----

  /** The key belongs into node p of the level, or into the first node if it is smaller than all. */
  ghost predicate Routed(nodes: Nodes, level: seq<nat>, p: nat, key: int) {
    && p < |level|
    && (p == 0 || Head(nodes, level[p]) <= key)
    && (p + 1 < |level| ==> key < Head(nodes, level[p + 1]))
  }

  /** Where a key belongs in a level is where it belongs in the node to which it is routed. */
  lemma PlaceInLevel(nodes: Nodes, used: seq<bool>, level: seq<nat>, k: nat, caps: Caps, p: nat, key: int)
    requires AllOK(nodes, used, level, k, caps) && Sorted(Flat(nodes, level)) && Routed(nodes, level, p, key)
    ensures Place(Flat(nodes, level), key) == |Flat(nodes, level[..p])| + Place(Recs(nodes, level[p]), key)
    ensures Has(Flat(nodes, level), key) <==> Has(Recs(nodes, level[p]), key)
    ensures Sorted(Recs(nodes, level[p]))
  {
    hide Flat;
    var a, b, c := Flat(nodes, level[..p]), Recs(nodes, level[p]), Flat(nodes, level[p + 1..]);
    FlatAround(nodes, level, p);
    assert NodeOK(nodes, used, level[p], k, caps);
    if p == 0 {
      assert level[..p] == [];
      FlatAppend(nodes, [], []);
      FlatEmpty(nodes);
    }
    if p + 1 < |level| {
      assert NodeOK(nodes, used, level[p + 1], k, caps) && level[p + 1..][0] == level[p + 1];
      FlatHead(nodes, level[p + 1..]);
    } else {
      assert level[p + 1..] == [];
      FlatEmpty(nodes);
    }
    PlaceInParts(a, b, c, key);
  }

  lemma FlatEmpty(nodes: Nodes)
    ensures Flat(nodes, []) == []
  {}

  lemma PlaceInParts(a: seq<Rec>, b: seq<Rec>, c: seq<Rec>, key: int)
    requires Sorted(a + b + c) && b != []
    requires a == [] || b[0].key <= key
    requires c == [] || key < c[0].key
    ensures Place(a + b + c, key) == |a| + Place(b, key)
    ensures Has(a + b + c, key) <==> Has(b, key)
    ensures Sorted(b)
  {
    SortedParts(a, b, c);
    var s, i := a + b + c, Place(b, key);
    assert i > 0 ==> s[|a| + i - 1] == b[i - 1];
    assert i < |b| ==> s[|a| + i] == b[i];
    assert i == |b| && c != [] ==> s[|a| + i] == c[0];
    assert i == 0 && a != [] ==> s[|a| - 1] == a[|a| - 1];
    PlaceIs(s, key, |a| + i);
    HasAtPlace(s, key);
    HasAtPlace(b, key);
  }

  /** Record c of node p of an upper level is the entry of the lower level's node `child`. */
  ghost predicate IsChild(nodes: Nodes, upper: seq<nat>, lower: seq<nat>, p: nat, c: nat, child: nat) {
    && p < |upper| && c < |Recs(nodes, upper[p])| && child == |Flat(nodes, upper[..p])| + c && child < |lower|
    && Recs(nodes, upper[p])[c] == Rec(Head(nodes, lower[child]), lower[child])
  }

  lemma ChildOf(nodes: Nodes, upper: seq<nat>, lower: seq<nat>, p: nat, c: nat)
    requires Joined(nodes, upper, lower) && p < |upper| && c < |Recs(nodes, upper[p])|
    ensures IsChild(nodes, upper, lower, p, c, |Flat(nodes, upper[..p])| + c)
  {
    hide Flat;
    FlatAround(nodes, upper, p);
    var a, b, d := Flat(nodes, upper[..p]), Recs(nodes, upper[p]), Flat(nodes, upper[p + 1..]);
    assert (a + b + d)[|a| + c] == b[c];
    assert Index(nodes, lower)[|a| + c] == b[c];
  }

  /** A key routed to a node is routed to the child under the last index key that is not greater, or to the
      first child if there is none. */
  lemma RouteChild(nodes: Nodes, used: seq<bool>, upper: seq<nat>, lower: seq<nat>, k: nat, caps: Caps, p: nat, key: int, c: nat)
    requires AllOK(nodes, used, upper, k, caps) && Joined(nodes, upper, lower) && Routed(nodes, upper, p, key)
    requires Sorted(Flat(nodes, upper)) && c < |Recs(nodes, upper[p])|
    requires c == 0 || Recs(nodes, upper[p])[c].key <= key
    requires c + 1 < |Recs(nodes, upper[p])| ==> key < Recs(nodes, upper[p])[c + 1].key
    ensures IsChild(nodes, upper, lower, p, c, |Flat(nodes, upper[..p])| + c)
    ensures Routed(nodes, lower, |Flat(nodes, upper[..p])| + c, key)
  {
    hide Flat;
    ChildOf(nodes, upper, lower, p, c);
    assert NodeOK(nodes, used, upper[p], k, caps);
    var a, b := Flat(nodes, upper[..p]), Recs(nodes, upper[p]);
    var child := |a| + c;
    FlatAround(nodes, upper, p);
    if p == 0 {
      assert upper[..p] == [];
      FlatEmpty(nodes);
    }
    if p + 1 == |upper| {
      assert upper[p + 1..] == [];
      FlatEmpty(nodes);
    }
    if child + 1 < |lower| {
      if c + 1 < |b| {
        ChildOf(nodes, upper, lower, p, c + 1);
      } else if p + 1 < |upper| {
        assert NodeOK(nodes, used, upper[p + 1], k, caps);
        ChildOf(nodes, upper, lower, p + 1, 0);
        assert upper[..p + 1][..p] == upper[..p] && upper[..p + 1][p] == upper[p];
        FlatAround(nodes, upper[..p + 1], p);
        assert upper[..p + 1][p + 1..] == [];
        FlatEmpty(nodes);
      }
    }
  }
}
