/** An HFS+ B-tree with keys and records of fixed size: nodes, their allocation map, and the header record. */
module HfsBTree {
  import opened Bits
  import opened BlockBitmap
  import opened BTreeRecords
  import opened BTreeLevels
  import opened BTreeSteps
  import opened BTreeAdding
  import opened BTreeRemoving
  import opened BTreeSearching
  import opened BTreeSplitting
  import HfsPage
  import HfsVolume
  import opened Numbers
  import SlottedPage

  datatype TreeOp = Add(key: int, data: nat) | Remove(key: int)

  /** What a map holds after additions, of which one under a key that is there has no effect, and removals. */
  ghost function After(m: map<int, nat>, ops: seq<TreeOp>): map<int, nat> {
    if ops == [] then m
    else
      var m' := After(m, ops[..|ops| - 1]);
      match ops[|ops| - 1]
      case Add(key, data) => if key in m' then m' else m'[key := data]
      case Remove(key) => m' - {key}
  }

  ghost predicate InLevels(lev: seq<seq<nat>>, id: nat) {
    exists k :: 0 <= k < |lev| && id in lev[k]
  }

  /** No node is marked used but the header node and the nodes of the levels. */
  ghost predicate NoLeaks(used: seq<bool>, lev: seq<seq<nat>>) {
    forall id: nat | 0 < id < |used| && used[id] :: InLevels(lev, id)
  }

  lemma NoLeaksInsert(used: seq<bool>, lev: seq<seq<nat>>, k: nat, i: nat, id: nat)
    requires NoLeaks(used, lev) && k < |lev| && i <= |lev[k]| && id < |used|
    ensures NoLeaks(used[id := true], lev[k := InsertAt(lev[k], i, id)])
  {
    var level := InsertAt(lev[k], i, id);
    var lev' := lev[k := level];
    assert level[i] == id && lev'[k] == level;
    forall x: nat | 0 < x < |used| && used[id := true][x] ensures InLevels(lev', x) {
      if x != id {
        assert InLevels(lev, x);
        var h :| 0 <= h < |lev| && x in lev[h];
        if h == k {
          var j :| 0 <= j < |lev[k]| && lev[k][j] == x;
          assert level[if j < i then j else j + 1] == x;
        }
        assert x in lev'[h];
      }
    }
  }

  lemma NoLeaksLevel(used: seq<bool>, lev: seq<seq<nat>>, id: nat)
    requires NoLeaks(used, lev) && id < |used|
    ensures NoLeaks(used[id := true], lev + [[id]])
  {
    var lev' := lev + [[id]];
    assert id in lev'[|lev|];
    forall x: nat | 0 < x < |used| && used[id := true][x] ensures InLevels(lev', x) {
      if x != id {
        assert InLevels(lev, x);
        var h :| 0 <= h < |lev| && x in lev[h];
        assert x in lev'[h];
      }
    }
  }

  lemma NoLeaksRemove(used: seq<bool>, lev: seq<seq<nat>>, k: nat, i: nat)
    requires NoLeaks(used, lev) && k < |lev| && i < |lev[k]| && lev[k][i] < |used|
    ensures NoLeaks(used[lev[k][i] := false], lev[k := RemoveAt(lev[k], i)])
  {
    var level, id := RemoveAt(lev[k], i), lev[k][i];
    var lev' := lev[k := level];
    forall x: nat | 0 < x < |used| && used[id := false][x] ensures InLevels(lev', x) {
      assert InLevels(lev, x);
      var h :| 0 <= h < |lev| && x in lev[h];
      if h == k {
        var j :| 0 <= j < |lev[k]| && lev[k][j] == x;
        assert level[if j < i then j else j - 1] == x;
      }
      assert x in lev'[h];
    }
  }

  lemma AllSet(k: nat)
    requires k < 8
    ensures Bit(255, k)
  {
    ShiftBy8(1);
    BitOfComplement(0, 8, k);
    BitOfZero(k);
  }

  lemma FillsUp(n: nat, each: nat, room: nat)
    requires each > 0
    ensures room - n * each < each <==> n >= room / each
  {
    var cap := room / each;
    assert room == cap * each + room % each;
    if n >= cap {
      MulMonotone(cap, n, each);
    } else {
      MulMonotone(n + 1, cap, each);
      assert (n + 1) * each == n * each + each;
    }
  }

  lemma MostThatFit(n: nat, each: nat, room: nat)
    requires each > 0
    ensures n <= room / each <==> n * each <= room
  {
    if n > 0 {
      FillsUp(n - 1, each, room);
      MulNext(n - 1, each);
    }
  }

  lemma OneIsSorted(rec: Rec)
    ensures Sorted([rec])
  {}

  class BTree {
    const nodeSize: nat
    const keyLength: nat
    const dataLength: nat
    const totalNodes: nat
    var nodes: Nodes
    var mapRecord: seq<Byte>
    var rootNode: nat
    var treeDepth: nat
    var leafRecords: nat
    var firstLeafNode: nat
    var lastLeafNode: nat
    var freeNodes: nat
    ghost var lev: seq<seq<nat>>

    /** Opens a tree whose header record has been read; levels is the shape that its nodes have. */
    constructor (nodeSize: nat, keyLength: nat, dataLength: nat, nodes: Nodes, mapRecord: seq<Byte>, rootNode: nat,
                 treeDepth: nat, leafRecords: nat, firstLeafNode: nat, lastLeafNode: nat, freeNodes: nat, ghost levels: seq<seq<nat>>)
      ensures this.nodeSize == nodeSize && this.keyLength == keyLength && this.dataLength == dataLength
      ensures this.totalNodes == |nodes| && this.nodes == nodes && this.mapRecord == mapRecord && lev == levels
      ensures this.rootNode == rootNode && this.treeDepth == treeDepth && this.leafRecords == leafRecords
      ensures this.firstLeafNode == firstLeafNode && this.lastLeafNode == lastLeafNode && this.freeNodes == freeNodes
    {
      this.nodeSize, this.keyLength, this.dataLength, this.totalNodes := nodeSize, keyLength, dataLength, |nodes|;
      this.nodes, this.mapRecord, this.rootNode, this.treeDepth := nodes, mapRecord, rootNode, treeDepth;
      this.leafRecords, this.firstLeafNode, this.lastLeafNode := leafRecords, firstLeafNode, lastLeafNode;
      this.freeNodes, lev := freeNodes, levels;
    }

    // ----- Room in a node -----

    /** A record: the length of its key, the key, and the data or the number of a child. */
    function RecordSize(leaf: bool): nat {
      2 + keyLength + if leaf then dataLength else 4
    }

    /** The bytes between the records and the offsets of a node. */
    function FreeSpace(n: nat, leaf: bool): int {
      nodeSize - 2 * (n + 1) - (14 + n * RecordSize(leaf))
    }

    /** How many records fit. */
    ghost function Cap(leaf: bool): nat {
      if nodeSize < 16 then 0 else (nodeSize - 16) / (RecordSize(leaf) + 2)
    }

    ghost function Room(): Caps {
      Caps(Cap(true), Cap(false))
    }

    /** A node has no room for another record exactly when it holds as many as fit. */
    lemma FullAtCap(n: nat, leaf: bool)
      requires nodeSize >= 16
      ensures FreeSpace(n, leaf) < RecordSize(leaf) + 2 <==> n >= Cap(leaf)
    {
      var each := RecordSize(leaf) + 2;
      assert n * (RecordSize(leaf) + 2) == n * RecordSize(leaf) + 2 * n;
      FillsUp(n, each, nodeSize - 16);
    }

    /** A descriptor of fourteen bytes, n records, and n + 1 offsets of two bytes fit into a node. A record is the length of
        its key in two bytes, the key, and the data or the number of a child in four bytes. */
    ghost predicate Fit(n: nat, leaf: bool) {
      14 + n * (2 + keyLength + if leaf then dataLength else 4) + 2 * (n + 1) <= nodeSize
    }

    lemma CapFits(n: nat, leaf: bool)
      requires nodeSize >= 16
      ensures n <= Cap(leaf) <==> Fit(n, leaf)
    {
      var d := 2 + keyLength + if leaf then dataLength else 4;
      MostThatFit(n, d + 2, nodeSize - 16);
      assert n * (d + 2) == n * d + 2 * n;
    }

    /** The records of every node fit into it. */
    lemma RecordsFit(k: nat, i: nat)
      requires Valid() && k < |lev| && i < |lev[k]|
      ensures lev[k][i] < |nodes| && Fit(|nodes[lev[k][i]].recs|, k == 0)
    {
      hide Fit;
      LevelOf(nodes, Used(), lev, |lev|, k, Room());
      NodeNotEmpty(nodes, Used(), lev[k], k, Room(), i);
      CapFits(|nodes[lev[k][i]].recs|, k == 0);
    }

    /** A record as bytes: a key of the tree's length, and data of the tree's length or four bytes for a child. */
    predicate IsRecord(rec: seq<Byte>, leaf: bool) {
      HfsPage.HasKey(rec) && |HfsPage.KeyOf(rec)| == keyLength && |rec| == 2 + keyLength + if leaf then dataLength else 4
    }

    /** On a page of such records the free space is what the tree reckons with, and it has room for a record more exactly
        if another one fits. */
    lemma SpaceOnPage(p: seq<Byte>, n: nat, leaf: bool, key: seq<Byte>, content: seq<Byte>)
      requires |p| == nodeSize && SlottedPage.PageOK(p, n) && forall j | 0 <= j < n :: IsRecord(SlottedPage.Records(p, n)[j], leaf)
      requires |key| == keyLength < 0x1_0000 && |content| == if leaf then dataLength else 4
      ensures IsRecord(HfsPage.NewRecord(key, content), leaf) && |HfsPage.NewRecord(key, content)| == RecordSize(leaf)
      ensures SlottedPage.SlotAt(|p|, n) - SlottedPage.Off(p, n) == FreeSpace(n, leaf)
      ensures SlottedPage.Off(p, n) + |HfsPage.NewRecord(key, content)| <= SlottedPage.SlotAt(|p|, n + 1) <==> Fit(n + 1, leaf)
    {
      var d := 2 + keyLength + if leaf then dataLength else 4;
      HfsPage.FixedSizeSpace(p, n, d, n);
      assert (n + 1) * d == n * d + d;
    }

    // ----- The node map -----

    ghost predicate Sized()
      reads this`nodes, this`mapRecord
    {
      |nodes| == totalNodes && 0 < totalNodes <= 8 * |mapRecord|
    }

    ghost function Used(): (used: seq<bool>)
      requires Sized()
      reads this`nodes, this`mapRecord
      ensures |used| == totalNodes
    {
      HfsVolume.BitsOf(mapRecord, totalNodes)
    }

    /** The map and its free-node counter. */
    ghost predicate Store()
      reads this`nodes, this`mapRecord, this`freeNodes, this`lev
    {
      && Sized() && freeNodes == HfsVolume.CountFree(Used()) && Used()[0] && NoLeaks(Used(), lev)
      && Cap(true) >= 2 && Cap(false) >= 2
    }

    lemma UsedBit(b: nat)
      requires Sized() && b < totalNodes
      ensures Used()[b] == Bit(mapRecord[b / 8], 7 - b % 8)
    {}

    /** Marks the node of a clear bit as used. */
    method MarkNode(byteNumber: nat, i: nat)
      requires Sized() && i < 8 && byteNumber * 8 + i < totalNodes && !Used()[byteNumber * 8 + i]
      requires freeNodes == HfsVolume.CountFree(Used()) > 0
      modifies this`mapRecord, this`freeNodes
      ensures Sized() && Used() == old(Used())[byteNumber * 8 + i := true] && freeNodes == old(freeNodes) - 1
      ensures freeNodes == HfsVolume.CountFree(Used())
    {
      hide Bit, Or, Shl, HfsVolume.BitsOf, HfsVolume.CountFree;
      ghost var node := byteNumber * 8 + i;
      var byte := mapRecord[byteNumber];
      assert node / 8 == byteNumber && node % 8 == i;
      SetBit(byte, 7 - i);
      freeNodes := freeNodes - 1;
      mapRecord := mapRecord[byteNumber := Or(byte, Shl(1, 7 - i))];
      HfsVolume.BitsUpdate(old(mapRecord), totalNodes, node, mapRecord[byteNumber], true);
      HfsVolume.CountUpdate(old(Used()), node, true);
    }

    /** Takes the first free node. */
    method FindFree() returns (node: nat)
      requires Sized() && Used()[0] && freeNodes == HfsVolume.CountFree(Used()) > 0
      modifies this`mapRecord, this`freeNodes
      ensures Sized() && 0 < node < totalNodes && !old(Used())[node]
      ensures Used() == old(Used())[node := true] && freeNodes == old(freeNodes) - 1
      ensures freeNodes == HfsVolume.CountFree(Used())
    {
      hide Bit, And, Shl, HfsVolume.BitsOf, HfsVolume.CountFree;
      HfsVolume.FreeBlockExists(Used());
      ghost var free: nat :| free < totalNodes && !Used()[free];
      UsedBit(free);
      node := 0;
      var byteNumber: nat := 0;
      while byteNumber < |mapRecord|
        invariant 8 * byteNumber <= free && mapRecord == old(mapRecord) && freeNodes == old(freeNodes)
      {
        var byte := mapRecord[byteNumber];
        if byte != 255 {
          var i: nat := 0;
          while i < 8
            invariant i <= 8 && 8 * byteNumber + i <= free
            invariant mapRecord == old(mapRecord) && freeNodes == old(freeNodes)
          {
            var b := byteNumber * 8 + i;
            assert b / 8 == byteNumber && b % 8 == i;
            UsedBit(b);
            MaskTest(byte, 7 - i);
            if And(byte, Shl(1, 7 - i)) == 0 {
              MarkNode(byteNumber, i);
              return b;
            }
            i := i + 1;
          }
        } else {
          AllSet(7 - free % 8);
          assert free / 8 != byteNumber;
        }
        byteNumber := byteNumber + 1;
      }
    }

    // ----- Records and nodes -----

    /** Goes through the records up to the first that is not smaller than the key. */
    method Scan(recs: seq<Rec>, key: int) returns (i: nat, exact: bool)
      ensures i == Place(recs, key) && exact == (i < |recs| && recs[i].key == key)
    {
      i := 0;
      while i < |recs|
        invariant i <= |recs| && forall j | 0 <= j < i :: recs[j].key < key
      {
        if recs[i].key == key {
          return i, true;
        } else if recs[i].key > key {
          return i, false;
        }
        i := i + 1;
      }
      exact := false;
    }

    /** Adds a record to a node at the place of its key; if the key is there, does nothing. */
    method DoAddRecord(node: nat, rec: Rec) returns (ok: bool)
      requires node < |nodes| && Sorted(nodes[node].recs)
      modifies this`nodes, this`leafRecords
      ensures ok <==> !Has(old(nodes)[node].recs, rec.key)
      ensures nodes == if ok then WithRecs(old(nodes), node, Added(old(nodes)[node].recs, rec)) else old(nodes)
      ensures leafRecords == old(leafRecords) + if ok && old(nodes)[node].height == 1 then 1 else 0
    {
      var d := nodes[node];
      var i, exact := Scan(d.recs, rec.key);
      HasAtPlace(d.recs, rec.key);
      if exact {
        return false;
      }
      if i != |d.recs| {
        nodes := nodes[node := d.(recs := d.recs[..i] + [rec] + d.recs[i..])];
      } else {
        nodes := nodes[node := d.(recs := d.recs + [rec])];
        assert d.recs + [rec] == InsertAt(d.recs, i, rec);
      }
      if d.height == 1 {
        leafRecords := leafRecords + 1;
      }
      ok := true;
    }

    /** Moves the upper half of a node's records to a new node behind it. */
    method SplitNode(node: nat) returns (newNode: nat)
      requires Store() && freeNodes > 0 && 0 < node < |nodes| && Used()[node]
      requires var link := nodes[node].fLink; link == 0 || (link < |nodes| && Used()[link] && link != node)
      modifies this`nodes, this`mapRecord, this`freeNodes, this`lastLeafNode
      ensures Sized() && 0 < newNode < totalNodes && !old(Used())[newNode]
      ensures Used() == old(Used())[newNode := true] && freeNodes == old(freeNodes) - 1
      ensures freeNodes == HfsVolume.CountFree(Used())
      ensures IsSplit(old(nodes), nodes, node, newNode)
      ensures lastLeafNode == if old(nodes)[node].leaf && node == old(lastLeafNode) then newNode else old(lastLeafNode)
    {
      hide HfsVolume.BitsOf, HfsVolume.CountFree;
      var d := nodes[node];
      var half := |d.recs| / 2;
      newNode := FindFree();
      var link := d.fLink;
      nodes := nodes[newNode := Node(link, node, d.leaf, d.height, d.recs[half..])];
      if link != 0 {
        nodes := nodes[link := nodes[link].(bLink := newNode)];
      }
      nodes := nodes[node := d.(fLink := newNode, recs := d.recs[..half])];
      if d.leaf && node == lastLeafNode {
        lastLeafNode := newNode;
      }
    }

    /** Gives a node back to the map. */
    method UnmarkNode(node: nat)
      requires Sized() && node < totalNodes && Used()[node] && freeNodes == HfsVolume.CountFree(Used())
      modifies this`mapRecord, this`freeNodes
      ensures Sized() && Used() == old(Used())[node := false] && freeNodes == HfsVolume.CountFree(Used())
      ensures freeNodes == old(freeNodes) + 1
    {
      hide Bit, And, Shl, HfsVolume.BitsOf, HfsVolume.CountFree;
      var byte, k := mapRecord[node / 8], 7 - node % 8;
      ClearBit(byte, k);
      freeNodes := freeNodes + 1;
      mapRecord := mapRecord[node / 8 := And(byte, 255 - Shl(1, k))];
      ghost var byte' := mapRecord[node / 8];
      assert old(mapRecord)[node / 8] == byte;
      assert forall j | 0 <= j < 8 :: Bit(byte', j) == if j == k then false else Bit(byte, j);
      HfsVolume.BitsUpdate(old(mapRecord), totalNodes, node, byte', false);
      HfsVolume.CountUpdate(old(Used()), node, false);
    }

    /** Unlinks a node and gives it back to the map. */
    method RemoveNode(node: nat)
      requires Sized() && freeNodes == HfsVolume.CountFree(Used()) && 0 < node < totalNodes && Used()[node]
      requires nodes[node].fLink < |nodes| && nodes[node].bLink < |nodes| && node !in {nodes[node].fLink, nodes[node].bLink}
      requires nodes[node].fLink == nodes[node].bLink ==> nodes[node].fLink == 0
      modifies this`nodes, this`mapRecord, this`freeNodes, this`firstLeafNode, this`lastLeafNode, this`rootNode
      ensures Sized() && Used() == old(Used())[node := false] && freeNodes == HfsVolume.CountFree(Used())
      ensures freeNodes == old(freeNodes) + 1
      ensures IsUnlinked(old(nodes), nodes, node)
      ensures firstLeafNode == if old(firstLeafNode) == node then old(nodes)[node].fLink else old(firstLeafNode)
      ensures lastLeafNode == if old(lastLeafNode) == node then old(nodes)[node].bLink else old(lastLeafNode)
      ensures rootNode == if old(rootNode) == node then 0 else old(rootNode)
    {
      hide IsUnlinked, HfsVolume.BitsOf, HfsVolume.CountFree;
      UnmarkNode(node);
      var d := nodes[node];
      if firstLeafNode == node {
        firstLeafNode := d.fLink;
      }
      if lastLeafNode == node {
        lastLeafNode := d.bLink;
      }
      if node == rootNode {
        rootNode := 0;
      }
      if d.bLink != 0 {
        nodes := nodes[d.bLink := nodes[d.bLink].(fLink := d.fLink)];
      }
      if d.fLink != 0 {
        nodes := nodes[d.fLink := nodes[d.fLink].(bLink := d.bLink)];
      }
      UnlinkedSo(old(nodes), nodes, node);
    }

    // ----- Adding -----

    /** The header record knows the ends of the leaf level and the number of its records. */
    ghost predicate LeafHeader()
      reads this`nodes, this`lev, this`firstLeafNode, this`lastLeafNode, this`leafRecords
    {
      && lev != [] && leafRecords == |Flat(nodes, lev[0])|
      && firstLeafNode == (if lev[0] == [] then 0 else lev[0][0])
      && lastLeafNode == (if lev[0] == [] then 0 else lev[0][|lev[0]| - 1])
    }

    /** Level h is in order. */
    ghost predicate Level(h: nat)
      requires Sized()
      reads this`nodes, this`mapRecord, this`lev
    {
      h < |lev| && LevelOK(nodes, Used(), lev[h], h, Room())
    }

    /** Adds the record to node p of level h where there is room, or else splits the node and adds it to the
        half where it belongs; i is the place of the search key. */
    method AddHere(node: nat, i: nat, full: bool, rec: Rec, ghost h: nat, ghost p: nat) returns (newNode: nat)
      requires Store() && Level(h) && p < |lev[h]| && node == lev[h][p] && node < |nodes|
      requires h == 0 ==> LeafHeader()
      requires full <==> |nodes[node].recs| >= Cap(nodes[node].leaf)
      requires full ==> freeNodes > 0
      requires !Has(nodes[node].recs, rec.key)
      requires var at := Place(nodes[node].recs, rec.key); i == at || (i == 0 && at == 1)
      requires Sorted(Flat(nodes, lev[h][..p]) + Added(nodes[node].recs, rec) + Flat(nodes, lev[h][p + 1..]))
      modifies this`nodes, this`mapRecord, this`freeNodes, this`lastLeafNode, this`leafRecords, this`lev
      ensures Store() && Level(h) && (h == 0 ==> LeafHeader())
      ensures |lev| == |old(lev)| && forall k | 0 <= k < |lev| && k != h :: lev[k] == old(lev)[k]
      ensures Grown(old(nodes), old(lev)[h], nodes, lev[h], p, newNode, rec)
      ensures SameAtOthers(old(nodes), old(Used()), nodes, Used(), h + 1)
      ensures h > 0 ==> leafRecords == old(leafRecords) && lastLeafNode == old(lastLeafNode)
      ensures freeNodes == old(freeNodes) - (if full then 1 else 0) && (newNode != 0 <==> full)
      ensures Halved(old(nodes)[node].recs, nodes, node, newNode, i, rec)
    {
      hide HfsVolume.BitsOf, HfsVolume.CountFree, Added, Has, Place, Flat, Sorted, LevelOK, IsSplit, Grown, SameAtOthers;
      hide WithRecs, InsertAt, NoLeaks, Halved;
      ghost var level, used, nodes0, caps := lev[h], Used(), nodes, Room();
      NodeNotEmpty(nodes, used, level, h, caps, p);
      SortedNode(nodes, used, level, h, caps, p);
      newNode := 0;
      if full {
        LinksInUse(nodes, used, level, h, caps, p);
        var half := |nodes[node].recs| / 2;
        newNode := SplitNode(node);
        SplitKind(nodes0, nodes, node, newNode);
        ghost var nodes1 := nodes;
        SplitRecs(nodes0, nodes1, node, newNode);
        if i < half {
          GrowLow(nodes0, nodes, used, level, h, caps, p, newNode, rec);
          var ok := DoAddRecord(node, rec);
          HalvedLow(nodes0, nodes1, nodes, node, newNode, i, rec);
        } else {
          GrowHigh(nodes0, nodes, used, level, h, caps, p, newNode, rec);
          var ok := DoAddRecord(newNode, rec);
          HalvedHigh(nodes0, nodes1, nodes, node, newNode, i, rec);
        }
        NoLeaksInsert(used, lev, h, p + 1, newNode);
        lev := lev[h := InsertAt(level, p + 1, newNode)];
      } else {
        GrowPut(nodes, used, level, h, caps, p, rec);
        var ok := DoAddRecord(node, rec);
        NotHalved(nodes0, nodes, node, i, rec);
      }
      GrownEnds(nodes0, level, nodes, lev[h], p, newNode, rec);
    }

    /** The h lowest levels are in order. */
    ghost predicate Levels(h: nat)
      requires Sized()
      reads this`nodes, this`mapRecord, this`lev
    {
      TreeOK(nodes, Used(), lev, h, Room())
    }

    /** Adds a record under a node. Returns the new node if the node was split, or 0. */
    method AddRecord(node: nat, key: int, data: nat, ghost h: nat, ghost p: nat) returns (newNode: nat)
      requires Store() && Levels(h + 1) && LeafHeader() && freeNodes > h
      requires p < |lev[h]| && node == lev[h][p] && Routed(nodes, lev[h], p, key)
      modifies this`nodes, this`mapRecord, this`freeNodes, this`lastLeafNode, this`leafRecords, this`lev
      ensures Store() && Levels(h + 1) && LeafHeader() && freeNodes >= old(freeNodes) - (h + 1)
      ensures Inserted(old(nodes), old(Used()), old(lev), nodes, Used(), lev, h, p, newNode, Rec(key, data))
      ensures HasSplit(old(nodes), old(lev), h + 1, key, Room(), newNode, old(freeNodes) - freeNodes)
      decreases h, 2
    {
      hide Flat, Sorted, LevelOK, Grown, Inserted, SameAtOthers, NoLeaks, HfsVolume.BitsOf, HfsVolume.CountFree, Has, Place, Added;
      hide HasSplit, Routed;
      ghost var nodes0, used0, lev0, caps := nodes, Used(), lev, Room();
      NodeNotEmpty(nodes, used0, lev[h], h, caps, p);
      SortedNode(nodes, used0, lev[h], h, caps, p);
      var d := nodes[node];
      var i, exact := Scan(d.recs, key);
      HasAtPlace(d.recs, key);
      if exact {
        AlreadyThere(nodes, used0, lev, h, caps, p, Rec(key, data));
        NotSplit(nodes, lev, h, key, caps);
        return 0;
      }
      FullAtCap(|d.recs|, d.leaf);
      var full := FreeSpace(|d.recs|, d.leaf) < RecordSize(d.leaf) + 2;
      if d.leaf {
        AddedInLevel(nodes, used0, lev[h], h, caps, p, Rec(key, data));
        newNode := AddHere(node, i, full, Rec(key, data), h, p);
        InsertedInLeaf(nodes0, used0, lev0, nodes, Used(), lev, caps, p, newNode, Rec(key, data));
        SplitLeaf(nodes0, used0, lev0, caps, p, key, newNode, old(freeNodes) - freeNodes);
      } else {
        newNode := AddToChild(node, i, full, key, data, h, p);
      }
    }

    /** Adds a record under the right child of an index node; a key smaller than all others becomes the first
        key of the node. */
    method AddUnderChild(node: nat, i: nat, key: int, data: nat, ghost h: nat, ghost p: nat) returns (newNode: nat, ghost c: nat)
      requires Store() && Levels(h + 1) && LeafHeader() && freeNodes > h > 0
      requires p < |lev[h]| && node == lev[h][p] && Routed(nodes, lev[h], p, key) && node < |nodes|
      requires i == Place(nodes[node].recs, key) && !Has(nodes[node].recs, key)
      modifies this`nodes, this`mapRecord, this`freeNodes, this`lastLeafNode, this`leafRecords, this`lev
      ensures Store() && LeafHeader() && freeNodes >= old(freeNodes) - h
      ensures Halfway(old(nodes), old(Used()), old(lev), nodes, Used(), lev, h, Room(), p, c, newNode, Rec(key, data))
      ensures |Recs(nodes, node)| == |old(nodes)[node].recs| && c == if i == 0 then 0 else i - 1
      ensures HasSplit(old(nodes), old(lev), h, key, Room(), newNode, old(freeNodes) - freeNodes)
      decreases h, 0
    {
      hide Flat, Sorted, LevelOK, TreeOK, Inserted, Halfway, SameAtOthers, NoLeaks, Has, Place, Index;
      hide Routed, Awaits, HasSplit, HfsVolume.BitsOf, HfsVolume.CountFree;
      ghost var nodes0, used0, lev0, caps := nodes, Used(), lev, Room();
      LevelOf(nodes, used0, lev, h + 1, h, caps);
      NodeNotEmpty(nodes, used0, lev[h], h, caps, p);
      var d := nodes[node];
      var child := d.recs[0].data;
      c := 0;
      if i == 0 {
        ChosenFirst(nodes, used0, lev, h, caps, p, key);
        nodes := nodes[node := d.(recs := d.recs[0 := Rec(key, child)])];
      } else {
        c := i - 1;
        ChosenLater(nodes, used0, lev, h, caps, p, key, i);
        child := d.recs[i - 1].data;
      }
      ghost var nodes1 := nodes;
      newNode := AddRecord(child, key, data, h - 1, |Flat(nodes, lev[h][..p])| + c);
      SplitUnder(nodes0, used0, nodes1, lev0, h, caps, p, c, child, key, newNode, old(freeNodes) - freeNodes);
      HalfwayThere(nodes0, used0, lev0, nodes1, nodes, Used(), lev, h, caps, p, c, child, newNode, Rec(key, data));
    }

    /** Adds a record under the right child of an index node, and an entry for a new child. */
    method AddToChild(node: nat, i: nat, full: bool, key: int, data: nat, ghost h: nat, ghost p: nat) returns (newNode: nat)
      requires Store() && Levels(h + 1) && LeafHeader() && freeNodes > h > 0
      requires p < |lev[h]| && node == lev[h][p] && Routed(nodes, lev[h], p, key) && node < |nodes|
      requires i == Place(nodes[node].recs, key) && !Has(nodes[node].recs, key)
      requires full <==> |nodes[node].recs| >= Cap(nodes[node].leaf)
      modifies this`nodes, this`mapRecord, this`freeNodes, this`lastLeafNode, this`leafRecords, this`lev
      ensures Store() && Levels(h + 1) && LeafHeader() && freeNodes >= old(freeNodes) - (h + 1)
      ensures Inserted(old(nodes), old(Used()), old(lev), nodes, Used(), lev, h, p, newNode, Rec(key, data))
      ensures HasSplit(old(nodes), old(lev), h + 1, key, Room(), newNode, old(freeNodes) - freeNodes)
      decreases h, 1
    {
      hide Flat, Sorted, LevelOK, TreeOK, Inserted, Halfway, SameAtOthers, NoLeaks, Has, Added, InsertAt, Index;
      hide Place, Grown, Routed, HasSplit, HfsVolume.BitsOf, HfsVolume.CountFree;
      ghost var nodes0, used0, lev0, caps, c := nodes, Used(), lev, Room(), 0;
      LevelOf(nodes, used0, lev, h + 1, h, caps);
      NodeNotEmpty(nodes, used0, lev[h], h, caps, p);
      newNode, c := AddUnderChild(node, i, key, data, h, p);
      ghost var nodes1, used1, lev1, child := nodes, Used(), lev, newNode;
      if newNode == 0 {
        NoEntry(nodes0, used0, lev0, nodes, used1, lev, h, caps, p, c, Rec(key, data));
        SplitBelow(nodes0, lev0, h, key, caps, old(freeNodes) - freeNodes);
      } else {
        EntryFits(nodes0, used0, lev0, nodes, used1, lev, h, caps, p, c, newNode, Rec(key, data));
        ghost var free1 := freeNodes;
        newNode := AddHere(node, i, full, Rec(nodes[newNode].recs[0].key, newNode), h, p);
        SplitNext(nodes0, used0, lev0, h, caps, p, key, child, old(freeNodes) - free1, newNode, free1 - freeNodes);
        EntryAdded(nodes0, used0, lev0, nodes1, used1, lev1, nodes, Used(), lev, h, caps, p, c, child, newNode, Rec(key, data));
      }
    }

    // ----- The tree -----

    /** The tree is in order: levels of nodes up to a single root, each the index of the one below, and a header
        record that agrees with them. */
    ghost predicate Valid()
      reads this
    {
      && Store()
      && if rootNode == 0 then lev == [] && leafRecords == 0 && firstLeafNode == 0 && lastLeafNode == 0
         else
           && lev != [] && Levels(|lev|) && lev[|lev| - 1] == [rootNode] && treeDepth == |lev| && LeafHeader()
    }

    /** The records of the leaves, in order. */
    ghost function Leaves(): seq<Rec>
      reads this`nodes, this`lev
    {
      if lev == [] then [] else Flat(nodes, lev[0])
    }

    /** What the tree holds. */
    ghost function Entries(): map<int, nat>
      reads this`nodes, this`lev
    {
      Table(Leaves())
    }

    lemma LeavesSorted()
      requires Valid()
      ensures Sorted(Leaves())
    {
      if lev != [] {
        assert LevelOK(nodes, Used(), lev[0], 0, Room());
      }
    }

    /** Puts a new root over the old one and the new node beside it. */
    method IncreaseHeight(newNode: nat)
      requires Store() && freeNodes > 0 && lev != [] && Levels(|lev|) && LeafHeader() && treeDepth == |lev|
      requires lev[|lev| - 1] == [rootNode, newNode] && newNode != 0
      modifies this`nodes, this`mapRecord, this`freeNodes, this`rootNode, this`treeDepth, this`lev
      ensures Valid() && rootNode != 0 && Leaves() == old(Leaves()) && freeNodes == old(freeNodes) - 1
      ensures |lev| == |old(lev)| + 1
    {
      hide Flat, Sorted, LevelOK, TreeOK, NoLeaks, HfsVolume.BitsOf, HfsVolume.CountFree;
      ghost var used, n := Used(), |lev|;
      var oldRoot := rootNode;
      LevelOf(nodes, used, lev, n, n - 1, Room());
      NodeNotEmpty(nodes, used, lev[n - 1], n - 1, Room(), 0);
      NodeNotEmpty(nodes, used, lev[n - 1], n - 1, Room(), 1);
      var oldRootKey, newNodeKey := nodes[oldRoot].recs[0].key, nodes[newNode].recs[0].key;
      var newRoot := FindFree();
      NewRoot(nodes, used, lev, Room(), oldRoot, newNode, newRoot);
      NoLeaksLevel(used, lev, newRoot);
      rootNode := newRoot;
      treeDepth := treeDepth + 1;
      nodes := nodes[newRoot := Node(0, 0, false, treeDepth, [Rec(oldRootKey, oldRoot), Rec(newNodeKey, newNode)])];
      lev := lev + [[newRoot]];
    }

    /** Makes a first leaf, which is the root. */
    method AddFirstLeaf(key: int, data: nat)
      requires Valid() && rootNode == 0 && freeNodes > 0
      modifies this
      ensures Valid() && rootNode != 0 && freeNodes == old(freeNodes) - 1 && |lev| == 1
      ensures Leaves() == Added(old(Leaves()), Rec(key, data))
    {
      hide Flat, Sorted, NoLeaks, HfsVolume.BitsOf, HfsVolume.CountFree;
      ghost var used := Used();
      rootNode := FindFree();
      firstLeafNode := rootNode;
      lastLeafNode := rootNode;
      leafRecords := 1;
      treeDepth := 1;
      nodes := nodes[rootNode := Node(0, 0, true, 1, [Rec(key, data)])];
      NoLeaksLevel(used, lev, rootNode);
      assert lev + [[rootNode]] == [[rootNode]];
      lev := [[rootNode]];
      FlatOfOne(nodes, rootNode);
      OneIsSorted(Rec(key, data));
      TopLevel(nodes, Used(), rootNode, 0, Room(), [Rec(key, data)]);
    }

    /** The root takes any key. */
    lemma RouteRoot(key: int)
      requires Valid() && rootNode != 0
      ensures Sized() && lev != [] && Levels(|lev|) && lev[|lev| - 1] == [rootNode] && Routed(nodes, lev[|lev| - 1], 0, key)
      ensures Store() && treeDepth == |lev| && LeafHeader() && Leaves() == Flat(nodes, lev[0])
    {}

    /** A record has been added under the root, which may have been split. */
    lemma RootGrown(nodes0: Nodes, used0: seq<bool>, lev0: seq<seq<nat>>, newNode: nat, rec: Rec)
      requires Store() && lev0 != [] && Inserted(nodes0, used0, lev0, nodes, Used(), lev, |lev0| - 1, 0, newNode, rec)
      requires lev0[|lev0| - 1] == [rootNode] && rootNode != 0 && treeDepth == |lev0| && Levels(|lev0|) && LeafHeader()
      ensures |lev| == |lev0| && lev[|lev| - 1] == if newNode == 0 then [rootNode] else [rootNode, newNode]
      ensures newNode == 0 ==> Valid()
      ensures Leaves() == Added(Flat(nodes0, lev0[0]), rec)
    {
      hide Flat, Added, LevelOK, SameAbove;
    }

    /** Adds a record to a tree that has a root. */
    method AddUnderRoot(key: int, data: nat)
      requires Valid() && rootNode != 0 && freeNodes > |lev|
      modifies this
      ensures Valid() && rootNode != 0
      ensures Leaves() == Added(old(Leaves()), Rec(key, data))
      ensures |lev| == |old(lev)| + Grows(old(nodes), old(lev), key, Room())
      ensures freeNodes == old(freeNodes) - NewNodes(old(nodes), old(lev), key, Room())
    {
      hide Flat, Sorted, LevelOK, TreeOK, Inserted, Routed, NoLeaks, Added, BTree.Store, BTree.Valid, BTree.LeafHeader;
      hide BTree.Levels;
      RouteRoot(key);
      ghost var nodes0, used0, lev0 := nodes, Used(), lev;
      var newNode := AddRecord(rootNode, key, data, |lev| - 1, 0);
      RootGrown(nodes0, used0, lev0, newNode, Rec(key, data));
      if newNode != 0 {
        IncreaseHeight(newNode);
      }
    }

    /** Adds a record; a key that is there already stays as it is. */
    method AddToBTree(key: int, data: nat)
      requires Valid() && freeNodes > |lev|
      modifies this
      ensures Valid() && rootNode != 0
      ensures Leaves() == Added(old(Leaves()), Rec(key, data))
      ensures Entries() == if key in old(Entries()) then old(Entries()) else old(Entries())[key := data]
      ensures |lev| == |old(lev)| + Grows(old(nodes), old(lev), key, Room())
      ensures freeNodes == old(freeNodes) - NewNodes(old(nodes), old(lev), key, Room()) >= old(freeNodes) - (|old(lev)| + 1)
    {
      LeavesSorted();
      TableAdded(Leaves(), Rec(key, data));
      NewNodesBound(nodes, lev, key, Room());
      hide Table, Added, BTree.Valid, BTree.Leaves, Grows, NewNodes;
      if rootNode != 0 {
        AddUnderRoot(key, data);
      } else {
        AddFirstLeaf(key, data);
      }
    }

    // ----- Searching -----

    /** Searches the key under a node. */
    method SearchNode(root: nat, key: int, ghost h: nat, ghost p: nat) returns (r: SearchResult)
      requires Sized() && Levels(h + 1) && p < |lev[h]| && root == lev[h][p] && Routed(nodes, lev[h], p, key)
      ensures IsResult(nodes, lev[0], key, r)
      decreases h
    {
      hide Flat, Sorted, LevelOK, TreeOK, Routed, IsResult, HfsVolume.BitsOf;
      ghost var caps := Room();
      LevelOf(nodes, Used(), lev, h + 1, h, caps);
      NodeNotEmpty(nodes, Used(), lev[h], h, caps, p);
      var d := nodes[root];
      var i, exact := Scan(d.recs, key);
      if d.leaf {
        FoundInLeaf(nodes, Used(), lev, caps, p, key);
        if exact {
          return Found(d.recs[i].data, true, root, i);
        }
      } else if exact {
        NextNode(nodes, Used(), lev, h, caps, p, key, i);
        r := SearchNode(d.recs[i].data, key, h - 1, |Flat(nodes, lev[h][..p])| + i);
        return;
      }
      if i == 0 {
        SortedNode(nodes, Used(), lev[h], h, caps, p);
        HasAtPlace(d.recs, key);
        AllGreater(nodes, Used(), lev, h, caps, p, key);
        return Panic;
      }
      if d.leaf {
        return Found(d.recs[i - 1].data, false, root, i);
      }
      NextNode(nodes, Used(), lev, h, caps, p, key, i - 1);
      r := SearchNode(d.recs[i - 1].data, key, h - 1, |Flat(nodes, lev[h][..p])| + (i - 1));
    }

    /** Finds the record of a key, or else the last one before it. */
    method Search(key: int) returns (r: SearchResult)
      requires Valid() && rootNode != 0
      ensures IsResult(nodes, lev[0], key, r)
      ensures r.Found? && r.exact <==> key in Entries()
      ensures r.Found? && r.exact ==> r.data == Entries()[key]
      ensures r.Panic? <==> forall k | k in Entries() :: key < k
    {
      r := SearchNode(rootNode, key, |lev| - 1, 0);
      LeavesSorted();
      ResultInTable(nodes, lev[0], key, r);
    }

    // ----- Removing -----

    /** Takes record c out of node p of level h; a node left without records is removed. */
    method DeleteHere(node: nat, c: nat, ghost h: nat, ghost p: nat) returns (gone: bool)
      requires Store() && Level(h) && p < |lev[h]| && node == lev[h][p] && node < |nodes| && c < |nodes[node].recs|
      requires if h == 0 then LeafHeader() else node !in {firstLeafNode, lastLeafNode}
      modifies this`nodes, this`mapRecord, this`freeNodes, this`firstLeafNode, this`lastLeafNode, this`rootNode
      modifies this`leafRecords, this`lev
      ensures Store() && Level(h) && freeNodes >= old(freeNodes)
      ensures if h == 0 then LeafHeader() else unchanged(this`firstLeafNode, this`lastLeafNode, this`leafRecords)
      ensures |lev| == |old(lev)| && forall k | 0 <= k < |lev| && k != h :: lev[k] == old(lev)[k]
      ensures Shrunk(old(nodes), old(lev)[h], nodes, lev[h], p, c, gone)
      ensures SameAtOthers(old(nodes), old(Used()), nodes, Used(), h + 1)
      ensures rootNode == if gone && node == old(rootNode) then 0 else old(rootNode)
    {
      hide HfsVolume.BitsOf, HfsVolume.CountFree, Flat, Sorted, LevelOK, IsUnlinked, Shrunk, SameAtOthers, NoLeaks;
      ghost var level, used, nodes0, caps := lev[h], Used(), nodes, Room();
      NodeNotEmpty(nodes, used, level, h, caps, p);
      LinksInUse(nodes, used, level, h, caps, p);
      TakenFromLevel(nodes, used, level, h, caps, p, c);
      var d := nodes[node];
      var recs := d.recs[..c] + d.recs[c + 1..];
      nodes := nodes[node := d.(recs := recs)];
      if d.leaf {
        leafRecords := leafRecords - 1;
      }
      gone := |recs| == 0;
      if gone {
        RemoveNode(node);
        ShrinkDrop(nodes0, nodes, used, level, h, caps, p);
        NoLeaksRemove(used, lev, h, p);
        lev := lev[h := RemoveAt(level, p)];
      } else {
        ShrinkPut(nodes0, used, level, h, caps, p, c);
      }
      ShrunkEnds(nodes0, level, nodes, lev[h], p, c, gone);
    }

    /** The root is the node, or above it. */
    ghost predicate RootAt(node: nat, h: nat)
      reads this`nodes, this`rootNode
    {
      rootNode < |nodes| && (rootNode == node || nodes[rootNode].height > h + 1)
    }

    /** Removes a key under a node. */
    method RemoveRecord(node: nat, key: int, ghost h: nat, ghost p: nat) returns (r: Removal)
      requires Store() && Levels(h + 1) && LeafHeader() && RootAt(node, h)
      requires p < |lev[h]| && node == lev[h][p] && Routed(nodes, lev[h], p, key)
      modifies this`nodes, this`mapRecord, this`freeNodes, this`firstLeafNode, this`lastLeafNode, this`rootNode
      modifies this`leafRecords, this`lev
      ensures r.Astray? <==> PastLeafEnd(old(nodes), old(lev)[0], key)
      ensures r.Astray? ==> unchanged(this)
      ensures !r.Astray? ==> Store() && Levels(h + 1) && LeafHeader() && freeNodes >= old(freeNodes)
      ensures !r.Astray? ==> Removed(old(nodes), old(Used()), old(lev), nodes, Used(), lev, h, p, r.Gone?, key)
      ensures rootNode == if r.Gone? && node == old(rootNode) then 0 else old(rootNode)
      decreases h, 1
    {
      hide HfsVolume.BitsOf, HfsVolume.CountFree, Flat, Sorted, LevelOK, Shrunk, SameAtOthers, NoLeaks, Removed, PastLeafEnd;
      hide Has, Place;
      ghost var nodes0, used0, lev0, caps := nodes, Used(), lev, Room();
      LevelOf(nodes, used0, lev, h + 1, h, caps);
      NodeNotEmpty(nodes, used0, lev[h], h, caps, p);
      SortedNode(nodes, used0, lev[h], h, caps, p);
      var d := nodes[node];
      var i, exact := Scan(d.recs, key);
      HasAtPlace(d.recs, key);
      if d.leaf {
        PastEndInLeaf(nodes, used0, lev, caps, p, key);
        if !exact && i < |d.recs| {
          KeyInLevel(nodes, used0, lev[0], 0, caps, p, key);
          NotThere(nodes, used0, lev, 0, caps, p, key);
          return Stays;
        }
        if !exact {
          // the source goes on with the data of the last record as if it were the number of a child
          return Astray;
        }
        var gone := DeleteHere(node, i, h, p);
        RemovedFromLeaf(nodes0, used0, lev0, nodes, Used(), lev, caps, p, gone, key);
        return if gone then Gone else Stays;
      }
      if !exact && i == 0 {
        SmallestNotPast(nodes, used0, lev, h, caps, p, key);
        NotThere(nodes, used0, lev, h, caps, p, key);
        return Stays;
      }
      r := RemoveUnderChild(node, i, exact, key, h, p);
    }

    /** Removes a key under the right child of an index node, and looks after the child's entry. */
    method RemoveUnderChild(node: nat, i: nat, exact: bool, key: int, ghost h: nat, ghost p: nat) returns (r: Removal)
      requires Store() && Levels(h + 1) && LeafHeader() && RootAt(node, h) && h > 0
      requires p < |lev[h]| && node == lev[h][p] && Routed(nodes, lev[h], p, key) && node < |nodes|
      requires i == Place(nodes[node].recs, key) && exact == (i < |nodes[node].recs| && nodes[node].recs[i].key == key)
      requires exact || i > 0
      modifies this`nodes, this`mapRecord, this`freeNodes, this`firstLeafNode, this`lastLeafNode, this`rootNode
      modifies this`leafRecords, this`lev
      ensures r.Astray? <==> PastLeafEnd(old(nodes), old(lev)[0], key)
      ensures r.Astray? ==> unchanged(this)
      ensures !r.Astray? ==> Store() && Levels(h + 1) && LeafHeader() && freeNodes >= old(freeNodes)
      ensures !r.Astray? ==> Removed(old(nodes), old(Used()), old(lev), nodes, Used(), lev, h, p, r.Gone?, key)
      ensures rootNode == if r.Gone? && node == old(rootNode) then 0 else old(rootNode)
      decreases h, 0
    {
      hide HfsVolume.BitsOf, HfsVolume.CountFree, Flat, Sorted, LevelOK, TreeOK, SameAtOthers, NoLeaks, Removed, PastLeafEnd;
      hide Routed, Orphaned, Place;
      ghost var nodes0, used0, lev0, caps, c := nodes, Used(), lev, Room(), if exact then i else i - 1;
      LevelOf(nodes, used0, lev, h + 1, h, caps);
      NodeNotEmpty(nodes, used0, lev[h], h, caps, p);
      NextNode(nodes, used0, lev, h, caps, p, key, c);
      var d := nodes[node];
      var child := if exact then d.recs[i].data else d.recs[i - 1].data;
      var at := if i == |d.recs| then |d.recs| - 1 else i;
      ghost var pc := |Flat(nodes, lev[h][..p])| + c;
      ChildBelow(nodes, used0, lev, h, caps, pc);
      r := RemoveRecord(child, key, h - 1, pc);
      if r.Astray? {
        return;
      }
      AfterRemoval(nodes0, used0, lev0, nodes, Used(), lev, h, caps, p, c, r.Gone?, key);
      var gone := TendEntry(node, child, at, exact, r.Gone?, key, nodes0, used0, lev0, h, p, c);
      r := if gone then Gone else Stays;
    }

    /** Looks after the entry of a child under which the key has been removed: takes it out if the child is gone,
        and gives it the child's first key if it had the key that was removed. */
    method TendEntry(node: nat, child: nat, at: nat, exact: bool, childGone: bool, key: int,
                     ghost nodes0: Nodes, ghost used0: seq<bool>, ghost lev0: seq<seq<nat>>, ghost h: nat, ghost p: nat, ghost c: nat)
      returns (gone: bool)
      requires Store() && LeafHeader()
      requires Orphaned(nodes0, used0, lev0, nodes, Used(), lev, h, Room(), p, c, childGone, key)
      requires node == lev[h][p] && c < |Recs(nodes, node)| && child == Recs(nodes, node)[c].data
      requires exact <==> Recs(nodes, node)[c].key == key
      requires exact ==> at == c
      modifies this`nodes, this`mapRecord, this`freeNodes, this`firstLeafNode, this`lastLeafNode, this`rootNode
      modifies this`leafRecords, this`lev
      ensures Store() && Levels(h + 1) && LeafHeader() && freeNodes >= old(freeNodes)
      ensures Removed(nodes0, used0, lev0, nodes, Used(), lev, h, p, gone, key)
      ensures rootNode == if gone && node == old(rootNode) then 0 else old(rootNode)
    {
      hide HfsVolume.BitsOf, HfsVolume.CountFree, Flat, Sorted, LevelOK, TreeOK, SameAtOthers, NoLeaks, Removed;
      hide Orphaned, Shrunk;
      ghost var nodes1, used1, lev1, caps := nodes, Used(), lev, Room();
      OrphanedNode(nodes0, used0, lev0, nodes, used1, lev, h, caps, p, c, childGone, key);
      gone := false;
      if !exact {
        EntryKept(nodes0, used0, lev0, nodes, used1, lev, h, caps, p, c, childGone, key);
      }
      if childGone {
        gone := DeleteHere(node, at, h, p);
        EntryDropped(nodes0, used0, lev0, nodes1, used1, lev1, nodes, Used(), lev, h, caps, p, c, gone, key);
      } else if exact {
        OrphanedChild(nodes0, used0, lev0, nodes, used1, lev, h, caps, p, c, key);
        EntryRenewed(nodes0, used0, lev0, nodes, used1, lev, h, caps, p, c, key);
        var d := nodes[node];
        nodes := nodes[node := d.(recs := d.recs[at := Rec(nodes[child].recs[0].key, child)])];
      }
    }

    /** The key has been removed under the root, which is still there or gone. */
    lemma RootShrunk(nodes0: Nodes, used0: seq<bool>, lev0: seq<seq<nat>>, root: nat, gone: bool, key: int)
      requires Store() && lev0 != [] && Removed(nodes0, used0, lev0, nodes, Used(), lev, |lev0| - 1, 0, gone, key)
      requires lev0[|lev0| - 1] == [root] && root != 0 && treeDepth == |lev0| && Levels(|lev0|) && LeafHeader()
      requires rootNode == if gone then 0 else root
      ensures |lev| == |lev0| && (!gone ==> Leaves() == Flat(nodes, lev[0]))
      ensures !gone ==> Valid()
      ensures gone ==> forall k | 0 <= k < |lev| :: lev[k] == []
      ensures Flat(nodes, lev[0]) == Without(Flat(nodes0, lev0[0]), key)
    {
      hide Flat, Without, LevelOK, SameAbove;
      if gone {
        forall k | 0 <= k < |lev| ensures lev[k] == [] {
          EmptyBelow(nodes, Used(), lev, |lev|, Room(), |lev| - 1, k);
        }
      }
    }

    lemma RootNodeAt()
      requires Valid() && rootNode != 0
      ensures RootAt(rootNode, |lev| - 1)
    {
      LevelOf(nodes, Used(), lev, |lev|, |lev| - 1, Room());
      NodeNotEmpty(nodes, Used(), lev[|lev| - 1], |lev| - 1, Room(), 0);
    }

    lemma NoLevels()
      requires Store() && (forall k | 0 <= k < |lev| :: lev[k] == [])
      ensures NoLeaks(Used(), [])
    {
      forall id: nat | 0 < id < |Used()| ensures !Used()[id] {
        assert !InLevels(lev, id);
      }
    }

    /** The leaves are empty only where there is no root. */
    lemma RootedHasLeaves()
      requires Valid()
      ensures rootNode == 0 <==> Leaves() == []
    {
      if rootNode != 0 {
        var h := |lev| - 1;
        LevelOf(nodes, Used(), lev, h + 1, h, Room());
        FirstKey(nodes, Used(), lev, h + 1, Room(), h);
      }
    }

    /** Gives up the levels when the root is gone. */
    ghost method DropLevels()
      requires Store() && (forall k | 0 <= k < |lev| :: lev[k] == []) && lev != [] && LeafHeader() && rootNode == 0
      modifies this`lev
      ensures Valid() && Leaves() == [] == Flat(nodes, old(lev)[0])
    {
      NoLevels();
      FlatEmpty(nodes);
      lev := [];
    }

    /** Removes a key under the root. */
    method RemoveUnderRoot(key: int) returns (astray: bool)
      requires Valid() && rootNode != 0
      modifies this
      ensures astray <==> PastLeafEnd(old(nodes), old(lev)[0], key)
      ensures astray ==> unchanged(this)
      ensures !astray ==> Valid() && Leaves() == Without(old(Leaves()), key) && freeNodes >= old(freeNodes)
      ensures rootNode != 0 ==> rootNode == old(rootNode) && |lev| == |old(lev)|
    {
      hide Flat, Sorted, LevelOK, TreeOK, Removed, Routed, NoLeaks, Without, PastLeafEnd, BTree.Valid, BTree.LeafHeader;
      hide BTree.Store, BTree.Levels, BTree.RootAt;
      RouteRoot(key);
      RootNodeAt();
      ghost var nodes0, used0, lev0, root := nodes, Used(), lev, rootNode;
      var r := RemoveRecord(rootNode, key, |lev| - 1, 0);
      astray := r.Astray?;
      if !astray {
        RootShrunk(nodes0, used0, lev0, root, r.Gone?, key);
        if rootNode == 0 {
          DropLevels();
        }
      }
    }

    /** Removes a key from a tree that is not empty, unless the search goes astray. */
    method RemoveFromBTree(key: int) returns (astray: bool)
      requires Valid() && rootNode != 0
      modifies this
      ensures astray <==> PastLeafEnd(old(nodes), old(lev)[0], key)
      ensures astray ==> unchanged(this)
      ensures !astray ==> Valid() && Leaves() == Without(old(Leaves()), key) && Entries() == old(Entries()) - {key}
      ensures !astray ==> (rootNode == 0 <==> Leaves() == []) && freeNodes >= old(freeNodes)
      ensures rootNode != 0 ==> rootNode == old(rootNode) && |lev| == |old(lev)|
    {
      LeavesSorted();
      TableWithout(Leaves(), key);
      hide Table, Without, PastLeafEnd, BTree.Valid, BTree.Leaves;
      astray := RemoveUnderRoot(key);
      if !astray {
        RootedHasLeaves();
      }
    }

    // ----- Runs -----

    /** Carries out additions and removals, up to one for which the free nodes may not suffice, a removal from
        an empty tree, or one that goes astray. */
    method Run(ops: seq<TreeOp>) returns (n: nat)
      requires Valid()
      modifies this
      ensures Valid() && n <= |ops|
      ensures Entries() == After(old(Entries()), ops[..n])
      ensures n < |ops| ==> if ops[n].Add? then freeNodes <= |lev|
                            else rootNode == 0 || PastLeafEnd(nodes, lev[0], ops[n].key)
    {
      hide Table, PastLeafEnd, BTree.Valid, BTree.Leaves;
      n := 0;
      ghost var start := Entries();
      assert ops[..0] == [];
      while n < |ops|
        invariant Valid() && n <= |ops| && Entries() == After(start, ops[..n])
      {
        match ops[n] {
          case Add(key, data) =>
            RootedHasDepth();
            if freeNodes <= if rootNode == 0 then 0 else treeDepth {
              return;
            }
            AddToBTree(key, data);
          case Remove(key) =>
            if rootNode == 0 {
              return;
            }
            var astray := RemoveFromBTree(key);
            if astray {
              return;
            }
        }
        assert ops[..n + 1][..n] == ops[..n];
        n := n + 1;
      }
      assert ops[..n] == ops;
    }

    lemma RootedHasDepth()
      requires Valid()
      ensures |lev| == if rootNode == 0 then 0 else treeDepth
    {}
  }
}
