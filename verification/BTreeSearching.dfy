/** Where a search in a tree of levels ends up. */
module BTreeSearching {
  import opened BTreeRecords
  import opened BTreeLevels
  import opened BTreeSteps

  /** What a search returns: the record of the key, or else the one before it; when all keys are greater it
      panics. */
  datatype SearchResult = Panic | Found(data: nat, exact: bool, node: nat, record: nat)

  /** The data of the last record whose key is not greater, and the place of the key in a leaf. */
  ghost predicate IsResult(nodes: Nodes, leaves: seq<nat>, key: int, r: SearchResult) {
    var recs := Flat(nodes, leaves);
    var i := Place(recs, key);
    match r
    case Panic => i == 0 && !Has(recs, key)
    case Found(data, exact, node, record) =>
      && (exact <==> Has(recs, key))
      && (if exact then i < |recs| && data == recs[i].data else 0 < i && data == recs[i - 1].data)
      && (if exact then record < |Recs(nodes, node)| else 0 < record <= |Recs(nodes, node)|)
      && AtPlace(nodes, leaves, node, record, i)
  }

  /** Record number `record` of a node is record i of the level. */
  ghost predicate AtPlace(nodes: Nodes, level: seq<nat>, node: nat, record: nat, i: nat) {
    exists p :: 0 <= p < |level| && level[p] == node && |Flat(nodes, level[..p])| + record == i
  }

  /** A search that has come to a leaf. */
  lemma FoundInLeaf(nodes: Nodes, used: seq<bool>, lev: seq<seq<nat>>, caps: Caps, p: nat, key: int)
    requires TreeOK(nodes, used, lev, 1, caps) && Routed(nodes, lev[0], p, key)
    ensures var recs := Recs(nodes, lev[0][p]);
      var i := Place(recs, key);
      var exact := i < |recs| && recs[i].key == key;
      && (!exact && i == 0 ==> IsResult(nodes, lev[0], key, Panic))
      && (exact ==> IsResult(nodes, lev[0], key, Found(recs[i].data, true, lev[0][p], i)))
      && (!exact && i > 0 ==> IsResult(nodes, lev[0], key, Found(recs[i - 1].data, false, lev[0][p], i)))
  {
    hide Flat, Has;
    var level := lev[0];
    var recs, flat := Recs(nodes, level[p]), Flat(nodes, level);
    var i, b := Place(recs, key), |Flat(nodes, level[..p])|;
    assert LevelOK(nodes, used, level, 0, caps);
    NodeNotEmpty(nodes, used, level, 0, caps, p);
    PlaceInLevel(nodes, used, level, 0, caps, p, key);
    HasAtPlace(recs, key);
    HasAtPlace(flat, key);
    FlatAround(nodes, level, p);
    assert AtPlace(nodes, level, level[p], i, b + i);
    assert i < |recs| ==> flat[b + i] == recs[i];
    assert i > 0 ==> flat[b + i - 1] == recs[i - 1];
    if i == 0 && p == 0 {
      assert level[..0] == [];
      FlatEmpty(nodes);
    }
  }

  /** All keys of a node are greater: so are all keys of the tree. */
  lemma AllGreater(nodes: Nodes, used: seq<bool>, lev: seq<seq<nat>>, h: nat, caps: Caps, p: nat, key: int)
    requires TreeOK(nodes, used, lev, h + 1, caps) && Routed(nodes, lev[h], p, key)
    requires Recs(nodes, lev[h][p]) == [] || key < Head(nodes, lev[h][p])
    ensures IsResult(nodes, lev[0], key, Panic)
  {
    hide Flat;
    LevelOf(nodes, used, lev, h + 1, h, caps);
    LevelOf(nodes, used, lev, h + 1, 0, caps);
    NodeNotEmpty(nodes, used, lev[h], h, caps, p);
    FirstKey(nodes, used, lev, h + 1, caps, h);
    FlatHead(nodes, lev[h]);
    PlaceIs(Flat(nodes, lev[0]), key, 0);
    HasAtPlace(Flat(nodes, lev[0]), key);
  }

  /** The child under the last key that is not greater. */
  lemma NextNode(nodes: Nodes, used: seq<bool>, lev: seq<seq<nat>>, h: nat, caps: Caps, p: nat, key: int, c: nat)
    requires 0 < h && TreeOK(nodes, used, lev, h + 1, caps) && Routed(nodes, lev[h], p, key)
    requires var recs := Recs(nodes, lev[h][p]);
      var i := Place(recs, key);
      c == (if i < |recs| && recs[i].key == key then i else i - 1)
    ensures var pc := |Flat(nodes, lev[h][..p])| + c;
      && c < |Recs(nodes, lev[h][p])| && pc < |lev[h - 1]| && Recs(nodes, lev[h][p])[c].data == lev[h - 1][pc]
      && Recs(nodes, lev[h][p])[c].key == Head(nodes, lev[h - 1][pc])
      && Routed(nodes, lev[h - 1], pc, key) && TreeOK(nodes, used, lev, h, caps)
  {
    hide Flat;
    LevelOf(nodes, used, lev, h + 1, h, caps);
    assert Joined(nodes, lev[h - 1 + 1], lev[h - 1]);
    SortedNode(nodes, used, lev[h], h, caps, p);
    RouteChild(nodes, used, lev[h], lev[h - 1], h, caps, p, key, c);
  }

  /** What a result says about the map of the records. */
  lemma ResultInTable(nodes: Nodes, leaves: seq<nat>, key: int, r: SearchResult)
    requires Sorted(Flat(nodes, leaves)) && IsResult(nodes, leaves, key, r)
    ensures var m := Table(Flat(nodes, leaves));
      && (r.Found? && r.exact <==> key in m) && (r.Found? && r.exact ==> r.data == m[key])
      && (r.Panic? <==> forall k | k in m :: key < k)
  {
    hide Flat, Table;
    var recs := Flat(nodes, leaves);
    var i := Place(recs, key);
    TableDescribes(recs);
    HasAtPlace(recs, key);
    if r.Panic? {
      forall k | k in Table(recs) ensures key < k {
        assert Has(recs, k);
        var j :| 0 <= j < |recs| && recs[j].key == k;
        assert recs[0].key <= recs[j].key;
      }
    } else {
      var j := if r.exact then i else i - 1;
      assert recs[j].key in Table(recs) && recs[j].key <= key;
    }
  }
}
