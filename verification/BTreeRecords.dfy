/** B-tree records: lists in key order, what adding and removing a record does to them, and the map they are. */
module BTreeRecords {
  /** A record: in a leaf a key with its data, in an index node a key with the number of a child. */
  datatype Rec = Rec(key: int, data: nat)

  // ----- Sequences -----

  ghost function InsertAt<T>(s: seq<T>, i: nat, x: T): (t: seq<T>)
    requires i <= |s|
    ensures |t| == |s| + 1
  {
    s[..i] + [x] + s[i..]
  }

  ghost function RemoveAt<T>(s: seq<T>, i: nat): (t: seq<T>)
    requires i < |s|
    ensures |t| == |s| - 1
  {
    s[..i] + s[i + 1..]
  }

  lemma InsertInPart<T>(a: seq<T>, b: seq<T>, c: seq<T>, i: nat, x: T)
    requires i <= |b|
    ensures a + InsertAt(b, i, x) + c == InsertAt(a + b + c, |a| + i, x)
  {}

  lemma RemoveInPart<T>(a: seq<T>, b: seq<T>, c: seq<T>, i: nat)
    requires i < |b|
    ensures a + RemoveAt(b, i) + c == RemoveAt(a + b + c, |a| + i)
  {}

  lemma UpdateInPart<T>(a: seq<T>, b: seq<T>, c: seq<T>, i: nat, x: T)
    requires i < |b|
    ensures a + b[i := x] + c == (a + b + c)[|a| + i := x]
  {}

  // ----- Records in order -----

  ghost predicate Sorted(recs: seq<Rec>) {
    forall i, j | 0 <= i < j < |recs| :: recs[i].key < recs[j].key
  }

  ghost predicate Has(recs: seq<Rec>, key: int) {
    exists i :: 0 <= i < |recs| && recs[i].key == key
  }

  /** Where a key belongs: behind all smaller ones. */
  ghost function Place(recs: seq<Rec>, key: int): (i: nat)
    ensures i <= |recs| && (forall j | 0 <= j < i :: recs[j].key < key) && (i < |recs| ==> recs[i].key >= key)
  {
    if recs == [] || recs[0].key >= key then 0 else 1 + Place(recs[1..], key)
  }

  lemma PlaceIs(recs: seq<Rec>, key: int, i: nat)
    requires Sorted(recs) && i <= |recs|
    requires i > 0 ==> recs[i - 1].key < key
    requires i < |recs| ==> recs[i].key >= key
    ensures Place(recs, key) == i
  {}

  lemma HasAtPlace(recs: seq<Rec>, key: int)
    requires Sorted(recs)
    ensures var i := Place(recs, key); Has(recs, key) <==> i < |recs| && recs[i].key == key
  {}

  lemma SortedParts(a: seq<Rec>, b: seq<Rec>, c: seq<Rec>)
    requires Sorted(a + b + c)
    ensures Sorted(a) && Sorted(b) && Sorted(c)
    ensures forall i, j | 0 <= i < |a| && 0 <= j < |b| :: a[i].key < b[j].key
    ensures forall i, j | 0 <= i < |b| && 0 <= j < |c| :: b[i].key < c[j].key
    ensures forall i, j | 0 <= i < |a| && 0 <= j < |c| :: a[i].key < c[j].key
  {
    var s := a + b + c;
    forall i, j | 0 <= i < |a| && 0 <= j < |b| ensures a[i].key < b[j].key {
      assert s[i] == a[i] && s[|a| + j] == b[j];
    }
    forall i, j | 0 <= i < |b| && 0 <= j < |c| ensures b[i].key < c[j].key {
      assert s[|a| + i] == b[i] && s[|a| + |b| + j] == c[j];
    }
    forall i, j | 0 <= i < |a| && 0 <= j < |c| ensures a[i].key < c[j].key {
      assert s[i] == a[i] && s[|a| + |b| + j] == c[j];
    }
    forall i, j | 0 <= i < j < |b| ensures b[i].key < b[j].key {
      assert s[|a| + i] == b[i] && s[|a| + j] == b[j];
    }
    forall i, j | 0 <= i < j < |c| ensures c[i].key < c[j].key {
      assert s[|a| + |b| + i] == c[i] && s[|a| + |b| + j] == c[j];
    }
    forall i, j | 0 <= i < j < |a| ensures a[i].key < a[j].key {
      assert s[i] == a[i] && s[j] == a[j];
    }
  }

  lemma SortedInsert(recs: seq<Rec>, i: nat, rec: Rec)
    requires Sorted(recs) && i <= |recs|
    requires i > 0 ==> recs[i - 1].key < rec.key
    requires i < |recs| ==> rec.key < recs[i].key
    ensures Sorted(InsertAt(recs, i, rec))
  {
    var t := InsertAt(recs, i, rec);
    forall a, b | 0 <= a < b < |t| ensures t[a].key < t[b].key {
      assert t[a] == if a < i then recs[a] else if a == i then rec else recs[a - 1];
      assert t[b] == if b < i then recs[b] else if b == i then rec else recs[b - 1];
    }
  }

  lemma SortedRemove(recs: seq<Rec>, i: nat)
    requires Sorted(recs) && i < |recs|
    ensures Sorted(RemoveAt(recs, i))
  {
    var t := RemoveAt(recs, i);
    forall a, b | 0 <= a < b < |t| ensures t[a].key < t[b].key {
      assert t[a] == recs[if a < i then a else a + 1] && t[b] == recs[if b < i then b else b + 1];
    }
  }

  /** The list with a record added, unless its key is there. */
  ghost function Added(recs: seq<Rec>, rec: Rec): seq<Rec> {
    if Has(recs, rec.key) then recs else InsertAt(recs, Place(recs, rec.key), rec)
  }

  /** The list without the record of a key. */
  ghost function Without(recs: seq<Rec>, key: int): seq<Rec> {
    var i := Place(recs, key);
    if i < |recs| && recs[i].key == key then RemoveAt(recs, i) else recs
  }

  // ----- Records as a map -----

  ghost function Table(recs: seq<Rec>): map<int, nat> {
    if recs == [] then map[] else Table(recs[..|recs| - 1])[recs[|recs| - 1].key := recs[|recs| - 1].data]
  }

  lemma {:induction false} TableHas(recs: seq<Rec>, key: int)
    requires Sorted(recs)
    ensures key in Table(recs) <==> Has(recs, key)
    ensures forall i | 0 <= i < |recs| :: recs[i].key in Table(recs) && Table(recs)[recs[i].key] == recs[i].data
  {
    if recs != [] {
      TableHas(recs[..|recs| - 1], key);
      forall i | 0 <= i < |recs| - 1 ensures recs[i].key in Table(recs) && Table(recs)[recs[i].key] == recs[i].data {
        assert recs[..|recs| - 1][i] == recs[i];
      }
      if Has(recs, key) && recs[|recs| - 1].key != key {
        var i :| 0 <= i < |recs| && recs[i].key == key;
        assert recs[..|recs| - 1][i] == recs[i];
      }
    }
  }

  /** The map is the one that has the list's keys and data. */
  ghost predicate Describes(m: map<int, nat>, recs: seq<Rec>) {
    && (forall key :: key in m <==> Has(recs, key))
    && forall i | 0 <= i < |recs| :: recs[i].key in m && m[recs[i].key] == recs[i].data
  }

  lemma TableDescribes(recs: seq<Rec>)
    requires Sorted(recs)
    ensures Describes(Table(recs), recs)
  {
    hide Table, Has;
    forall key ensures key in Table(recs) <==> Has(recs, key) {
      TableHas(recs, key);
    }
    TableHas(recs, 0);
  }

  lemma DescribedOnce(m: map<int, nat>, m': map<int, nat>, recs: seq<Rec>)
    requires Describes(m, recs) && Describes(m', recs)
    ensures m == m'
  {
    forall key | key in m ensures key in m' && m'[key] == m[key] {
      assert Has(recs, key);
      var i :| 0 <= i < |recs| && recs[i].key == key;
    }
    forall key | key in m' ensures key in m {
      assert Has(recs, key);
    }
  }

  lemma InsertDescribed(m: map<int, nat>, recs: seq<Rec>, i: nat, rec: Rec)
    requires Describes(m, recs) && i <= |recs| && !Has(recs, rec.key)
    ensures Describes(m[rec.key := rec.data], InsertAt(recs, i, rec))
  {
    hide InsertAt, Has;
    var t, m' := InsertAt(recs, i, rec), m[rec.key := rec.data];
    forall key ensures key in m' <==> Has(t, key) {
      HasInserted(recs, i, rec, key);
    }
    forall j | 0 <= j < |t| ensures t[j].key in m' && m'[t[j].key] == t[j].data {
      InsertedAt(recs, i, rec, j);
      assert j == i || t[j].key in m;
    }
  }

  lemma InsertedAt(recs: seq<Rec>, i: nat, rec: Rec, j: nat)
    requires i <= |recs| && j <= |recs|
    ensures InsertAt(recs, i, rec)[j] == if j < i then recs[j] else if j == i then rec else recs[j - 1]
  {}

  /** Adding to the list is adding to the map, where a key that is there stays as it is. */
  lemma TableAdded(recs: seq<Rec>, rec: Rec)
    requires Sorted(recs)
    ensures Sorted(Added(recs, rec))
    ensures Table(Added(recs, rec)) == if rec.key in Table(recs) then Table(recs) else Table(recs)[rec.key := rec.data]
  {
    hide Table;
    TableDescribes(recs);
    if !Has(recs, rec.key) {
      var i := Place(recs, rec.key);
      assert i < |recs| ==> recs[i].key != rec.key;
      SortedInsert(recs, i, rec);
      InsertDescribed(Table(recs), recs, i, rec);
      TableDescribes(Added(recs, rec));
      DescribedOnce(Table(Added(recs, rec)), Table(recs)[rec.key := rec.data], Added(recs, rec));
    }
  }

  lemma HasInserted(recs: seq<Rec>, i: nat, rec: Rec, key: int)
    requires i <= |recs|
    ensures Has(InsertAt(recs, i, rec), key) <==> Has(recs, key) || key == rec.key
  {
    var t := InsertAt(recs, i, rec);
    assert t[i] == rec;
    forall j | 0 <= j < |recs| ensures t[if j < i then j else j + 1] == recs[j] {}
    forall j | 0 <= j < |t| && j != i ensures t[j] == recs[if j < i then j else j - 1] {}
    if Has(t, key) && key != rec.key {
      var j :| 0 <= j < |t| && t[j].key == key;
      assert recs[if j < i then j else j - 1].key == key;
    }
    if Has(recs, key) {
      var j :| 0 <= j < |recs| && recs[j].key == key;
      assert t[if j < i then j else j + 1].key == key;
    }
  }

  /** Taking a key from the list is taking it from the map. */
  lemma TableWithout(recs: seq<Rec>, key: int)
    requires Sorted(recs)
    ensures Sorted(Without(recs, key)) && Table(Without(recs, key)) == Table(recs) - {key}
  {
    hide Table;
    HasAtPlace(recs, key);
    TableDescribes(recs);
    var i := Place(recs, key);
    if Has(recs, key) {
      var t := RemoveAt(recs, i);
      SortedRemove(recs, i);
      TableDescribes(t);
      assert recs == InsertAt(t, i, recs[i]);
      NotLeft(recs, i);
      InsertDescribed(Table(t), t, i, recs[i]);
      DescribedOnce(Table(t)[key := recs[i].data], Table(recs), recs);
      assert key !in Table(t);
    }
  }

  lemma NotLeft(recs: seq<Rec>, i: nat)
    requires Sorted(recs) && i < |recs|
    ensures !Has(RemoveAt(recs, i), recs[i].key)
  {
    var t := RemoveAt(recs, i);
    forall j | 0 <= j < |t| ensures t[j].key != recs[i].key {
      assert t[j] == recs[if j < i then j else j + 1];
    }
  }
}
