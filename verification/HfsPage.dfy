/** A B-tree node as the page of bytes that is edited in place. */
module HfsPage {
  import opened Bits
  import opened BTreeRecords
  import opened Collections
  import opened Extents
  import opened Numbers
  import opened PageSteps
  import opened SlottedPage

  /** A record begins with the length of its key, and the key. */
  predicate HasKey(rec: Bytes) {
    2 <= |rec| && 2 + Word(rec, 0) <= |rec|
  }

  function KeyOf(rec: Bytes): Bytes
    requires HasKey(rec)
  {
    rec[2..2 + Word(rec, 0)]
  }

  function NewRecord(key: Bytes, content: Bytes): (rec: Bytes)
    requires |key| < 0x1_0000
    ensures HasKey(rec) && KeyOf(rec) == key && |rec| == 2 + |key| + |content|
  {
    var rec := WordBytes(|key|) + key + content;
    assert Word(rec, 0) == Word(WordBytes(|key|), 0);
    rec
  }

  type Comparison = (Bytes, Bytes) -> int

  ghost predicate AllKeyed(recs: seq<Bytes>) {
    forall i | 0 <= i < |recs| :: HasKey(recs[i])
  }

  /** The first record whose key is not smaller. */
  ghost function FirstNotLess(recs: seq<Bytes>, key: Bytes, cmp: Comparison): (i: nat)
    requires AllKeyed(recs)
    ensures i <= |recs| && (forall j | 0 <= j < i :: cmp(KeyOf(recs[j]), key) < 0)
    ensures i < |recs| ==> cmp(KeyOf(recs[i]), key) >= 0
  {
    if recs == [] || cmp(KeyOf(recs[0]), key) >= 0 then 0
    else
      assert forall j | 0 <= j < |recs| - 1 :: recs[1..][j] == recs[j + 1];
      1 + FirstNotLess(recs[1..], key, cmp)
  }

  // ----- Order -----

  ghost predicate IsOrder(cmp: Comparison) {
    && (forall a, b :: cmp(a, b) < 0 <==> cmp(b, a) > 0)
    && forall a, b, c :: cmp(a, b) < 0 && cmp(b, c) < 0 ==> cmp(a, c) < 0
  }

  ghost predicate InOrder(recs: seq<Bytes>, cmp: Comparison)
    requires AllKeyed(recs)
  {
    forall i, j | 0 <= i < j < |recs| :: cmp(KeyOf(recs[i]), KeyOf(recs[j])) < 0
  }

  /** Put in front of the first record that is not smaller, a new key keeps the records in order. */
  lemma InsertKeepsOrder(recs: seq<Bytes>, rec: Bytes, cmp: Comparison)
    requires AllKeyed(recs) && HasKey(rec) && IsOrder(cmp) && InOrder(recs, cmp)
    requires var i := FirstNotLess(recs, KeyOf(rec), cmp); i < |recs| ==> cmp(KeyOf(recs[i]), KeyOf(rec)) != 0
    ensures var recs' := InsertAt(recs, FirstNotLess(recs, KeyOf(rec), cmp), rec); AllKeyed(recs') && InOrder(recs', cmp)
  {
    var i := FirstNotLess(recs, KeyOf(rec), cmp);
    var recs' := InsertAt(recs, i, rec);
    forall k | 0 <= k < |recs'| ensures HasKey(recs'[k]) {
      InsertedItem(recs, i, rec, k);
    }
    forall j, k | 0 <= j < k < |recs'| ensures cmp(KeyOf(recs'[j]), KeyOf(recs'[k])) < 0 {
      InsertedItem(recs, i, rec, j);
      InsertedItem(recs, i, rec, k);
      if j == i && k > i + 1 {
        assert cmp(KeyOf(rec), KeyOf(recs[i])) < 0 && cmp(KeyOf(recs[i]), KeyOf(recs[k - 1])) < 0;
      }
    }
  }

  lemma InsertedItem<T>(s: seq<T>, i: nat, x: T, j: nat)
    requires i <= |s| && j <= |s|
    ensures InsertAt(s, i, x)[j] == if j < i then s[j] else if j == i then x else s[j - 1]
  {}

  /** With records of one size, the free space of a page is what the tree reckons with. */
  lemma {:induction false} FixedSizeSpace(p: seq<Byte>, n: nat, size: nat, i: nat)
    requires PageOK(p, n) && i <= n && forall j | 0 <= j < n :: |Records(p, n)[j]| == size
    ensures Off(p, i) == DESCRIPTOR + i * size
    ensures SlotAt(|p|, i) - Off(p, i) == |p| - 2 * (i + 1) - (14 + i * size)
  {
    if i > 0 {
      FixedSizeSpace(p, n, size, i - 1);
      RecordIs(p, n, i - 1);
      assert |Records(p, n)[i - 1]| == size;
      MulNext(i - 1, size);
    }
  }

  class Page {
    const bytes: array<Byte>
    const compare: Comparison

    function NumRecords(): (n: nat)
      requires DESCRIPTOR <= bytes.Length
      reads bytes
      ensures n == 256 * (bytes[10] as int) + bytes[11] as int
    {
      Word(bytes[..], NUM_RECORDS)
    }

    ghost predicate Valid()
      reads bytes
    {
      DESCRIPTOR <= bytes.Length && PageOK(bytes[..], NumRecords()) && AllKeyed(Records(bytes[..], NumRecords()))
    }

    /** The records that the bytes decode to. */
    ghost function Recs(): seq<Bytes>
      requires Valid()
      reads bytes
    {
      Records(bytes[..], NumRecords())
    }

    method GetRecordOffset(num: nat) returns (offset: nat)
      requires SlotAt(bytes.Length, num) >= 0
      ensures offset == Off(bytes[..], num)
    {
      var at := SlotAt(bytes.Length, num);
      offset := 256 * (bytes[at] as int) + bytes[at + 1] as int;
    }

    /** Space for records and offsets. */
    method GetFreeSpace() returns (space: int)
      requires Valid()
      ensures space == SlotAt(bytes.Length, NumRecords()) - Off(bytes[..], NumRecords())
    {
      var n := NumRecords();
      var offset := GetRecordOffset(n);
      space := SlotAt(bytes.Length, n) - offset;
    }

    method WriteBytes(at: nat, data: seq<Byte>)
      requires at + |data| <= bytes.Length
      modifies bytes
      ensures bytes[..] == Overwrite(old(bytes[..]), at, data)
    {
      var i := 0;
      while i < |data|
        invariant 0 <= i <= |data|
        invariant bytes[..at] == old(bytes[..at])
        invariant bytes[at..at + i] == data[..i]
        invariant bytes[at + i..] == old(bytes[at + i..])
      {
        assert old(bytes[at + i..])[1..] == old(bytes[at + i + 1..]);
        bytes[at + i] := data[i];
        i := i + 1;
      }
      assert bytes[..] == bytes[..at] + bytes[at..at + |data|] + bytes[at + |data|..];
    }

    /** Moves the records from number `record` on by `length` bytes, and their offsets by up to one slot. */
    method MoveRecordsDown(n: nat, record: nat, length: int, moveOffsets: int)
      requires PageOK(bytes[..], n) && record <= n && -1 <= moveOffsets <= 1 && 0 <= record + moveOffsets
      requires DESCRIPTOR <= Off(bytes[..], record) + length
      requires Off(bytes[..], n) + length <= SlotAt(bytes.Length, n + moveOffsets) && Off(bytes[..], n) + length <= SlotAt(bytes.Length, n)
      requires DESCRIPTOR <= SlotAt(bytes.Length, n + moveOffsets)
      modifies bytes
      ensures Moved(old(bytes[..]), bytes[..], n, record, length, moveOffsets)
    {
      hide Overwrite, Off, Word;
      ghost var p := bytes[..];
      OffsetsAscend(p, n, record, n);
      var first := GetRecordOffset(record);
      var last := GetRecordOffset(n);
      var records := bytes[first..last];
      var start, end := SlotAt(bytes.Length, n), SlotAt(bytes.Length, record) + 2;
      var offsets := bytes[start..end];
      offsets := AddToOffsets(offsets, length, p, n, record);
      WriteBytes(first + length, records);
      ghost var p1 := bytes[..];
      if moveOffsets > 0 {
        WriteBytes(start - 2, offsets);
      } else if moveOffsets < 0 {
        WriteBytes(start + 2, offsets);
      } else {
        WriteBytes(start, offsets);
      }
      MovedByWrites(p, p1, bytes[..], n, record, length, moveOffsets, offsets);
    }

    /** Adds to each offset of a part of the table. */
    method AddToOffsets(table: seq<Byte>, length: int, ghost p: seq<Byte>, ghost n: nat, ghost record: nat) returns (offsets: seq<Byte>)
      requires PageOK(p, n) && record <= n && DESCRIPTOR <= Off(p, record) + length && Off(p, n) + length <= SlotAt(|p|, n)
      requires table == p[SlotAt(|p|, n)..SlotAt(|p|, record) + 2]
      ensures IsTable(offsets, p, n, record, length)
    {
      offsets := table;
      var i := 0;
      var count := |table| / 2;
      while i < count
        invariant 0 <= i <= count && |offsets| == |table| == 2 * count
        invariant forall t | 0 <= t < count :: Word(offsets, 2 * t) == Word(table, 2 * t) + if t < i then length else 0
      {
        TableWord(p, n, record, i);
        OffsetsAscend(p, n, record, n - i);
        var v := Word(offsets, 2 * i) + length;
        ghost var before := offsets;
        offsets := offsets[2 * i := (v / 256) as Byte][2 * i + 1 := (v % 256) as Byte];
        forall t | 0 <= t < count ensures Word(offsets, 2 * t) == if t == i then v else Word(before, 2 * t) {}
        i := i + 1;
      }
      forall j: nat | record <= j <= n ensures Word(offsets, 2 * (n - j)) == Off(p, j) + length {
        TableWord(p, n, record, n - j);
      }
    }

    static lemma TableWord(p: seq<Byte>, n: nat, record: nat, t: nat)
      requires PageOK(p, n) && record + t <= n
      ensures Word(p[SlotAt(|p|, n)..SlotAt(|p|, record) + 2], 2 * t) == Off(p, n - t)
    {}

    method WriteWord(at: nat, v: nat)
      requires at + 2 <= bytes.Length && v < 0x1_0000
      modifies bytes
      ensures bytes[..] == Overwrite(old(bytes[..]), at, WordBytes(v))
    {
      WriteBytes(at, WordBytes(v));
    }

    /** Goes through the records to the first whose key is not smaller. */
    method Scan(key: Bytes) returns (i: nat, exact: bool)
      requires Valid()
      ensures i == FirstNotLess(Recs(), key, compare)
      ensures exact == (i < |Recs()| && compare(KeyOf(Recs()[i]), key) == 0)
    {
      hide FirstNotLess, Off;
      var n := NumRecords();
      ghost var p := bytes[..];
      i := 0;
      exact := false;
      while i < n
        invariant i <= n && !exact && forall j | 0 <= j < i :: compare(KeyOf(Recs()[j]), key) < 0
      {
        RecordIs(p, n, i);
        assert Recs()[i] == RecordAt(p, n, i) && HasKey(Recs()[i]);
        var at := GetRecordOffset(i);
        var keyLength := 256 * (bytes[at] as int) + bytes[at + 1] as int;
        KeyInPage(p, n, i);
        var res := compare(bytes[at + 2..at + 2 + keyLength], key);
        if res == 0 {
          exact := true;
          break;
        } else if res > 0 {
          break;
        }
        i := i + 1;
      }
      PlaceIsFirst(Recs(), key, compare, i);
    }

    static lemma KeyInPage(p: seq<Byte>, n: nat, i: nat)
      requires PageOK(p, n) && i < n && HasKey(RecordAt(p, n, i))
      ensures Off(p, i) + 2 <= |p| && Off(p, i) + 2 + Word(p, Off(p, i)) <= |p|
      ensures KeyOf(RecordAt(p, n, i)) == p[Off(p, i) + 2..Off(p, i) + 2 + Word(p, Off(p, i))]
    {
      RecordIs(p, n, i);
      var rec := RecordAt(p, n, i);
      WordOfPart(p, Off(p, i), |rec|, 0);
      SliceOfSlice(p, Off(p, i), |rec|, 2, Word(rec, 0));
    }

    static lemma PlaceIsFirst(recs: seq<Bytes>, key: Bytes, cmp: Comparison, i: nat)
      requires AllKeyed(recs) && i <= |recs|
      requires forall j | 0 <= j < i :: cmp(KeyOf(recs[j]), key) < 0
      requires i < |recs| ==> cmp(KeyOf(recs[i]), key) >= 0
      ensures FirstNotLess(recs, key, cmp) == i
    {}

    /** Adds a record in front of the first whose key is not smaller, unless the key is there. */
    method DoAddRecord(key: Bytes, content: Bytes) returns (ok: bool)
      requires Valid() && |key| < 0x1_0000
      requires Off(bytes[..], NumRecords()) + 2 + |key| + |content| <= SlotAt(bytes.Length, NumRecords() + 1)
      modifies bytes
      ensures Valid()
      ensures var i := FirstNotLess(old(Recs()), key, compare);
        && (ok <==> !(i < |old(Recs())| && compare(KeyOf(old(Recs())[i]), key) == 0))
        && Recs() == if ok then InsertAt(old(Recs()), i, NewRecord(key, content)) else old(Recs())
      ensures !ok ==> bytes[..] == old(bytes[..])
    {
      hide Off, Word, Overwrite, PageOK, FirstNotLess, InsertAt, Moved, Spliced, KeyOf, HasKey, NewRecord, WordBytes;
      var n := NumRecords();
      ghost var p, recs := bytes[..], Recs();
      var i, exact := Scan(key);
      if exact {
        return false;
      }
      ghost var rec := NewRecord(key, content);
      CountFits(p, n);
      var offset := GetRecordOffset(i);
      if i != n {
        InsertFits(p, n, i);
        MoveRecordsDown(n, i, 2 + |key| + |content|, 1);
        ghost var p1 := bytes[..];
        WriteRecord(offset, key, content);
        WriteWord(SlotAt(bytes.Length, i), offset);
        WriteWord(NUM_RECORDS, n + 1);
        InsertBefore(p, p1, bytes[..], n, i, rec);
      } else {
        WriteRecord(offset, key, content);
        WriteWord(SlotAt(bytes.Length, n + 1), offset + 2 + |key| + |content|);
        WriteWord(NUM_RECORDS, n + 1);
        InsertLast(p, bytes[..], n, rec);
      }
      SplicedRecords(p, bytes[..], n, i, i, [rec]);
      InsertIsSplice(recs, i, rec);
      ok := true;
    }

    /** Writes the key and then the content. */
    method WriteRecord(at: nat, key: Bytes, content: Bytes)
      requires |key| < 0x1_0000 && at + 2 + |key| + |content| <= bytes.Length
      modifies bytes
      ensures bytes[..] == Overwrite(old(bytes[..]), at, NewRecord(key, content))
    {
      ghost var p := bytes[..];
      WriteBytes(at, WordBytes(|key|) + key);
      WriteBytes(at + 2 + |key|, content);
      WriteTwice(p, at, WordBytes(|key|) + key, content);
    }

    static lemma WriteTwice(p: seq<Byte>, at: nat, a: seq<Byte>, b: seq<Byte>)
      requires at + |a| + |b| <= |p|
      ensures Overwrite(Overwrite(p, at, a), at + |a|, b) == Overwrite(p, at, a + b)
    {}

    static lemma CountFits(p: seq<Byte>, n: nat)
      requires PageOK(p, n)
      ensures n + 1 < 0x1_0000 && DESCRIPTOR <= Off(p, n) < 0x1_0000 && SlotAt(|p|, n) < 0x1_0000
    {
      OffsetsAscend(p, n, 0, n);
    }

    static lemma InsertFits(p: seq<Byte>, n: nat, i: nat)
      requires PageOK(p, n) && i < n
      ensures DESCRIPTOR <= Off(p, i) <= Off(p, n) <= SlotAt(|p|, n) < SlotAt(|p|, i)
    {
      OffsetsAscend(p, n, i, n);
    }

    static lemma InsertIsSplice(recs: seq<Bytes>, i: nat, rec: Bytes)
      requires AllKeyed(recs) && i <= |recs| && HasKey(rec)
      ensures recs[..i] + [rec] + recs[i..] == InsertAt(recs, i, rec) && AllKeyed(InsertAt(recs, i, rec))
    {
      forall j | 0 <= j < |recs| + 1 ensures HasKey(InsertAt(recs, i, rec)[j]) {
        InsertedItem(recs, i, rec, j);
      }
    }

    /** Takes out record i. */
    method DeleteRecord(i: nat)
      requires Valid() && i < NumRecords()
      modifies bytes
      ensures Valid() && Recs() == RemoveAt(old(Recs()), i)
    {
      hide Off, Word, Overwrite, PageOK, Moved, Spliced, HasKey, WordBytes, Recounted;
      var n := NumRecords();
      ghost var p, recs := bytes[..], Recs();
      DeleteFits(p, n, i);
      if i != n - 1 {
        var offset := GetRecordOffset(i);
        var next := GetRecordOffset(i + 1);
        MoveRecordsDown(n, i + 1, (offset as int) - (next as int), -1);
      }
      ghost var p1 := bytes[..];
      CountWritten(p1, n - 1);
      WriteWord(NUM_RECORDS, n - 1);
      if i != n - 1 {
        RemoveBefore(p, p1, bytes[..], n, i);
      } else {
        RemoveLast(p, bytes[..], n);
      }
      RecountedNumber(p1, bytes[..], n - 1);
      SplicedRecords(p, bytes[..], n, i, i + 1, []);
      RemoveIsSplice(recs, i);
    }

    static lemma RecountedNumber(p: seq<Byte>, p': seq<Byte>, n: nat)
      requires Recounted(p, p', n)
      ensures NUM_RECORDS + 2 <= |p'| == |p| && Word(p', NUM_RECORDS) == n
    {}

    static lemma DeleteFits(p: seq<Byte>, n: nat, i: nat)
      requires PageOK(p, n) && i < n
      ensures DESCRIPTOR <= Off(p, i) < Off(p, i + 1) <= Off(p, n) <= SlotAt(|p|, n) < 0x1_0000 && n < 0x1_0000
    {
      OffsetsAscend(p, n, i, i + 1);
      OffsetsAscend(p, n, i + 1, n);
    }

    static lemma RemoveIsSplice(recs: seq<Bytes>, i: nat)
      requires AllKeyed(recs) && i < |recs|
      ensures recs[..i] + [] + recs[i + 1..] == RemoveAt(recs, i) && AllKeyed(RemoveAt(recs, i))
    {
      forall j | 0 <= j < |recs| - 1 ensures HasKey(RemoveAt(recs, i)[j]) {
        assert RemoveAt(recs, i)[j] == recs[if j < i then j else j + 1];
      }
    }

    /** Gives record i another key; the records behind are moved if it has another length. */
    method ReplaceKey(i: nat, key: Bytes, content: Bytes)
      requires Valid() && i < NumRecords() && |key| < 0x1_0000
      requires |content| + 2 + |KeyOf(Recs()[i])| == |Recs()[i]|
      requires Off(bytes[..], NumRecords()) + (|key| - |KeyOf(Recs()[i])|) <= SlotAt(bytes.Length, NumRecords())
      modifies bytes
      ensures Valid() && Recs() == old(Recs())[i := NewRecord(key, content)]
    {
      hide Off, Word, Overwrite, PageOK, Moved, Spliced, HasKey, WordBytes, KeyOf, NewRecord;
      var n := NumRecords();
      ghost var p, recs, rec := bytes[..], Recs(), NewRecord(key, content);
      DeleteFits(p, n, i);
      RecordIs(p, n, i);
      KeyInPage(p, n, i);
      var offset := GetRecordOffset(i);
      var keyLength := Word(bytes[..], offset);
      assert keyLength == |KeyOf(recs[i])|;
      if keyLength != |key| {
        MoveRecordsDown(n, i + 1, |key| - keyLength, 0);
      }
      ghost var p1 := bytes[..];
      ReplaceSteps(p, p1, n, i, rec);
      WriteRecord(offset, key, content);
      SplicedRecords(p, bytes[..], n, i, i + 1, [rec]);
      UpdateIsSplice(recs, i, rec);
    }

    static lemma UpdateIsSplice(recs: seq<Bytes>, i: nat, rec: Bytes)
      requires AllKeyed(recs) && i < |recs| && HasKey(rec)
      ensures recs[..i] + [rec] + recs[i + 1..] == recs[i := rec] && AllKeyed(recs[i := rec])
    {}

    /** Moves the upper half of the records to another page. */
    method SplitTo(q: Page)
      requires Valid() && q.bytes != bytes && q.bytes.Length == bytes.Length
      modifies bytes, q.bytes
      ensures Valid() && q.Valid()
      ensures var recs := old(Recs()); Recs() == recs[..|recs| / 2] && q.Recs() == recs[|recs| / 2..]
      ensures q.bytes[8..10] == old(bytes[8..10])
    {
      hide Off, Word, Overwrite, PageOK, IsTable, HasKey, WordBytes, TakesOver, Recounted;
      var n := NumRecords();
      ghost var p, recs := bytes[..], Recs();
      var half := n / 2;
      var nodesToMove := n - half;
      SplitFits(p, n, half);
      var toMove := GetRecordOffset(half);
      var last := GetRecordOffset(n);
      var buffer := bytes[toMove..last];
      var offsets := bytes[SlotAt(bytes.Length, n)..SlotAt(bytes.Length, half) + 2];
      offsets := AddToOffsets(offsets, -(toMove - DESCRIPTOR), p, n, half);
      q.WriteBytes(8, bytes[8..10]);
      q.WriteWord(NUM_RECORDS, nodesToMove);
      ghost var q0 := q.bytes[..];
      CountWritten(p, half);
      WriteWord(NUM_RECORDS, half);
      TableSize(offsets, p, n, half, -(toMove - DESCRIPTOR));
      q.WriteBytes(DESCRIPTOR, buffer);
      q.WriteBytes(SlotAt(q.bytes.Length, nodesToMove), offsets);
      PageFilled(p, q0, q.bytes[..], n, half, offsets);
      KindCopied(p, q, old(q.bytes[..]), q0, nodesToMove);
      UpperHalf(p, q.bytes[..], n, half);
      LowerHalf(p, bytes[..], n, half);
      RecountedNumber(p, bytes[..], half);
    }

    static lemma SplitFits(p: seq<Byte>, n: nat, h: nat)
      requires PageOK(p, n) && h <= n
      ensures DESCRIPTOR <= Off(p, h) <= Off(p, n) <= SlotAt(|p|, n) <= SlotAt(|p|, n - h) && n < 0x1_0000
    {
      OffsetsAscend(p, n, h, n);
    }

    static lemma TableSize(table: seq<Byte>, p: seq<Byte>, n: nat, h: nat, length: int)
      requires PageOK(p, n) && h <= n && IsTable(table, p, n, h, length)
      ensures |table| == 2 * (n - h + 1)
    {}

    /** Records and table have been written into the new page. */
    static lemma PageFilled(p: seq<Byte>, q0: seq<Byte>, q2: seq<Byte>, n: nat, h: nat, table: seq<Byte>)
      requires PageOK(p, n) && h <= n && |q0| == |p| && IsTable(table, p, n, h, DESCRIPTOR - Off(p, h))
      requires |table| == 2 * (n - h + 1) && DESCRIPTOR <= Off(p, h) <= Off(p, n) <= SlotAt(|p|, n)
      requires q2 == Overwrite(Overwrite(q0, DESCRIPTOR, p[Off(p, h)..Off(p, n)]), SlotAt(|p|, n - h), table)
      ensures TakesOver(p, q2, n, h) && |q2| == |p| && q2[..DESCRIPTOR] == q0[..DESCRIPTOR]
    {
      hide Off, Word, Overwrite, PageOK;
      var records, to := p[Off(p, h)..Off(p, n)], SlotAt(|p|, n - h);
      var q1 := Overwrite(q0, DESCRIPTOR, records);
      forall j: nat | j <= n - h ensures Off(q2, j) == Off(p, h + j) - Off(p, h) + DESCRIPTOR {
        TableOff(q1, to, table, n - h, j);
        assert Word(table, 2 * (n - (h + j))) == Off(p, h + j) + (DESCRIPTOR - Off(p, h));
      }
      WrittenPart(q0, DESCRIPTOR, records);
      OtherPart(q1, to, table, DESCRIPTOR, DESCRIPTOR + |records|);
      OtherPart(q1, to, table, 0, DESCRIPTOR);
      OtherPart(q0, DESCRIPTOR, records, 0, DESCRIPTOR);
    }

    /** The new page's descriptor has the kind and height of the old page's, and its own number of records. */
    static lemma KindCopied(p: seq<Byte>, q: Page, q00: seq<Byte>, q0: seq<Byte>, n: nat)
      requires DESCRIPTOR <= |p| && DESCRIPTOR <= |q00| && n < 0x1_0000
      requires q0 == Overwrite(Overwrite(q00, 8, p[8..10]), NUM_RECORDS, WordBytes(n))
      requires q.bytes.Length == |q0| && q.bytes[..][..DESCRIPTOR] == q0[..DESCRIPTOR]
      ensures q.bytes[8..10] == p[8..10] && Word(q.bytes[..], NUM_RECORDS) == n
    {
      hide Overwrite, WordBytes;
      WrittenWord(Overwrite(q00, 8, p[8..10]), NUM_RECORDS, WordBytes(n), 0);
      WrittenPart(q00, 8, p[8..10]);
      OtherPart(Overwrite(q00, 8, p[8..10]), NUM_RECORDS, WordBytes(n), 8, 10);
      var d := q.bytes[..];
      SliceOfSlice(d, 0, DESCRIPTOR, 8, 2);
      SliceOfSlice(q0, 0, DESCRIPTOR, 8, 2);
      WordOfPart(d, 0, DESCRIPTOR, NUM_RECORDS);
      WordOfPart(q0, 0, DESCRIPTOR, NUM_RECORDS);
    }
  }
}
