/** The steps by which a page is edited: moving records and offsets, and writing bytes. */
module PageSteps {
  import opened Bits
  import opened Collections
  import opened Extents
  import opened SlottedPage

  // ----- Overwriting -----

  lemma WrittenPart(p: seq<Byte>, at: nat, data: seq<Byte>)
    requires at + |data| <= |p|
    ensures Overwrite(p, at, data)[at..at + |data|] == data
  {}

  lemma OtherPart(p: seq<Byte>, at: nat, data: seq<Byte>, i: nat, j: nat)
    requires at + |data| <= |p| && i <= j <= |p| && (j <= at || at + |data| <= i)
    ensures Overwrite(p, at, data)[i..j] == p[i..j]
  {}

  lemma WordOfPart(p: seq<Byte>, at: nat, n: nat, o: nat)
    requires at + n <= |p| && o + 2 <= n
    ensures Word(p[at..at + n], o) == Word(p, at + o)
  {}

  lemma OtherWord(p: seq<Byte>, at: nat, data: seq<Byte>, i: nat)
    requires at + |data| <= |p| && i + 2 <= |p| && (i + 2 <= at || at + |data| <= i)
    ensures Word(Overwrite(p, at, data), i) == Word(p, i)
  {}

  lemma WrittenWord(p: seq<Byte>, at: nat, data: seq<Byte>, o: nat)
    requires at + |data| <= |p| && o + 2 <= |data|
    ensures Word(Overwrite(p, at, data), at + o) == Word(data, o)
  {
    WrittenPart(p, at, data);
    WordOfPart(Overwrite(p, at, data), at, |data|, o);
  }

  // ----- Moving records -----

  /** Records from number `record` on have been moved by `length` bytes, and their offsets by `shift` slots. */
  ghost predicate Moved(p: seq<Byte>, p': seq<Byte>, n: nat, record: nat, length: int, shift: int)
    requires PageOK(p, n) && record <= n
  {
    && |p'| == |p| && -1 <= shift <= 1 && 0 <= record + shift && DESCRIPTOR <= Off(p, record) + length && Off(p, record) <= Off(p, n)
    && Off(p, n) + length <= SlotAt(|p|, n + shift) && DESCRIPTOR <= SlotAt(|p|, n + shift)
    && (forall j: nat | j < record + shift :: Off(p', j) == Off(p, j))
    && (forall j: nat | record + shift <= j <= n + shift :: Off(p', j) == Off(p, j - shift) + length)
    && p'[..Off(p, record) + length] == p[..Off(p, record) + length]
    && p'[Off(p, record) + length..Off(p, n) + length] == p[Off(p, record)..Off(p, n)]
  }

  /** The table's bytes for the offsets from number n down to number `record`, each increased by `length`. */
  ghost predicate IsTable(table: seq<Byte>, p: seq<Byte>, n: nat, record: nat, length: int)
    requires PageOK(p, n) && record <= n
  {
    |table| == 2 * (n + 1 - record) && forall j: nat | record <= j <= n :: Word(table, 2 * (n - j)) == Off(p, j) + length
  }

  /** First the records are written, then the table. */
  ghost predicate TwoWrites(p: seq<Byte>, p1: seq<Byte>, p2: seq<Byte>, n: nat, record: nat, length: int, shift: int, table: seq<Byte>)
    requires PageOK(p, n) && record <= n
  {
    && -1 <= shift <= 1 && 0 <= record + shift && DESCRIPTOR <= Off(p, record) + length && Off(p, record) <= Off(p, n) <= |p|
    && Off(p, n) + length <= SlotAt(|p|, n + shift) && DESCRIPTOR <= SlotAt(|p|, n + shift) && Off(p, n) + length <= SlotAt(|p|, n)
    && IsTable(table, p, n, record, length)
    && p1 == Overwrite(p, Off(p, record) + length, p[Off(p, record)..Off(p, n)])
    && SlotAt(|p|, n + shift) + |table| <= |p| && p2 == Overwrite(p1, SlotAt(|p|, n + shift), table)
  }

  lemma MovedOff(p: seq<Byte>, p1: seq<Byte>, p2: seq<Byte>, n: nat, record: nat, length: int, shift: int, table: seq<Byte>, j: nat)
    requires PageOK(p, n) && record <= n && TwoWrites(p, p1, p2, n, record, length, shift, table) && j <= n + shift
    ensures SlotAt(|p2|, j) >= 0 && |p2| == |p|
    ensures j < record + shift ==> Off(p2, j) == Off(p, j)
    ensures j >= record + shift ==> Off(p2, j) == Off(p, j - shift) + length
  {
    var records, at, to := p[Off(p, record)..Off(p, n)], Off(p, record) + length, SlotAt(|p|, n + shift);
    hide Overwrite, Word, Off, PageOK;
    if j < record + shift {
      OtherOff(p, at, records, j);
      OtherOff(p1, to, table, j);
    } else {
      TableOff(p1, to, table, n + shift, j);
      assert Word(table, 2 * (n - (j - shift))) == Off(p, j - shift) + length;
    }
  }

  lemma MovedSlices(p: seq<Byte>, p1: seq<Byte>, p2: seq<Byte>, n: nat, record: nat, length: int, shift: int, table: seq<Byte>)
    requires PageOK(p, n) && record <= n && TwoWrites(p, p1, p2, n, record, length, shift, table)
    ensures |p2| == |p| && p2[..Off(p, record) + length] == p[..Off(p, record) + length]
    ensures p2[Off(p, record) + length..Off(p, n) + length] == p[Off(p, record)..Off(p, n)]
  {
    var records, at, to := p[Off(p, record)..Off(p, n)], Off(p, record) + length, SlotAt(|p|, n + shift);
    hide Overwrite, Word, Off, PageOK, IsTable;
    WrittenPart(p, at, records);
    OtherPart(p1, to, table, at, Off(p, n) + length);
    OtherPart(p1, to, table, 0, at);
    OtherPart(p, at, records, 0, at);
  }

  lemma MovedByWrites(p: seq<Byte>, p1: seq<Byte>, p2: seq<Byte>, n: nat, record: nat, length: int, shift: int, table: seq<Byte>)
    requires PageOK(p, n) && record <= n && TwoWrites(p, p1, p2, n, record, length, shift, table)
    ensures Moved(p, p2, n, record, length, shift)
  {
    MovedSlices(p, p1, p2, n, record, length, shift, table);
    hide Overwrite, Word, Off, PageOK, IsTable;
    forall j: nat | j < record + shift ensures Off(p2, j) == Off(p, j) {
      MovedOff(p, p1, p2, n, record, length, shift, table, j);
    }
    forall j: nat | record + shift <= j <= n + shift ensures Off(p2, j) == Off(p, j - shift) + length {
      MovedOff(p, p1, p2, n, record, length, shift, table, j);
    }
  }

  lemma OtherOff(p: seq<Byte>, at: nat, data: seq<Byte>, j: nat)
    requires at + |data| <= |p| && SlotAt(|p|, j) >= 0 && (SlotAt(|p|, j) + 2 <= at || at + |data| <= SlotAt(|p|, j))
    ensures Off(Overwrite(p, at, data), j) == Off(p, j)
  {
    OtherWord(p, at, data, SlotAt(|p|, j));
  }

  lemma TableOff(p: seq<Byte>, to: nat, table: seq<Byte>, last: nat, j: nat)
    requires to == SlotAt(|p|, last) && to + |table| <= |p| && j <= last && 2 * (last - j) + 2 <= |table|
    ensures Off(Overwrite(p, to, table), j) == Word(table, 2 * (last - j))
  {
    WrittenWord(p, to, table, 2 * (last - j));
  }

  // ----- The operations, step by step -----

  /** Bytes, then one offset, then the number of records have been written. */
  ghost predicate ThreeWrites(p1: seq<Byte>, p4: seq<Byte>, off: nat, rec: Bytes, i: nat, v: nat, n: nat) {
    && v < 0x1_0000 && n < 0x1_0000 && DESCRIPTOR <= off && off + |rec| <= |p1| && DESCRIPTOR <= SlotAt(|p1|, i)
    && p4 == Overwrite(Overwrite(Overwrite(p1, off, rec), SlotAt(|p1|, i), WordBytes(v)), NUM_RECORDS, WordBytes(n))
  }

  lemma WritesOff(p1: seq<Byte>, p4: seq<Byte>, off: nat, rec: Bytes, i: nat, v: nat, n: nat, j: nat)
    requires ThreeWrites(p1, p4, off, rec, i, v, n)
    requires DESCRIPTOR <= SlotAt(|p1|, j) && off + |rec| <= SlotAt(|p1|, j)
    ensures |p4| == |p1| && Off(p4, j) == if j == i then v else Off(p1, j)
  {
    hide Overwrite, Word, Off, WordBytes;
    var p2 := Overwrite(p1, off, rec);
    var p3 := Overwrite(p2, SlotAt(|p1|, i), WordBytes(v));
    OtherOff(p3, NUM_RECORDS, WordBytes(n), j);
    OtherOff(p1, off, rec, j);
    if j == i {
      WrittenWord(p2, SlotAt(|p1|, i), WordBytes(v), 0);
      OffIs(p3, i);
    } else {
      OtherOff(p2, SlotAt(|p1|, i), WordBytes(v), j);
    }
  }

  lemma OffIs(p: seq<Byte>, i: nat)
    requires SlotAt(|p|, i) >= 0
    ensures Off(p, i) == Word(p, SlotAt(|p|, i))
  {}

  lemma WritesBytes(p1: seq<Byte>, p4: seq<Byte>, off: nat, rec: Bytes, i: nat, v: nat, n: nat, end: nat)
    requires ThreeWrites(p1, p4, off, rec, i, v, n) && off + |rec| <= end <= SlotAt(|p1|, i)
    ensures |p4| == |p1| && p4[off..off + |rec|] == rec && Word(p4, NUM_RECORDS) == n
    ensures p4[DESCRIPTOR..off] == p1[DESCRIPTOR..off] && p4[off + |rec|..end] == p1[off + |rec|..end]
  {
    hide Overwrite, Word, Off, WordBytes;
    var p2 := Overwrite(p1, off, rec);
    var p3 := Overwrite(p2, SlotAt(|p1|, i), WordBytes(v));
    WrittenWord(p3, NUM_RECORDS, WordBytes(n), 0);
    Untouched(p1, p2, p3, p4, SlotAt(|p1|, i), WordBytes(v), WordBytes(n), off, rec, off + |rec|, end);
    Untouched(p1, p2, p3, p4, SlotAt(|p1|, i), WordBytes(v), WordBytes(n), off, rec, DESCRIPTOR, off);
    WrittenPart(p1, off, rec);
    OtherPart(p2, SlotAt(|p1|, i), WordBytes(v), off, off + |rec|);
    OtherPart(p3, NUM_RECORDS, WordBytes(n), off, off + |rec|);
  }

  lemma BeforeOff(p: seq<Byte>, p1: seq<Byte>, p4: seq<Byte>, n: nat, i: nat, rec: Bytes, j: nat)
    requires PageOK(p, n) && i < n && Moved(p, p1, n, i, |rec|, 1) && j <= n + 1
    requires ThreeWrites(p1, p4, Off(p, i), rec, i, Off(p, i), n + 1)
    ensures |p4| == |p| && SlotAt(|p|, j) >= 0
    ensures Off(p4, j) == if j <= i then Off(p, j) else Off(p, j - 1) + |rec|
  {
    OffsetsAscend(p, n, i, n);
    hide Off, PageOK, ThreeWrites;
    WritesOff(p1, p4, Off(p, i), rec, i, Off(p, i), n + 1, j);
  }

  lemma BeforeBytes(p: seq<Byte>, p1: seq<Byte>, p4: seq<Byte>, n: nat, i: nat, rec: Bytes)
    requires PageOK(p, n) && i < n && Moved(p, p1, n, i, |rec|, 1)
    requires ThreeWrites(p1, p4, Off(p, i), rec, i, Off(p, i), n + 1)
    ensures |p4| == |p| && DESCRIPTOR <= Off(p, i) <= Off(p, n) && Off(p, n) + |rec| <= SlotAt(|p|, n + 1)
    ensures Word(p4, NUM_RECORDS) == n + 1 && p4[DESCRIPTOR..Off(p, i)] == p[DESCRIPTOR..Off(p, i)]
    ensures p4[Off(p, i)..Off(p, i) + |rec|] == rec
    ensures p4[Off(p, i) + |rec|..Off(p, n) + |rec|] == p[Off(p, i)..Off(p, n)]
  {
    var off, end := Off(p, i), Off(p, n);
    OffsetsAscend(p, n, i, n);
    WritesBytes(p1, p4, off, rec, i, off, n + 1, end + |rec|);
    hide Word, Off, PageOK, ThreeWrites;
    SliceOfSlice(p, 0, off + |rec|, DESCRIPTOR, off - DESCRIPTOR);
    SliceOfSlice(p1, 0, off + |rec|, DESCRIPTOR, off - DESCRIPTOR);
  }

  lemma ShiftByOne(p: seq<Byte>, i: nat, rec: Bytes)
    requires SlotAt(|p|, i) >= 0
    ensures Shift(p, i, i, [rec]) == SizeOf([rec]) == |rec|
  {}

  /** A record in front of others: they are moved, it is written with its offset, and counted. */
  lemma InsertBefore(p: seq<Byte>, p1: seq<Byte>, p4: seq<Byte>, n: nat, i: nat, rec: Bytes)
    requires PageOK(p, n) && i < n && rec != [] && Moved(p, p1, n, i, |rec|, 1)
    requires ThreeWrites(p1, p4, Off(p, i), rec, i, Off(p, i), n + 1)
    ensures Spliced(p, p4, n, i, i, [rec]) && Word(p4, NUM_RECORDS) == n + 1
  {
    BeforeBytes(p, p1, p4, n, i, rec);
    ShiftByOne(p, i, rec);
    hide Word, Off, PageOK, ThreeWrites, Moved, Shift, SizeOf;
    var mid := [rec];
    forall j: nat | j <= i ensures Off(p4, j) == Off(p, j) {
      BeforeOff(p, p1, p4, n, i, rec, j);
    }
    forall j: nat | i + |mid| <= j <= n - i + i + |mid| ensures Off(p4, j) == Off(p, j - i - |mid| + i) + Shift(p, i, i, mid) {
      BeforeOff(p, p1, p4, n, i, rec, j);
    }
  }

  /** A record behind all others: it is written, and the free space starts behind it. */
  lemma InsertLast(p: seq<Byte>, p4: seq<Byte>, n: nat, rec: Bytes)
    requires PageOK(p, n) && rec != [] && Off(p, n) + |rec| <= SlotAt(|p|, n + 1)
    requires ThreeWrites(p, p4, Off(p, n), rec, n + 1, Off(p, n) + |rec|, n + 1)
    ensures Spliced(p, p4, n, n, n, [rec]) && Word(p4, NUM_RECORDS) == n + 1
  {
    var end := Off(p, n);
    OffsetsAscend(p, n, n, n);
    WritesBytes(p, p4, end, rec, n + 1, end + |rec|, n + 1, end + |rec|);
    forall j: nat | j <= n + 1 ensures Off(p4, j) == if j <= n then Off(p, j) else end + |rec| {
      WritesOff(p, p4, end, rec, n + 1, end + |rec|, n + 1, j);
    }
    ShiftByOne(p, n, rec);
    hide Word, Off, PageOK, ThreeWrites, Shift, SizeOf;
  }

  lemma Untouched(p1: seq<Byte>, p2: seq<Byte>, p3: seq<Byte>, p4: seq<Byte>, slot: nat, word: seq<Byte>, count: seq<Byte>,
                  off: nat, rec: Bytes, x: nat, y: nat)
    requires off + |rec| <= |p1| && p2 == Overwrite(p1, off, rec)
    requires slot + |word| <= |p2| && p3 == Overwrite(p2, slot, word)
    requires NUM_RECORDS + |count| <= DESCRIPTOR && DESCRIPTOR <= |p3| && p4 == Overwrite(p3, NUM_RECORDS, count)
    requires DESCRIPTOR <= x <= y <= slot && (y <= off || off + |rec| <= x)
    ensures p4[x..y] == p1[x..y]
  {
    OtherPart(p1, off, rec, x, y);
    OtherPart(p2, slot, word, x, y);
    OtherPart(p3, NUM_RECORDS, count, x, y);
  }

  // ----- Removing -----

  /** Only the descriptor has been written. */
  ghost predicate Recounted(p: seq<Byte>, p': seq<Byte>, n: nat) {
    && DESCRIPTOR <= |p| == |p'| && p'[DESCRIPTOR..] == p[DESCRIPTOR..] && Word(p', NUM_RECORDS) == n
  }

  lemma RecountedOff(p: seq<Byte>, p': seq<Byte>, n: nat, j: nat)
    requires Recounted(p, p', n) && DESCRIPTOR <= SlotAt(|p|, j)
    ensures Off(p', j) == Off(p, j)
  {
    var o := SlotAt(|p|, j) - DESCRIPTOR;
    assert p'[DESCRIPTOR..][o] == p[DESCRIPTOR..][o] && p'[DESCRIPTOR..][o + 1] == p[DESCRIPTOR..][o + 1];
  }

  lemma RecountedSlice(p: seq<Byte>, p': seq<Byte>, n: nat, x: nat, y: nat)
    requires Recounted(p, p', n) && DESCRIPTOR <= x <= y <= |p|
    ensures p'[x..y] == p[x..y]
  {
    assert p'[DESCRIPTOR..|p|] == p'[DESCRIPTOR..] && p[DESCRIPTOR..|p|] == p[DESCRIPTOR..];
    SubSlice(p', DESCRIPTOR, p, DESCRIPTOR, |p| - DESCRIPTOR, x - DESCRIPTOR, y - x);
  }

  lemma CountWritten(p: seq<Byte>, n: nat)
    requires DESCRIPTOR <= |p| && n < 0x1_0000
    ensures Recounted(p, Overwrite(p, NUM_RECORDS, WordBytes(n)), n)
  {
    var p' := Overwrite(p, NUM_RECORDS, WordBytes(n));
    WrittenWord(p, NUM_RECORDS, WordBytes(n), 0);
    OtherPart(p, NUM_RECORDS, WordBytes(n), DESCRIPTOR, |p|);
    assert p'[DESCRIPTOR..|p|] == p'[DESCRIPTOR..] && p[DESCRIPTOR..|p|] == p[DESCRIPTOR..];
  }

  /** A record in front of others: they move down over it, and it is not counted any more. */
  lemma RemoveBefore(p: seq<Byte>, p1: seq<Byte>, p2: seq<Byte>, n: nat, i: nat)
    requires PageOK(p, n) && i + 1 < n && Moved(p, p1, n, i + 1, Off(p, i) - Off(p, i + 1), -1)
    requires Recounted(p1, p2, n - 1)
    ensures Spliced(p, p2, n, i, i + 1, [])
  {
    OffsetsAscend(p, n, i, i + 1);
    OffsetsAscend(p, n, i + 1, n);
    var shift := Off(p, i) - Off(p, i + 1);
    assert Shift(p, i, i + 1, []) == shift;
    hide Word, Off, PageOK, Recounted, Shift;
    forall j: nat | j <= i ensures Off(p2, j) == Off(p, j) {
      RecountedOff(p1, p2, n - 1, j);
    }
    forall j: nat | i <= j <= n - 1 ensures Off(p2, j) == Off(p, j - i + (i + 1)) + shift {
      RecountedOff(p1, p2, n - 1, j);
    }
    RecountedSlice(p1, p2, n - 1, DESCRIPTOR, Off(p, i));
    RecountedSlice(p1, p2, n - 1, Off(p, i + 1) + shift, Off(p, n) + shift);
    SliceOfSlice(p, 0, Off(p, i), DESCRIPTOR, Off(p, i) - DESCRIPTOR);
    SliceOfSlice(p1, 0, Off(p, i), DESCRIPTOR, Off(p, i) - DESCRIPTOR);
  }

  /** The last record: it is not counted any more, and its offset starts the free space. */
  lemma RemoveLast(p: seq<Byte>, p2: seq<Byte>, n: nat)
    requires PageOK(p, n) && n > 0 && Recounted(p, p2, n - 1)
    ensures Spliced(p, p2, n, n - 1, n, [])
  {
    OffsetsAscend(p, n, n - 1, n);
    hide Word, Off, PageOK, Recounted;
    forall j: nat | j <= n ensures Off(p2, j) == Off(p, j) {
      RecountedOff(p, p2, n - 1, j);
    }
    RecountedSlice(p, p2, n - 1, DESCRIPTOR, Off(p, n - 1));
  }

  // ----- Replacing -----

  /** The records behind number i have been moved if a record in its place would have another size. */
  ghost predicate MadeRoom(p: seq<Byte>, p1: seq<Byte>, n: nat, i: nat, rec: Bytes)
    requires PageOK(p, n) && i < n
  {
    if Off(p, i) + |rec| == Off(p, i + 1) then p1 == p
    else Moved(p, p1, n, i + 1, Off(p, i) + |rec| - Off(p, i + 1), 0)
  }

  /** Another record has been written in the place of one, the ones behind having been moved if need be. */
  lemma ReplaceSteps(p: seq<Byte>, p1: seq<Byte>, n: nat, i: nat, rec: Bytes)
    requires PageOK(p, n) && i < n && rec != [] && Off(p, i) + |rec| <= |p1| && MadeRoom(p, p1, n, i, rec)
    ensures Spliced(p, Overwrite(p1, Off(p, i), rec), n, i, i + 1, [rec])
    ensures Word(Overwrite(p1, Off(p, i), rec), NUM_RECORDS) == Word(p, NUM_RECORDS)
  {
    hide Off, PageOK, MadeRoom, Overwrite, Word, Spliced;
    ReplacedOffsets(p, p1, n, i, rec);
    ReplacedStart(p, p1, n, i, rec);
    ReplacedBytes(p, p1, n, i, rec);
    OtherWord(p1, Off(p, i), rec, NUM_RECORDS);
    OneReplaced(p, Overwrite(p1, Off(p, i), rec), n, i, rec);
  }

  lemma OneReplaced(p: seq<Byte>, p2: seq<Byte>, n: nat, i: nat, rec: Bytes)
    requires PageOK(p, n) && i < n && rec != [] && |p2| == |p| && DESCRIPTOR <= Off(p, i) <= Off(p, i + 1) <= Off(p, n)
    requires Off(p, n) + (Off(p, i) + |rec| - Off(p, i + 1)) <= SlotAt(|p|, n)
    requires forall j: nat | j <= i :: Off(p2, j) == Off(p, j)
    requires forall j: nat | i + 1 <= j <= n :: Off(p2, j) == Off(p, j) + (Off(p, i) + |rec| - Off(p, i + 1))
    requires p2[DESCRIPTOR..Off(p, i)] == p[DESCRIPTOR..Off(p, i)] && p2[Off(p, i)..Off(p, i) + |rec|] == rec
    requires p2[Off(p, i) + |rec|..Off(p, n) + (Off(p, i) + |rec| - Off(p, i + 1))] == p[Off(p, i + 1)..Off(p, n)]
    ensures Spliced(p, p2, n, i, i + 1, [rec])
  {
    hide Off, PageOK;
    var mid := [rec];
    forall j: nat | i + |mid| <= j <= n - (i + 1) + i + |mid|
      ensures Off(p2, j) == Off(p, j - i - |mid| + (i + 1)) + Shift(p, i, i + 1, mid)
    {
      assert j - i - |mid| + (i + 1) == j;
    }
  }

  lemma ReplacedBytes(p: seq<Byte>, p1: seq<Byte>, n: nat, i: nat, rec: Bytes)
    requires PageOK(p, n) && i < n && Off(p, i) + |rec| <= |p1| && MadeRoom(p, p1, n, i, rec)
    ensures var p2, off := Overwrite(p1, Off(p, i), rec), Off(p, i);
      var shift := off + |rec| - Off(p, i + 1);
      && |p2| == |p| && DESCRIPTOR <= off <= Off(p, i + 1) <= Off(p, n) && Off(p, n) + shift <= SlotAt(|p|, n)
      && p2[DESCRIPTOR..off] == p[DESCRIPTOR..off] && p2[off..off + |rec|] == rec
      && p2[Off(p, i + 1) + shift..Off(p, n) + shift] == p[Off(p, i + 1)..Off(p, n)]
  {
    hide Off, PageOK, Overwrite;
    OffsetsAscend(p, n, i, i + 1);
    OffsetsAscend(p, n, i + 1, n);
    ReplacedStart(p, p1, n, i, rec);
    var off, shift := Off(p, i), Off(p, i) + |rec| - Off(p, i + 1);
    WrittenPart(p1, off, rec);
    OtherPart(p1, off, rec, off + |rec|, Off(p, n) + shift);
    OtherPart(p1, off, rec, DESCRIPTOR, off);
  }

  lemma ReplacedOffsets(p: seq<Byte>, p1: seq<Byte>, n: nat, i: nat, rec: Bytes)
    requires PageOK(p, n) && i < n && Off(p, i) + |rec| <= |p1| && MadeRoom(p, p1, n, i, rec)
    ensures |p1| == |p| && Off(p, i) + |rec| <= SlotAt(|p|, n)
    ensures forall j: nat | j <= i :: Off(Overwrite(p1, Off(p, i), rec), j) == Off(p, j)
    ensures forall j: nat | i + 1 <= j <= n ::
      Off(Overwrite(p1, Off(p, i), rec), j) == Off(p, j) + (Off(p, i) + |rec| - Off(p, i + 1))
  {
    OffsetsAscend(p, n, i + 1, n);
    hide PageOK, Overwrite;
    forall j: nat | j <= n ensures Off(Overwrite(p1, Off(p, i), rec), j) == Off(p1, j) {
      OtherOff(p1, Off(p, i), rec, j);
    }
  }

  lemma ReplacedStart(p: seq<Byte>, p1: seq<Byte>, n: nat, i: nat, rec: Bytes)
    requires PageOK(p, n) && i < n && Off(p, i) + |rec| <= |p1| && MadeRoom(p, p1, n, i, rec)
    ensures |p1| == |p| && DESCRIPTOR <= Off(p, i) && p1[DESCRIPTOR..Off(p, i)] == p[DESCRIPTOR..Off(p, i)]
    ensures Word(p1, NUM_RECORDS) == Word(p, NUM_RECORDS)
  {
    OffsetsAscend(p, n, i, n);
    var end := Off(p, i) + |rec|;
    if p1 != p {
      SliceOfSlice(p, 0, end, DESCRIPTOR, Off(p, i) - DESCRIPTOR);
      SliceOfSlice(p1, 0, end, DESCRIPTOR, Off(p, i) - DESCRIPTOR);
      assert p1[..end][NUM_RECORDS] == p[..end][NUM_RECORDS] && p1[..end][NUM_RECORDS + 1] == p[..end][NUM_RECORDS + 1];
    }
  }

  // ----- Splitting -----

  /** Page q has the records of p from number h on. */
  ghost predicate TakesOver(p: seq<Byte>, q: seq<Byte>, n: nat, h: nat)
    requires PageOK(p, n) && h <= n
  {
    && |q| == |p| && DESCRIPTOR <= Off(p, h) <= Off(p, n) && Off(p, n) - Off(p, h) + DESCRIPTOR <= SlotAt(|p|, n - h)
    && (forall j: nat | j <= n - h :: Off(q, j) == Off(p, h + j) - Off(p, h) + DESCRIPTOR)
    && q[DESCRIPTOR..Off(p, n) - Off(p, h) + DESCRIPTOR] == p[Off(p, h)..Off(p, n)]
  }

  lemma UpperHalf(p: seq<Byte>, q: seq<Byte>, n: nat, h: nat)
    requires PageOK(p, n) && h <= n && TakesOver(p, q, n, h)
    ensures PageOK(q, n - h) && Records(q, n - h) == Records(p, n)[h..]
  {
    forall j: nat | j < n - h ensures Ascends(q, j) {
      OffsetsAscend(p, n, h + j, h + j + 1);
    }
    assert Off(q, n - h) == Off(p, h + (n - h)) - Off(p, h) + DESCRIPTOR;
    assert PageOK(q, n - h);
    hide PageOK, RecordAt;
    forall j: nat | j < n - h ensures Records(q, n - h)[j] == Records(p, n)[h..][j] {
      UpperRecord(p, q, n, h, j);
    }
  }

  lemma UpperRecord(p: seq<Byte>, q: seq<Byte>, n: nat, h: nat, j: nat)
    requires PageOK(p, n) && h + j < n && TakesOver(p, q, n, h) && PageOK(q, n - h)
    ensures RecordAt(q, n - h, j) == RecordAt(p, n, h + j)
  {
    hide Off, PageOK, RecordAt, TakesOver;
    OffsetsAscend(p, n, h, h + j);
    OffsetsAscend(p, n, h + j, h + j + 1);
    OffsetsAscend(p, n, h + j + 1, n);
    TakenOff(p, q, n, h, j);
    TakenOff(p, q, n, h, j + 1);
    TakenBytes(p, q, n, h);
    ShiftedSlice(q, p, Off(p, h), Off(p, n), DESCRIPTOR - Off(p, h), Off(p, h + j), Off(p, h + j + 1));
    RecordIs(p, n, h + j);
    RecordIs(q, n - h, j);
  }

  lemma TakenOff(p: seq<Byte>, q: seq<Byte>, n: nat, h: nat, j: nat)
    requires PageOK(p, n) && h + j <= n && TakesOver(p, q, n, h)
    ensures |q| == |p| && Off(q, j) == Off(p, h + j) + (DESCRIPTOR - Off(p, h))
  {}

  lemma TakenBytes(p: seq<Byte>, q: seq<Byte>, n: nat, h: nat)
    requires PageOK(p, n) && h <= n && TakesOver(p, q, n, h)
    ensures var shift := DESCRIPTOR - Off(p, h);
      && |q| == |p| && DESCRIPTOR <= Off(p, h) <= Off(p, n) && Off(p, n) + shift <= |q|
      && q[Off(p, h) + shift..Off(p, n) + shift] == p[Off(p, h)..Off(p, n)]
  {}

  /** What is counted out is gone; the offset of the first record gone starts the free space. */
  lemma LowerHalf(p: seq<Byte>, p': seq<Byte>, n: nat, h: nat)
    requires PageOK(p, n) && h <= n && Recounted(p, p', h)
    ensures PageOK(p', h) && Records(p', h) == Records(p, n)[..h]
  {
    OffsetsAscend(p, n, h, n);
    forall j: nat | j <= h ensures Off(p', j) == Off(p, j) {
      RecountedOff(p, p', h, j);
    }
    forall j: nat | j < h ensures Ascends(p', j) {
      assert Ascends(p, j);
    }
    assert PageOK(p', h);
    hide Off, PageOK, RecordAt;
    forall j: nat | j < h ensures Records(p', h)[j] == Records(p, n)[..h][j] {
      OffsetsAscend(p, n, j, j + 1);
      RecountedSlice(p, p', h, Off(p, j), Off(p, j + 1));
      RecordIs(p, n, j);
      RecordIs(p', h, j);
    }
  }
}
