/** B-tree nodes as bytes: records behind a descriptor of 14 bytes, and a table of their offsets that grows
    down from the end of the node. */
module SlottedPage {
  import opened Bits
  import opened Collections
  import opened Extents
  import opened BTreeRecords

  // ----- Pages as values -----

  const DESCRIPTOR := 14
  const NUM_RECORDS := 10

  /** A big-endian number of 16 bits. */
  function Word(p: seq<Byte>, at: nat): (v: nat)
    requires at + 2 <= |p|
    ensures v < 0x1_0000
  {
    256 * (p[at] as int) + p[at + 1] as int
  }

  function WordBytes(v: nat): (b: seq<Byte>)
    requires v < 0x1_0000
    ensures |b| == 2 && Word(b, 0) == v
  {
    [v / 256, v % 256]
  }

  /** Where the table keeps offset i. */
  function SlotAt(size: nat, i: nat): int {
    size - 2 * (i + 1)
  }

  /** Offset i of the table; offset n is where the free space starts. */
  ghost function Off(p: seq<Byte>, i: nat): nat {
    if SlotAt(|p|, i) < 0 then 0 else Word(p, SlotAt(|p|, i))
  }

  /** A page of n records: the offsets ascend from the end of the descriptor and stay below the table. */
  ghost predicate PageOK(p: seq<Byte>, n: nat) {
    && DESCRIPTOR <= SlotAt(|p|, n) && |p| <= 0x1_0000
    && Off(p, 0) == DESCRIPTOR && Off(p, n) <= SlotAt(|p|, n)
    && forall i: nat | i < n :: Ascends(p, i)
  }

  ghost predicate Ascends(p: seq<Byte>, i: nat) {
    Off(p, i) < Off(p, i + 1)
  }

  lemma {:induction false} OffsetsAscend(p: seq<Byte>, n: nat, i: nat, j: nat)
    requires PageOK(p, n) && i <= j <= n
    ensures DESCRIPTOR <= Off(p, i) <= Off(p, j) <= Off(p, n) <= SlotAt(|p|, n)
    ensures i < j ==> Off(p, i) < Off(p, j)
    decreases n - i
  {
    if i < j {
      assert Ascends(p, i);
      OffsetsAscend(p, n, i + 1, j);
      FromStart(p, n, i);
    } else {
      FromStart(p, n, i);
      ToEnd(p, n, i);
    }
  }

  lemma {:induction false} FromStart(p: seq<Byte>, n: nat, i: nat)
    requires PageOK(p, n) && i <= n
    ensures DESCRIPTOR <= Off(p, i)
  {
    if i > 0 {
      FromStart(p, n, i - 1);
      assert Ascends(p, i - 1);
    }
  }

  lemma {:induction false} ToEnd(p: seq<Byte>, n: nat, i: nat)
    requires PageOK(p, n) && i <= n
    ensures Off(p, i) <= Off(p, n)
    decreases n - i
  {
    if i < n {
      assert Ascends(p, i);
      ToEnd(p, n, i + 1);
    }
  }

  type Bytes = seq<Byte>

  /** Record i. */
  ghost function RecordAt(p: seq<Byte>, n: nat, i: nat): (r: Bytes)
    requires PageOK(p, n) && i < n
    ensures |r| == Off(p, i + 1) - Off(p, i) > 0
  {
    OffsetsAscend(p, n, i, i + 1);
    p[Off(p, i)..Off(p, i + 1)]
  }

  lemma RecordIs(p: seq<Byte>, n: nat, i: nat)
    requires PageOK(p, n) && i < n
    ensures SlotAt(|p|, i + 1) >= 0 && Off(p, i) <= Off(p, i + 1) <= |p|
    ensures RecordAt(p, n, i) == p[Off(p, i)..Off(p, i + 1)]
  {
    OffsetsAscend(p, n, i, i + 1);
  }

  /** The records of a page. */
  ghost function Records(p: seq<Byte>, n: nat): (rs: seq<Bytes>)
    requires PageOK(p, n)
    ensures |rs| == n
  {
    seq(n, i requires 0 <= i < n => RecordAt(p, n, i))
  }

  // ----- Replacing records -----

  /** How many bytes the records take. */
  ghost function SizeOf(mid: seq<Bytes>): nat {
    if mid == [] then 0 else |mid[0]|
  }

  /** How far the records behind are moved. */
  ghost function Shift(p: seq<Byte>, a: nat, r: nat, mid: seq<Bytes>): int {
    Off(p, a) + SizeOf(mid) - Off(p, r)
  }

  /** Records a up to r of the page give way to `mid`, one record or none: what holds of bytes and offsets
      afterwards. */
  ghost predicate Spliced(p: seq<Byte>, p': seq<Byte>, n: nat, a: nat, r: nat, mid: seq<Bytes>)
    requires PageOK(p, n) && a <= r <= n
  {
    var shift := Shift(p, a, r, mid);
    && |p'| == |p| && |mid| <= 1 && (mid != [] ==> mid[0] != [])
    && DESCRIPTOR <= Off(p, a) <= Off(p, r) <= Off(p, n)
    && Off(p, n) + shift <= SlotAt(|p|, n - r + a + |mid|)
    && (forall j: nat | j <= a :: Off(p', j) == Off(p, j))
    && (forall j: nat | a + |mid| <= j <= n - r + a + |mid| :: Off(p', j) == Off(p, j - a - |mid| + r) + shift)
    && p'[DESCRIPTOR..Off(p, a)] == p[DESCRIPTOR..Off(p, a)]
    && (mid != [] ==> p'[Off(p, a)..Off(p, a) + SizeOf(mid)] == mid[0])
    && p'[Off(p, r) + shift..Off(p, n) + shift] == p[Off(p, r)..Off(p, n)]
  }

  lemma SplicedOff(p: seq<Byte>, p': seq<Byte>, n: nat, a: nat, r: nat, mid: seq<Bytes>, j: nat)
    requires PageOK(p, n) && a <= r <= n && Spliced(p, p', n, a, r, mid) && j <= n - r + a + |mid|
    ensures SlotAt(|p'|, j) >= 0
    ensures j <= a ==> Off(p', j) == Off(p, j)
    ensures j >= a + |mid| ==> Off(p', j) == Off(p, j - a - |mid| + r) + Shift(p, a, r, mid)
  {}

  lemma SplicedBytes(p: seq<Byte>, p': seq<Byte>, n: nat, a: nat, r: nat, mid: seq<Bytes>)
    requires PageOK(p, n) && a <= r <= n && Spliced(p, p', n, a, r, mid)
    ensures var shift := Shift(p, a, r, mid);
      && 0 <= Off(p, r) + shift <= Off(p, n) + shift && DESCRIPTOR <= Off(p, a) <= Off(p, r) <= Off(p, n) && |p'| == |p|
      && Off(p, n) + shift <= SlotAt(|p|, n - r + a + |mid|) < |p|
      && |mid| <= 1 && (mid != [] ==> mid[0] != [])
      && p'[DESCRIPTOR..Off(p, a)] == p[DESCRIPTOR..Off(p, a)]
      && (mid != [] ==> p'[Off(p, a)..Off(p, a) + SizeOf(mid)] == mid[0])
      && p'[Off(p, r) + shift..Off(p, n) + shift] == p[Off(p, r)..Off(p, n)]
  {}

  lemma SplicedAscends(p: seq<Byte>, p': seq<Byte>, n: nat, a: nat, r: nat, mid: seq<Bytes>, j: nat)
    requires PageOK(p, n) && a <= r <= n && Spliced(p, p', n, a, r, mid) && j < n - r + a + |mid|
    ensures SlotAt(|p'|, j + 1) >= 0 && Ascends(p', j)
  {
    hide Off, Spliced, PageOK;
    SplicedBytes(p, p', n, a, r, mid);
    SplicedOff(p, p', n, a, r, mid, j);
    SplicedOff(p, p', n, a, r, mid, j + 1);
    if j < a {
      OffsetsAscend(p, n, j, j + 1);
    } else if j >= a + |mid| {
      OffsetsAscend(p, n, j - a - |mid| + r, j - a - |mid| + r + 1);
    }
  }

  lemma SplicedPage(p: seq<Byte>, p': seq<Byte>, n: nat, a: nat, r: nat, mid: seq<Bytes>)
    requires PageOK(p, n) && a <= r <= n && Spliced(p, p', n, a, r, mid)
    ensures PageOK(p', n - r + a + |mid|)
  {
    hide Off, Spliced, Ascends;
    var n' := n - r + a + |mid|;
    SplicedBytes(p, p', n, a, r, mid);
    SplicedOff(p, p', n, a, r, mid, n');
    SplicedOff(p, p', n, a, r, mid, 0);
    forall j: nat | j < n' ensures Ascends(p', j) {
      SplicedAscends(p, p', n, a, r, mid, j);
    }
  }

  lemma RecordBefore(p: seq<Byte>, p': seq<Byte>, n: nat, a: nat, r: nat, mid: seq<Bytes>, j: nat)
    requires PageOK(p, n) && a <= r <= n && Spliced(p, p', n, a, r, mid) && PageOK(p', n - r + a + |mid|) && j < a
    ensures RecordAt(p', n - r + a + |mid|, j) == RecordAt(p, n, j)
  {
    hide Off, PageOK, Spliced, SizeOf;
    SplicedBytes(p, p', n, a, r, mid);
    SplicedOff(p, p', n, a, r, mid, j);
    SplicedOff(p, p', n, a, r, mid, j + 1);
    OffsetsAscend(p, n, j, j + 1);
    OffsetsAscend(p, n, j + 1, a);
    SubSlice(p', DESCRIPTOR, p, DESCRIPTOR, Off(p, a) - DESCRIPTOR, Off(p, j) - DESCRIPTOR, Off(p, j + 1) - Off(p, j));
  }

  lemma RecordHere(p: seq<Byte>, p': seq<Byte>, n: nat, a: nat, r: nat, mid: seq<Bytes>)
    requires PageOK(p, n) && a <= r <= n && Spliced(p, p', n, a, r, mid) && PageOK(p', n - r + a + |mid|) && mid != []
    ensures RecordAt(p', n - r + a + |mid|, a) == mid[0]
  {
    hide Off, PageOK, Spliced, SizeOf;
    SplicedBytes(p, p', n, a, r, mid);
    SplicedOff(p, p', n, a, r, mid, a);
    SplicedOff(p, p', n, a, r, mid, a + 1);
  }

  lemma RecordBehind(p: seq<Byte>, p': seq<Byte>, n: nat, a: nat, r: nat, mid: seq<Bytes>, j: nat)
    requires PageOK(p, n) && a <= r <= n && Spliced(p, p', n, a, r, mid) && PageOK(p', n - r + a + |mid|)
    requires a + |mid| <= j < n - r + a + |mid|
    ensures RecordAt(p', n - r + a + |mid|, j) == RecordAt(p, n, j - a - |mid| + r)
  {
    hide Off, PageOK, Spliced, SizeOf, Shift, RecordAt;
    SplicedBytes(p, p', n, a, r, mid);
    OffsetsAscend(p, n, a, r);
    var o, shift := j - a - |mid| + r, Shift(p, a, r, mid);
    SplicedOff(p, p', n, a, r, mid, j);
    SplicedOff(p, p', n, a, r, mid, j + 1);
    OffsetsAscend(p, n, o, o + 1);
    OffsetsAscend(p, n, r, o);
    OffsetsAscend(p, n, o + 1, n);
    ShiftedSlice(p', p, Off(p, r), Off(p, n), shift, Off(p, o), Off(p, o + 1));
    RecordIs(p, n, o);
    RecordIs(p', n - r + a + |mid|, j);
  }

  lemma ShiftedSlice(p': seq<Byte>, p: seq<Byte>, start: nat, end: nat, shift: int, x: nat, y: nat)
    requires start <= x <= y <= end <= |p| && 0 <= start + shift && end + shift <= |p'|
    requires p'[start + shift..end + shift] == p[start..end]
    ensures p'[x + shift..y + shift] == p[x..y]
  {
    SubSlice(p', start + shift, p, start, end - start, x - start, y - x);
  }

  lemma SpliceItem<T>(s: seq<T>, a: nat, mid: seq<T>, r: nat, j: nat)
    requires a <= r <= |s| && j < |s| - r + a + |mid|
    ensures (s[..a] + mid + s[r..])[j] == if j < a then s[j] else if j < a + |mid| then mid[j - a] else s[j - a - |mid| + r]
  {}

  lemma SplicedRecord(p: seq<Byte>, p': seq<Byte>, n: nat, a: nat, r: nat, mid: seq<Bytes>, j: nat)
    requires PageOK(p, n) && a <= r <= n && Spliced(p, p', n, a, r, mid) && PageOK(p', n - r + a + |mid|)
    requires |mid| <= 1 && j < n - r + a + |mid|
    ensures RecordAt(p', n - r + a + |mid|, j) == (Records(p, n)[..a] + mid + Records(p, n)[r..])[j]
  {
    hide Off, PageOK, Spliced, RecordAt, SizeOf;
    SpliceItem(Records(p, n), a, mid, r, j);
    if j < a {
      RecordBefore(p, p', n, a, r, mid, j);
    } else if j >= a + |mid| {
      RecordBehind(p, p', n, a, r, mid, j);
    } else {
      RecordHere(p, p', n, a, r, mid);
    }
  }

  /** The bytes decode to the records before, the new one, and the records behind. */
  lemma SplicedRecords(p: seq<Byte>, p': seq<Byte>, n: nat, a: nat, r: nat, mid: seq<Bytes>)
    requires PageOK(p, n) && a <= r <= n && Spliced(p, p', n, a, r, mid)
    ensures PageOK(p', n - r + a + |mid|)
    ensures Records(p', n - r + a + |mid|) == Records(p, n)[..a] + mid + Records(p, n)[r..]
  {
    SplicedPage(p, p', n, a, r, mid);
    SplicedBytes(p, p', n, a, r, mid);
    hide Off, PageOK, Spliced, RecordAt, SizeOf;
    var n' := n - r + a + |mid|;
    var got, want := Records(p', n'), Records(p, n)[..a] + mid + Records(p, n)[r..];
    forall j: nat | j < n' ensures got[j] == want[j] {
      SplicedRecord(p, p', n, a, r, mid, j);
    }
  }

  /** Parts of equal slices are equal. */
  lemma SubSlice(a: seq<Byte>, i: nat, b: seq<Byte>, j: nat, n: nat, o: nat, m: nat)
    requires i + n <= |a| && j + n <= |b| && a[i..i + n] == b[j..j + n] && o + m <= n
    ensures a[i + o..i + o + m] == b[j + o..j + o + m]
  {
    SliceOfSlice(a, i, n, o, m);
    SliceOfSlice(b, j, n, o, m);
  }
}
