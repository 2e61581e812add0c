/** Looking for data in the input of a disk image, and how well skipping zeros works out. */
module DmgInput {
  import opened Bits
  import opened Collections
  import opened DmgPlan
  import opened DmgRuns
  import opened Extents

  const WORD := 8

  /** Counts the zero words at the beginning of a buffer. */
  method ZeroWords(buffer: seq<Byte>) returns (counter: nat)
    requires |buffer| % WORD == 0
    ensures WORD * counter <= |buffer| && Zero(buffer[..WORD * counter])
    ensures WORD * counter < |buffer| ==> !Zero(buffer[WORD * counter..WORD * counter + WORD])
  {
    counter := 0;
    while counter < |buffer| / WORD
      invariant WORD * counter <= |buffer| && Zero(buffer[..WORD * counter])
    {
      var word := buffer[WORD * counter..WORD * counter + WORD];
      if exists i :: 0 <= i < WORD && word[i] != 0 {
        return;
      }
      assert buffer[..WORD * (counter + 1)] == buffer[..WORD * counter] + word;
      ZeroParts(buffer[..WORD * counter], word);
      counter := counter + 1;
    }
  }

  /** The zero words at the beginning of a chunk tell how many of its sectors are zero. */
  lemma ZeroSectors(image: seq<Byte>, s: nat, e: nat, at: nat, k: nat)
    requires s <= e && SECTOR * e <= |image| && SECTOR * k <= at < SECTOR * (k + 1) && at + WORD <= SECTOR * (k + 1)
    requires var b := Sectors(image, s, e);
      at <= |b| && Zero(b[..at]) && (at < |b| ==> at + WORD <= |b| && !Zero(b[at..at + WORD]))
    ensures s + k <= e && Zero(Sectors(image, s, s + k)) && (at < SECTOR * (e - s) <==> s + k < e)
    ensures s + k < e ==> !Zero(Sectors(image, s + k, s + k + 1))
  {
    hide Sectors, Zero;
    var b := Sectors(image, s, e);
    FrontZero(b, at, SECTOR * k);
    SectorsFront(image, s, e, k);
    if at < |b| {
      var i := NotZeroIn(b, at);
      NotZeroAt(image, s, e, at + i, k);
    }
  }

  lemma SectorsFront(image: seq<Byte>, s: nat, e: nat, k: nat)
    requires s + k <= e && SECTOR * e <= |image|
    ensures Sectors(image, s, s + k) == Sectors(image, s, e)[..SECTOR * k]
  {
    SliceOfSlice(image, SECTOR * s, SECTOR * (e - s), 0, SECTOR * k);
  }

  lemma NotZeroIn(b: seq<Byte>, at: nat) returns (i: nat)
    requires at + WORD <= |b| && !Zero(b[at..at + WORD])
    ensures i < WORD && b[at + i] != 0
  {
    i :| i < WORD && b[at..at + WORD][i] != 0;
  }

  lemma FrontZero(b: seq<Byte>, m: nat, k: nat)
    requires k <= m <= |b| && Zero(b[..m])
    ensures Zero(b[..k])
  {
    assert b[..m][..k] == b[..k];
  }

  lemma NotZeroAt(image: seq<Byte>, s: nat, e: nat, at: nat, k: nat)
    requires s <= e && SECTOR * e <= |image| && at < SECTOR * (e - s) && Sectors(image, s, e)[at] != 0
    requires SECTOR * k <= at < SECTOR * (k + 1)
    ensures s + k < e && !Zero(Sectors(image, s + k, s + k + 1))
  {
    assert s + k < e;
    assert Sectors(image, s + k, s + k + 1)[at - SECTOR * k] == image[SECTOR * s + at];
  }

  /** Reads a chunk. */
  method ReadChunk(image: seq<Byte>, n: nat, s: nat) returns (count: nat, buffer: seq<Byte>)
    requires |image| == SECTOR * n && s < n
    ensures count > 0 && s + count == ChunkEnd(n, s) && buffer == Sectors(image, s, s + count)
  {
    count := if n - s > SECTORS_AT_A_TIME then SECTORS_AT_A_TIME else n - s;
    buffer := image[SECTOR * s..SECTOR * (s + count)];
  }

  /** Counts the zero sectors at the beginning of a chunk that has been read. */
  method SkipInBuffer(ghost image: seq<Byte>, ghost s: nat, ghost e: nat, buffer: seq<Byte>) returns (skip: nat, found: bool)
    requires s <= e && SECTOR * e <= |image| && buffer == Sectors(image, s, e)
    ensures s + skip <= e && Zero(Sectors(image, s, s + skip)) && (found <==> s + skip < e)
    ensures found ==> !Zero(Sectors(image, s + skip, s + skip + 1))
  {
    hide Zero, Sectors;
    var counter := ZeroWords(buffer);
    skip := WORD * counter / SECTOR;
    ZeroSectors(image, s, e, WORD * counter, skip);
    found := counter < |buffer| / WORD;
  }

  /** Reads the next chunk; if zeros are to be skipped, reads on until a chunk that is not zero, or the last. */
  method FindData(image: seq<Byte>, n: nat, cur: nat, skipZeros: bool)
    returns (sectorsToSkip: nat, count: nat, buffer: seq<Byte>, ghost last: nat)
    requires |image| == SECTOR * n && cur < n
    ensures cur <= last < n && last + count == ChunkEnd(n, last) && buffer == Sectors(image, last, last + count)
    ensures !skipZeros ==> sectorsToSkip == 0 && last == cur
    ensures skipZeros ==> last == LastChunk(image, n, cur)
    ensures skipZeros ==> sectorsToSkip == ZeroRun(image, n, cur) && Zero(Sectors(image, cur, last))
    ensures skipZeros ==> (last == cur || cur + SECTORS_AT_A_TIME <= last) && (last + count == n || !Zero(buffer))
  {
    hide Zero, ZeroRun, Sectors, LastChunk;
    sectorsToSkip, count, buffer, last := 0, 0, [], cur;
    var processed := 0;
    ghost var chunks := 0;
    NoSectors(image, cur);
    while processed < n - cur
      invariant cur + processed <= n && sectorsToSkip == processed && Zero(Sectors(image, cur, cur + processed))
      invariant processed == 0 || processed >= SECTORS_AT_A_TIME || cur + processed == n
      invariant processed > 0 ==> skipZeros && cur <= last < n && last + count == ChunkEnd(n, last) == cur + processed
      invariant processed > 0 ==> buffer == Sectors(image, last, last + count) && Zero(Sectors(image, cur, last))
      invariant processed > 0 ==> last == cur || cur + SECTORS_AT_A_TIME <= last
      invariant if processed == 0 then chunks == 0 else chunks > 0 && last == cur + SECTORS_AT_A_TIME * (chunks - 1)
      invariant cur + processed < n ==> processed == SECTORS_AT_A_TIME * chunks
    {
      last := cur + processed;
      chunks := chunks + 1;
      count, buffer := ReadChunk(image, n, cur + processed);
      if !skipZeros {
        return;
      }
      processed := processed + |buffer| / SECTOR;
      var skipInBuffer, found := SkipInBuffer(image, last, last + count, buffer);
      sectorsToSkip := sectorsToSkip + skipInBuffer;
      ZeroJoin(image, cur, last, last + skipInBuffer);
      if found {
        SomeZero(image, last, last + count, skipInBuffer);
        break;
      }
    }
    ZeroRunIs(image, n, cur, sectorsToSkip);
    LastIs(image, n, cur, last, chunks - 1);
  }

  /** The chunk that was read last is the one where the zeros end. */
  lemma LastIs(image: seq<Byte>, n: nat, cur: nat, last: nat, k: nat)
    requires IsInput(image, n) && cur <= last < n && last == cur + SECTORS_AT_A_TIME * k
    requires var end := cur + ZeroRun(image, n, cur);
      last <= end && if end < n then end < ChunkEnd(n, last) else ChunkEnd(n, last) == n
    ensures last == LastChunk(image, n, cur)
  {
    var z := ZeroRun(image, n, cur);
    var y := if cur + z < n then z else z - 1;
    assert SECTORS_AT_A_TIME * k <= y < SECTORS_AT_A_TIME * (k + 1);
  }

  lemma NoSectors(image: seq<Byte>, s: nat)
    requires SECTOR * s <= |image|
    ensures Zero(Sectors(image, s, s))
  {}

  lemma SomeZero(image: seq<Byte>, s: nat, e: nat, k: nat)
    requires s + k < e && SECTOR * e <= |image| && !Zero(Sectors(image, s + k, s + k + 1))
    ensures !Zero(Sectors(image, s, e))
  {
    hide Zero, Sectors;
    ZeroJoin(image, s, s + k, e);
    ZeroJoin(image, s + k, s + k + 1, e);
  }

  // ----- What is kept -----

  /** Up to here all is well: zeros are being skipped, or nothing but zeros is left, or no chunk was zero. */
  ghost predicate WellSoFar(image: seq<Byte>, n: nat, cur: nat, threshold: nat)
    requires |image| == SECTOR * n && cur <= n
  {
    || (threshold == 0 && ZerosApart(image, n))
    || (Zero(Sectors(image, cur, n)) && ZerosApart(image, n))
    || (threshold == IGNORE_THRESHOLD && (cur % SECTORS_AT_A_TIME == 0 || cur == n) && NoZeroChunk(image, n, cur))
  }

  /** What is kept of the input is right so far and may still stay so, or it is wrong and had to become so. */
  ghost predicate Progress(image: seq<Byte>, n: nat, cur: nat, threshold: nat, kept: seq<Byte>)
    requires |image| == SECTOR * n
  {
    && cur <= n && |kept| == SECTOR * cur
    && if kept == image[..SECTOR * cur] then WellSoFar(image, n, cur, threshold) else !ZerosApart(image, n)
  }

  lemma ProgressDone(image: seq<Byte>, n: nat, threshold: nat, kept: seq<Byte>)
    requires |image| == SECTOR * n && Progress(image, n, n, threshold, kept)
    ensures kept == image <==> ZerosApart(image, n)
  {
    hide Zero, LongZeros;
    assert image[..SECTOR * n] == image;
    if NoZeroChunk(image, n, n) {
      assert ZerosApart(image, n);
    }
  }

  /** Once wrong, always wrong. */
  lemma PrefixGrows(image: seq<Byte>, kept: seq<Byte>, more: seq<Byte>)
    requires |kept| + |more| <= |image|
    ensures kept + more == image[..|kept| + |more|] <==> kept == image[..|kept|] && more == image[|kept|..|kept| + |more|]
  {
    var both := image[..|kept| + |more|];
    assert both == image[..|kept|] + image[|kept|..|kept| + |more|];
    if kept + more == both {
      assert kept == both[..|kept|] && more == both[|kept|..];
    }
  }

  /** At a chunk that is zero, the first of its kind. */
  lemma AtZeroChunk(image: seq<Byte>, n: nat, cur: nat)
    requires |image| == SECTOR * n && cur % SECTORS_AT_A_TIME == 0 && NoZeroChunk(image, n, cur) && ZeroChunk(image, n, cur)
    ensures ZerosApart(image, n) <==> LongZeros(image, n, cur)
  {
    hide ZeroChunk, ZerosApart, NoZeroChunk, LongZeros;
    assert cur == SECTORS_AT_A_TIME * (cur / SECTORS_AT_A_TIME);
    FirstZeroChunk(image, n, cur / SECTORS_AT_A_TIME);
  }

  lemma PastChunk(image: seq<Byte>, n: nat, cur: nat)
    requires |image| == SECTOR * n && cur < n && cur % SECTORS_AT_A_TIME == 0
    requires NoZeroChunk(image, n, cur) && !ZeroChunk(image, n, cur)
    ensures NoZeroChunk(image, n, ChunkEnd(n, cur))
    ensures ChunkEnd(n, cur) % SECTORS_AT_A_TIME == 0 || ChunkEnd(n, cur) == n
  {
    hide ZeroChunk;
    forall k: nat | SECTORS_AT_A_TIME * k < ChunkEnd(n, cur) ensures !ZeroChunk(image, n, SECTORS_AT_A_TIME * k) {
      if SECTORS_AT_A_TIME * k >= cur {
        assert k == cur / SECTORS_AT_A_TIME;
      }
    }
  }

  /** Zeros so many that they are skipped reach over the chunk at hand. */
  lemma ManyZeros(image: seq<Byte>, n: nat, cur: nat)
    requires |image| == SECTOR * n && cur < n
    requires cur + ZeroRun(image, n, cur) >= ChunkEnd(n, cur)
    ensures ZeroChunk(image, n, cur)
  {
    ZeroJoin(image, cur, ChunkEnd(n, cur), cur + ZeroRun(image, n, cur));
  }

  /** One step further. */
  lemma ProgressStep(image: seq<Byte>, n: nat, cur: nat, next: nat, threshold: nat, threshold': nat,
                     kept: seq<Byte>, more: seq<Byte>)
    requires |image| == SECTOR * n && Progress(image, n, cur, threshold, kept)
    requires cur <= next <= n && |more| == SECTOR * (next - cur)
    requires WellSoFar(image, n, cur, threshold) ==>
      if more == Sectors(image, cur, next) then WellSoFar(image, n, next, threshold') else !ZerosApart(image, n)
    ensures Progress(image, n, next, threshold', kept + more)
  {
    hide ZerosApart, WellSoFar;
    PrefixGrows(image, kept, more);
  }

  /** Skipping zeros. */
  lemma ProgressSkip(image: seq<Byte>, n: nat, cur: nat, threshold: nat, kept: seq<Byte>, zeros: seq<Byte>)
    requires |image| == SECTOR * n && Progress(image, n, cur, threshold, kept) && cur < n
    requires ZeroRun(image, n, cur) > threshold && Zero(zeros) && |zeros| == SECTOR * ZeroRun(image, n, cur)
    ensures Progress(image, n, cur + ZeroRun(image, n, cur), 0, kept + zeros)
  {
    hide ZeroRun, NoZeroChunk, ZeroChunk, ZerosApart, Zero, Sectors;
    var next := cur + ZeroRun(image, n, cur);
    ZerosEqual(zeros, Sectors(image, cur, next));
    if WellSoFar(image, n, cur, threshold) && !ZerosApart(image, n) {
      ManyZeros(image, n, cur);
      AtZeroChunk(image, n, cur);
    }
    ProgressStep(image, n, cur, next, threshold, 0, kept, zeros);
  }

  lemma ZeroRunAtLeast(image: seq<Byte>, n: nat, s: nat, e: nat)
    requires |image| == SECTOR * n && s <= e <= n && Zero(Sectors(image, s, e))
    ensures s + ZeroRun(image, n, s) >= e
  {
    hide Zero, Sectors;
    var y := ZeroRun(image, n, s);
    if s + y < e {
      ZeroJoin(image, s, s + y, e);
      ZeroJoin(image, s + y, s + y + 1, e);
    }
  }

  /** The chunk stored is the one at hand. */
  lemma SameChunk(image: seq<Byte>, n: nat, cur: nat, threshold: nat)
    requires |image| == SECTOR * n && cur < n && WellSoFar(image, n, cur, threshold)
    requires ChunkEnd(n, cur) == n || !Zero(Sectors(image, cur, ChunkEnd(n, cur)))
    ensures WellSoFar(image, n, ChunkEnd(n, cur), threshold)
  {
    hide Zero, Sectors, NoZeroChunk, ZerosApart, ZeroRun;
    if Zero(Sectors(image, cur, n)) && ZerosApart(image, n) {
      ZeroJoin(image, cur, ChunkEnd(n, cur), n);
    } else if threshold == IGNORE_THRESHOLD {
      if ZeroChunk(image, n, cur) {
        ZeroRunAtLeast(image, n, cur, n);
        AtZeroChunk(image, n, cur);
        NoSectors(image, n);
      } else {
        PastChunk(image, n, cur);
      }
    }
  }

  /** Where nothing but zeros is left, any chunk will do. */
  lemma OnlyZeros(image: seq<Byte>, n: nat, cur: nat, threshold: nat, next: nat)
    requires |image| == SECTOR * n && cur <= next <= n && ChunkEnd(n, cur) <= n && cur < n
    requires WellSoFar(image, n, cur, threshold) && Zero(Sectors(image, cur, n))
    ensures WellSoFar(image, n, next, threshold) && Zero(Sectors(image, cur, next))
  {
    hide Zero, Sectors, NoZeroChunk, ZerosApart, ZeroRun;
    ZeroJoin(image, cur, next, n);
    if !ZerosApart(image, n) {
      ZeroRunAtLeast(image, n, cur, n);
      ManyZeros(image, n, cur);
      AtZeroChunk(image, n, cur);
    }
  }

  /** A chunk that is not zero, stored where zeros belong. */
  lemma Misplaced(image: seq<Byte>, n: nat, cur: nat, threshold: nat, last: nat)
    requires |image| == SECTOR * n && cur + SECTORS_AT_A_TIME <= last < n && WellSoFar(image, n, cur, threshold)
    requires Zero(Sectors(image, cur, last)) && !Zero(Sectors(image, last, ChunkEnd(n, last)))
    requires ZeroRun(image, n, cur) <= threshold && (threshold == 0 || threshold == IGNORE_THRESHOLD)
    ensures !ZerosApart(image, n)
  {
    hide Zero, Sectors, NoZeroChunk, ZerosApart, ZeroRun;
    ZeroRunAtLeast(image, n, cur, last);
    ManyZeros(image, n, cur);
    ZeroJoin(image, cur, last, n);
    ZeroJoin(image, last, ChunkEnd(n, last), n);
    AtZeroChunk(image, n, cur);
  }

  /** Storing a chunk. */
  lemma ProgressData(image: seq<Byte>, n: nat, cur: nat, threshold: nat, kept: seq<Byte>, last: nat, buffer: seq<Byte>)
    requires |image| == SECTOR * n && Progress(image, n, cur, threshold, kept) && cur <= last < n
    requires buffer == Sectors(image, last, ChunkEnd(n, last)) && Zero(Sectors(image, cur, last))
    requires last == cur || cur + SECTORS_AT_A_TIME <= last
    requires ChunkEnd(n, last) == n || !Zero(buffer)
    requires ZeroRun(image, n, cur) <= threshold && (threshold == 0 || threshold == IGNORE_THRESHOLD)
    ensures cur + ChunkEnd(n, last) - last <= n
    ensures Progress(image, n, cur + ChunkEnd(n, last) - last, threshold, kept + buffer)
  {
    hide Zero, Sectors, NoZeroChunk, ZeroChunk, ZerosApart, ZeroRun, WellSoFar, Progress;
    var next := cur + ChunkEnd(n, last) - last;
    if WellSoFar(image, n, cur, threshold) {
      if last == cur {
        SameChunk(image, n, cur, threshold);
      } else if Zero(buffer) {
        ZeroJoin(image, cur, last, n);
        OnlyZeros(image, n, cur, threshold, next);
        ZerosEqual(Sectors(image, cur, next), buffer);
      } else {
        Misplaced(image, n, cur, threshold, last);
        ZeroJoin(image, cur, next, last);
      }
    }
    ProgressStep(image, n, cur, next, threshold, threshold, kept, buffer);
  }

  lemma ZerosEqual(s: seq<Byte>, t: seq<Byte>)
    requires Zero(s) && Zero(t) && |s| == |t|
    ensures s == t
  {}

  /** An input of two chunks, of which the first is zero and the second is not. */
  lemma ZeroChunkLost()
    ensures var image := seq(2 * SECTOR * SECTORS_AT_A_TIME, i => if i < SECTOR * SECTORS_AT_A_TIME then 0 else 1);
      !ZerosApart(image, 2 * SECTORS_AT_A_TIME)
  {
    var image: seq<Byte> := seq(2 * SECTOR * SECTORS_AT_A_TIME, i => if i < SECTOR * SECTORS_AT_A_TIME then 0 else 1);
    var n := 2 * SECTORS_AT_A_TIME;
    assert Zero(Sectors(image, 0, SECTORS_AT_A_TIME));
    assert Sectors(image, SECTORS_AT_A_TIME, SECTORS_AT_A_TIME + 1)[0] == 1;
    ZeroRunIs(image, n, 0, SECTORS_AT_A_TIME);
    assert ZeroChunk(image, n, SECTORS_AT_A_TIME * 0) && NoZeroChunk(image, n, SECTORS_AT_A_TIME * 0);
    assert !LongZeros(image, n, SECTORS_AT_A_TIME * 0);
  }
}
