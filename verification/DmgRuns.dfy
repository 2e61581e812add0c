/** The runs of a disk image: which sectors each of them covers, where its bytes are, and what they mean. */
module DmgRuns {
  import opened Bits
  import opened Codecs
  import opened Collections
  import opened Extents

  const SECTOR := 512
  const SECTORS_AT_A_TIME := 0x200
  const BUFFER_SIZE := SECTOR * 0x208

  datatype Kind = Zlib | Raw | Ignore | Comment | Terminator | Other

  datatype Run = Run(kind: Kind, sectorStart: nat, sectorCount: nat, compOffset: nat, compLength: nat)

  /** The library's output is never empty, and that for one chunk fits into the buffer. */
  ghost predicate Usable(c: Codec) {
    Inverse(c) && forall s | |s| <= SECTOR * SECTORS_AT_A_TIME :: 0 < |c.deflate(s)| <= BUFFER_SIZE
  }

  // ----- Sectors -----

  ghost function Sectors(image: seq<Byte>, a: nat, b: nat): (s: seq<Byte>)
    requires a <= b && SECTOR * b <= |image|
    ensures |s| == SECTOR * (b - a)
  {
    image[SECTOR * a..SECTOR * b]
  }

  ghost predicate Zero(s: seq<Byte>) {
    forall i | 0 <= i < |s| :: s[i] == 0
  }

  lemma ZeroParts(s: seq<Byte>, t: seq<Byte>)
    ensures Zero(s + t) <==> Zero(s) && Zero(t)
  {
    if Zero(s + t) {
      forall i | 0 <= i < |s| ensures s[i] == 0 {
        assert (s + t)[i] == 0;
      }
      forall i | 0 <= i < |t| ensures t[i] == 0 {
        assert (s + t)[|s| + i] == 0;
      }
    }
  }

  lemma SectorsJoin(image: seq<Byte>, a: nat, b: nat, d: nat)
    requires a <= b <= d && SECTOR * d <= |image|
    ensures Sectors(image, a, d) == Sectors(image, a, b) + Sectors(image, b, d)
  {}

  lemma ZeroJoin(image: seq<Byte>, a: nat, b: nat, d: nat)
    requires a <= b <= d && SECTOR * d <= |image|
    ensures Zero(Sectors(image, a, d)) <==> Zero(Sectors(image, a, b)) && Zero(Sectors(image, b, d))
  {
    hide Sectors, Zero;
    SectorsJoin(image, a, b, d);
    ZeroParts(Sectors(image, a, b), Sectors(image, b, d));
  }

  /** How many sectors from one on are zero. */
  ghost function ZeroRun(image: seq<Byte>, n: nat, s: nat): (z: nat)
    requires |image| == SECTOR * n && s <= n
    ensures s + z <= n && Zero(Sectors(image, s, s + z))
    ensures s + z < n ==> !Zero(Sectors(image, s + z, s + z + 1))
    decreases n - s
  {
    if s < n && Zero(Sectors(image, s, s + 1)) then
      var z := ZeroRun(image, n, s + 1);
      ZeroJoin(image, s, s + 1, s + 1 + z);
      1 + z
    else 0
  }

  /** There is only one such number. */
  lemma ZeroRunIs(image: seq<Byte>, n: nat, s: nat, z: nat)
    requires |image| == SECTOR * n && s + z <= n && Zero(Sectors(image, s, s + z))
    requires s + z < n ==> !Zero(Sectors(image, s + z, s + z + 1))
    ensures z == ZeroRun(image, n, s)
  {
    hide Zero, Sectors;
    var y := ZeroRun(image, n, s);
    if y < z {
      ZeroJoin(image, s, s + y, s + z);
      ZeroJoin(image, s + y, s + y + 1, s + z);
    } else if z < y {
      ZeroJoin(image, s, s + z, s + y);
      ZeroJoin(image, s + z, s + z + 1, s + y);
    }
  }

  // ----- Chunks of an input that are zero -----

  function ChunkEnd(n: nat, s: nat): (e: nat)
    ensures s < n ==> s < e <= n
  {
    if s + SECTORS_AT_A_TIME < n then s + SECTORS_AT_A_TIME else n
  }

  ghost predicate ZeroChunk(image: seq<Byte>, n: nat, s: nat)
    requires |image| == SECTOR * n
  {
    s < n && Zero(Sectors(image, s, ChunkEnd(n, s)))
  }

  /** None of the chunks in front of a sector is zero. */
  ghost predicate NoZeroChunk(image: seq<Byte>, n: nat, s: nat)
    requires |image| == SECTOR * n
  {
    forall k: nat | SECTORS_AT_A_TIME * k < s :: !ZeroChunk(image, n, SECTORS_AT_A_TIME * k)
  }

  const IGNORE_THRESHOLD := 100000

  /** If some chunk is zero, then the zeros from the first such chunk on go to the end of the input, or are more
      than the threshold. */
  ghost predicate ZerosApart(image: seq<Byte>, n: nat)
    requires |image| == SECTOR * n
  {
    forall k: nat | ZeroChunk(image, n, SECTORS_AT_A_TIME * k) && NoZeroChunk(image, n, SECTORS_AT_A_TIME * k) ::
      LongZeros(image, n, SECTORS_AT_A_TIME * k)
  }

  ghost predicate LongZeros(image: seq<Byte>, n: nat, s: nat)
    requires |image| == SECTOR * n
  {
    s <= n && (ZeroRun(image, n, s) > 100000 || s + ZeroRun(image, n, s) == n)
  }

  lemma NotBefore(image: seq<Byte>, n: nat, j: nat, k: nat)
    requires |image| == SECTOR * n && ZeroChunk(image, n, SECTORS_AT_A_TIME * j) && NoZeroChunk(image, n, SECTORS_AT_A_TIME * k)
    ensures k <= j
  {}

  /** There is only one first chunk. */
  lemma FirstZeroChunk(image: seq<Byte>, n: nat, k: nat)
    requires |image| == SECTOR * n && ZeroChunk(image, n, SECTORS_AT_A_TIME * k) && NoZeroChunk(image, n, SECTORS_AT_A_TIME * k)
    ensures ZerosApart(image, n) <==> LongZeros(image, n, SECTORS_AT_A_TIME * k)
  {
    hide ZeroChunk, LongZeros;
    forall j: nat | ZeroChunk(image, n, SECTORS_AT_A_TIME * j) && NoZeroChunk(image, n, SECTORS_AT_A_TIME * j)
      ensures j == k
    {
      NotBefore(image, n, j, k);
      NotBefore(image, n, k, j);
    }
  }

  // ----- Tables -----

  /** The sector behind the last run. */
  function End(runs: seq<Run>): nat {
    if runs == [] then 0 else runs[|runs| - 1].sectorStart + runs[|runs| - 1].sectorCount
  }

  ghost predicate Follows(runs: seq<Run>, i: nat)
    requires i < |runs|
  {
    && runs[i].sectorStart == End(runs[..i]) && runs[i].kind != Terminator
    && (runs[i].kind == Comment <==> runs[i].sectorCount == 0)
  }

  /** The runs cover the sectors up to one, each once and in order; only comments cover none. */
  ghost predicate Tiled(runs: seq<Run>, n: nat) {
    End(runs) == n && forall i: nat | i < |runs| :: Follows(runs, i)
  }

  lemma TiledMore(runs: seq<Run>, n: nat, r: Run)
    requires Tiled(runs, n) && r.sectorStart == n && r.kind != Terminator && (r.kind == Comment <==> r.sectorCount == 0)
    ensures Tiled(runs + [r], n + r.sectorCount)
  {
    var more := runs + [r];
    forall i: nat | i < |more| ensures Follows(more, i) {
      if i < |runs| {
        assert Follows(runs, i) && more[..i] == runs[..i];
      } else {
        assert more[..i] == runs;
      }
    }
  }

  /** What is in the file for a run is a part of the image. */
  ghost predicate Gives(c: Codec, file: seq<Byte>, dataStart: nat, r: Run, image: seq<Byte>) {
    var from, to := SECTOR * r.sectorStart, SECTOR * (r.sectorStart + r.sectorCount);
    && to <= |image| && dataStart + r.compOffset + r.compLength <= |file|
    && var data := file[dataStart + r.compOffset..dataStart + r.compOffset + r.compLength];
    match r.kind
    case Zlib => 0 < r.compLength <= BUFFER_SIZE && c.inflate(data) == image[from..to] && to - from <= 0x1_0000_0000
    case Raw => r.compLength > 0 && data == image[from..to] && to - from <= 0x1_0000_0000
    case Ignore => r.compLength == 0 && Zero(image[from..to])
    case Comment => r.compLength == 0 && from == to
    case _ => false
  }

  /** Its bytes are no more than what they mean, so that they fit into a buffer of that size. */
  predicate Cacheable(r: Run) {
    r.kind == Zlib ==> r.compLength <= SECTOR * r.sectorCount
  }

  predicate AllCacheable(runs: seq<Run>) {
    forall i | 0 <= i < |runs| :: Cacheable(runs[i])
  }

  lemma CacheableMore(runs: seq<Run>, r: Run)
    ensures AllCacheable(runs + [r]) <==> AllCacheable(runs) && Cacheable(r)
  {
    hide Cacheable;
    var more := runs + [r];
    if AllCacheable(more) {
      assert Cacheable(more[|runs|]);
      forall i | 0 <= i < |runs| ensures Cacheable(runs[i]) {
        assert more[i] == runs[i];
      }
    }
  }

  /** Appending to the file or to the image leaves a run what it is. */
  lemma GivesStill(c: Codec, file: seq<Byte>, dataStart: nat, r: Run, image: seq<Byte>, file': seq<Byte>, image': seq<Byte>)
    requires Gives(c, file, dataStart, r, image) && file <= file' && image <= image'
    ensures Gives(c, file', dataStart, r, image')
  {
    var from, to := SECTOR * r.sectorStart, SECTOR * (r.sectorStart + r.sectorCount);
    var a, b := dataStart + r.compOffset, dataStart + r.compOffset + r.compLength;
    PrefixSlice(file, file', a, b);
    PrefixSlice(image, image', from, to);
  }

  lemma PrefixSlice(s: seq<Byte>, t: seq<Byte>, a: nat, b: nat)
    requires s <= t && a <= b <= |s|
    ensures s[a..b] == t[a..b]
  {
    assert s == t[..|s|];
    SliceOfSlice(t, 0, |s|, a, b - a);
  }

  /** All runs give their parts of the image. */
  ghost predicate AllGive(c: Codec, file: seq<Byte>, dataStart: nat, runs: seq<Run>, image: seq<Byte>) {
    forall i: nat | i < |runs| :: Gives(c, file, dataStart, runs[i], image)
  }

  lemma AllGiveMore(c: Codec, file: seq<Byte>, dataStart: nat, runs: seq<Run>, image: seq<Byte>, r: Run,
                    file': seq<Byte>, image': seq<Byte>)
    requires AllGive(c, file, dataStart, runs, image) && file <= file' && image <= image'
    requires Gives(c, file', dataStart, r, image')
    ensures AllGive(c, file', dataStart, runs + [r], image')
  {
    hide Gives;
    var more := runs + [r];
    forall i: nat | i < |more| ensures Gives(c, file', dataStart, more[i], image') {
      if i < |runs| {
        GivesStill(c, file, dataStart, runs[i], image, file', image');
      }
    }
  }

  /** A table of the image: runs that cover it and give its parts, and a terminator. */
  ghost predicate TableOf(c: Codec, file: seq<Byte>, dataStart: nat, runs: seq<Run>, image: seq<Byte>, n: nat) {
    && |image| == SECTOR * n && |runs| > 0
    && Tiled(runs[..|runs| - 1], n) && AllGive(c, file, dataStart, runs[..|runs| - 1], image)
    && runs[|runs| - 1].kind == Terminator && runs[|runs| - 1].sectorCount == 0 && runs[|runs| - 1].sectorStart == n
  }
}
