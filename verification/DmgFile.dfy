/** Reading a disk image through a cache of one run. */
module DmgFile {
  import opened Bits
  import opened Codecs
  import opened Collections
  import opened DmgInput
  import opened DmgIo
  import opened DmgLayout
  import opened DmgPlan
  import opened DmgRuns
  import opened Extents
  import opened Numbers
  import opened Wrappers

  datatype Table = Table(firstSectorNumber: nat, sectorCount: nat, dataStart: nat, runs: seq<Run>)

  /** A run as seen from the beginning of the image. */
  function Shifted(t: Table, j: nat): Run
    requires j < |t.runs|
  {
    t.runs[j].(sectorStart := t.firstSectorNumber + t.runs[j].sectorStart)
  }

  predicate InTable(t: Table, sector: nat) {
    t.firstSectorNumber <= sector < t.firstSectorNumber + t.sectorCount
  }

  predicate InRun(t: Table, j: nat, sector: nat)
    requires j < |t.runs|
  {
    t.firstSectorNumber + t.runs[j].sectorStart <= sector < t.firstSectorNumber + t.runs[j].sectorStart + t.runs[j].sectorCount
  }

  ghost predicate Covered(tables: seq<Table>, sector: nat) {
    exists i, j :: 0 <= i < |tables| && InTable(tables[i], sector) && 0 <= j < |tables[i].runs| && InRun(tables[i], j, sector)
  }

  /** The tables describe the image: every run that covers a sector gives its part of the image, and its bytes fit into
      the buffer into which they are read, which is as large as that part; and every sector of the image is covered. */
  ghost predicate Describe(c: Codec, file: seq<Byte>, tables: seq<Table>, image: seq<Byte>) {
    && (forall i: nat, j: nat | i < |tables| && j < |tables[i].runs| && tables[i].runs[j].sectorCount > 0 ::
      Gives(c, file, tables[i].dataStart, Shifted(tables[i], j), image) && Cacheable(tables[i].runs[j]))
    && (forall s: nat | SECTOR * s < |image| :: Covered(tables, s))
  }

  /** What the cache of a run is to hold. */
  lemma RunData(c: Codec, file: seq<Byte>, tables: seq<Table>, image: seq<Byte>, i: nat, j: nat)
    requires Describe(c, file, tables, image) && i < |tables| && j < |tables[i].runs| && tables[i].runs[j].sectorCount > 0
    ensures var r := Shifted(tables[i], j);
      && Gives(c, file, tables[i].dataStart, r, image) && Cacheable(tables[i].runs[j])
      && SECTOR * (r.sectorStart + r.sectorCount) <= |image|
      && tables[i].dataStart + r.compOffset + r.compLength <= |file|
  {}

  lemma ReadsZero(c: Codec, file: seq<Byte>, dataStart: nat, r: Run, image: seq<Byte>, zeros: seq<Byte>)
    requires Gives(c, file, dataStart, r, image) && r.kind != Zlib && r.kind != Raw
    requires Zero(zeros) && |zeros| == SECTOR * r.sectorCount
    ensures SECTOR * (r.sectorStart + r.sectorCount) <= |image|
    ensures zeros == image[SECTOR * r.sectorStart..SECTOR * (r.sectorStart + r.sectorCount)]
  {
    ZerosEqual(zeros, image[SECTOR * r.sectorStart..SECTOR * (r.sectorStart + r.sectorCount)]);
  }

  class Dmg {
    const codec: Codec
    const dmg: seq<Byte>
    const tables: seq<Table>
    var offset: nat
    var runData: seq<Byte>
    var runStart: nat
    var runEnd: nat
    ghost const image: seq<Byte>

    ghost predicate Described() {
      Describe(codec, dmg, tables, image)
    }

    /** The cache holds a part of the image. Where it is longer than an unsigned number of 32 bits tells, it is zero. */
    ghost predicate CacheOK()
      reads this
    {
      && runStart < runEnd <= |image| && runData == image[runStart..runEnd]
      && (runEnd - runStart <= TWO32 || Zero(runData))
    }

    /** Fetches a run. */
    method CacheRun(i: nat, run: nat)
      requires Described() && i < |tables| && run < |tables[i].runs| && tables[i].runs[run].sectorCount > 0
      modifies this`runData, this`runStart, this`runEnd
      ensures CacheOK()
      ensures runStart == SECTOR * (tables[i].firstSectorNumber + tables[i].runs[run].sectorStart)
      ensures runEnd == runStart + SECTOR * tables[i].runs[run].sectorCount
    {
      hide Describe;
      var t := tables[i];
      var r := t.runs[run];
      RunData(codec, dmg, tables, image, i, run);
      var bufferSize := SECTOR * r.sectorCount;
      runData := seq(bufferSize, _ => 0);
      var part := dmg[t.dataStart + r.compOffset..t.dataStart + r.compOffset + r.compLength];
      runStart := SECTOR * (r.sectorStart + t.firstSectorNumber);
      runEnd := runStart + SECTOR * r.sectorCount;
      if r.kind == Zlib {
        assert |part| <= bufferSize;
        runData := codec.inflate(part);
      } else if r.kind == Raw {
        runData := part + runData[|part|..];
      } else {
        ReadsZero(codec, dmg, t.dataStart, Shifted(t, run), image, runData);
      }
    }

    /** Fetches the run, or the runs one after the other, in which a location lies. */
    method CacheOffset(location: nat)
      requires Described()
      modifies this`runData, this`runStart, this`runEnd
      ensures location < |image| ==> CacheOK() && runStart <= location < runEnd
      ensures old(CacheOK()) ==> CacheOK()
    {
      hide Describe, CacheOK;
      var sector := location / SECTOR;
      ghost var found := false;
      var i := 0;
      while i < |tables|
        invariant i <= |tables| && (old(CacheOK()) ==> CacheOK())
        invariant found ==> CacheOK() && runStart <= location < runEnd
        invariant !found ==> NotYet(tables[..i], sector)
      {
        if InTable(tables[i], sector) {
          var j := 0;
          while j < |tables[i].runs|
            invariant j <= |tables[i].runs| && (old(CacheOK()) ==> CacheOK())
            invariant found ==> CacheOK() && runStart <= location < runEnd
            invariant !found ==> NotYet(tables[..i], sector) && NotIn(tables[i], j, sector)
          {
            if InRun(tables[i], j, sector) {
              CacheRun(i, j);
              found := true;
            }
            j := j + 1;
          }
        }
        i := i + 1;
      }
      if location < |image| {
        FoundSomewhere(codec, dmg, tables, image, sector);
        assert tables[..i] == tables;
      }
    }

    /** Reads bytes of the image behind the partition's offset, run by run. */
    method Read(location: nat, size: nat) returns (buffer: seq<Byte>)
      requires Described() && CacheOK() && offset + location + size <= |image|
      modifies this`runData, this`runStart, this`runEnd
      ensures CacheOK() && buffer == image[offset + location..offset + location + size]
      decreases size
    {
      hide Described, CacheOK;
      var at := location + offset;
      if size == 0 {
        return [];
      }
      if at < runStart || at >= runEnd {
        CacheOffset(at);
      }
      CacheInside();
      var toRead := if at + size > runEnd then runEnd - at else size;
      var from := (at - runStart) % TWO32;
      CachedPart(at, toRead);
      buffer := runData[from..from + toRead];
      if toRead < size {
        var rest := Read(at + toRead - offset, size - toRead);
        buffer := buffer + rest;
        SliceJoin(image, at, at + toRead, at + size);
      }
    }

    lemma CacheInside()
      requires CacheOK()
      ensures runStart < runEnd <= |image|
    {}

    /** The part of the cache that is copied. */
    lemma CachedPart(at: nat, toRead: nat)
      requires CacheOK() && runStart <= at && at + toRead <= runEnd
      ensures var from := (at - runStart) % TWO32;
        from + toRead <= |runData| && runData[from..from + toRead] == image[at..at + toRead]
    {
      var from := (at - runStart) % TWO32;
      if toRead > 0 {
        assert from <= at - runStart;
        if runEnd - runStart <= TWO32 {
          SliceOfSlice(image, runStart, runEnd - runStart, from, toRead);
        } else {
          SliceOfSlice(image, runStart, runEnd - runStart, at - runStart, toRead);
          ZerosEqual(runData[from..from + toRead], runData[at - runStart..at - runStart + toRead]);
        }
      }
    }

    /** Opening an image fetches its first run. */
    constructor (codec: Codec, dmg: seq<Byte>, tables: seq<Table>, ghost image: seq<Byte>)
      requires Describe(codec, dmg, tables, image) && image != []
      ensures Described() && CacheOK() && this.image == image && offset == 0
      ensures this.codec == codec && this.dmg == dmg && this.tables == tables
    {
      this.codec, this.dmg, this.tables, this.image := codec, dmg, tables, image;
      offset, runData, runStart, runEnd := 0, [], 0, 0;
      new;
      CacheOffset(0);
    }
  }

  lemma SliceJoin(s: seq<Byte>, a: nat, b: nat, d: nat)
    requires a <= b <= d <= |s|
    ensures s[a..b] + s[b..d] == s[a..d]
  {}

  ghost predicate NotIn(t: Table, n: nat, sector: nat) {
    forall j | 0 <= j < n && j < |t.runs| :: !InRun(t, j, sector)
  }

  ghost predicate NotYet(tables: seq<Table>, sector: nat) {
    forall t | t in tables :: InTable(t, sector) ==> NotIn(t, |t.runs|, sector)
  }

  lemma FoundSomewhere(c: Codec, file: seq<Byte>, tables: seq<Table>, image: seq<Byte>, sector: nat)
    requires Describe(c, file, tables, image) && SECTOR * sector < |image|
    ensures !NotYet(tables, sector)
  {
    assert Covered(tables, sector);
  }

  // ----- From tables to descriptions -----

  /** A table of a part of an image describes that part of the image. */
  ghost predicate Part(c: Codec, file: seq<Byte>, t: Table, image: seq<Byte>) {
    && SECTOR * (t.firstSectorNumber + t.sectorCount) <= |image|
    && TableOf(c, file, t.dataStart, t.runs, Sectors(image, t.firstSectorNumber, t.firstSectorNumber + t.sectorCount), t.sectorCount)
  }

  ghost predicate InSomeTable(tables: seq<Table>, s: nat) {
    exists i :: 0 <= i < |tables| && InTable(tables[i], s)
  }

  /** Every sector of the image is one of some table's. */
  ghost predicate Partition(tables: seq<Table>, n: nat) {
    forall s: nat | s < n :: InSomeTable(tables, s)
  }

  lemma ShiftedGives(c: Codec, file: seq<Byte>, t: Table, image: seq<Byte>, j: nat)
    requires Part(c, file, t, image) && j < |t.runs| && t.runs[j].sectorCount > 0
    ensures Gives(c, file, t.dataStart, Shifted(t, j), image)
  {
    var r := t.runs[j];
    var part := Sectors(image, t.firstSectorNumber, t.firstSectorNumber + t.sectorCount);
    assert t.runs[..|t.runs| - 1][j] == r;
    assert Gives(c, file, t.dataStart, r, part);
    SliceOfSlice(image, SECTOR * t.firstSectorNumber, SECTOR * t.sectorCount, SECTOR * r.sectorStart, SECTOR * r.sectorCount);
  }

  /** Every sector of a table lies in one of its runs. */
  lemma {:induction false} RunOf(runs: seq<Run>, n: nat, s: nat) returns (j: nat)
    requires Tiled(runs, n) && s < n
    ensures j < |runs| && runs[j].sectorStart <= s < runs[j].sectorStart + runs[j].sectorCount
  {
    j := |runs| - 1;
    assert Follows(runs, j);
    if s < runs[j].sectorStart {
      var fewer := runs[..j];
      forall i: nat | i < j ensures Follows(fewer, i) {
        assert Follows(runs, i) && fewer[..i] == runs[..i];
      }
      j := RunOf(fewer, runs[j].sectorStart, s);
    }
  }

  lemma SectorCovered(c: Codec, file: seq<Byte>, tables: seq<Table>, image: seq<Byte>, i: nat, s: nat)
    requires i < |tables| && InTable(tables[i], s) && Part(c, file, tables[i], image)
    ensures Covered(tables, s)
  {
    hide AllGive;
    var t := tables[i];
    var j := RunOf(t.runs[..|t.runs| - 1], t.sectorCount, s - t.firstSectorNumber);
    assert t.runs[j] == t.runs[..|t.runs| - 1][j];
    assert InRun(t, j, s);
  }

  /** Tables of the parts of an image, as they are made when sectors are put into it, describe the image. */
  lemma PartsDescribe(c: Codec, file: seq<Byte>, tables: seq<Table>, image: seq<Byte>, n: nat)
    requires |image| == SECTOR * n && Partition(tables, n)
    requires forall t | t in tables :: Part(c, file, t, image) && AllCacheable(t.runs)
    ensures Describe(c, file, tables, image)
  {
    hide Part, Covered, Gives, InTable, Cacheable;
    forall i: nat, j: nat | i < |tables| && j < |tables[i].runs| && tables[i].runs[j].sectorCount > 0
      ensures Gives(c, file, tables[i].dataStart, Shifted(tables[i], j), image) && Cacheable(tables[i].runs[j])
    {
      ShiftedGives(c, file, tables[i], image, j);
      assert AllCacheable(tables[i].runs);
    }
    forall s: nat | SECTOR * s < |image| ensures Covered(tables, s) {
      assert InSomeTable(tables, s);
      var i :| 0 <= i < |tables| && InTable(tables[i], s);
      SectorCovered(c, file, tables, image, i, s);
    }
  }

  datatype Place = Place(at: nat, size: nat)

  /** Any reads, one after the other, give what lies in the image at their places. */
  method ReadAll(d: Dmg, places: seq<Place>) returns (buffers: seq<seq<Byte>>)
    requires d.Described() && d.CacheOK()
    requires forall p | p in places :: d.offset + p.at + p.size <= |d.image|
    modifies d`runData, d`runStart, d`runEnd
    ensures d.CacheOK() && |buffers| == |places|
    ensures forall i | 0 <= i < |places| ::
      buffers[i] == d.image[d.offset + places[i].at..d.offset + places[i].at + places[i].size]
  {
    hide Dmg.Described, Dmg.CacheOK;
    buffers := [];
    for i := 0 to |places|
      invariant d.CacheOK() && |buffers| == i
      invariant forall k | 0 <= k < i ::
        buffers[k] == d.image[d.offset + places[k].at..d.offset + places[k].at + places[k].size]
    {
      assert places[i] in places;
      var buffer := d.Read(places[i].at, places[i].size);
      buffers := buffers + [buffer];
    }
  }

  /** Sectors that have been put into an image are read through the cache just as they are extracted, if and only if the
      table of runs is not left and every small chunk shrinks: otherwise a run does not fit into the reader's buffer. */
  method InsertThenRead(c: Codec, file0: seq<Byte>, image: seq<Byte>, n: nat, addComment: bool, places: seq<Place>)
    returns (buffers: Option<seq<seq<Byte>>>, out: Option<seq<Byte>>)
    requires Usable(c) && |image| == SECTOR * n && n > 0
    requires forall p | p in places :: p.at + p.size <= |image|
    ensures var plan := Plan(image, n, 0, IGNORE_THRESHOLD, addComment);
      && (out.Some? <==> StaysInRoom(plan, RunsBefore(addComment)))
      && (buffers.Some? <==> StaysInRoom(plan, RunsBefore(addComment)) && AllShrink(c, image, plan))
    ensures out.Some? ==> |out.value| == |image| && (out.value == image <==> !addComment || ZerosApart(image, n))
    ensures buffers.Some? ==> |buffers.value| == |places|
    ensures buffers.Some? ==> forall i | 0 <= i < |places| ::
      buffers.value[i] == out.value[places[i].at..places[i].at + places[i].size]
  {
    hide Usable, ZerosApart, TableOf, Describe, Dmg.Described, Dmg.CacheOK, StaysInRoom, Plan, AllShrink, AllCacheable;
    hide LaidOut, CutsOf, Cuts;
    var file, runs, inRoom, kept := InsertBLKX(c, file0, image, n, addComment);
    if !inRoom {
      return None, None;
    }
    TableSize(c, file, 0, runs, kept, n);
    out := ExtractBLKX(c, file, 0, runs, [], kept, n);
    assert [] + kept == kept;
    if !AllCacheable(runs) {
      return None, out;
    }
    OneTable(c, file, runs, kept, n);
    var d := new Dmg(c, file, [Table(0, n, 0, runs)], kept);
    var read := ReadAll(d, places);
    buffers := Some(read);
  }

  lemma OneTable(c: Codec, file: seq<Byte>, runs: seq<Run>, image: seq<Byte>, n: nat)
    requires TableOf(c, file, 0, runs, image, n) && AllCacheable(runs)
    ensures Describe(c, file, [Table(0, n, 0, runs)], image)
  {
    hide TableOf, Describe, AllCacheable;
    TableSize(c, file, 0, runs, image, n);
    var t := Table(0, n, 0, runs);
    assert Sectors(image, 0, n) == image;
    forall s: nat | s < n ensures InSomeTable([t], s) {
      assert InTable([t][0], s);
    }
    PartsDescribe(c, file, [t], image, n);
  }
}
