/** What a new table of runs looks like: which sectors each run covers, where its bytes are, and how they are stored. */
module DmgLayout {
  import opened Bits
  import opened Codecs
  import opened DmgPlan
  import opened DmgRuns

  // ----- Bytes -----

  /** The place behind the bytes of the last run. */
  function FileEnd(runs: seq<Run>, start: nat): nat {
    if runs == [] then start else runs[|runs| - 1].compOffset + runs[|runs| - 1].compLength
  }

  /** A chunk is stored compressed if it has fewer than fifteen sectors, or if that takes fifteen whole sectors less. */
  ghost predicate Saves(c: Codec, chunk: seq<Byte>) {
    |chunk| < 15 * 512 || |c.deflate(chunk)| / 512 < |chunk| / 512 - 15
  }

  /** A run of data holds its chunk, compressed or as it is; other runs hold nothing. */
  ghost predicate Holds(c: Codec, file: seq<Byte>, r: Run, image: seq<Byte>) {
    var from, to := SECTOR * r.sectorStart, SECTOR * (r.sectorStart + r.sectorCount);
    && to <= |image| && r.compOffset + r.compLength <= |file|
    && var chunk, bytes := image[from..to], file[r.compOffset..r.compOffset + r.compLength];
    match r.kind
    case Zlib => Saves(c, chunk) && bytes == c.deflate(chunk)
    case Raw => !Saves(c, chunk) && bytes == chunk
    case Ignore => bytes == []
    case Comment => bytes == []
    case _ => false
  }

  /** The bytes of the runs lie one behind the other. */
  ghost predicate LaidOut(c: Codec, start: nat, file: seq<Byte>, runs: seq<Run>, image: seq<Byte>) {
    && |file| == FileEnd(runs, start)
    && forall i: nat | i < |runs| :: runs[i].compOffset == FileEnd(runs[..i], start) && Holds(c, file, runs[i], image)
  }

  lemma HoldsStill(c: Codec, file: seq<Byte>, r: Run, image: seq<Byte>, file': seq<Byte>, image': seq<Byte>)
    requires Holds(c, file, r, image) && file <= file' && image <= image'
    ensures Holds(c, file', r, image')
  {
    PrefixSlice(file, file', r.compOffset, r.compOffset + r.compLength);
    PrefixSlice(image, image', SECTOR * r.sectorStart, SECTOR * (r.sectorStart + r.sectorCount));
  }

  lemma LaidOutMore(c: Codec, start: nat, file: seq<Byte>, runs: seq<Run>, image: seq<Byte>, r: Run, file': seq<Byte>, image': seq<Byte>)
    requires LaidOut(c, start, file, runs, image) && file <= file' && image <= image'
    requires r.compOffset == |file| && |file'| == |file| + r.compLength && Holds(c, file', r, image')
    ensures LaidOut(c, start, file', runs + [r], image')
  {
    hide Holds;
    var more := runs + [r];
    forall i: nat | i < |more| ensures more[i].compOffset == FileEnd(more[..i], start) && Holds(c, file', more[i], image') {
      if i < |runs| {
        HoldsStill(c, file, runs[i], image, file', image');
        assert more[..i] == runs[..i];
      } else {
        assert more[..i] == runs;
      }
    }
  }

  /** A table, up to its terminator, of what is kept of the first sectors. */
  ghost predicate IsBody(c: Codec, start: nat, out: seq<Byte>, runs: seq<Run>, kept: seq<Byte>, cur: nat) {
    && |kept| == SECTOR * cur
    && Tiled(runs, cur) && AllGive(c, out, 0, runs, kept) && LaidOut(c, start, out, runs, kept)
  }

  /** A run more. */
  lemma BodyMore(c: Codec, start: nat, out: seq<Byte>, runs: seq<Run>, kept: seq<Byte>, cur: nat, r: Run, out': seq<Byte>, more: seq<Byte>)
    requires IsBody(c, start, out, runs, kept, cur) && out <= out' && |out'| == |out| + r.compLength && r.compOffset == |out|
    requires r.sectorStart == cur && |more| == SECTOR * r.sectorCount && (r.kind == Comment <==> r.sectorCount == 0)
    requires Gives(c, out', 0, r, kept + more) && Holds(c, out', r, kept + more)
    ensures IsBody(c, start, out', runs + [r], kept + more, cur + r.sectorCount)
  {
    hide Tiled, AllGive, LaidOut, Gives, Holds;
    TiledMore(runs, cur, r) by {
      NotTerminator(c, out', r, kept + more);
    }
    assert kept <= kept + more;
    AllGiveMore(c, out, 0, runs, kept, r, out', kept + more);
    LaidOutMore(c, start, out, runs, kept, r, out', kept + more);
  }

  lemma NotTerminator(c: Codec, file: seq<Byte>, r: Run, image: seq<Byte>)
    requires Gives(c, file, 0, r, image)
    ensures r.kind != Terminator
  {}

  // ----- Sectors -----

  /** Some sectors, with or without data. */
  datatype Cut = Cut(ignored: bool, at: nat, count: nat)

  /** Which sectors the runs cover. */
  ghost function CutsOf(runs: seq<Run>): (cuts: seq<Cut>)
    ensures |cuts| == |runs|
  {
    seq(|runs|, i requires 0 <= i < |runs| => Cut(runs[i].kind == Ignore, runs[i].sectorStart, runs[i].sectorCount))
  }

  lemma CutsMore(runs: seq<Run>, r: Run)
    ensures CutsOf(runs + [r]) == CutsOf(runs) + [Cut(r.kind == Ignore, r.sectorStart, r.sectorCount)]
  {}

  /** A chunk is one run. Skipped sectors are one or two: those up to a multiple of sixteen, and the others. */
  ghost function StepCuts(s: Step): seq<Cut> {
    match s
    case Store(at, from, count) => [Cut(false, at, count)]
    case Skip(at, count) =>
      var rest := count % 16;
      (if count == rest then [] else [Cut(true, at, count - rest)]) + if rest == 0 then [] else [Cut(true, at + count - rest, rest)]
  }

  ghost function Cuts(steps: seq<Step>): seq<Cut> {
    if steps == [] then [] else Cuts(steps[..|steps| - 1]) + StepCuts(steps[|steps| - 1])
  }

  lemma CutsLast(steps: seq<Step>, s: Step)
    ensures Cuts(steps + [s]) == Cuts(steps) + StepCuts(s)
  {
    assert (steps + [s])[..|steps|] == steps;
  }

  lemma {:induction false} CutsFirst(s: Step, steps: seq<Step>)
    ensures Cuts([s] + steps) == StepCuts(s) + Cuts(steps)
  {
    hide StepCuts;
    if steps == [] {
      CutsLast([], s);
      assert [] + [s] == [s] + [];
    } else {
      var n := |steps| - 1;
      CutsFirst(s, steps[..n]);
      assert [s] + steps == ([s] + steps[..n]) + [steps[n]];
      CutsLast([s] + steps[..n], steps[n]);
    }
  }

  lemma StepCount(s: Step)
    requires s.count > 0
    ensures |StepCuts(s)| == if TwoRuns(s) then 2 else 1
  {}

  /** The plan tells how many runs there are. */
  lemma {:induction false} CutCount(steps: seq<Step>)
    requires forall i | 0 <= i < |steps| :: steps[i].count > 0
    ensures |Cuts(steps)| == RunCount(steps)
  {
    hide StepCuts, TwoRuns;
    if steps != [] {
      CutCount(steps[..|steps| - 1]);
      StepCount(steps[|steps| - 1]);
    }
  }

  /** Chunks of 512 sectors, of which the last may have fewer. */
  ghost predicate InChunks(cuts: seq<Cut>, cur: nat, n: nat) {
    && cur <= n && |cuts| == (n - cur + 511) / 512
    && forall i: nat | i < |cuts| :: ChunkAt(cuts[i], cur + 512 * i, n)
  }

  ghost predicate ChunkAt(cut: Cut, at: nat, n: nat) {
    at < n && cut == Cut(false, at, if n - at < 512 then n - at else 512)
  }

  lemma ChunkFirst(cut: Cut, cuts: seq<Cut>, cur: nat, n: nat)
    requires ChunkAt(cut, cur, n) && InChunks(cuts, cur + cut.count, n)
    ensures InChunks([cut] + cuts, cur, n)
  {
    hide ChunkAt;
    var all := [cut] + cuts;
    forall i: nat | i < |all| ensures ChunkAt(all[i], cur + 512 * i, n) {
      if i > 0 {
        assert ChunkAt(cuts[i - 1], cur + cut.count + 512 * (i - 1), n);
        FullChunk(cut, cuts, cur, n);
      }
    }
    FullChunk(cut, cuts, cur, n);
  }

  lemma FullChunk(cut: Cut, cuts: seq<Cut>, cur: nat, n: nat)
    requires ChunkAt(cut, cur, n) && |cuts| == (n - (cur + cut.count) + 511) / 512
    ensures |cuts| > 0 ==> cut.count == 512
    ensures |cuts| + 1 == (n - cur + 511) / 512
  {}

  /** Without skipping, the runs are chunks of 512 sectors from the first sector on. */
  lemma {:induction false} PlainCuts(image: seq<Byte>, n: nat, cur: nat, threshold: nat)
    requires IsInput(image, n) && cur <= n
    ensures InChunks(Cuts(Plan(image, n, cur, threshold, false)), cur, n)
    decreases n - cur
  {
    hide Plan, Cuts, InChunks;
    if cur < n {
      var s := Next(image, n, cur, threshold, false);
      var rest := Plan(image, n, cur + s.count, threshold, false);
      PlanStep(image, n, cur, threshold, false);
      PlainCuts(image, n, cur + s.count, threshold);
      CutsFirst(s, rest);
      ChunkFirst(StepCuts(s)[0], Cuts(rest), cur, n);
    } else {
      NoCuts(image, n, threshold);
    }
  }

  lemma NoCuts(image: seq<Byte>, n: nat, threshold: nat)
    requires IsInput(image, n)
    ensures InChunks(Cuts(Plan(image, n, n, threshold, false)), n, n)
  {
    assert Plan(image, n, n, threshold, false) == [];
  }
}
