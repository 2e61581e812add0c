/** Putting sectors into a disk image as a table of runs, and getting them out again. */
module DmgIo {
  import opened Bits
  import opened Codecs
  import opened Collections
  import opened DmgInput
  import opened DmgLayout
  import opened DmgPlan
  import opened DmgRuns
  import opened Extents
  import opened Numbers
  import opened Wrappers

  // ----- Inserting -----

  /** Data behind the data. */
  lemma DataGiven(c: Codec, out: seq<Byte>, kept: seq<Byte>, cur: nat, count: nat, data: seq<Byte>, stored: seq<Byte>, kind: Kind)
    requires |kept| == SECTOR * cur && |data| == SECTOR * count && 0 < count <= SECTORS_AT_A_TIME && Inverse(c)
    requires stored != [] && |stored| <= BUFFER_SIZE
    requires if Saves(c, data) then kind == Zlib && stored == c.deflate(data) else kind == Raw && stored == data
    ensures var r := Run(kind, cur, count, |out|, |stored|); Gives(c, out + stored, 0, r, kept + data) && Holds(c, out + stored, r, kept + data)
  {
    hide Saves;
    assert (out + stored)[|out|..|out| + |stored|] == stored;
    assert (kept + data)[SECTOR * cur..SECTOR * (cur + count)] == data;
  }

  lemma ZerosGiven(c: Codec, out: seq<Byte>, kept: seq<Byte>, cur: nat, count: nat, zeros: seq<Byte>)
    requires |kept| == SECTOR * cur && |zeros| == SECTOR * count && Zero(zeros)
    ensures var r := Run(Ignore, cur, count, |out|, 0); Gives(c, out, 0, r, kept + zeros) && Holds(c, out, r, kept + zeros)
  {
    assert (kept + zeros)[SECTOR * cur..SECTOR * (cur + count)] == zeros;
  }

  /** A run without sectors. */
  lemma CommentGiven(c: Codec, start: nat, out: seq<Byte>, runs: seq<Run>, kept: seq<Byte>, cur: nat)
    requires IsBody(c, start, out, runs, kept, cur)
    ensures IsBody(c, start, out, runs + [Run(Comment, cur, 0, |out|, 0)], kept, cur)
  {
    hide Tiled, AllGive, LaidOut;
    assert kept + [] == kept;
    BodyMore(c, start, out, runs, kept, cur, Run(Comment, cur, 0, |out|, 0), out, []);
  }

  lemma ZerosAreZero(n: nat)
    ensures Zero(Zeros(n))
  {}

  /** The test by which a chunk is stored as it is; the difference is unsigned, of 64 bits. */
  function StoredRaw(have: nat, sectorCount: nat): bool {
    have / SECTOR >= (sectorCount - 15) % TWO64
  }

  /** One or two runs without data: the second for the sectors above a multiple of sixteen. The second one may be
      beyond the end of the table; there the model stops. */
  method IgnoreRuns(ghost c: Codec, ghost start: nat, out: seq<Byte>, runs: seq<Run>, room: nat, cur: nat, skip: nat, ghost kept: seq<Byte>)
    returns (more: seq<Run>, inRoom: bool)
    requires IsBody(c, start, out, runs, kept, cur) && skip > 0 && |runs| < room
    ensures inRoom <==> !(TwoRuns(Skip(cur, skip)) && |runs| + 1 == room)
    ensures inRoom ==> IsBody(c, start, out, more, kept + Zeros(SECTOR * skip), cur + skip)
    ensures inRoom ==> CutsOf(more) == CutsOf(runs) + StepCuts(Skip(cur, skip)) && |more| <= room
    ensures inRoom ==> (AllCacheable(more) <==> AllCacheable(runs))
  {
    hide IsBody, CutsOf, Zero, AllCacheable;
    StepCount(Skip(cur, skip));
    more, inRoom := runs, true;
    var remainder := skip % 16;
    var at := cur;
    ghost var k := kept;
    if skip != remainder {
      more := IgnoreRun(c, start, out, more, at, skip - remainder, k);
      at := at + (skip - remainder);
      k := k + Zeros(SECTOR * (skip - remainder));
    }
    assert k + Zeros(SECTOR * remainder) == kept + Zeros(SECTOR * skip);
    if remainder > 0 {
      if |more| >= room {
        inRoom := false;
        return;
      }
      more := IgnoreRun(c, start, out, more, at, remainder, k);
    } else {
      assert k + Zeros(SECTOR * remainder) == k;
    }
  }

  method IgnoreRun(ghost c: Codec, ghost start: nat, out: seq<Byte>, runs: seq<Run>, at: nat, count: nat, ghost kept: seq<Byte>)
    returns (more: seq<Run>)
    requires IsBody(c, start, out, runs, kept, at) && count > 0
    ensures IsBody(c, start, out, more, kept + Zeros(SECTOR * count), at + count)
    ensures CutsOf(more) == CutsOf(runs) + [Cut(true, at, count)] && (AllCacheable(more) <==> AllCacheable(runs))
    ensures |more| == |runs| + 1
  {
    hide Tiled, AllGive, LaidOut, Gives, Holds, Zero, AllCacheable, CutsOf;
    var r := Run(Ignore, at, count, |out|, 0);
    more := runs + [r];
    ZerosAreZero(SECTOR * count);
    ZerosGiven(c, out, kept, at, count, Zeros(SECTOR * count));
    BodyMore(c, start, out, runs, kept, at, r, out, Zeros(SECTOR * count));
    CutsMore(runs, r);
    CacheableMore(runs, r);
  }

  /** A run with data. */
  method DataRun(c: Codec, ghost start: nat, out: seq<Byte>, runs: seq<Run>, cur: nat, count: nat, buffer: seq<Byte>, ghost kept: seq<Byte>)
    returns (out': seq<Byte>, more: seq<Run>)
    requires Usable(c) && IsBody(c, start, out, runs, kept, cur)
    requires |buffer| == SECTOR * count && 0 < count <= SECTORS_AT_A_TIME
    ensures out <= out' && IsBody(c, start, out', more, kept + buffer, cur + count)
    ensures CutsOf(more) == CutsOf(runs) + [Cut(false, cur, count)]
    ensures |more| == |runs| + 1 && more[|runs|].compLength <= BUFFER_SIZE
    ensures more[|runs|].kind == Zlib <==> count < 15 || |c.deflate(buffer)| / 512 < count - 15
    ensures out' == out + if more[|runs|].kind == Zlib then c.deflate(buffer) else buffer
    ensures AllCacheable(more) <==> AllCacheable(runs) && (count >= 15 || |c.deflate(buffer)| <= SECTOR * count)
  {
    hide Tiled, AllGive, LaidOut, Gives, Holds, AllCacheable, CutsOf;
    var deflated := c.deflate(buffer);
    var kind, stored := Zlib, deflated;
    if StoredRaw(|deflated|, count) {
      kind, stored := Raw, buffer;
    }
    var r := Run(kind, cur, count, |out|, |stored|);
    out' := out + stored;
    more := runs + [r];
    SavesEnough(|deflated|, count);
    DataGiven(c, out, kept, cur, count, buffer, stored, kind);
    BodyMore(c, start, out, runs, kept, cur, r, out', buffer);
    CutsMore(runs, r);
    CacheableMore(runs, r);
  }

  /** A chunk of at least fifteen sectors is compressed only if that makes it smaller; a smaller one always is. */
  lemma SavesEnough(have: nat, count: nat)
    requires have <= BUFFER_SIZE && 0 < count <= SECTORS_AT_A_TIME
    ensures !StoredRaw(have, count) <==> count < 15 || have / 512 < count - 15
    ensures count >= 15 && !StoredRaw(have, count) ==> have <= SECTOR * count
  {}

  /** How many runs there are before the first step. */
  function RunsBefore(addComment: bool): nat {
    if addComment then 1 else 0
  }

  /** A comment covers no sectors. */
  ghost function CommentCut(addComment: bool, at: nat): seq<Cut> {
    if addComment then [Cut(false, at, 0)] else []
  }

  /** The variables of the loop. */
  datatype Writing = Writing(out: seq<Byte>, runs: seq<Run>, room: nat, cur: nat, threshold: nat)

  /** What has been written after some steps of the plan, and what is kept so far. */
  ghost predicate Written(c: Codec, image: seq<Byte>, n: nat, addComment: bool, out0: seq<Byte>, w: Writing, kept: seq<Byte>, done: seq<Step>)
    requires IsInput(image, n)
  {
    var plan, before := Plan(image, n, 0, IGNORE_THRESHOLD, addComment), RunsBefore(addComment);
    && w.cur <= n && out0 <= w.out && IsBody(c, |out0|, w.out, w.runs, kept, w.cur)
    && (w.threshold == 0 || w.threshold == IGNORE_THRESHOLD)
    && Kept(image, n, w.cur, w.threshold, addComment, kept)
    && plan == done + Plan(image, n, w.cur, w.threshold, addComment)
    && CutsOf(w.runs) == CommentCut(addComment, 0) + Cuts(done)
    && |w.runs| == before + RunCount(done) && RoomFor(w.room, |w.runs|)
    && StaysUpTo(plan, before, |done|)
    && (AllCacheable(w.runs) <==> AllShrink(c, image, done))
  }

  /** The next step of the plan, and when it leaves the table. */
  lemma StepAhead(c: Codec, image: seq<Byte>, n: nat, addComment: bool, out0: seq<Byte>, w: Writing, kept: seq<Byte>, done: seq<Step>)
    requires IsInput(image, n) && w.cur < n && Written(c, image, n, addComment, out0, w, kept, done)
    ensures var plan, s := Plan(image, n, 0, IGNORE_THRESHOLD, addComment), Next(image, n, w.cur, w.threshold, addComment);
      && plan == done + [s] + Plan(image, n, w.cur + s.count, if s.Skip? then 0 else w.threshold, addComment)
      && (|w.runs| < w.room && TwoRuns(s) && |w.runs| + 1 == w.room ==> !StaysInRoom(plan, RunsBefore(addComment)))
      && (|w.runs| < w.room && !(TwoRuns(s) && |w.runs| + 1 == w.room) ==> |done| < |plan| && StaysUpTo(plan, RunsBefore(addComment), |done| + 1))
  {
    hide Plan, Next, IsBody, CutsOf, Cuts, Kept, RoomFor, RunCount, TwoRuns, BelowPower, AllCacheable, AllShrink, StaysUpTo;
    var plan, s := Plan(image, n, 0, IGNORE_THRESHOLD, addComment), Next(image, n, w.cur, w.threshold, addComment);
    var rest := Plan(image, n, w.cur + s.count, if s.Skip? then 0 else w.threshold, addComment);
    PlanStep(image, n, w.cur, w.threshold, addComment);
    assert done + ([s] + rest) == done + [s] + rest;
    StepThere(plan, done, s, rest);
    StaysOne(plan, RunsBefore(addComment), |done|);
    if |w.runs| < w.room {
      LastPlace(w.room, |w.runs|);
      if TwoRuns(s) && |w.runs| + 1 == w.room {
        StaysAll(plan, RunsBefore(addComment), |done| + 1);
      }
    }
  }

  /** What a step more makes of it. */
  lemma StepWritten(c: Codec, image: seq<Byte>, n: nat, addComment: bool, out0: seq<Byte>, w: Writing, kept: seq<Byte>, done: seq<Step>,
                    w': Writing, kept': seq<Byte>)
    requires IsInput(image, n) && w.cur < n && Written(c, image, n, addComment, out0, w, kept, done) && |w.runs| < w.room == w'.room
    requires var s := Next(image, n, w.cur, w.threshold, addComment);
      && w.out <= w'.out && w'.cur == w.cur + s.count
      && w'.threshold == (if s.Skip? then 0 else w.threshold)
      && IsBody(c, |out0|, w'.out, w'.runs, kept', w'.cur) && Kept(image, n, w'.cur, w'.threshold, addComment, kept')
      && CutsOf(w'.runs) == CutsOf(w.runs) + StepCuts(s) && |w'.runs| <= w.room
      && (AllCacheable(w'.runs) <==> AllCacheable(w.runs) && Shrinks(c, image, s))
    ensures Written(c, image, n, addComment, out0, w', kept', done + [Next(image, n, w.cur, w.threshold, addComment)])
  {
    hide Plan, LastChunk, IsBody, CutsOf, StepCuts, Cuts, Kept, RoomFor, RunCount, TwoRuns, BelowPower, AllCacheable, AllShrink, StaysUpTo;
    hide Shrinks;
    var s := Next(image, n, w.cur, w.threshold, addComment);
    StepAhead(c, image, n, addComment, out0, w, kept, done);
    RunCountMore(done, s);
    CutsLast(done, s);
    StepCount(s);
    ShrinkLast(c, image, done, s);
    MoreRuns(w.room, |w.runs|, |w'.runs|);
  }

  /** Skipping zero sectors. */
  method SkipRound(c: Codec, ghost image: seq<Byte>, ghost n: nat, ghost out0: seq<Byte>, w: Writing, ghost kept: seq<Byte>,
                   ghost done: seq<Step>, skip: nat)
    returns (w': Writing, inRoom: bool, ghost kept': seq<Byte>)
    requires IsInput(image, n) && w.cur < n && Written(c, image, n, true, out0, w, kept, done) && |w.runs| < w.room
    requires skip == ZeroRun(image, n, w.cur) > w.threshold
    ensures !inRoom ==> !StaysInRoom(Plan(image, n, 0, IGNORE_THRESHOLD, true), RunsBefore(true))
    ensures inRoom ==> Written(c, image, n, true, out0, w', kept', done + [Next(image, n, w.cur, w.threshold, true)])
    ensures inRoom ==> w'.cur > w.cur
  {
    hide Plan, LastChunk, IsBody, CutsOf, Cuts, Progress, RoomFor, RunCount, TwoRuns, BelowPower, AllCacheable, AllShrink, StaysUpTo, StaysInRoom;
    hide ZeroRun;
    StepAhead(c, image, n, true, out0, w, kept, done);
    SkipKept(image, n, w.cur, w.threshold, kept, skip);
    var more;
    more, inRoom := IgnoreRuns(c, |out0|, w.out, w.runs, w.room, w.cur, skip, kept);
    w' := w.(runs := more, cur := w.cur + skip, threshold := 0);
    kept' := kept + Zeros(SECTOR * skip);
    if inRoom {
      SkipShrinks(c, image, Skip(w.cur, skip));
      StepWritten(c, image, n, true, out0, w, kept, done, w', kept');
    }
  }

  /** Storing a chunk. */
  method StoreRound(c: Codec, ghost image: seq<Byte>, ghost n: nat, addComment: bool, ghost out0: seq<Byte>, w: Writing,
                    ghost kept: seq<Byte>, ghost done: seq<Step>, count: nat, buffer: seq<Byte>, ghost last: nat)
    returns (w': Writing, ghost kept': seq<Byte>)
    requires Usable(c) && IsInput(image, n) && w.cur < n && Written(c, image, n, addComment, out0, w, kept, done) && |w.runs| < w.room
    requires Next(image, n, w.cur, w.threshold, addComment) == Store(w.cur, last, count)
    requires buffer == Sectors(image, last, ChunkEnd(n, last))
    requires !addComment ==> last == w.cur
    requires addComment ==> Zero(Sectors(image, w.cur, last)) && (last == w.cur || w.cur + SECTORS_AT_A_TIME <= last)
    requires addComment ==> (ChunkEnd(n, last) == n || !Zero(buffer)) && ZeroRun(image, n, w.cur) <= w.threshold
    ensures Written(c, image, n, addComment, out0, w', kept', done + [Next(image, n, w.cur, w.threshold, addComment)])
    ensures w'.cur > w.cur
  {
    hide Plan, LastChunk, Next, IsBody, CutsOf, Cuts, Progress, RoomFor, RunCount, TwoRuns, BelowPower, AllCacheable, AllShrink, StaysUpTo;
    hide ZeroRun, Zero, Usable, Sectors, Kept, Shrinks;
    var s := Store(w.cur, last, count);
    StoreKept(image, n, w.cur, w.threshold, addComment, kept, last, buffer);
    StoreIsOne(s);
    var out, runs := DataRun(c, |out0|, w.out, w.runs, w.cur, count, buffer, kept);
    w' := w.(out := out, runs := runs, cur := w.cur + count);
    kept' := kept + buffer;
    StoreShrinks(c, image, s, buffer);
    StepWritten(c, image, n, addComment, out0, w, kept, done, w', kept');
  }

  /** Puts sectors into the image. The table of runs is doubled once per round when it is full, but a round may write
      two runs; so it is left exactly if the plan overflows it. If it is not, what is kept of the sectors is what the
      table describes: all of them just as they are if no zeros are to be skipped, and otherwise exactly when the zeros
      lie right; and the compressed bytes of every run fit into the run's size exactly if every small chunk shrinks. */
  method InsertBLKX(c: Codec, out0: seq<Byte>, image: seq<Byte>, numSectors: nat, addComment: bool)
    returns (out: seq<Byte>, runs: seq<Run>, inRoom: bool, ghost kept: seq<Byte>)
    requires Usable(c) && |image| == 512 * numSectors
    ensures inRoom <==> StaysInRoom(Plan(image, numSectors, 0, IGNORE_THRESHOLD, addComment), RunsBefore(addComment))
    ensures inRoom ==> out0 <= out && TableOf(c, out, 0, runs, kept, numSectors) && LaidOut(c, |out0|, out, runs[..|runs| - 1], kept)
    ensures inRoom ==> CutsOf(runs) == CommentCut(addComment, 0) + Cuts(Plan(image, numSectors, 0, IGNORE_THRESHOLD, addComment))
                                       + CommentCut(addComment, numSectors) + [Cut(false, numSectors, 0)]
    ensures inRoom ==> (kept == image <==> !addComment || ZerosApart(image, numSectors))
    ensures inRoom ==> (AllCacheable(runs) <==> AllShrink(c, image, Plan(image, numSectors, 0, IGNORE_THRESHOLD, addComment)))
  {
    hide Written, Usable, Zero, ZerosApart, ZeroRun, Plan, LastChunk, AllCacheable, AllShrink, StaysInRoom, StaysUpTo, RoomFor;
    hide IsBody, TableOf, LaidOut, CutsOf, Cuts;
    out, runs, inRoom, kept := out0, [], true, [];
    NothingYet(c, out, image, numSectors);
    if addComment {
      runs := Marked(c, |out0|, out, runs, kept, 0);
    }
    var w := Writing(out, runs, 2, 0, IGNORE_THRESHOLD);
    ghost var done := [];
    StartWritten(c, image, numSectors, addComment, out0, w);
    while w.cur < numSectors
      invariant w.cur <= numSectors && Written(c, image, numSectors, addComment, out0, w, kept, done)
      decreases numSectors - w.cur
    {
      WritingOn(c, image, numSectors, addComment, out0, w, kept, done);
      if |w.runs| >= w.room {
        w := w.(room := 2 * w.room);
      }
      ghost var s := Next(image, numSectors, w.cur, w.threshold, addComment);
      var skip, count, buffer, last := FindData(image, numSectors, w.cur, addComment);
      if skip > w.threshold {
        w, inRoom, kept := SkipRound(c, image, numSectors, out0, w, kept, done, skip);
        if !inRoom {
          return;
        }
      } else {
        w, kept := StoreRound(c, image, numSectors, addComment, out0, w, kept, done, count, buffer, last);
      }
      done := done + [s];
      StillInside(c, image, numSectors, addComment, out0, w, kept, done);
    }
    AllWritten(c, image, numSectors, addComment, out0, w, kept, done);
    out := w.out;
    runs := Finish(c, |out0|, out, w.runs, kept, numSectors, addComment);
  }

  /** A comment, and the terminator. */
  method Finish(ghost c: Codec, ghost start: nat, out: seq<Byte>, body: seq<Run>, ghost kept: seq<Byte>, n: nat, addComment: bool)
    returns (runs: seq<Run>)
    requires IsBody(c, start, out, body, kept, n)
    ensures TableOf(c, out, 0, runs, kept, n) && LaidOut(c, start, out, runs[..|runs| - 1], kept)
    ensures CutsOf(runs) == CutsOf(body) + CommentCut(addComment, n) + [Cut(false, n, 0)]
    ensures AllCacheable(runs) <==> AllCacheable(body)
  {
    hide Tiled, AllGive, LaidOut, AllCacheable, CutsOf;
    runs := body;
    if addComment {
      runs := Marked(c, start, out, runs, kept, n);
    }
    ghost var marked := runs;
    runs := runs + [Run(Terminator, n, 0, |out|, 0)];
    assert runs[..|runs| - 1] == marked;
    CutsMore(marked, Run(Terminator, n, 0, |out|, 0));
    CacheableMore(marked, Run(Terminator, n, 0, |out|, 0));
  }

  lemma StartWritten(c: Codec, image: seq<Byte>, n: nat, addComment: bool, out0: seq<Byte>, w: Writing)
    requires IsInput(image, n) && w.out == out0 && w.room == 2 && w.cur == 0 && w.threshold == IGNORE_THRESHOLD
    requires IsBody(c, |out0|, out0, w.runs, [], 0) && CutsOf(w.runs) == CommentCut(addComment, 0)
    requires |w.runs| == RunsBefore(addComment) && AllCacheable(w.runs)
    ensures Written(c, image, n, addComment, out0, w, [], [])
  {
    hide Plan, IsBody, CutsOf, StaysUpTo, AllShrink, AllCacheable, RoomFor, Progress;
    NothingYet(c, out0, image, n);
    NothingDone(c, image, Plan(image, n, 0, IGNORE_THRESHOLD, addComment), RunsBefore(addComment));
    FirstRoom();
  }

  /** The table is doubled when it is full. */
  lemma WritingOn(c: Codec, image: seq<Byte>, n: nat, addComment: bool, out0: seq<Byte>, w: Writing, kept: seq<Byte>, done: seq<Step>)
    requires IsInput(image, n) && Written(c, image, n, addComment, out0, w, kept, done)
    ensures |w.runs| <= w.room && (w.threshold == 0 || w.threshold == IGNORE_THRESHOLD)
    ensures |w.runs| >= w.room ==> |w.runs| < 2 * w.room && Written(c, image, n, addComment, out0, w.(room := 2 * w.room), kept, done)
  {
    hide Plan, IsBody, CutsOf, Cuts, StaysUpTo, AllShrink, AllCacheable, Kept;
    if |w.runs| >= w.room {
      Doubled(w.room, |w.runs|);
    }
  }

  lemma StillInside(c: Codec, image: seq<Byte>, n: nat, addComment: bool, out0: seq<Byte>, w: Writing, kept: seq<Byte>, done: seq<Step>)
    requires IsInput(image, n) && Written(c, image, n, addComment, out0, w, kept, done)
    ensures w.cur <= n
  {
    hide Plan, IsBody, CutsOf, Cuts, StaysUpTo, AllShrink, AllCacheable, Kept, RoomFor;
  }

  lemma AllWritten(c: Codec, image: seq<Byte>, n: nat, addComment: bool, out0: seq<Byte>, w: Writing, kept: seq<Byte>, done: seq<Step>)
    requires IsInput(image, n) && Written(c, image, n, addComment, out0, w, kept, done) && w.cur == n
    ensures out0 <= w.out && |kept| == SECTOR * n && (kept == image <==> !addComment || ZerosApart(image, n))
    ensures IsBody(c, |out0|, w.out, w.runs, kept, n)
    ensures CutsOf(w.runs) == CommentCut(addComment, 0) + Cuts(Plan(image, n, 0, IGNORE_THRESHOLD, addComment))
    ensures var plan := Plan(image, n, 0, IGNORE_THRESHOLD, addComment);
      StaysInRoom(plan, RunsBefore(addComment)) && (AllCacheable(w.runs) <==> AllShrink(c, image, plan))
  {
    hide Plan, IsBody, CutsOf, Cuts, AllShrink, AllCacheable, RoomFor, ZerosApart, Kept, StaysUpTo;
    PlanDone(image, n, w.threshold, addComment);
    assert done + [] == done;
    AllKept(image, n, w.threshold, addComment, kept);
  }

  /** A comment. */
  method Marked(ghost c: Codec, ghost start: nat, out: seq<Byte>, runs: seq<Run>, ghost kept: seq<Byte>, cur: nat) returns (more: seq<Run>)
    requires IsBody(c, start, out, runs, kept, cur)
    ensures IsBody(c, start, out, more, kept, cur) && CutsOf(more) == CutsOf(runs) + [Cut(false, cur, 0)]
    ensures |more| == |runs| + 1 && (AllCacheable(more) <==> AllCacheable(runs))
  {
    hide IsBody, CutsOf, AllCacheable;
    CommentGiven(c, start, out, runs, kept, cur);
    more := runs + [Run(Comment, cur, 0, |out|, 0)];
    CutsMore(runs, Run(Comment, cur, 0, |out|, 0));
    CacheableMore(runs, Run(Comment, cur, 0, |out|, 0));
  }

  /** What is kept so far is right, or may be wrong only where zeros are to be skipped. */
  ghost predicate Kept(image: seq<Byte>, n: nat, cur: nat, threshold: nat, addComment: bool, kept: seq<Byte>)
    requires IsInput(image, n)
  {
    if addComment then Progress(image, n, cur, threshold, kept) else cur <= n && kept == image[..SECTOR * cur]
  }

  lemma SkipKept(image: seq<Byte>, n: nat, cur: nat, threshold: nat, kept: seq<Byte>, skip: nat)
    requires IsInput(image, n) && cur < n && Progress(image, n, cur, threshold, kept)
    requires skip == ZeroRun(image, n, cur) > threshold
    ensures Progress(image, n, cur + skip, 0, kept + Zeros(SECTOR * skip))
  {
    hide Progress;
    ZerosAreZero(SECTOR * skip);
    ProgressSkip(image, n, cur, threshold, kept, Zeros(SECTOR * skip));
  }

  lemma StoreKept(image: seq<Byte>, n: nat, cur: nat, threshold: nat, addComment: bool, kept: seq<Byte>, last: nat, buffer: seq<Byte>)
    requires IsInput(image, n) && Kept(image, n, cur, threshold, addComment, kept) && cur <= last < n
    requires buffer == Sectors(image, last, ChunkEnd(n, last)) && (threshold == 0 || threshold == IGNORE_THRESHOLD)
    requires !addComment ==> last == cur
    requires addComment ==> Zero(Sectors(image, cur, last)) && (last == cur || cur + SECTORS_AT_A_TIME <= last)
    requires addComment ==> (ChunkEnd(n, last) == n || !Zero(buffer)) && ZeroRun(image, n, cur) <= threshold
    ensures cur + ChunkEnd(n, last) - last <= n
    ensures Kept(image, n, cur + ChunkEnd(n, last) - last, threshold, addComment, kept + buffer)
  {
    hide Progress, Zero, ZeroRun;
    if addComment {
      ProgressData(image, n, cur, threshold, kept, last, buffer);
    } else {
      NextData(image, kept, cur, ChunkEnd(n, last) - last, buffer);
    }
  }

  lemma AllKept(image: seq<Byte>, n: nat, threshold: nat, addComment: bool, kept: seq<Byte>)
    requires IsInput(image, n) && Kept(image, n, n, threshold, addComment, kept)
    ensures |kept| == SECTOR * n && (kept == image <==> !addComment || ZerosApart(image, n))
  {
    assert image[..SECTOR * n] == image;
    if addComment {
      ProgressDone(image, n, threshold, kept);
    }
  }

  lemma NothingDone(c: Codec, image: seq<Byte>, plan: seq<Step>, before: nat)
    ensures StaysUpTo(plan, before, 0) && AllShrink(c, image, []) && AllCacheable([]) && RunCount([]) == 0
  {}

  lemma PlanDone(image: seq<Byte>, n: nat, threshold: nat, skipZeros: bool)
    requires IsInput(image, n)
    ensures Plan(image, n, n, threshold, skipZeros) == []
  {}

  /** Where the table is left there is no way back. */
  lemma StaysAll(plan: seq<Step>, before: nat, k: nat)
    requires k <= |plan| && !StaysUpTo(plan, before, k)
    ensures !StaysInRoom(plan, before)
  {}

  lemma SkipShrinks(c: Codec, image: seq<Byte>, s: Step)
    requires s.Skip?
    ensures Shrinks(c, image, s)
  {}

  lemma StoreShrinks(c: Codec, image: seq<Byte>, s: Step, buffer: seq<Byte>)
    requires s.Store? && SECTOR * (s.from + s.count) <= |image| && buffer == Sectors(image, s.from, s.from + s.count)
    ensures Shrinks(c, image, s) <==> s.count >= 15 || |c.deflate(buffer)| <= SECTOR * s.count
  {}

  lemma StoreIsOne(s: Step)
    requires s.Store?
    ensures !TwoRuns(s)
  {}

  lemma NothingYet(c: Codec, out: seq<Byte>, image: seq<Byte>, n: nat)
    requires |image| == SECTOR * n
    ensures IsBody(c, |out|, out, [], [], 0) && CutsOf([]) == [] && AllCacheable([]) && Progress(image, n, 0, IGNORE_THRESHOLD, []) && [] == image[..SECTOR * 0]
  {}

  lemma NextData(image: seq<Byte>, kept: seq<Byte>, cur: nat, count: nat, buffer: seq<Byte>)
    requires SECTOR * (cur + count) <= |image| && kept == image[..SECTOR * cur] && buffer == Sectors(image, cur, cur + count)
    ensures kept + buffer == image[..SECTOR * (cur + count)]
  {}

  // ----- Extracting -----

  const PAGE := 1024 * 1024

  /** Bytes written at a place of the output; what lies between its end and the place becomes zero. */
  function WriteAt(out: seq<Byte>, at: nat, data: seq<Byte>): (r: seq<Byte>)
    ensures |r| == if at + |data| > |out| then at + |data| else |out|
    ensures r[at..at + |data|] == data
    ensures forall i | 0 <= i < |out| && !(at <= i < at + |data|) :: r[i] == out[i]
  {
    var front := if at <= |out| then out[..at] else out + seq(at - |out|, _ => 0);
    front + data + if at + |data| < |out| then out[at + |data|..] else []
  }

  /** A byte after a write. */
  lemma ByteAt(out: seq<Byte>, at: nat, data: seq<Byte>, i: nat)
    requires i < |WriteAt(out, at, data)|
    ensures WriteAt(out, at, data)[i] == if at <= i < at + |data| then data[i - at] else if i < |out| then out[i] else 0
  {}

  /** Two writes, one behind the other. */
  lemma WriteOn(out: seq<Byte>, at: nat, x: seq<Byte>, y: seq<Byte>)
    ensures WriteAt(WriteAt(out, at, x), at + |x|, y) == WriteAt(out, at, x + y)
  {
    var w := WriteAt(out, at, x);
    var a, b := WriteAt(w, at + |x|, y), WriteAt(out, at, x + y);
    assert |a| == |b|;
    hide WriteAt;
    forall i: nat | i < |a| ensures a[i] == b[i] {
      ByteAt(w, at + |x|, y, i);
      ByteAt(out, at, x + y, i);
      if i < |w| {
        ByteAt(out, at, x, i);
      }
    }
  }

  /** The file's part, if it is there. */
  function FilePart(file: seq<Byte>, at: nat, length: nat): (r: Option<seq<Byte>>)
    ensures r == if at + length <= |file| then Some(file[at..at + length]) else None
  {
    if at + length <= |file| then Some(file[at..at + length]) else None
  }

  /** One page more. */
  lemma PageWritten(out: seq<Byte>, to: nat, data: seq<Byte>, k: nat, n: nat)
    requires k + n <= |data|
    ensures WriteAt(if k == 0 then out else WriteAt(out, to, data[..k]), to + k, data[k..k + n]) == WriteAt(out, to, data[..k + n])
  {
    hide WriteAt;
    if k == 0 {
      assert data[0..n] == data[..n];
    } else {
      WriteOn(out, to, data[..k], data[k..k + n]);
      assert data[..k] + data[k..k + n] == data[..k + n];
    }
  }

  /** Copies a long raw run page by page. */
  method CopyPages(data: seq<Byte>, out: seq<Byte>, to: nat) returns (r: seq<Byte>)
    requires data != []
    ensures r == WriteAt(out, to, data)
  {
    hide WriteAt;
    var left := |data|;
    r := out;
    while left > 0
      invariant 0 <= left <= |data|
      invariant r == if left == |data| then out else WriteAt(out, to, data[..|data| - left])
    {
      var thisRead := if left > PAGE then PAGE else left;
      var k := |data| - left;
      var page := data[k..k + thisRead];
      PageWritten(out, to, data, k, thisRead);
      r := WriteAt(r, to + k, page);
      left := left - thisRead;
    }
    assert data[..|data|] == data;
  }

  /** Filling the run's sectors with zeros by writing their last byte. */
  lemma Filled(out: seq<Byte>, n: nat)
    requires n > 0
    ensures WriteAt(out, |out| + n - 1, [0]) == out + Zeros(n)
  {}

  /** Data over the zeros. */
  lemma Covered(out: seq<Byte>, data: seq<Byte>)
    ensures WriteAt(out + Zeros(|data|), |out|, data) == out + data
  {}

  /** A run's bytes, as its kind has it, at the end of an output. */
  method ExtractRun(c: Codec, file: seq<Byte>, dataStart: nat, r: Run, out: seq<Byte>, initialOffset: nat, ghost image: seq<Byte>)
    returns (res: Option<seq<Byte>>)
    ensures Gives(c, file, dataStart, r, image) && |out| == initialOffset + SECTOR * r.sectorStart ==>
      res == Some(out + Sectors(image, r.sectorStart, r.sectorStart + r.sectorCount))
    ensures r.kind == Terminator && r.sectorCount == 0 ==> res == Some(out)
    ensures |out| == initialOffset + SECTOR * r.sectorStart && (r.compLength == 0 || (r.kind != Zlib && r.kind != Raw)) ==>
      res == Some(out + Zeros(SECTOR * r.sectorCount))
    ensures res.None? <==>
      && r.compLength > 0 && (r.kind == Zlib || r.kind == Raw)
      && (dataStart + r.compOffset + r.compLength > |file| || (r.kind == Zlib && r.compLength > 512 * 0x208))
  {
    hide WriteAt, Gives, Sectors;
    var at := initialOffset + SECTOR * r.sectorStart;
    var filled := out;
    if r.sectorCount > 0 {
      filled := WriteAt(out, initialOffset + SECTOR * (r.sectorStart + r.sectorCount) - 1, [0]);
      Filled(out, SECTOR * r.sectorCount);
    }
    assert out + Zeros(0) == out;
    assert |out| == at ==> filled == out + Zeros(SECTOR * r.sectorCount);
    if r.compLength == 0 {
      if Gives(c, file, dataStart, r, image) {
        NoData(c, file, dataStart, r, image, out);
      }
      return Some(filled);
    }
    if Gives(c, file, dataStart, r, image) {
      HasData(c, file, dataStart, r, image);
      Covered(out, Sectors(image, r.sectorStart, r.sectorStart + r.sectorCount));
    }
    if r.kind != Zlib && r.kind != Raw {
      return Some(filled);
    }
    var part := FilePart(file, dataStart + r.compOffset, r.compLength);
    if part.None? || (r.kind == Zlib && r.compLength > BUFFER_SIZE) {
      return None;
    }
    var data := if r.kind == Zlib then c.inflate(part.value) else part.value;
    if r.kind == Raw && r.compLength > BUFFER_SIZE {
      filled := CopyPages(data, filled, at);
    } else {
      filled := WriteAt(filled, at, data);
    }
    return Some(filled);
  }

  lemma NoData(c: Codec, file: seq<Byte>, dataStart: nat, r: Run, image: seq<Byte>, out: seq<Byte>)
    requires Gives(c, file, dataStart, r, image) && r.compLength == 0
    ensures out + Sectors(image, r.sectorStart, r.sectorStart + r.sectorCount) == out + Zeros(SECTOR * r.sectorCount)
    ensures r.sectorCount == 0 ==> out + Sectors(image, r.sectorStart, r.sectorStart + r.sectorCount) == out
  {
    ZerosEqual(Sectors(image, r.sectorStart, r.sectorStart + r.sectorCount), Zeros(SECTOR * r.sectorCount));
  }

  lemma HasData(c: Codec, file: seq<Byte>, dataStart: nat, r: Run, image: seq<Byte>)
    requires Gives(c, file, dataStart, r, image) && r.compLength > 0
    ensures (r.kind == Zlib && r.compLength <= BUFFER_SIZE) || r.kind == Raw
    ensures dataStart + r.compOffset + r.compLength <= |file|
    ensures SECTOR * (r.sectorStart + r.sectorCount) <= |image|
    ensures var data := file[dataStart + r.compOffset..dataStart + r.compOffset + r.compLength];
      (if r.kind == Zlib then c.inflate(data) else data) == Sectors(image, r.sectorStart, r.sectorStart + r.sectorCount)
  {}

  /** Takes an image out of its table: all of it, whenever the table is one of that image. */
  method ExtractBLKX(c: Codec, file: seq<Byte>, dataStart: nat, runs: seq<Run>, out0: seq<Byte>, ghost image: seq<Byte>, ghost n: nat)
    returns (out: Option<seq<Byte>>)
    ensures TableOf(c, file, dataStart, runs, image, n) ==> out == Some(out0 + image)
  {
    hide Tiled, AllGive, Gives;
    var initialOffset := |out0|;
    var done := out0;
    ghost var good := TableOf(c, file, dataStart, runs, image, n);
    if good {
      assert out0 + Sectors(image, 0, 0) == out0;
    }
    for i := 0 to |runs|
      invariant good ==> i < |runs| && RunsTo(runs, i) <= n && done == out0 + Sectors(image, 0, RunsTo(runs, i))
    {
      var r := runs[i];
      if good {
        RunInTable(c, file, dataStart, runs, image, n, i);
      }
      var step := ExtractRun(c, file, dataStart, r, done, initialOffset, image);
      if r.kind == Terminator {
        if good {
          WholeImage(image, n);
        }
        return step;
      }
      if step.None? {
        return None;
      }
      if good {
        SectorsJoin(image, 0, r.sectorStart, r.sectorStart + r.sectorCount);
      }
      done := step.value;
    }
    return Some(done);
  }

  lemma WholeImage(image: seq<Byte>, n: nat)
    requires |image| == SECTOR * n
    ensures Sectors(image, 0, n) == image
  {}

  ghost function RunsTo(runs: seq<Run>, i: nat): nat
    requires i <= |runs|
  {
    End(runs[..i])
  }

  /** What the table says of its run i. */
  lemma RunInTable(c: Codec, file: seq<Byte>, dataStart: nat, runs: seq<Run>, image: seq<Byte>, n: nat, i: nat)
    requires TableOf(c, file, dataStart, runs, image, n) && i < |runs|
    ensures runs[i].sectorStart == RunsTo(runs, i) && (runs[i].kind == Terminator <==> i == |runs| - 1)
    ensures i < |runs| - 1 ==> Gives(c, file, dataStart, runs[i], image)
    ensures i < |runs| - 1 ==> RunsTo(runs, i + 1) == runs[i].sectorStart + runs[i].sectorCount <= n
    ensures i == |runs| - 1 ==> RunsTo(runs, i) == n && runs[i].sectorCount == 0
  {
    hide Gives;
    var body := runs[..|runs| - 1];
    if i < |body| {
      assert Follows(body, i) && body[..i] == runs[..i];
      assert Gives(c, file, dataStart, body[i], image);
      GivesInside(c, file, dataStart, body[i], image);
    }
  }

  lemma GivesInside(c: Codec, file: seq<Byte>, dataStart: nat, r: Run, image: seq<Byte>)
    requires Gives(c, file, dataStart, r, image)
    ensures SECTOR * (r.sectorStart + r.sectorCount) <= |image|
  {}

  /** The round trip: what is put into an image and taken out again is what it was if and only if the table of runs is
      not left, and no zeros were skipped or they lay right. */
  method InsertThenExtract(c: Codec, file0: seq<Byte>, image: seq<Byte>, n: nat, addComment: bool, out0: seq<Byte>)
    returns (out: Option<seq<Byte>>)
    requires Usable(c) && |image| == SECTOR * n
    ensures out.Some? <==> StaysInRoom(Plan(image, n, 0, IGNORE_THRESHOLD, addComment), RunsBefore(addComment))
    ensures out.Some? ==> |out.value| == |out0| + |image| && (out.value == out0 + image <==> !addComment || ZerosApart(image, n))
  {
    hide ZerosApart, Usable, TableOf, StaysInRoom, Plan, LaidOut, CutsOf, Cuts;
    var file, runs, inRoom, kept := InsertBLKX(c, file0, image, n, addComment);
    if !inRoom {
      return None;
    }
    out := ExtractBLKX(c, file, 0, runs, out0, kept, n);
    TableSize(c, file, 0, runs, kept, n);
    assert (out0 + kept)[|out0|..] == kept && (out0 + image)[|out0|..] == image;
  }

  lemma TableSize(c: Codec, file: seq<Byte>, dataStart: nat, runs: seq<Run>, image: seq<Byte>, n: nat)
    requires TableOf(c, file, dataStart, runs, image, n)
    ensures |image| == SECTOR * n
  {}
}
