/** What the loop that puts sectors into a disk image does with an input, step by step: which sectors are skipped, and
    which chunk is stored where. Nothing here looks at the runs. */
module DmgPlan {
  import opened Bits
  import opened Codecs
  import opened DmgRuns

  /** Sectors without data, or a chunk `from` the input, stored at a place. */
  datatype Step =
    | Skip(at: nat, count: nat)
    | Store(at: nat, from: nat, count: nat)

  ghost predicate IsInput(image: seq<Byte>, n: nat) {
    |image| == SECTOR * n
  }

  /** The chunk that is read last: the first one that is not zero, or the one at the end. */
  ghost function LastChunk(image: seq<Byte>, n: nat, cur: nat): (last: nat)
    requires IsInput(image, n) && cur < n
    ensures cur <= last < n
  {
    var z := ZeroRun(image, n, cur);
    cur + SECTORS_AT_A_TIME * ((if cur + z < n then z else z - 1) / SECTORS_AT_A_TIME)
  }

  /** The next step. */
  ghost function Next(image: seq<Byte>, n: nat, cur: nat, threshold: nat, skipZeros: bool): (s: Step)
    requires IsInput(image, n) && cur < n
    ensures s.at == cur && s.count > 0 && cur + s.count <= n
    ensures s.Store? ==> cur <= s.from && s.from + s.count == ChunkEnd(n, s.from) <= n
  {
    var last := if skipZeros then LastChunk(image, n, cur) else cur;
    if skipZeros && ZeroRun(image, n, cur) > threshold then Skip(cur, ZeroRun(image, n, cur))
    else Store(cur, last, ChunkEnd(n, last) - last)
  }

  /** All steps; after the first skip every zero sector is skipped. */
  ghost function Plan(image: seq<Byte>, n: nat, cur: nat, threshold: nat, skipZeros: bool): (steps: seq<Step>)
    requires IsInput(image, n)
    decreases n - cur
  {
    if cur >= n then []
    else
      var s := Next(image, n, cur, threshold, skipZeros);
      [s] + Plan(image, n, cur + s.count, if s.Skip? then 0 else threshold, skipZeros)
  }

  // ----- Room for the runs -----

  /** Skipped sectors are written as two runs if they are more than sixteen and not a multiple of that. */
  predicate TwoRuns(s: Step) {
    s.Skip? && s.count > 16 && s.count % 16 != 0
  }

  /** How many runs the steps take. */
  ghost function RunCount(steps: seq<Step>): nat {
    if steps == [] then 0 else RunCount(steps[..|steps| - 1]) + if TwoRuns(steps[|steps| - 1]) then 2 else 1
  }

  /** One less than a power of two, from one on. */
  ghost predicate BelowPower(k: nat) {
    exists j: nat :: j >= 1 && k + 1 == Shl(1, j)
  }

  /** The table of runs, which has room for a power of two, is full but for one when two runs are written at once. */
  ghost predicate Overflows(steps: seq<Step>, before: nat, i: nat)
    requires i < |steps|
  {
    TwoRuns(steps[i]) && BelowPower(before + RunCount(steps[..i]))
  }

  ghost predicate StaysUpTo(steps: seq<Step>, before: nat, k: nat)
    requires k <= |steps|
  {
    forall i: nat | i < k :: !Overflows(steps, before, i)
  }

  ghost predicate StaysInRoom(steps: seq<Step>, before: nat) {
    StaysUpTo(steps, before, |steps|)
  }

  /** The room that the loop provides for: a power of two, doubled when it is used up. */
  ghost predicate RoomFor(room: nat, count: nat) {
    && (exists k: nat :: k >= 1 && room == Shl(1, k))
    && count <= room && (room > 2 ==> 2 * count >= room)
  }

  lemma FirstRoom()
    ensures RoomFor(2, 0) && RoomFor(2, 1)
  {
    assert Shl(1, 1) == 2;
  }

  lemma Doubled(room: nat, count: nat)
    requires RoomFor(room, count) && count >= room
    ensures RoomFor(2 * room, count) && count < 2 * room
  {
    var k: nat :| k >= 1 && room == Shl(1, k);
    assert Shl(1, k + 1) == 2 * room;
    ShlPositive(k);
  }

  lemma {:induction false} ShlPositive(k: nat)
    ensures Shl(1, k) >= 1
  {
    if k > 0 {
      ShlPositive(k - 1);
    }
  }

  /** There is room for just one more exactly when the number of runs is one less than a power of two. */
  lemma LastPlace(room: nat, count: nat)
    requires RoomFor(room, count) && count < room
    ensures count + 1 == room <==> BelowPower(count)
  {
    var k: nat :| k >= 1 && room == Shl(1, k);
    if count + 1 != room && BelowPower(count) {
      var j: nat :| j >= 1 && count + 1 == Shl(1, j);
      if j < k {
        ShlMonotone(j + 1, k);
        assert Shl(1, j + 1) == 2 * (count + 1);
        ShlMonotone(1, j);
      } else {
        ShlMonotone(k, j);
      }
      assert false;
    }
  }

  /** What a run more does to the room. */
  lemma MoreRuns(room: nat, count: nat, more: nat)
    requires RoomFor(room, count) && count <= more <= room
    ensures RoomFor(room, more)
  {}

  lemma RunCountMore(steps: seq<Step>, s: Step)
    ensures RunCount(steps + [s]) == RunCount(steps) + if TwoRuns(s) then 2 else 1
  {
    assert (steps + [s])[..|steps|] == steps;
  }

  /** One step of a plan. */
  lemma StaysOne(plan: seq<Step>, before: nat, k: nat)
    requires k < |plan|
    ensures StaysUpTo(plan, before, k + 1) <==>
      StaysUpTo(plan, before, k) && !(TwoRuns(plan[k]) && BelowPower(before + RunCount(plan[..k])))
  {
    hide BelowPower, RunCount, TwoRuns;
    assert Overflows(plan, before, k) <==> TwoRuns(plan[k]) && BelowPower(before + RunCount(plan[..k]));
  }

  lemma StepThere(plan: seq<Step>, done: seq<Step>, s: Step, rest: seq<Step>)
    requires plan == done + [s] + rest
    ensures |done| < |plan| && plan[|done|] == s && plan[..|done|] == done
  {}

  /** Without skipping the room always suffices. */
  lemma {:induction false} PlainStays(image: seq<Byte>, n: nat, cur: nat, threshold: nat)
    requires IsInput(image, n)
    ensures forall s | s in Plan(image, n, cur, threshold, false) :: s.Store? && s.from == s.at
    ensures StaysInRoom(Plan(image, n, cur, threshold, false), 0)
    decreases n - cur
  {
    if cur < n {
      var s := Next(image, n, cur, threshold, false);
      PlainStays(image, n, cur + s.count, threshold);
    }
    var plan := Plan(image, n, cur, threshold, false);
    forall i: nat | i < |plan| ensures !Overflows(plan, 0, i) {
      assert plan[i] in plan;
    }
  }

  // ----- Room for the compressed bytes -----

  /** A chunk that is stored is large enough to be stored as it is if compressing does not make it smaller, or is not
      made larger by compressing. */
  ghost predicate Shrinks(c: Codec, image: seq<Byte>, s: Step) {
    s.Store? ==>
      && SECTOR * (s.from + s.count) <= |image|
      && (s.count >= 15 || |c.deflate(Sectors(image, s.from, s.from + s.count))| <= SECTOR * s.count)
  }

  ghost predicate AllShrink(c: Codec, image: seq<Byte>, steps: seq<Step>) {
    forall i: nat | i < |steps| :: Shrinks(c, image, steps[i])
  }

  lemma ShrinkLast(c: Codec, image: seq<Byte>, steps: seq<Step>, s: Step)
    ensures AllShrink(c, image, steps + [s]) <==> AllShrink(c, image, steps) && Shrinks(c, image, s)
  {
    hide Shrinks;
    var more := steps + [s];
    if AllShrink(c, image, more) {
      assert Shrinks(c, image, more[|steps|]);
      forall i: nat | i < |steps| ensures Shrinks(c, image, steps[i]) {
        assert more[i] == steps[i];
      }
    }
  }

  lemma PlanStep(image: seq<Byte>, n: nat, cur: nat, threshold: nat, skipZeros: bool)
    requires IsInput(image, n) && cur < n
    ensures var s := Next(image, n, cur, threshold, skipZeros);
      Plan(image, n, cur, threshold, skipZeros) == [s] + Plan(image, n, cur + s.count, if s.Skip? then 0 else threshold, skipZeros)
  {}

  lemma ShrinkFirst(c: Codec, image: seq<Byte>, s: Step, more: seq<Step>)
    ensures AllShrink(c, image, [s] + more) <==> Shrinks(c, image, s) && AllShrink(c, image, more)
  {
    hide Shrinks;
    var steps := [s] + more;
    if AllShrink(c, image, steps) {
      assert Shrinks(c, image, steps[0]);
      forall i: nat | i < |more| ensures Shrinks(c, image, more[i]) {
        assert more[i] == steps[i + 1];
      }
    }
  }

  /** Without skipping it is only the last chunk that can be too small. */
  lemma PlainShrinks(c: Codec, image: seq<Byte>, n: nat)
    requires IsInput(image, n)
    ensures var rest := n % SECTORS_AT_A_TIME;
      AllShrink(c, image, Plan(image, n, 0, IGNORE_THRESHOLD, false)) <==>
      (0 < rest < 15 ==> |c.deflate(Sectors(image, n - rest, n))| <= SECTOR * rest)
  {
    hide AllShrink, Plan;
    PlainShrinksFrom(c, image, n, 0, n / SECTORS_AT_A_TIME, n % SECTORS_AT_A_TIME);
  }

  lemma {:induction false} PlainShrinksFrom(c: Codec, image: seq<Byte>, n: nat, j: nat, k: nat, rest: nat)
    requires IsInput(image, n) && n == SECTORS_AT_A_TIME * k + rest && rest < SECTORS_AT_A_TIME && j <= k
    ensures AllShrink(c, image, Plan(image, n, SECTORS_AT_A_TIME * j, IGNORE_THRESHOLD, false)) <==>
      (0 < rest < 15 ==> |c.deflate(Sectors(image, n - rest, n))| <= SECTOR * rest)
    decreases k - j
  {
    hide AllShrink, Plan, Sectors;
    var cur := SECTORS_AT_A_TIME * j;
    if cur < n {
      var s := Next(image, n, cur, IGNORE_THRESHOLD, false);
      PlanStep(image, n, cur, IGNORE_THRESHOLD, false);
      ShrinkFirst(c, image, s, Plan(image, n, cur + s.count, IGNORE_THRESHOLD, false));
      if j < k {
        PlainShrinksFrom(c, image, n, j + 1, k, rest);
        assert s == Store(cur, cur, SECTORS_AT_A_TIME);
      } else {
        PlanEnds(c, image, n, IGNORE_THRESHOLD);
        assert s == Store(cur, cur, rest);
      }
    } else {
      PlanEnds(c, image, n, IGNORE_THRESHOLD);
    }
  }

  lemma PlanEnds(c: Codec, image: seq<Byte>, n: nat, threshold: nat)
    requires IsInput(image, n)
    ensures Plan(image, n, n, threshold, false) == [] && AllShrink(c, image, [])
  {}

  // ----- Inputs -----

  /** 100001 zero sectors in front of one that is not. */
  ghost function ManyZeros(): (image: seq<Byte>)
    ensures IsInput(image, 100002)
  {
    seq(SECTOR * 100002, i => if i < SECTOR * 100001 then 0 else 1)
  }

  /** Behind the comment there is room for one run, and the skipped sectors take two. */
  lemma ManyZerosOverflow()
    ensures Plan(ManyZeros(), 100002, 0, IGNORE_THRESHOLD, true)[..1] == [Skip(0, 100001)]
    ensures !StaysInRoom(Plan(ManyZeros(), 100002, 0, IGNORE_THRESHOLD, true), 1)
  {
    hide Plan, ZeroRun, LastChunk, ManyZeros;
    var image, n := ManyZeros(), 100002;
    ManyZerosRun();
    PlanStep(image, n, 0, IGNORE_THRESHOLD, true);
    var plan := Plan(image, n, 0, IGNORE_THRESHOLD, true);
    assert plan[0] == Skip(0, 100001);
    FirstRoom();
    LastPlace(2, 1);
    assert plan[..0] == [];
    assert Overflows(plan, 1, 0);
  }

  lemma ManyZerosRun()
    ensures ZeroRun(ManyZeros(), 100002, 0) == 100001
  {
    var image := ManyZeros();
    assert Zero(Sectors(image, 0, 100001));
    assert Sectors(image, 100001, 100002)[0] == 1;
    ZeroRunIs(image, 100002, 0, 100001);
  }

  /** One sector that compressing makes larger: it is not stored as it is, and does not fit into its own size. */
  lemma OneSectorGrows(sector: seq<Byte>)
    requires |sector| == SECTOR
    ensures Usable(OneMoreByte())
    ensures Plan(sector, 1, 0, IGNORE_THRESHOLD, false) == [Store(0, 0, 1)]
    ensures !AllShrink(OneMoreByte(), sector, Plan(sector, 1, 0, IGNORE_THRESHOLD, false))
  {
    var c := OneMoreByte();
    OneMoreByteInverse();
    assert Plan(sector, 1, 1, IGNORE_THRESHOLD, false) == [];
    var plan := Plan(sector, 1, 0, IGNORE_THRESHOLD, false);
    assert plan[0] == Store(0, 0, 1) && |c.deflate(Sectors(sector, 0, 1))| == SECTOR + 1;
    assert !Shrinks(c, sector, plan[0]);
  }
}
