/** Which free blocks a growing file takes: those behind it as long as they are free, and otherwise what a search finds that
    goes round the volume. */
module BlockChoice {
  import opened Extents

  // ----- Blocks -----

  /** How far the rotating search of n blocks has to go from `next` to a free block. */
  ghost function Ahead(free: nat, next: nat, n: nat): int {
    if free >= next then free - next else free - next + n
  }

  /** The block is free in the bitmap, and has not been taken since. */
  ghost predicate IsFree(used: seq<bool>, taken: seq<nat>, b: nat) {
    b < |used| && !used[b] && b !in taken
  }

  /** Of all free blocks the search comes to b first. */
  ghost predicate FirstFree(used: seq<bool>, taken: seq<nat>, start: nat, b: nat) {
    && IsFree(used, taken, b)
    && forall c: nat | IsFree(used, taken, c) :: Ahead(b, start, |used|) <= Ahead(c, start, |used|)
  }

  /** The block behind what the file has when it takes block i; place is the one behind the file as it was. */
  ghost function Behind(place: nat, added: seq<nat>, i: nat): nat
    requires i <= |added|
  {
    if i == 0 then place else added[i - 1] + 1
  }

  /** Where the search goes on when the file takes block i: behind the last block that was searched for. */
  ghost function Rotor(n: nat, place: nat, next: nat, added: seq<nat>, i: nat): nat
    requires i <= |added| && n > 0
  {
    if i == 0 then next
    else if added[i - 1] == Behind(place, added, i - 1) then Rotor(n, place, next, added, i - 1)
    else (added[i - 1] + 1) % n
  }

  ghost predicate ChosenAt(used: seq<bool>, place: nat, next: nat, added: seq<nat>, i: nat)
    requires i < |added| && |used| > 0
  {
    var behind := Behind(place, added, i);
    if IsFree(used, added[..i], behind) then added[i] == behind
    else FirstFree(used, added[..i], Rotor(|used|, place, next, added, i), added[i])
  }

  /** All the blocks are taken where they have to be. */
  ghost predicate Chosen(used: seq<bool>, place: nat, next: nat, added: seq<nat>) {
    |used| > 0 && forall i: nat | i < |added| :: ChosenAt(used, place, next, added, i)
  }

  /** The search has come to a block: the one behind the file, or one in front of which there is no free block. */
  ghost predicate Searching(used: seq<bool>, place: nat, next: nat, added: seq<nat>, cur: nat, rotor: nat) {
    && |used| > 0 && cur < |used| && rotor < |used|
    && var behind, start := Behind(place, added, |added|), Rotor(|used|, place, next, added, |added|);
    && start < |used|
    && ((cur == behind && rotor == start)
        || (!IsFree(used, added, behind) && rotor == (cur + 1) % |used| && NoneBefore(used, added, start, cur)))
  }

  ghost predicate NoneBefore(used: seq<bool>, taken: seq<nat>, start: nat, cur: nat) {
    forall c: nat | IsFree(used, taken, c) :: Ahead(cur, start, |used|) <= Ahead(c, start, |used|)
  }

  lemma {:induction false} RotorPrefix(n: nat, place: nat, next: nat, added: seq<nat>, b: nat, i: nat)
    requires i <= |added| && n > 0
    ensures Rotor(n, place, next, added + [b], i) == Rotor(n, place, next, added, i)
    ensures Behind(place, added + [b], i) == Behind(place, added, i)
  {
    if i > 0 {
      RotorPrefix(n, place, next, added, b, i - 1);
    }
  }

  /** The block is not free: the search takes its next one. */
  lemma SearchOn(used: seq<bool>, place: nat, next: nat, added: seq<nat>, cur: nat, rotor: nat)
    requires Searching(used, place, next, added, cur, rotor) && !IsFree(used, added, cur)
    ensures Searching(used, place, next, added, rotor, (rotor + 1) % |used|)
  {
    var start := Rotor(|used|, place, next, added, |added|);
    forall c: nat | IsFree(used, added, c) ensures Ahead(rotor, start, |used|) <= Ahead(c, start, |used|) {
      if rotor != start {
        assert Ahead(cur, start, |used|) <= Ahead(c, start, |used|);
        AheadNext(cur, start, |used|, c);
      }
    }
  }

  lemma NextRound(rotor: nat, n: nat)
    requires rotor < n
    ensures (rotor + 1) % n == if rotor + 1 >= n then 0 else rotor + 1
  {}

  lemma AheadNext(cur: nat, start: nat, n: nat, c: nat)
    requires cur < n && start < n && c < n && c != cur && Ahead(cur, start, n) <= Ahead(c, start, n)
    ensures Ahead((cur + 1) % n, start, n) <= Ahead(c, start, n)
  {
    NextRound(cur, n);
  }

  /** The block is free: it is the one to be taken. */
  lemma SearchEnds(used: seq<bool>, place: nat, next: nat, added: seq<nat>, cur: nat, rotor: nat)
    requires Chosen(used, place, next, added) && Searching(used, place, next, added, cur, rotor) && IsFree(used, added, cur)
    ensures Chosen(used, place, next, added + [cur])
    ensures cur + 1 < |used| ==> Searching(used, place, next, added + [cur], cur + 1, rotor)
    ensures Rotor(|used|, place, next, added + [cur], |added| + 1) == rotor
  {
    var more := added + [cur];
    RotorPrefix(|used|, place, next, added, cur, |added|);
    assert more[..|added|] == added;
    forall i: nat | i < |more| ensures ChosenAt(used, place, next, more, i) {
      if i < |added| {
        RotorPrefix(|used|, place, next, added, cur, i);
        assert ChosenAt(used, place, next, added, i) && more[..i] == added[..i];
      }
    }
  }

  // ----- Extents -----

  function EndOf(e: Extent): nat {
    e.startBlock + e.blockCount
  }

  /** The block behind a list, or where the search begins if there is none. */
  function Place(es: seq<Extent>, next: nat): nat {
    if es == [] then next else EndOf(es[|es| - 1])
  }

  /** A list with a block more: the last extent is made longer if the block is the one behind it. */
  function With(es: seq<Extent>, b: nat): seq<Extent> {
    var n := |es| - 1;
    if es != [] && EndOf(es[n]) == b then es[n := Extent(es[n].startBlock, es[n].blockCount + 1)]
    else es + [Extent(b, 1)]
  }

  ghost function Joined(es: seq<Extent>, added: seq<nat>): seq<Extent> {
    if added == [] then es else With(Joined(es, added[..|added| - 1]), added[|added| - 1])
  }

  lemma JoinedMore(es: seq<Extent>, added: seq<nat>, b: nat)
    ensures Joined(es, added + [b]) == With(Joined(es, added), b)
  {
    assert (added + [b])[..|added|] == added;
  }

  /** The list in the making may have an empty extent at its end, for a block that is not the one behind the others. */
  ghost predicate Extending(used: seq<bool>, es0: seq<Extent>, added: seq<nat>, es: seq<Extent>) {
    var joined, n := Joined(es0, added), |es| - 1;
    && es != []
    && if es[n].blockCount == 0 then es[..n] == joined && (joined == [] || !IsFree(used, added, EndOf(joined[|joined| - 1])))
       else es == joined
  }

  lemma ExtendingOn(used: seq<bool>, es0: seq<Extent>, added: seq<nat>, es: seq<Extent>, es': seq<Extent>)
    requires Extending(used, es0, added, es)
    requires es[|es| - 1].blockCount > 0 ==> !IsFree(used, added, EndOf(es[|es| - 1]))
    requires es' == if es[|es| - 1].blockCount > 0 then es + [Extent(0, 0)] else es
    ensures Extending(used, es0, added, es')
  {}

  lemma ExtendingMore(used: seq<bool>, es0: seq<Extent>, added: seq<nat>, es: seq<Extent>, es': seq<Extent>, b: nat)
    requires Extending(used, es0, added, es) && IsFree(used, added, b)
    requires var last := es[|es| - 1];
      && (last.blockCount > 0 ==> b == EndOf(last))
      && es' == es[|es| - 1 := Extent(if last.blockCount == 0 then b else last.startBlock, last.blockCount + 1)]
    ensures Extending(used, es0, added + [b], es')
  {
    JoinedMore(es0, added, b);
    var n := |es| - 1;
    assert es == es[..n] + [es[n]];
    assert es' == es[..n] + [es'[n]];
  }

  // ----- What it comes to -----

  /** How often the file does not go on behind its last block. */
  ghost function Breaks(place: nat, added: seq<nat>): nat {
    if added == [] then 0
    else
      var n := |added| - 1;
      Breaks(place, added[..n]) + if added[n] == Behind(place, added, n) then 0 else 1
  }

  /** There is a new extent for each break, and one for the first block of a file that had none. */
  lemma {:induction false} OneExtentPerBreak(es: seq<Extent>, next: nat, added: seq<nat>)
    requires added != []
    ensures var place, joined := Place(es, next), Joined(es, added);
      && joined != [] && EndOf(joined[|joined| - 1]) == added[|added| - 1] + 1
      && |joined| == |es| + Breaks(place, added) + if es == [] && added[0] == place then 1 else 0
  {
    var n := |added| - 1;
    if n > 0 {
      OneExtentPerBreak(es, next, added[..n]);
    } else {
      assert added[..n] == [];
    }
  }

  lemma NotInRange(place: nat, n: nat)
    ensures place + n !in Range(place, n)
  {}

  /** A file behind which there are enough free blocks takes just these: it has no more extents than before, and the
      search does not go on. */
  lemma {:induction false} InOnePiece(used: seq<bool>, es: seq<Extent>, next: nat, added: seq<nat>)
    requires es != [] && Chosen(used, Place(es, next), next, added)
    requires forall b: nat | Place(es, next) <= b < Place(es, next) + |added| :: b < |used| && !used[b]
    ensures added == Range(Place(es, next), |added|) && |Joined(es, added)| == |es|
    ensures Rotor(|used|, Place(es, next), next, added, |added|) == next
  {
    if added != [] {
      hide Joined, Rotor, Breaks, Range;
      var place, n := Place(es, next), |added| - 1;
      var front := added[..n];
      ChosenFront(used, place, next, added);
      InOnePiece(used, es, next, front);
      assert front + [added[n]] == added && ChosenAt(used, place, next, added, n);
      NextInPiece(used, place, next, front, added[n]);
      JoinedMore(es, front, added[n]);
      if n > 0 {
        OneExtentPerBreak(es, next, front);
      } else {
        assert Joined(es, front) == es by { NothingJoined(es); }
      }
    }
  }

  lemma NothingJoined(es: seq<Extent>)
    ensures Joined(es, []) == es
  {}

  lemma ChosenFront(used: seq<bool>, place: nat, next: nat, added: seq<nat>)
    requires Chosen(used, place, next, added) && added != []
    ensures Chosen(used, place, next, added[..|added| - 1])
  {
    var n := |added| - 1;
    var front := added[..n];
    assert front + [added[n]] == added;
    forall i: nat | i < n ensures ChosenAt(used, place, next, front, i) {
      RotorPrefix(|used|, place, next, front, added[n], i);
      assert ChosenAt(used, place, next, added, i) && added[..i] == front[..i];
    }
  }

  /** One more block behind those in one piece. */
  lemma NextInPiece(used: seq<bool>, place: nat, next: nat, front: seq<nat>, b: nat)
    requires |used| > 0 && ChosenAt(used, place, next, front + [b], |front|) && front == Range(place, |front|)
    requires place + |front| < |used| && !used[place + |front|] && Rotor(|used|, place, next, front, |front|) == next
    ensures b == place + |front| && front + [b] == Range(place, |front| + 1)
    ensures Rotor(|used|, place, next, front + [b], |front| + 1) == next
  {
    var n := |front|;
    RotorPrefix(|used|, place, next, front, b, n);
    NotInRange(place, n);
    assert (front + [b])[..n] == front;
    assert Behind(place, front + [b], n) == place + n;
  }
}
