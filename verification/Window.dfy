/** The sliding window: how ring slots, the mirror and the trees relate to absolute stream positions. The
    stream x is START blanks followed by the text; position R is the one being encoded, and the bytes
    before `top` have been read. */
module Window {
  import opened Bits
  import opened LzssBase
  import opened SearchTree

  /** The first position whose string may still be registered when R is about to be. */
  ghost function Oldest(R: int): int {
    if R + F - N > N - 2 * F then R + F - N else N - 2 * F
  }

  ghost function Top(x: seq<Byte>, R: int): int {
    if R + F < |x| then R + F else |x|
  }

  /** A stream begins with blanks, those the ring starts with. */
  ghost predicate BlankStart(x: seq<Byte>) {
    START <= |x| && forall b | 0 <= b < START :: x[b] == SPACE
  }

  /** The ring holds the last bytes read; the mirror holds them too, but only those past the first lap. */
  ghost predicate TextHolds(text: seq<Byte>, x: seq<Byte>, R: int, top: int)
    requires IsText(text)
  {
    forall b | 0 <= b < top <= |x| && R + F - N <= b ::
      && text[Slot(b)] == x[b]
      && (b >= N && Slot(b) < F - 1 ==> text[N + Slot(b)] == x[b])
  }

  /** Strings read from registered positions are strings of the stream, as far as it has been read. */
  lemma KeyHolds(text: seq<Byte>, x: seq<Byte>, R: int, top: int, a: int, i: nat)
    requires IsText(text) && TextHolds(text, x, R, top) && top <= |x| && top <= R + F
    requires 0 <= a && R + F - N <= a <= R && i < F && a + i < top
    ensures KeyAt(text, Slot(a))[i] == x[a + i]
  {
    var b := a + i;
    if Slot(a) + i < N {
      assert Slot(b) == Slot(a) + i;
    } else {
      assert Slot(b) == Slot(a) + i - N && b >= N;
    }
  }

  /** The ring after a byte has been read into slot s, with its mirror. */
  ghost function Stored(text: seq<Byte>, s: Pos, c: Byte): (text': seq<Byte>)
    requires IsText(text)
    ensures IsText(text')
  {
    var t := text[s := c];
    if s < F - 1 then t[s + N := c] else t
  }

  /** Reading a byte into slot R + F does not touch the string of any position from R + F - N + 1 on. */
  lemma StoreKeepsKey(text: seq<Byte>, c: Byte, R: int, a: int)
    requires IsText(text) && 0 <= a && R + F - N < a <= R
    ensures KeyAt(Stored(text, Slot(R + F), c), Slot(a)) == KeyAt(text, Slot(a))
  {
    var s, text' := Slot(R + F), Stored(text, Slot(R + F), c);
    forall i | 0 <= i < F ensures KeyAt(text', Slot(a))[i] == KeyAt(text, Slot(a))[i] {
      assert Slot(a) + i != s && Slot(a) + i != s + N;
    }
  }

  lemma StoreHolds(text: seq<Byte>, x: seq<Byte>, R: int)
    requires IsText(text) && 0 <= R && R + F < |x| && TextHolds(text, x, R, R + F)
    ensures TextHolds(Stored(text, Slot(R + F), x[R + F]), x, R + 1, R + F + 1)
  {}

  lemma BlankText(text: seq<Byte>)
    requires IsText(text) && forall j | 0 <= j < |text| :: text[j] == if j < START then SPACE else 0
    ensures text == seq(START, _ => SPACE) + seq(2 * F - 1, _ => 0)
  {}

  /** The first bytes of the text, read into the last slots of a blank ring. */
  lemma LoadedText(blank: seq<Byte>, text: seq<Byte>, src: seq<Byte>, len: nat)
    requires blank == seq(START, _ => SPACE) + seq(2 * F - 1, _ => 0)
    requires IsText(text) && len <= F && len <= |src|
    requires text[..START] == blank[..START] && text[START..START + len] == src[..len]
    ensures TextHolds(text, seq(START, _ => SPACE) + src, START, START + len)
  {
    var x := seq(START, _ => SPACE) + src;
    forall b | 0 <= b < START + len ensures text[b] == x[b] {
      if b < START {
        assert text[b] == text[..START][b] == blank[..START][b];
      } else {
        assert text[b] == text[START..START + len][b - START];
      }
    }
  }

  // ----- Registered positions -----

  /** Every registered slot is that of a position in [from, to). */
  ghost predicate LiveIn(trees: seq<Tree>, from: int, to: int) {
    forall n: Pos | Live(trees, n) :: exists a :: from <= a < to && Slot(a) == n
  }

  ghost function Blanks(): (s: seq<Byte>)
    ensures |s| == F
  {
    seq(F, _ => SPACE)
  }

  /** One of the strings of blanks that begin before the text, but not the one furthest left. The strings before the
      text are registered from right to left, so it is that one which stays, and no node stands for the others. */
  ghost predicate Shadowed(text: seq<Byte>, a: int)
    requires IsText(text)
  {
    START - F < a < START && KeyAt(text, Slot(a)) == Blanks()
  }

  /** The string of position a is registered, for a or for a later position. */
  ghost predicate Covered(trees: seq<Tree>, text: seq<Byte>, a: int, to: int)
    requires IsText(text)
  {
    exists b :: a <= b < to && Live(trees, Slot(b)) && KeyAt(text, Slot(b)) == KeyAt(text, Slot(a))
  }

  ghost predicate Standing(trees: seq<Tree>, text: seq<Byte>, a: int, to: int)
    requires IsText(text)
  {
    if Shadowed(text, a) then !Live(trees, Slot(a)) else Covered(trees, text, a, to)
  }

  /** The trees hold just the strings of the window before `to` that are not shadowed; R is next or was last. */
  ghost predicate Registered(trees: seq<Tree>, text: seq<Byte>, R: int, to: int)
    requires IsText(text)
  {
    && LiveIn(trees, Oldest(R), to)
    && forall a | Oldest(R) <= a < to :: Standing(trees, text, a, to)
  }

  lemma NextIsNew(trees: seq<Tree>, R: int)
    requires LiveIn(trees, Oldest(R), R)
    ensures !Live(trees, Slot(R))
  {}

  lemma DropLive(trees: seq<Tree>, trees': seq<Tree>, R: int)
    requires N - F <= R && LiveIn(trees, Oldest(R), R + 1) && Removed(trees, trees', Slot(R + F))
    ensures LiveIn(trees', Oldest(R + 1), R + 1)
  {
    forall n: Pos | Live(trees', n) ensures exists a :: Oldest(R + 1) <= a < R + 1 && Slot(a) == n {
      assert Live(trees, n) && n != Slot(R + F);
      var a :| Oldest(R) <= a < R + 1 && Slot(a) == n;
      assert a != R + F - N;
    }
  }

  lemma DropOther(trees: seq<Tree>, trees': seq<Tree>, R: int, b: int)
    requires Removed(trees, trees', Slot(R + F)) && R + F - N < b <= R && Live(trees, Slot(b))
    ensures Live(trees', Slot(b))
  {
    var c: Byte :| c < |trees| && Slot(b) in Nodes(trees[c]);
    assert Slot(b) in Nodes(trees'[c]);
  }

  /** Dropping slot R + F makes room for the next position. */
  lemma DropRegistered(trees: seq<Tree>, trees': seq<Tree>, text: seq<Byte>, R: int)
    requires IsText(text) && START <= R && Registered(trees, text, R, R + 1)
    requires Removed(trees, trees', Slot(R + F))
    ensures Registered(trees', text, R + 1, R + 1)
  {
    hide Standing, Live, Removed, LiveIn, Slot;
    DropLive(trees, trees', R);
    var to := R + 1;
    forall a | Oldest(to) <= a < to ensures Standing(trees', text, a, to) {
      DropOne(trees, trees', text, R, a);
    }
  }

  lemma DropOne(trees: seq<Tree>, trees': seq<Tree>, text: seq<Byte>, R: int, a: int)
    requires IsText(text) && START <= R && Removed(trees, trees', Slot(R + F))
    requires Oldest(R + 1) <= a < R + 1 && Standing(trees, text, a, R + 1)
    ensures Standing(trees', text, a, R + 1)
  {
    hide Live, Removed, LiveIn, Slot, Shadowed;
    if Shadowed(text, a) {
      NoneAdded(trees, trees', R, Slot(a));
    } else {
      var b :| a <= b < R + 1 && Live(trees, Slot(b)) && KeyAt(text, Slot(b)) == KeyAt(text, Slot(a));
      DropOther(trees, trees', R, b);
    }
  }

  lemma NoneAdded(trees: seq<Tree>, trees': seq<Tree>, R: int, n: Pos)
    requires Removed(trees, trees', Slot(R + F)) && !Live(trees, n)
    ensures !Live(trees', n)
  {}

  lemma StoreRegistered(trees: seq<Tree>, text: seq<Byte>, R: int, c: Byte)
    requires IsText(text) && START <= R && Registered(trees, text, R + 1, R + 1)
    ensures Registered(trees, Stored(text, Slot(R + F), c), R + 1, R + 1)
    ensures forall n: Pos | Live(trees, n) :: KeyAt(Stored(text, Slot(R + F), c), n) == KeyAt(text, n)
  {
    hide Standing, Live, Stored, KeyAt, Slot;
    var text' := Stored(text, Slot(R + F), c);
    forall n: Pos | Live(trees, n) ensures KeyAt(text', n) == KeyAt(text, n) {
      var a :| Oldest(R + 1) <= a < R + 1 && Slot(a) == n;
      StoreKeepsKey(text, c, R, a);
    }
    var to := R + 1;
    forall a | Oldest(to) <= a < to ensures Standing(trees, text', a, to) {
      StoreOne(trees, text, R, c, a);
    }
  }

  lemma StoreOne(trees: seq<Tree>, text: seq<Byte>, R: int, c: Byte, a: int)
    requires IsText(text) && START <= R && Oldest(R + 1) <= a < R + 1 && Standing(trees, text, a, R + 1)
    ensures Standing(trees, Stored(text, Slot(R + F), c), a, R + 1)
  {
    hide Live, Stored, KeyAt, Slot;
    var text' := Stored(text, Slot(R + F), c);
    StoreKeepsKey(text, c, R, a);
    if !Shadowed(text, a) {
      var b :| a <= b < R + 1 && Live(trees, Slot(b)) && KeyAt(text, Slot(b)) == KeyAt(text, Slot(a));
      StoreKeepsKey(text, c, R, b);
    }
  }

  /** The trees after r has been registered. */
  ghost predicate Added(trees: seq<Tree>, trees': seq<Tree>, text: seq<Byte>, r: Pos)
    requires IsText(text)
  {
    forall n: Pos :: Live(trees', n) <==> n == r || (Live(trees, n) && !SameKey(text, n, r))
  }

  lemma InsertAdds(k: Links, trees: seq<Tree>, text: seq<Byte>, r: Pos)
    requires k.Shape() && IsText(text) && Forest(k, trees, text) && !Live(trees, r)
    ensures Added(trees, trees[text[r] := Insert(trees[text[r]], text, r)], text, r)
  {
    var c := text[r];
    var trees' := trees[c := Insert(trees[c], text, r)];
    assert TreeOk(k, trees[c], c, text);
    InsertKeepsOrder(trees[c], text, r);
    forall n: Pos ensures Live(trees', n) <==> n == r || (Live(trees, n) && !SameKey(text, n, r)) {
      LiveIffParent(k, trees, text, n);
      assert SameKey(text, n, r) ==> text[n] == c by {
        assert KeyAt(text, n)[0] == text[n] && KeyAt(text, r)[0] == c;
      }
      if Live(trees', n) {
        var d: Byte :| d < |trees'| && n in Nodes(trees'[d]);
        if d != c {
          assert n in Nodes(trees[d]) && TreeOk(k, trees[d], d, text);
        }
      }
      if n == r || (Live(trees, n) && !SameKey(text, n, r)) {
        assert n in Nodes(trees'[text[n]]);
      }
    }
  }

  /** Registering position R. */
  lemma AddRegistered(trees: seq<Tree>, trees': seq<Tree>, text: seq<Byte>, R: int)
    requires IsText(text) && START <= R && Registered(trees, text, R, R)
    requires Added(trees, trees', text, Slot(R))
    ensures Registered(trees', text, R, R + 1)
  {
    hide Standing, Live, Added, LiveIn;
    AddLive(trees, trees', text, R);
    var to := R + 1;
    forall a | Oldest(R) <= a < to ensures Standing(trees', text, a, to) {
      AddOne(trees, trees', text, R, a);
    }
  }

  lemma AddLive(trees: seq<Tree>, trees': seq<Tree>, text: seq<Byte>, R: int)
    requires IsText(text) && START <= R && LiveIn(trees, Oldest(R), R) && Added(trees, trees', text, Slot(R))
    ensures LiveIn(trees', Oldest(R), R + 1) && Live(trees', Slot(R))
  {
    hide Live;
  }

  lemma AddOne(trees: seq<Tree>, trees': seq<Tree>, text: seq<Byte>, R: int, a: int)
    requires IsText(text) && START <= R && Oldest(R) <= a <= R && Added(trees, trees', text, Slot(R))
    requires a < R ==> Standing(trees, text, a, R)
    ensures Standing(trees', text, a, R + 1)
  {
    hide Live;
    if Shadowed(text, a) {
      assert Slot(a) != Slot(R);
    } else if a < R {
      var b :| a <= b < R && Live(trees, Slot(b)) && KeyAt(text, Slot(b)) == KeyAt(text, Slot(a));
      if !SameKey(text, Slot(b), Slot(R)) {
        assert Live(trees', Slot(b));
      } else {
        assert Live(trees', Slot(R));
      }
    } else {
      assert Live(trees', Slot(R));
    }
  }

  // ----- The blanks before the text -----

  /** No position from `from` on has the same string as a, which comes behind it. */
  ghost predicate FirstOfItsKind(text: seq<Byte>, from: int, a: int)
    requires IsText(text)
  {
    forall b | from <= b < a :: KeyAt(text, Slot(b)) != KeyAt(text, Slot(a))
  }

  /** The blanks from position START - i on have been registered, from right to left: of equal strings the one furthest
      left is there. */
  ghost predicate Primed(trees: seq<Tree>, text: seq<Byte>, i: int)
    requires IsText(text)
  {
    && LiveIn(trees, START - i, START)
    && forall a | START - i <= a < START :: Live(trees, Slot(a)) <==> FirstOfItsKind(text, START - i, a)
  }

  lemma NonePrimed(trees: seq<Tree>, text: seq<Byte>)
    requires IsText(text) && trees == seq(256, _ => Empty)
    ensures Primed(trees, text, 0)
  {}

  lemma PrimedFree(trees: seq<Tree>, text: seq<Byte>, i: int)
    requires IsText(text) && 0 <= i < F && Primed(trees, text, i)
    ensures !Live(trees, Slot(START - i - 1))
  {}

  lemma AddPrimed(trees: seq<Tree>, trees': seq<Tree>, text: seq<Byte>, i: int)
    requires IsText(text) && 0 <= i < F && Primed(trees, text, i) && Added(trees, trees', text, Slot(START - i - 1))
    ensures Primed(trees', text, i + 1)
  {
    hide Live, FirstOfItsKind, LiveIn, Added;
    var a0 := START - i - 1;
    AddPrimedLive(trees, trees', text, i);
    forall a | a0 <= a < START ensures Live(trees', Slot(a)) <==> FirstOfItsKind(text, a0, a) {
      PrimeOne(trees, trees', text, a0, a);
    }
  }

  lemma PrimeOne(trees: seq<Tree>, trees': seq<Tree>, text: seq<Byte>, a0: int, a: int)
    requires IsText(text) && START - F <= a0 <= a < START && Added(trees, trees', text, Slot(a0))
    requires a > a0 ==> (Live(trees, Slot(a)) <==> FirstOfItsKind(text, a0 + 1, a))
    ensures Live(trees', Slot(a)) <==> FirstOfItsKind(text, a0, a)
  {
    hide Live, KeyAt;
    assert Live(trees', Slot(a)) <==> Slot(a) == Slot(a0) || (Live(trees, Slot(a)) && !SameKey(text, Slot(a), Slot(a0)));
    if a > a0 {
      assert Slot(a) != Slot(a0);
      FirstFromHere(text, a0, a);
    }
  }

  lemma FirstFromHere(text: seq<Byte>, a0: int, a: int)
    requires IsText(text) && a0 < a
    ensures FirstOfItsKind(text, a0, a) <==> FirstOfItsKind(text, a0 + 1, a) && KeyAt(text, Slot(a0)) != KeyAt(text, Slot(a))
  {
    hide KeyAt;
  }

  lemma AddPrimedLive(trees: seq<Tree>, trees': seq<Tree>, text: seq<Byte>, i: int)
    requires IsText(text) && 0 <= i < F && LiveIn(trees, START - i, START)
    requires Added(trees, trees', text, Slot(START - i - 1))
    ensures LiveIn(trees', START - i - 1, START) && Live(trees', Slot(START - i - 1))
  {}

  /** Two equal strings that begin with blanks before the text are blank altogether. */
  lemma {:induction false} EqualAreBlank(text: seq<Byte>, b: int, a: int, j: nat)
    requires IsText(text) && (forall k | 0 <= k < START :: text[k] == SPACE)
    requires START - F <= b < a < START && KeyAt(text, Slot(b)) == KeyAt(text, Slot(a)) && j < F
    ensures KeyAt(text, Slot(a))[j] == SPACE
    decreases j
  {
    if a + j >= START {
      assert KeyAt(text, Slot(a))[j] == KeyAt(text, Slot(b))[j] == text[b + j];
      if b + j >= START {
        EqualAreBlank(text, b, a, j - (a - b));
        assert KeyAt(text, Slot(a))[j - (a - b)] == text[b + j];
      }
    }
  }

  lemma PrimedRegistered(trees: seq<Tree>, text: seq<Byte>)
    requires IsText(text) && Primed(trees, text, F) && forall k | 0 <= k < START :: text[k] == SPACE
    ensures Registered(trees, text, START, START)
  {
    hide Live, Standing;
    forall a | START - F <= a < START ensures Standing(trees, text, a, START) {
      PrimedOne(trees, text, a);
    }
  }

  lemma PrimedOne(trees: seq<Tree>, text: seq<Byte>, a: int)
    requires IsText(text) && START - F <= a < START && forall k | 0 <= k < START :: text[k] == SPACE
    requires Live(trees, Slot(a)) <==> FirstOfItsKind(text, START - F, a)
    ensures Standing(trees, text, a, START)
  {
    hide Live;
    if !FirstOfItsKind(text, START - F, a) {
      NotFirstIsShadowed(text, a);
    }
    if Shadowed(text, a) {
      assert KeyAt(text, Slot(START - F)) == Blanks();
    }
  }

  lemma NotFirstIsShadowed(text: seq<Byte>, a: int)
    requires IsText(text) && START - F <= a < START && forall k | 0 <= k < START :: text[k] == SPACE
    requires !FirstOfItsKind(text, START - F, a)
    ensures Shadowed(text, a)
  {
    var b :| START - F <= b < a && KeyAt(text, Slot(b)) == KeyAt(text, Slot(a));
    forall j | 0 <= j < F ensures KeyAt(text, Slot(a))[j] == Blanks()[j] {
      EqualAreBlank(text, b, a, j);
    }
    assert KeyAt(text, Slot(a)) == Blanks();
  }

  /** The ring holds the blanks in front of the text. */
  lemma BlankFront(text: seq<Byte>, x: seq<Byte>, top: int)
    requires IsText(text) && BlankStart(x) && START <= top <= |x| && TextHolds(text, x, START, top)
    ensures forall k | 0 <= k < START :: text[k] == SPACE
  {
    forall k | 0 <= k < START ensures text[k] == SPACE {
      assert text[Slot(k)] == x[k];
    }
  }

  // ----- What a search finds -----

  /** The match reported for position R is the longest one with the strings of the window that are not shadowed, and
      is one of them. */
  ghost predicate Found(text: seq<Byte>, R: int, pos: int, len: nat)
    requires IsText(text)
  {
    && len <= F
    && (forall a | Oldest(R) <= a < R && !Shadowed(text, a) :: Lcp(KeyAt(text, Slot(R)), KeyAt(text, Slot(a))) <= len)
    && (len > 0 ==> exists a :: Oldest(R) <= a < R && !Shadowed(text, a) && Slot(a) == pos
                      && Lcp(KeyAt(text, Slot(R)), KeyAt(text, Slot(a))) == len)
  }

  /** What the encoder's search promises about the registered strings. */
  ghost predicate LongestLive(trees: seq<Tree>, text: seq<Byte>, r: Pos, pos: int, len: nat)
    requires IsText(text)
  {
    && (forall n: Pos | Live(trees, n) :: Lcp(KeyAt(text, r), KeyAt(text, n)) <= len)
    && (len > 0 ==> 0 <= pos < N && Live(trees, pos) && Lcp(KeyAt(text, r), KeyAt(text, pos)) == len)
  }

  lemma BestIsLongestLive(k: Links, trees: seq<Tree>, text: seq<Byte>, r: Pos, pos0: int)
    requires k.Shape() && IsText(text) && Forest(k, trees, text)
    ensures var b := Best(trees[text[r]], text, r, Match(pos0, 0));
      b.len <= F && LongestLive(trees, text, r, b.pos, b.len)
  {
    var t := trees[text[r]];
    assert TreeOk(k, t, text[r], text);
    BestIsLongest(t, text, r, Match(pos0, 0));
    var b := Best(t, text, r, Match(pos0, 0));
    forall n: Pos | Live(trees, n) ensures Lcp(KeyAt(text, r), KeyAt(text, n)) <= b.len {
      LiveIffParent(k, trees, text, n);
      if text[n] != text[r] {
        assert KeyAt(text, n)[0] == text[n] && KeyAt(text, r)[0] == text[r];
      }
    }
  }

  lemma LongestIsFound(trees: seq<Tree>, text: seq<Byte>, R: int, pos: int, len: nat)
    requires IsText(text) && START <= R && Registered(trees, text, R, R) && len <= F
    requires LongestLive(trees, text, Slot(R), pos, len)
    ensures Found(text, R, pos, len)
  {
    forall a | Oldest(R) <= a < R && !Shadowed(text, a) ensures Lcp(KeyAt(text, Slot(R)), KeyAt(text, Slot(a))) <= len {
      assert Standing(trees, text, a, R);
    }
    if len > 0 {
      var a :| Oldest(R) <= a < R && Slot(a) == pos;
      assert Standing(trees, text, a, R);
    }
  }

  lemma ForestStored(k: Links, trees: seq<Tree>, text: seq<Byte>, text': seq<Byte>)
    requires k.Shape() && IsText(text) && IsText(text') && Forest(k, trees, text)
    requires forall n: Pos | Live(trees, n) :: KeyAt(text', n) == KeyAt(text, n)
    ensures Forest(k, trees, text')
  {
    forall n: Pos | Live(trees, n) ensures text'[n] == text[n] {
      assert KeyAt(text', n)[0] == KeyAt(text, n)[0];
    }
    forall c: Byte ensures TreeOk(k, trees[c], c, text') {
      assert TreeOk(k, trees[c], c, text);
      assert forall n | n in Nodes(trees[c]) :: Live(trees, n);
      SortedFrame(trees[c], text, text');
    }
    forall p: Pos ensures k.parent[p] == NIL || p in Nodes(trees[text'[p]]) {
      LiveIffParent(k, trees, text, p);
    }
  }
}
