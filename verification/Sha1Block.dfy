/** The step of SHA-1 from one block of 64 bytes to the next. */
module Sha1Block {
  import opened Bits

  type Word = bv32

  datatype State = State(a: Word, b: Word, c: Word, d: Word, e: Word)

  // ----- The step as section 7 of FIPS PUB 180-1 has it -----

  function Rol1(x: Word): Word {
    (x << 1) | (x >> 31)
  }

  function Rol5(x: Word): Word {
    (x << 5) | (x >> 27)
  }

  function Rol30(x: Word): Word {
    (x << 30) | (x >> 2)
  }

  function Choice(b: Word, c: Word, d: Word): Word {
    (b & c) | (!b & d)
  }

  function Parity(b: Word, c: Word, d: Word): Word {
    b ^ c ^ d
  }

  function Majority(b: Word, c: Word, d: Word): Word {
    (b & c) | (b & d) | (c & d)
  }

  ghost function F(t: nat, b: Word, c: Word, d: Word): Word {
    if t < 20 then Choice(b, c, d)
    else if t < 40 then Parity(b, c, d)
    else if t < 60 then Majority(b, c, d)
    else Parity(b, c, d)
  }

  ghost function K(t: nat): Word {
    if t < 20 then 0x5A82_7999
    else if t < 40 then 0x6ED9_EBA1
    else if t < 60 then 0x8F1B_BCDC
    else 0xCA62_C1D6
  }

  function WordOf(b: Byte): (w: Word)
    ensures w <= 0xFF
  {
    (b as bv8) as bv32
  }

  function HighFirst(p: Word, q: Word, r: Word, s: Word): Word {
    (p << 24) | (q << 16) | (r << 8) | s
  }

  ghost function BigEndian(block: seq<Byte>, at: nat): Word
    requires at + 4 <= |block|
  {
    HighFirst(WordOf(block[at]), WordOf(block[at + 1]), WordOf(block[at + 2]), WordOf(block[at + 3]))
  }

  function Mixed(p: Word, q: Word, r: Word, s: Word): Word {
    Rol1(p ^ q ^ r ^ s)
  }

  /** The message schedule. */
  ghost function W(block: seq<Byte>, t: nat): Word
    requires |block| == 64
  {
    if t < 16 then BigEndian(block, 4 * t)
    else Mixed(W(block, t - 3), W(block, t - 8), W(block, t - 14), W(block, t - 16))
  }

  function Sum(p: Word, q: Word, r: Word, s: Word, t: Word): Word {
    p + q + r + s + t
  }

  ghost function Round(s: State, t: nat, w: Word): State {
    State(Sum(Rol5(s.a), F(t, s.b, s.c, s.d), s.e, w, K(t)), s.a, Rol30(s.b), s.c, s.d)
  }

  ghost function Rounds(s: State, block: seq<Byte>, n: nat): State
    requires |block| == 64
  {
    if n == 0 then s else Round(Rounds(s, block, n - 1), n - 1, W(block, n - 1))
  }

  ghost function Compress(s: State, block: seq<Byte>): State
    requires |block| == 64
  {
    Plus(s, Rounds(s, block, 80))
  }

  function Plus(s: State, r: State): State {
    State(s.a + r.a, s.b + r.b, s.c + r.c, s.d + r.d, s.e + r.e)
  }

  // ----- The step as it is computed -----

  /** A word of the buffer on a machine that stores the low byte first. */
  function LittleEndian(block: seq<Byte>, at: nat): Word
    requires at + 4 <= |block|
  {
    LowFirst(WordOf(block[at]), WordOf(block[at + 1]), WordOf(block[at + 2]), WordOf(block[at + 3]))
  }

  function LowFirst(p: Word, q: Word, r: Word, s: Word): Word {
    p | (q << 8) | (r << 16) | (s << 24)
  }

  function Swapped(l: Word): Word {
    (((l << 24) | (l >> 8)) & 0xFF00_FF00) | (((l << 8) | (l >> 24)) & 0x00FF_00FF)
  }

  lemma SwapBytes(p: Word, q: Word, r: Word, s: Word)
    requires p <= 0xFF && q <= 0xFF && r <= 0xFF && s <= 0xFF
    ensures Swapped(LowFirst(p, q, r, s)) == HighFirst(p, q, r, s)
  {}

  lemma SwappedIsBig(block: seq<Byte>, at: nat)
    requires at + 4 <= |block|
    ensures Swapped(LittleEndian(block, at)) == BigEndian(block, at)
  {
    hide Swapped, WordOf, LowFirst, HighFirst;
    SwapBytes(WordOf(block[at]), WordOf(block[at + 1]), WordOf(block[at + 2]), WordOf(block[at + 3]));
  }

  // The macros R0 and R1, R2, R3 and R4: what is added to the last variable.

  function R01(v: Word, w: Word, x: Word, y: Word, z: Word, n: Word): Word {
    Added(z, FastChoice(w, x, y), n, 0x5A82_7999, v)
  }

  function R2(v: Word, w: Word, x: Word, y: Word, z: Word, n: Word): Word {
    Added(z, Parity(w, x, y), n, 0x6ED9_EBA1, v)
  }

  function R3(v: Word, w: Word, x: Word, y: Word, z: Word, n: Word): Word {
    Added(z, FastMajority(w, x, y), n, 0x8F1B_BCDC, v)
  }

  function R4(v: Word, w: Word, x: Word, y: Word, z: Word, n: Word): Word {
    Added(z, Parity(w, x, y), n, 0xCA62_C1D6, v)
  }

  function Added(z: Word, f: Word, n: Word, k: Word, v: Word): Word {
    z + (f + n + k + Rol5(v))
  }

  function FastChoice(w: Word, x: Word, y: Word): Word {
    (w & (x ^ y)) ^ y
  }

  function FastMajority(w: Word, x: Word, y: Word): Word {
    ((w | x) & y) | (w & x)
  }

  lemma ChoiceBits(w: Word, x: Word, y: Word)
    ensures (w & (x ^ y)) ^ y == (w & x) | (!w & y)
  {}

  lemma ChoiceIsFast(w: Word, x: Word, y: Word)
    ensures FastChoice(w, x, y) == Choice(w, x, y)
  {
    ChoiceBits(w, x, y);
  }

  lemma MajorityBits(w: Word, x: Word, y: Word)
    ensures ((w | x) & y) | (w & x) == (w & x) | (w & y) | (x & y)
  {}

  lemma MajorityIsFast(w: Word, x: Word, y: Word)
    ensures FastMajority(w, x, y) == Majority(w, x, y)
  {
    MajorityBits(w, x, y);
  }

  lemma Reordered(z: Word, f: Word, n: Word, k: Word, v: Word)
    ensures Added(z, f, n, k, v) == Sum(Rol5(v), f, z, n, k)
  {
    hide Rol5;
  }

  lemma R01IsRound(t: nat, v: Word, w: Word, x: Word, y: Word, z: Word, n: Word)
    requires t < 20
    ensures R01(v, w, x, y, z, n) == Sum(Rol5(v), F(t, w, x, y), z, n, K(t))
  {
    hide Rol5, Sum, Added, Choice, Parity, Majority, FastChoice, FastMajority;
    ChoiceIsFast(w, x, y);
    Reordered(z, FastChoice(w, x, y), n, 0x5A82_7999, v);
  }

  lemma R2IsRound(t: nat, v: Word, w: Word, x: Word, y: Word, z: Word, n: Word)
    requires 20 <= t < 40
    ensures R2(v, w, x, y, z, n) == Sum(Rol5(v), F(t, w, x, y), z, n, K(t))
  {
    hide Rol5, Sum, Added, Choice, Parity, Majority, FastChoice, FastMajority;
    Reordered(z, Parity(w, x, y), n, 0x6ED9_EBA1, v);
  }

  lemma R3IsRound(t: nat, v: Word, w: Word, x: Word, y: Word, z: Word, n: Word)
    requires 40 <= t < 60
    ensures R3(v, w, x, y, z, n) == Sum(Rol5(v), F(t, w, x, y), z, n, K(t))
  {
    hide Rol5, Sum, Added, Choice, Parity, Majority, FastChoice, FastMajority;
    MajorityIsFast(w, x, y);
    Reordered(z, FastMajority(w, x, y), n, 0x8F1B_BCDC, v);
  }

  lemma R4IsRound(t: nat, v: Word, w: Word, x: Word, y: Word, z: Word, n: Word)
    requires 60 <= t
    ensures R4(v, w, x, y, z, n) == Sum(Rol5(v), F(t, w, x, y), z, n, K(t))
  {
    hide Rol5, Sum, Added, Choice, Parity, Majority, FastChoice, FastMajority;
    Reordered(z, Parity(w, x, y), n, 0xCA62_C1D6, v);
  }

  /** Sixteen words, in which those of the schedule take the place of the ones sixteen earlier. */
  ghost predicate Window(words: seq<Word>, block: seq<Byte>, t: nat) {
    && |words| == 16 && |block| == 64
    && if t < 16 then
         && (forall k: nat | k < t :: words[k] == W(block, k))
         && forall k: nat | t <= k < 16 :: words[k] == LittleEndian(block, 4 * k)
       else forall k: nat | k < 16 :: words[k] == W(block, Latest(t, k))
  }

  /** The last number before t whose place is k. */
  ghost function Latest(t: nat, k: nat): (i: nat)
    requires t >= 16 && k < 16
    ensures i < t <= i + 16 && i % 16 == k
  {
    t - 1 - (t - 1 - k) % 16
  }

  lemma LatestIs(t: nat, i: nat)
    requires t >= 16 && i < t <= i + 16
    ensures Latest(t, i % 16) == i
  {}

  /** The macros blk0 and blk: the next word of the schedule. */
  method NextWord(words: array<Word>, t: nat, ghost block: seq<Byte>) returns (w: Word)
    requires Window(words[..], block, t)
    modifies words
    ensures Window(words[..], block, t + 1) && w == W(block, t)
  {
    hide Swapped, Mixed, LittleEndian, BigEndian;
    ghost var before := words[..];
    if t < 16 {
      w := Swapped(words[t]);
      SwappedIsBig(block, 4 * t);
      words[t] := w;
      if t == 15 {
        Full(words[..], block);
      }
    } else {
      Earlier(before, block, t);
      w := Mixed(words[(t + 13) % 16], words[(t + 8) % 16], words[(t + 2) % 16], words[t % 16]);
      words[t % 16] := w;
      Later(before, words[..], block, t);
    }
  }

  lemma Full(words: seq<Word>, block: seq<Byte>)
    requires |words| == 16 && |block| == 64 && forall k: nat | k < 16 :: words[k] == W(block, k)
    ensures Window(words, block, 16)
  {
    hide W;
    forall k: nat | k < 16 ensures words[k] == W(block, Latest(16, k)) {
      LatestIs(16, k);
    }
  }

  lemma Earlier(words: seq<Word>, block: seq<Byte>, t: nat)
    requires t >= 16 && Window(words, block, t)
    ensures words[(t + 13) % 16] == W(block, t - 3) && words[(t + 8) % 16] == W(block, t - 8)
    ensures words[(t + 2) % 16] == W(block, t - 14) && words[t % 16] == W(block, t - 16)
  {
    hide W, Latest;
    LatestIs(t, t - 3);
    LatestIs(t, t - 8);
    LatestIs(t, t - 14);
    LatestIs(t, t - 16);
    assert (t + 13) % 16 == (t - 3) % 16 && (t + 8) % 16 == (t - 8) % 16 && (t + 2) % 16 == (t - 14) % 16 && t % 16 == (t - 16) % 16;
  }

  lemma StillLatest(t: nat, k: nat)
    requires t >= 16 && k < 16
    ensures Latest(t + 1, k) == if k == t % 16 then t else Latest(t, k)
  {
    hide Latest;
    if k == t % 16 {
      LatestIs(t + 1, t);
    } else {
      LatestIs(t + 1, Latest(t, k));
    }
  }

  lemma Later(words: seq<Word>, words': seq<Word>, block: seq<Byte>, t: nat)
    requires t >= 16 && Window(words, block, t) && words' == words[t % 16 := W(block, t)]
    ensures Window(words', block, t + 1)
  {
    hide W, Latest;
    forall k: nat | k < 16 ensures words'[k] == W(block, Latest(t + 1, k)) {
      StillLatest(t, k);
    }
  }

  /** The macros R0 to R4: the last variable takes the new value, and the second one is rotated. */
  method Mix(words: array<Word>, t: nat, v: Word, w: Word, x: Word, y: Word, z: Word, ghost block: seq<Byte>)
    returns (w': Word, z': Word)
    requires t < 80 && Window(words[..], block, t)
    modifies words
    ensures Window(words[..], block, t + 1)
    ensures State(z', v, w', x, y) == Round(State(v, w, x, y, z), t, W(block, t))
  {
    hide W, Window, Rol5, Rol30, F, K, Sum, R01, R2, R3, R4;
    var n := NextWord(words, t, block);
    if t < 20 {
      z' := R01(v, w, x, y, z, n);
      R01IsRound(t, v, w, x, y, z, n);
    } else if t < 40 {
      z' := R2(v, w, x, y, z, n);
      R2IsRound(t, v, w, x, y, z, n);
    } else if t < 60 {
      z' := R3(v, w, x, y, z, n);
      R3IsRound(t, v, w, x, y, z, n);
    } else {
      z' := R4(v, w, x, y, z, n);
      R4IsRound(t, v, w, x, y, z, n);
    }
    w' := Rol30(w);
  }

  /** Eighty rounds, five at a time, after which each variable has its own role again. */
  method Transform(state: State, block: seq<Byte>) returns (state': State)
    requires |block| == 64
    ensures state' == Compress(state, block)
  {
    hide W, Window, Round, Rounds, LittleEndian, Plus;
    var words := new Word[16](k requires 0 <= k < 16 => LittleEndian(block, 4 * k));
    Loaded(state, words[..], block);
    var a, b, c, d, e := state.a, state.b, state.c, state.d, state.e;
    var t := 0;
    while t < 80
      invariant t <= 80 && t % 5 == 0 && Window(words[..], block, t)
      invariant State(a, b, c, d, e) == Rounds(state, block, t)
    {
      b, e := Mix(words, t, a, b, c, d, e, block);
      OneMore(state, block, t);
      a, d := Mix(words, t + 1, e, a, b, c, d, block);
      OneMore(state, block, t + 1);
      e, c := Mix(words, t + 2, d, e, a, b, c, block);
      OneMore(state, block, t + 2);
      d, b := Mix(words, t + 3, c, d, e, a, b, block);
      OneMore(state, block, t + 3);
      c, a := Mix(words, t + 4, b, c, d, e, a, block);
      OneMore(state, block, t + 4);
      t := t + 5;
    }
    state' := Plus(state, State(a, b, c, d, e));
  }

  lemma Loaded(state: State, words: seq<Word>, block: seq<Byte>)
    requires |words| == 16 && |block| == 64 && forall k: nat | k < 16 :: words[k] == LittleEndian(block, 4 * k)
    ensures Window(words, block, 0) && Rounds(state, block, 0) == state
  {}

  lemma OneMore(state: State, block: seq<Byte>, t: nat)
    requires |block| == 64
    ensures Rounds(state, block, t + 1) == Round(Rounds(state, block, t), t, W(block, t))
  {}

  // ----- Bytes of words -----

  /** Byte k of a word, the highest first. */
  function ByteOf(w: Word, k: nat): Byte {
    LowByte(if k == 0 then w >> 24 else if k == 1 then w >> 16 else if k == 2 then w >> 8 else w) as int
  }

  function LowByte(w: Word): bv8 {
    (w & 0xFF) as bv8
  }

  lemma NumberBack(x: bv8)
    ensures (x as int) as bv8 == x
  {}

  lemma ByteBack(x: bv8)
    ensures WordOf(x as int) == x as bv32
  {
    NumberBack(x);
    var b: Byte := x as int;
    assert b as bv8 == x;
  }

  lemma JoinBytes(w: Word)
    ensures HighFirst(LowByte(w >> 24) as bv32, LowByte(w >> 16) as bv32, LowByte(w >> 8) as bv32, LowByte(w) as bv32) == w
  {}

  /** Four bytes of a word are the word again. */
  lemma WordBack(w: Word)
    ensures BigEndian([ByteOf(w, 0), ByteOf(w, 1), ByteOf(w, 2), ByteOf(w, 3)], 0) == w
  {
    hide WordOf, LowByte, HighFirst;
    ByteBack(LowByte(w >> 24));
    ByteBack(LowByte(w >> 16));
    ByteBack(LowByte(w >> 8));
    ByteBack(LowByte(w));
    JoinBytes(w);
  }

  function WordsOf(s: State): (words: seq<Word>)
    ensures |words| == 5
  {
    [s.a, s.b, s.c, s.d, s.e]
  }

  ghost function Bytes(s: State): (b: seq<Byte>)
    ensures |b| == 20
  {
    seq(20, i requires 0 <= i < 20 => ByteOf(WordsOf(s)[i / 4], i % 4))
  }

  /** The bytes of a state are its words, the high byte of each first. */
  lemma BytesAreWords(s: State, j: nat)
    requires j < 5
    ensures BigEndian(Bytes(s), 4 * j) == WordsOf(s)[j]
  {
    hide ByteOf, HighFirst, WordOf, WordsOf;
    var w := WordsOf(s)[j];
    forall k: nat | k < 4 ensures Bytes(s)[4 * j + k] == ByteOf(w, k) {
      assert (4 * j + k) / 4 == j && (4 * j + k) % 4 == k;
    }
    hide Bytes;
    assert Bytes(s)[4 * j + 0] == ByteOf(w, 0) && Bytes(s)[4 * j + 1] == ByteOf(w, 1);
    assert Bytes(s)[4 * j + 2] == ByteOf(w, 2) && Bytes(s)[4 * j + 3] == ByteOf(w, 3);
    WordBack(w);
  }

  // ----- Where it starts -----

  const INITIAL := State(0x6745_2301, 0xEFCD_AB89, 0x98BA_DCFE, 0x1032_5476, 0xC3D2_E1F0)

  /** The first words are the sixteen digits up and down again, from the low byte of each on. */
  lemma DigitsUpAndDown()
    ensures WordsOf(INITIAL) ==
      [LowFirst(0x01, 0x23, 0x45, 0x67), LowFirst(0x89, 0xAB, 0xCD, 0xEF), LowFirst(0xFE, 0xDC, 0xBA, 0x98),
       LowFirst(0x76, 0x54, 0x32, 0x10), LowFirst(0xF0, 0xE1, 0xD2, 0xC3)]
  {}
}
