/** The checksum stored with compressed files: Adler-32 with the sums reduced only every NMAX bytes. */
module Adler32 {
  import opened Bits
  import opened LzssBase
  import opened Numbers

  const BASE := 65521
  const NMAX := 5000

  // ----- The definition (section 2.2 of RFC 1950) -----

  /** One more than the sum of the bytes. */
  ghost function S1(buf: seq<Byte>): nat {
    if buf == [] then 1 else S1(buf[..|buf| - 1]) + buf[|buf| - 1]
  }

  /** The sum of the values S1 takes over the non-empty prefixes. */
  ghost function S2(buf: seq<Byte>): nat {
    if buf == [] then 0 else S2(buf[..|buf| - 1]) + S1(buf)
  }

  ghost function Checksum(buf: seq<Byte>): nat {
    S2(buf) % 65521 * 65536 + S1(buf) % 65521
  }

  // ----- Sums that are not reduced -----

  /** The largest values the sums can have j bytes after they were reduced. */
  ghost function Max1(j: nat): nat {
    BASE - 1 + 255 * j
  }

  ghost function Max2(j: nat): nat {
    if j == 0 then BASE - 1 else Max2(j - 1) + Max1(j)
  }

  lemma {:induction false} Max2Closed(j: nat)
    ensures 2 * Max2(j) == 255 * (j * (j + 1)) + 2 * (j + 1) * (BASE - 1)
  {
    if j > 0 {
      Max2Closed(j - 1);
      assert j * (j + 1) == (j - 1) * j + 2 * j;
    }
  }

  lemma {:induction false} Max2Monotone(i: nat, j: nat)
    requires i <= j
    ensures Max2(i) <= Max2(j)
  {
    if i < j {
      Max2Monotone(i, j - 1);
    }
  }

  /** NMAX is small enough for 32 bits. */
  lemma NoOverflow(j: nat)
    requires j <= NMAX
    ensures Max1(j) < TWO32 && Max2(j) < TWO32
  {
    Max2Monotone(j, NMAX);
    Max2Closed(NMAX);
    assert NMAX * (NMAX + 1) == 25005000;
  }

  /** 32-bit addition. */
  function Add(a: nat, b: nat): nat {
    (a + b) % TWO32
  }

  /** The sums are right modulo BASE, and have grown for j bytes. */
  ghost predicate Sums(s1: nat, s2: nat, done: seq<Byte>, j: nat) {
    s1 % BASE == S1(done) % BASE && s2 % BASE == S2(done) % BASE && s1 <= Max1(j) && s2 <= Max2(j)
  }

  lemma AddMod(a: nat, b: nat, c: nat, d: nat)
    requires a % BASE == b % BASE && c % BASE == d % BASE
    ensures (a + c) % BASE == (b + d) % BASE
  {
    var p, q := a / BASE - b / BASE, c / BASE - d / BASE;
    assert a + c == b + d + BASE * (p + q);
  }

  // ----- The unrolled loop -----

  method Do1(buf: seq<Byte>, i: nat, s1: nat, s2: nat, ghost j: nat) returns (t1: nat, t2: nat)
    requires i < |buf| && j + 1 <= NMAX && Sums(s1, s2, buf[..i], j)
    ensures Sums(t1, t2, buf[..i + 1], j + 1)
  {
    t1 := Add(s1, buf[i]);
    t2 := Add(s2, t1);
    NoOverflow(j + 1);
    assert buf[..i + 1][..i] == buf[..i];
    AddMod(s1, S1(buf[..i]), buf[i], buf[i]);
    AddMod(s2, S2(buf[..i]), t1, S1(buf[..i + 1]));
  }

  method Do2(buf: seq<Byte>, i: nat, s1: nat, s2: nat, ghost j: nat) returns (t1: nat, t2: nat)
    requires i + 2 <= |buf| && j + 2 <= NMAX && Sums(s1, s2, buf[..i], j)
    ensures Sums(t1, t2, buf[..i + 2], j + 2)
  {
    t1, t2 := Do1(buf, i, s1, s2, j);
    t1, t2 := Do1(buf, i + 1, t1, t2, j + 1);
  }

  method Do4(buf: seq<Byte>, i: nat, s1: nat, s2: nat, ghost j: nat) returns (t1: nat, t2: nat)
    requires i + 4 <= |buf| && j + 4 <= NMAX && Sums(s1, s2, buf[..i], j)
    ensures Sums(t1, t2, buf[..i + 4], j + 4)
  {
    t1, t2 := Do2(buf, i, s1, s2, j);
    t1, t2 := Do2(buf, i + 2, t1, t2, j + 2);
  }

  method Do8(buf: seq<Byte>, i: nat, s1: nat, s2: nat, ghost j: nat) returns (t1: nat, t2: nat)
    requires i + 8 <= |buf| && j + 8 <= NMAX && Sums(s1, s2, buf[..i], j)
    ensures Sums(t1, t2, buf[..i + 8], j + 8)
  {
    t1, t2 := Do4(buf, i, s1, s2, j);
    t1, t2 := Do4(buf, i + 4, t1, t2, j + 4);
  }

  method Do16(buf: seq<Byte>, i: nat, s1: nat, s2: nat, ghost j: nat) returns (t1: nat, t2: nat)
    requires i + 16 <= |buf| && j + 16 <= NMAX && Sums(s1, s2, buf[..i], j)
    ensures Sums(t1, t2, buf[..i + 16], j + 16)
  {
    t1, t2 := Do8(buf, i, s1, s2, j);
    t1, t2 := Do8(buf, i + 8, t1, t2, j + 8);
  }

  lemma Pack(hi: nat, lo: nat)
    requires lo < BASE
    ensures Or(Shl(hi, 16), lo) == hi * 65536 + lo
  {
    hide Or, Shl, Shr;
    ShiftTwice(hi, 8, 8);
    ShiftTwice(1, 8, 8);
    ShiftBy8(hi);
    ShiftBy8(1);
    ShiftBy8(256 * hi);
    ShiftBy8(256);
    OrDisjoint(hi, lo, 16);
  }

  /** The checksum of a buffer; all sums are computed in 32 bits. */
  method LzAdler32(buf: seq<Byte>) returns (adler: nat)
    ensures adler == Checksum(buf) < TWO32
  {
    var s1: nat, s2: nat := 1, 0;
    var len, i: nat := |buf|, 0;
    assert buf[..0] == [];
    while len > 0
      invariant 0 <= len && i + len == |buf|
      invariant s1 == S1(buf[..i]) % BASE && s2 == S2(buf[..i]) % BASE
    {
      var k := if len < NMAX then len else NMAX;
      len := len - k;
      ghost var j: nat := 0;
      while k >= 16
        invariant 0 <= k && j + k <= NMAX && i + k + len == |buf|
        invariant Sums(s1, s2, buf[..i], j)
      {
        s1, s2 := Do16(buf, i, s1, s2, j);
        i, k, j := i + 16, k - 16, j + 16;
      }
      while k != 0
        invariant 0 <= k && j + k <= NMAX && i + k + len == |buf|
        invariant Sums(s1, s2, buf[..i], j)
      {
        s1, s2 := Do1(buf, i, s1, s2, j);
        i, k, j := i + 1, k - 1, j + 1;
      }
      s1, s2 := s1 % BASE, s2 % BASE;
    }
    assert buf[..i] == buf;
    Pack(s2, s1);
    return Or(Shl(s2, 16), s1);
  }
}
