/** Shifts and bitwise and, or on natural numbers, and the few laws the coder's masks rely on. */
module Bits {

  type Byte = x: int | 0 <= x < 256

  function Shl(a: nat, k: nat): nat {
    if k == 0 then a else 2 * Shl(a, k - 1)
  }

  function Shr(a: nat, k: nat): nat {
    if k == 0 then a else Shr(a / 2, k - 1)
  }

  function And(a: nat, b: nat): nat {
    if a == 0 || b == 0 then 0 else 2 * And(a / 2, b / 2) + if a % 2 == 1 && b % 2 == 1 then 1 else 0
  }

  function Or(a: nat, b: nat): nat
    decreases a + b
  {
    if a == 0 then b else if b == 0 then a
    else 2 * Or(a / 2, b / 2) + if a % 2 == 1 || b % 2 == 1 then 1 else 0
  }

  lemma AndOdd(a: nat, m: nat)
    ensures And(a, 2 * m + 1) == 2 * And(a / 2, m) + a % 2
  {
    assert (2 * m + 1) / 2 == m && (2 * m + 1) % 2 == 1;
  }

  lemma AndEven(a: nat, m: nat)
    ensures And(a, 2 * m) == 2 * And(a / 2, m)
  {
    assert (2 * m) / 2 == m && (2 * m) % 2 == 0;
  }

  /** Masking with k ones clears all bits but the low k. */
  lemma {:induction false} AndLow(a: nat, k: nat)
    ensures Shl(1, k) > 0 && And(a, Shl(1, k) - 1) == a - Shl(Shr(a, k), k)
  {
    if k > 0 {
      AndLow(a / 2, k - 1);
      AndOdd(a, Shl(1, k - 1) - 1);
    }
  }

  /** A mask with its low bits clear looks at the high part only. */
  lemma {:induction false} AndHigh(a: nat, m: nat, k: nat)
    ensures And(a, Shl(m, k)) == Shl(And(Shr(a, k), m), k)
  {
    if k > 0 {
      AndHigh(a / 2, m, k - 1);
      AndEven(a, Shl(m, k - 1));
    }
  }

  /** Numbers without common bits are added. */
  lemma {:induction false} OrDisjoint(a: nat, b: nat, k: nat)
    requires b < Shl(1, k)
    ensures Or(Shl(a, k), b) == Shl(a, k) + b && Or(b, Shl(a, k)) == Shl(a, k) + b
  {
    if k > 0 {
      OrDisjoint(a, b / 2, k - 1);
      assert Shl(a, k) / 2 == Shl(a, k - 1) && Shl(a, k) % 2 == 0;
    }
  }

  lemma {:induction false} ShiftTwice(a: nat, j: nat, k: nat)
    ensures Shl(a, j + k) == Shl(Shl(a, j), k) && Shr(a, j + k) == Shr(Shr(a, j), k)
    decreases j + k
  {
    if k > 0 {
      ShiftTwice(a, j, k - 1);
    }
    if j > 0 {
      ShiftTwice(a / 2, j - 1, k);
    }
  }

  lemma ShiftBy4(a: nat)
    ensures Shl(a, 4) == 16 * a && Shr(a, 4) == a / 16
  {
    ShiftTwice(a, 2, 2);
    assert Shl(a, 1) == 2 * a && Shl(4 * a, 1) == 8 * a;
    assert Shr(a, 2) == Shr(a / 2, 1) == a / 4;
    assert Shr(a / 4, 2) == Shr(a / 8, 1) == a / 16;
  }

  lemma ShiftBy8(a: nat)
    ensures Shl(a, 8) == 256 * a && Shr(a, 8) == a / 256
  {
    ShiftTwice(a, 4, 4);
    ShiftBy4(a);
    ShiftBy4(16 * a);
    ShiftBy4(a / 16);
  }

  lemma ShiftBy12(a: nat)
    ensures Shl(a, 12) == 4096 * a && Shr(a, 12) == a / 4096
  {
    ShiftTwice(a, 8, 4);
    ShiftBy8(a);
    ShiftBy4(256 * a);
    ShiftBy4(a / 256);
  }

  lemma HighNibble(a: nat, mask: nat)
    requires a < 256 && mask == 0xF0
    ensures And(a, mask) == a / 16 * 16
  {
    hide And, Shl, Shr;
    var m := mask / 16;
    ShiftBy4(m);
    ShiftBy4(a);
    AndHigh(a, m, 4);
    LowNibble(a / 16, m);
    ShiftBy4(And(a / 16, m));
  }

  lemma LowNibble(a: nat, mask: nat)
    requires mask == 0x0F
    ensures And(a, mask) == a % 16
  {
    AndLow(a, 4);
    ShiftBy4(1);
    ShiftBy4(a);
    ShiftBy4(a / 16);
  }

  lemma OrNibble(hi: nat, lo: nat)
    requires lo < 16
    ensures Or(16 * hi, lo) == 16 * hi + lo
  {
    ShiftBy4(1);
    ShiftBy4(hi);
    OrDisjoint(hi, lo, 4);
  }

  lemma OrByte(hi: nat, lo: nat)
    requires lo < 256
    ensures Or(lo, 256 * hi) == 256 * hi + lo
  {
    ShiftBy8(1);
    ShiftBy8(hi);
    OrDisjoint(hi, lo, 8);
  }

  lemma AndLow12(a: nat)
    ensures And(a, 4095) == a % 4096
  {
    hide And;
    ShiftBy12(1);
    ShiftBy12(a);
    ShiftBy12(a / 4096);
    AndLow(a, 12);
  }

  /** Testing bit 8 and bit 0. */
  lemma BitTest(a: nat)
    ensures And(a, 0x100) == 0 <==> a / 256 % 2 == 0
    ensures And(a, 1) == a % 2
  {
    hide And;
    ShiftBy8(1);
    ShiftBy8(a);
    AndHigh(a, 1, 8);
    AndOdd(a, 0);
    AndOdd(a / 256, 0);
    AndNothing(a / 2);
    AndNothing(a / 256 / 2);
    ShiftBy8(And(a / 256, 1));
  }

  lemma AndNothing(a: nat)
    ensures And(a, 0) == 0
  {}

  lemma PowersOfTwo()
    ensures Shl(1, 0) == 1 && Shl(1, 1) == 2 && Shl(1, 2) == 4 && Shl(1, 3) == 8 && Shl(1, 4) == 16
    ensures Shl(1, 5) == 32 && Shl(1, 6) == 64 && Shl(1, 7) == 128 && Shl(1, 8) == 256
  {}

  lemma {:induction false} ShlMonotone(j: nat, k: nat)
    requires j <= k
    ensures 0 < Shl(1, j) <= Shl(1, k)
  {
    if j > 0 {
      ShlMonotone(j - 1, k - 1);
    } else if k > 0 {
      ShlMonotone(j, k - 1);
    }
  }
}
