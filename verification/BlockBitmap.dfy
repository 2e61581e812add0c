/** Single bits of a byte, as the volume's allocation bitmap uses them. */
module BlockBitmap {
  import opened Bits

  ghost predicate Bit(a: nat, k: nat) {
    Shr(a, k) % 2 == 1
  }

  lemma {:induction false} BitOfAnd(a: nat, b: nat, k: nat)
    ensures Bit(And(a, b), k) <==> Bit(a, k) && Bit(b, k)
  {
    if k == 0 {
      assert And(a, b) % 2 == 1 <==> a % 2 == 1 && b % 2 == 1;
    } else {
      BitOfAnd(a / 2, b / 2, k - 1);
      assert And(a, b) / 2 == And(a / 2, b / 2);
    }
  }

  lemma {:induction false} BitOfOr(a: nat, b: nat, k: nat)
    ensures Bit(Or(a, b), k) <==> Bit(a, k) || Bit(b, k)
  {
    OrHalf(a, b);
    if k > 0 {
      BitOfOr(a / 2, b / 2, k - 1);
    }
  }

  lemma OrHalf(a: nat, b: nat)
    ensures Or(a, b) / 2 == Or(a / 2, b / 2)
    ensures Or(a, b) % 2 == 1 <==> a % 2 == 1 || b % 2 == 1
  {}

  lemma {:induction false} BitOfPower(j: nat, k: nat)
    ensures Bit(Shl(1, j), k) <==> j == k
  {
    if k == 0 {
    } else if j == 0 {
      BitOfZero(k - 1);
    } else {
      BitOfPower(j - 1, k - 1);
      assert Shl(1, j) / 2 == Shl(1, j - 1);
    }
  }

  lemma {:induction false} BitOfZero(k: nat)
    ensures !Bit(0, k)
  {
    if k > 0 {
      BitOfZero(k - 1);
    }
  }

  /** The bits of the complement in n bits. */
  lemma {:induction false} BitOfComplement(m: nat, n: nat, k: nat)
    requires m < Shl(1, n) && k < n
    ensures Bit(Shl(1, n) - 1 - m, k) <==> !Bit(m, k)
  {
    var c := Shl(1, n) - 1 - m;
    assert c / 2 == Shl(1, n - 1) - 1 - m / 2 && (c % 2 == 1 <==> m % 2 == 0);
    if k > 0 {
      BitOfComplement(m / 2, n - 1, k - 1);
    }
  }

  /** The test by mask. */
  lemma MaskTest(a: nat, k: nat)
    ensures And(a, Shl(1, k)) != 0 <==> Bit(a, k)
  {
    AndHigh(a, 1, k);
    var h := Shr(a, k);
    assert And(h, 1) == h % 2 by { AndOdd(h, 0); AndNothing(h / 2); }
    ShlZero(h % 2, k);
  }

  lemma {:induction false} ShlZero(a: nat, k: nat)
    ensures Shl(a, k) == 0 <==> a == 0
  {
    if k > 0 {
      ShlZero(a, k - 1);
    }
  }

  lemma PowerBound(k: nat)
    requires k < 8
    ensures 0 < Shl(1, k) <= 128
  {
    PowersOfTwo();
    assert k in {0, 1, 2, 3, 4, 5, 6, 7};
  }

  lemma {:induction false} OrBound(a: nat, b: nat, n: nat)
    requires a < Shl(1, n) && b < Shl(1, n)
    ensures Or(a, b) < Shl(1, n)
  {
    OrHalf(a, b);
    if n > 0 {
      OrBound(a / 2, b / 2, n - 1);
    }
  }

  lemma {:induction false} AndBound(a: nat, b: nat)
    ensures And(a, b) <= a
  {
    if a > 0 && b > 0 {
      AndBound(a / 2, b / 2);
    }
  }

  /** Setting one bit of a byte. */
  lemma SetBit(a: Byte, k: nat)
    requires k < 8
    ensures Or(a, Shl(1, k)) < 256
    ensures forall j | 0 <= j < 8 :: Bit(Or(a, Shl(1, k)), j) <==> j == k || Bit(a, j)
  {
    hide Or, Shl, Bit;
    PowerBound(k);
    ShiftBy8(1);
    OrBound(a, Shl(1, k), 8);
    forall j | 0 <= j < 8 ensures Bit(Or(a, Shl(1, k)), j) <==> j == k || Bit(a, j) {
      BitOfOr(a, Shl(1, k), j);
      BitOfPower(k, j);
    }
  }

  /** Clearing one bit of a byte. */
  lemma ClearBit(a: Byte, k: nat)
    requires k < 8
    ensures Shl(1, k) <= 255 && And(a, 255 - Shl(1, k)) < 256
    ensures forall j | 0 <= j < 8 :: Bit(And(a, 255 - Shl(1, k)), j) <==> j != k && Bit(a, j)
  {
    hide And, Shl, Bit;
    PowerBound(k);
    ShiftBy8(1);
    var m := 255 - Shl(1, k);
    AndBound(a, m);
    forall j | 0 <= j < 8 ensures Bit(And(a, m), j) <==> j != k && Bit(a, j) {
      BitOfAnd(a, m, j);
      BitOfComplement(Shl(1, k), 8, j);
      BitOfPower(k, j);
    }
  }
}
