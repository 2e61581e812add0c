/** Bytes as base-64 letters in lines, and back. */
module Base64 {
  import opened Bits

  type Sextet = x: int | 0 <= x < 64

  // ----- Letters -----

  function Letter(x: Sextet): (c: char)
    ensures IsLetter(c) && Value(c) == x
  {
    if x < 26 then 'A' + x as char
    else if x < 52 then 'a' + (x - 26) as char
    else if x < 62 then '0' + (x - 52) as char
    else if x == 62 then '+' else '/'
  }

  const UPPER := "ABCDEFGHIJKLMNOPQRSTUVWXYZ"
  const LOWER := "abcdefghijklmnopqrstuvwxyz"
  const DIGITS := "0123456789"

  lemma UpperAt(i: nat)
    requires i < 26
    ensures |UPPER| == 26 && UPPER[i] == 'A' + i as char
  {}

  lemma LowerAt(i: nat)
    requires i < 26
    ensures |LOWER| == 26 && LOWER[i] == 'a' + i as char
  {}

  lemma DigitAt(i: nat)
    requires i < 10
    ensures |DIGITS| == 10 && DIGITS[i] == '0' + i as char
  {}

  /** The letters are those of table 1 of RFC 4648, in its order; each has its place in the table as its value. */
  lemma LettersInOrder(x: Sextet)
    ensures var dictionary := UPPER + LOWER + DIGITS + "+/";
      |dictionary| == 64 && Letter(x) == dictionary[x] && Value(dictionary[x]) == x
  {
    UpperAt(if x < 26 then x else 0);
    LowerAt(if 26 <= x < 52 then x - 26 else 0);
    DigitAt(if 52 <= x < 62 then x - 52 else 0);
  }

  predicate IsLetter(c: char) {
    'A' <= c <= 'Z' || 'a' <= c <= 'z' || '0' <= c <= '9' || c == '+' || c == '/'
  }

  function Value(c: char): (x: Sextet)
    requires IsLetter(c)
  {
    if 'A' <= c <= 'Z' then c as int - 'A' as int
    else if 'a' <= c <= 'z' then c as int - 'a' as int + 26
    else if '0' <= c <= '9' then c as int - '0' as int + 52
    else if c == '+' then 62 else 63
  }

  /** The characters that are not layout. */
  function Significant(text: seq<char>): (s: seq<char>)
    ensures |s| <= |text|
  {
    if text == [] then []
    else
      var c := text[|text| - 1];
      Significant(text[..|text| - 1]) + if IsLetter(c) || c == '=' then [c] else []
  }

  lemma SignificantOne(text: seq<char>, c: char)
    ensures Significant(text + [c]) == Significant(text) + if IsLetter(c) || c == '=' then [c] else []
  {
    assert (text + [c])[..|text|] == text;
  }

  /** Section 4 of RFC 4648, without line ends. */
  function Encoded(data: seq<Byte>): (s: seq<char>) {
    if |data| >= 3 then
      Four(data[0], data[1], data[2]) + Encoded(data[3..])
    else if |data| == 2 then
      Four(data[0], data[1], 0)[..3] + ['=']
    else if |data| == 1 then
      Four(data[0], 0, 0)[..2] + ['=', '=']
    else []
  }

  function Four(a: Byte, b: Byte, c: Byte): (s: seq<char>)
    ensures |s| == 4
  {
    [Letter(a / 4), Letter(a % 4 * 16 + b / 16), Letter(b % 16 * 4 + c / 64), Letter(c % 64)]
  }

  // ----- Shifts and masks -----

  lemma ShiftBy2(x: nat)
    ensures Shr(x, 2) == x / 4 && Shl(x, 2) == 4 * x
  {
    assert Shr(x, 2) == Shr(x / 2, 1) == Shr(x / 4, 0);
    assert Shl(x, 2) == 2 * Shl(x, 1) == 4 * Shl(x, 0);
  }

  lemma ShiftBy6(x: nat)
    ensures Shr(x, 6) == x / 64 && Shl(x, 6) == 64 * x
  {
    ShiftTwice(x, 4, 2);
    ShiftBy4(x);
    ShiftBy2(x / 16);
    ShiftBy2(16 * x);
  }

  lemma Low2(x: nat)
    ensures And(x, 0x03) == x % 4
  {
    AndLow(x, 2);
    ShiftBy2(1);
    ShiftBy2(x);
    ShiftBy2(x / 4);
  }

  lemma Low6(x: nat)
    ensures And(x, 0x3F) == x % 64
  {
    AndLow(x, 6);
    ShiftBy6(1);
    ShiftBy6(x);
    ShiftBy6(x / 64);
  }

  /** A mask with two bits below it clear. */
  lemma Above2(x: nat)
    ensures And(x, 0x3C) == 4 * (x / 4 % 16) && And(x, 0xFC) == 4 * (x / 4 % 64)
  {
    hide And, Shl, Shr;
    ShiftBy2(x);
    ShiftBy2(0x0F);
    ShiftBy2(0x3F);
    AndHigh(x, 0x0F, 2);
    AndHigh(x, 0x3F, 2);
    LowNibble(x / 4, 0x0F);
    Low6(x / 4);
    ShiftBy2(x / 4 % 16);
    ShiftBy2(x / 4 % 64);
  }

  lemma Above4(x: nat)
    ensures And(x, 0x30) == 16 * (x / 16 % 4) && And(x, 0xF0) == 16 * (x / 16 % 16)
  {
    hide And, Shl, Shr;
    ShiftBy4(x);
    ShiftBy4(0x03);
    ShiftBy4(0x0F);
    AndHigh(x, 0x03, 4);
    AndHigh(x, 0x0F, 4);
    Low2(x / 16);
    LowNibble(x / 16, 0x0F);
    ShiftBy4(x / 16 % 4);
    ShiftBy4(x / 16 % 16);
  }

  lemma Above6(x: nat)
    ensures And(x, 0xC0) == 64 * (x / 64 % 4)
  {
    hide And, Shl, Shr;
    ShiftBy6(x);
    ShiftBy6(0x03);
    AndHigh(x, 0x03, 6);
    Low2(x / 64);
    ShiftBy6(x / 64 % 4);
  }

  lemma OrBelow(hi: nat, lo: nat, k: nat)
    requires (k == 2 && lo < 4) || (k == 4 && lo < 16) || (k == 6 && lo < 64)
    ensures var unit := if k == 2 then 4 else if k == 4 then 16 else 64;
      Or(unit * hi, lo) == unit * hi + lo
  {
    hide Or, Shl, Shr;
    ShiftBy2(1);
    ShiftBy4(1);
    ShiftBy6(1);
    ShiftBy2(hi);
    ShiftBy4(hi);
    ShiftBy6(hi);
    OrDisjoint(hi, lo, k);
  }

  // The four letters' values, and the three bytes, by the program's shifts and masks.

  function First(a: Byte): (x: Sextet)
    ensures x == a / 4
  {
    ShiftBy2(a);
    Low6(a / 4);
    And(Shr(a, 2), 0x3F)
  }

  function Second(a: Byte, b: Byte): (x: Sextet)
    ensures x == a % 4 * 16 + b / 16
  {
    SecondParts(a, b);
    And(Or(And(Shl(a, 4), 0x30), And(Shr(b, 4), 0x0F)), 0x3F)
  }

  lemma SecondParts(a: Byte, b: Byte)
    ensures And(Shl(a, 4), 0x30) == a % 4 * 16
    ensures And(Or(And(Shl(a, 4), 0x30), And(Shr(b, 4), 0x0F)), 0x3F) == a % 4 * 16 + b / 16
  {
    hide And, Or, Shl, Shr;
    ShiftBy4(a);
    ShiftBy4(b);
    Above4(16 * a);
    LowNibble(b / 16, 0x0F);
    OrBelow(a % 4, b / 16, 4);
    Low6(a % 4 * 16 + b / 16);
  }

  function Third(b: Byte, c: Byte): (x: Sextet)
    ensures x == b % 16 * 4 + c / 64
  {
    ThirdParts(b, c);
    And(Or(And(Shl(b, 2), 0x3C), And(Shr(c, 6), 0x03)), 0x3F)
  }

  lemma ThirdParts(b: Byte, c: Byte)
    ensures And(Shl(b, 2), 0x3C) == b % 16 * 4
    ensures And(Or(And(Shl(b, 2), 0x3C), And(Shr(c, 6), 0x03)), 0x3F) == b % 16 * 4 + c / 64
  {
    hide And, Or, Shl, Shr;
    ShiftBy2(b);
    Above2(4 * b);
    assert 4 * b / 4 % 16 == b % 16;
    ThirdLow(c);
    OrBelow(b % 16, c / 64, 2);
    Low6(b % 16 * 4 + c / 64);
  }

  lemma ThirdLow(c: Byte)
    ensures And(Shr(c, 6), 0x03) == c / 64
  {
    hide And, Shr;
    ShiftBy6(c);
    Low2(c / 64);
  }

  function Fourth(c: Byte): (x: Sextet)
    ensures x == c % 64
  {
    Low6(c);
    And(c, 0x3F)
  }

  /** What the decoder makes of four values; within the text it adds the parts, at its end it takes their or. */
  lemma BytesBack(a: Byte, b: Byte, c: Byte)
    ensures var w, x, y, z := a / 4, a % 4 * 16 + b / 16, b % 16 * 4 + c / 64, c % 64;
      && And(Shl(w, 2), 0xFC) + And(Shr(x, 4), 0x3F) == a && Or(And(Shl(w, 2), 0xFC), And(Shr(x, 4), 0x3F)) == a
      && And(Shl(x, 4), 0xF0) + And(Shr(y, 2), 0x0F) == b && Or(And(Shl(x, 4), 0xF0), And(Shr(y, 2), 0x0F)) == b
      && And(Shl(y, 6), 0xC0) + And(z, 0x3F) == c
  {
    hide And, Or, Shl, Shr;
    var w, x, y, z := a / 4, a % 4 * 16 + b / 16, b % 16 * 4 + c / 64, c % 64;
    FirstBack(w, x);
    OrBelow(w, x / 16, 2);
    SecondBack(x, y);
    OrBelow(x % 16, y / 4, 4);
    ThirdBack(y, z);
  }

  lemma FirstBack(w: Sextet, x: Sextet)
    ensures And(Shl(w, 2), 0xFC) == 4 * w && And(Shr(x, 4), 0x3F) == x / 16
  {
    hide And, Or, Shl, Shr;
    ShiftBy2(w);
    ShiftBy4(x);
    Above2(4 * w);
    Low6(x / 16);
  }

  lemma SecondBack(x: Sextet, y: Sextet)
    ensures And(Shl(x, 4), 0xF0) == 16 * (x % 16) && And(Shr(y, 2), 0x0F) == y / 4
  {
    hide And, Or, Shl, Shr;
    ShiftBy4(x);
    ShiftBy2(y);
    Above4(16 * x);
    LowNibble(y / 4, 0x0F);
  }

  lemma ThirdBack(y: Sextet, z: Sextet)
    ensures And(Shl(y, 6), 0xC0) == 64 * (y % 4) && And(z, 0x3F) == z
  {
    hide And, Or, Shl, Shr;
    ShiftBy6(y);
    Above6(64 * y);
    Low6(z);
  }
}
