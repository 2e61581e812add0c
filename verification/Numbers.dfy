/** Numbers of 32 bits as bytes, in both orders. */
module Numbers {
  import opened Bits

  const TWO32 := 0x1_0000_0000
  const TWO64 := 0x1_0000_0000_0000_0000

  function Le32(n: nat): (b: seq<Byte>)
    requires n < TWO32
    ensures |b| == 4
  {
    [n % 256, n / 256 % 256, n / 0x1_0000 % 256, n / 0x100_0000]
  }

  function Be32(n: nat): (b: seq<Byte>)
    requires n < TWO32
    ensures |b| == 4
  {
    [n / 0x100_0000, n / 0x1_0000 % 256, n / 256 % 256, n % 256]
  }

  function ReadLe32(s: seq<Byte>, at: nat): nat
    requires at + 4 <= |s|
  {
    s[at] as int + 256 * (s[at + 1] as int) + 0x1_0000 * (s[at + 2] as int) + 0x100_0000 * (s[at + 3] as int)
  }

  function ReadBe32(s: seq<Byte>, at: nat): nat
    requires at + 4 <= |s|
  {
    s[at + 3] as int + 256 * (s[at + 2] as int) + 0x1_0000 * (s[at + 1] as int) + 0x100_0000 * (s[at] as int)
  }

  lemma Le32Read(s: seq<Byte>, at: nat, n: nat)
    requires n < TWO32 && at + 4 <= |s| && s[at..at + 4] == Le32(n)
    ensures ReadLe32(s, at) == n
  {
    assert s[at..at + 4][0] == s[at] && s[at..at + 4][1] == s[at + 1] && s[at..at + 4][2] == s[at + 2] && s[at..at + 4][3] == s[at + 3];
    assert n == n % 256 + 256 * (n / 256 % 256) + 0x1_0000 * (n / 0x1_0000 % 256) + 0x100_0000 * (n / 0x100_0000) by {
      Digits256(n);
    }
  }

  lemma Be32Read(s: seq<Byte>, at: nat, n: nat)
    requires n < TWO32 && at + 4 <= |s| && s[at..at + 4] == Be32(n)
    ensures ReadBe32(s, at) == n
  {
    assert s[at..at + 4][0] == s[at] && s[at..at + 4][1] == s[at + 1] && s[at..at + 4][2] == s[at + 2] && s[at..at + 4][3] == s[at + 3];
    Digits256(n);
  }

  /** The high byte comes first in one order, and last in the other. */
  lemma ByteOrders()
    ensures Be32(0x0102_0304) == [1, 2, 3, 4] && Le32(0x0102_0304) == [4, 3, 2, 1]
  {}

  lemma Digits256(n: nat)
    ensures n == n % 256 + 256 * (n / 256 % 256) + 0x1_0000 * (n / 0x1_0000 % 256) + 0x100_0000 * (n / 0x100_0000)
  {
    var a := n / 256;
    var b := a / 256;
    assert n / 0x1_0000 == b && n / 0x100_0000 == b / 256;
  }

  // ----- Products, quotients and rests -----

  lemma MulMonotone(a: nat, b: nat, c: nat)
    requires a <= b
    ensures a * c <= b * c
  {}

  lemma MulNext(a: nat, c: nat)
    ensures (a + 1) * c == a * c + c
  {}

  lemma MulAdd(a: nat, b: nat, c: nat)
    ensures (a + b) * c == a * c + b * c
  {}

  /** Quotient and rest are unique. */
  lemma RestOf(q: nat, m: nat, r: nat)
    requires r < m
    ensures (q * m + r) / m == q && (q * m + r) % m == r
  {
    var n := q * m + r;
    var p := n / m;
    assert n == m * p + n % m;
    if p < q {
      MulMonotone(p + 1, q, m);
    } else if q < p {
      MulMonotone(q + 1, p, m);
    }
  }
}
