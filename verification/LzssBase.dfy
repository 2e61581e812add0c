/** Constants of the LZSS coder and the strings its search trees are ordered by. */
module LzssBase {
  import opened Bits

  const N := 4096        // size of the ring buffer
  const F := 18          // longest match
  const THRESHOLD := 2   // matches no longer than this are sent as single bytes
  const START := N - F   // stream position, and ring slot, of the first byte of the text
  const NIL := N         // "no node" in the parent and child arrays
  const SPACE: Byte := ' ' as int

  /** A ring slot; tree nodes are named by the slot their string starts at. */
  type Pos = x: int | 0 <= x < N

  /** The ring slot of an absolute stream position. */
  function Slot(a: int): Pos {
    a % N
  }

  /** A ring buffer with its mirror of F - 1 bytes. */
  ghost predicate IsText(text: seq<Byte>) {
    |text| == N + F - 1
  }

  /** The F bytes a tree node stands for. They are read without wrapping around, so the last ones may
      come from the mirror. */
  ghost function KeyAt(text: seq<Byte>, p: Pos): (key: seq<Byte>)
    requires IsText(text)
    ensures |key| == F
  {
    text[p..p + F]
  }

  /** Length of the longest common prefix. */
  ghost function Lcp(a: seq<Byte>, b: seq<Byte>): (n: nat)
    ensures n <= |a| && n <= |b|
  {
    if a == [] || b == [] || a[0] != b[0] then 0 else 1 + Lcp(a[1..], b[1..])
  }

  lemma {:induction false} LcpIsPrefix(a: seq<Byte>, b: seq<Byte>)
    ensures var n := Lcp(a, b);
      && (forall k | 0 <= k < n :: a[k] == b[k])
      && (n < |a| && n < |b| ==> a[n] != b[n])
  {
    if a != [] && b != [] && a[0] == b[0] {
      LcpIsPrefix(a[1..], b[1..]);
    }
  }

  /** Strict lexicographic order on strings of one length. */
  ghost predicate Less(a: seq<Byte>, b: seq<Byte>)
    requires |a| == |b|
  {
    var n := Lcp(a, b);
    n < |a| && a[n] < b[n]
  }

  lemma LcpUnique(a: seq<Byte>, b: seq<Byte>, n: nat)
    requires n <= |a| && n <= |b|
    requires forall k | 0 <= k < n :: a[k] == b[k]
    requires n < |a| && n < |b| ==> a[n] != b[n]
    requires |a| == |b|
    ensures Lcp(a, b) == n
  {
    LcpIsPrefix(a, b);
  }

  lemma LcpSymmetric(a: seq<Byte>, b: seq<Byte>)
    requires |a| == |b|
    ensures Lcp(a, b) == Lcp(b, a)
  {
    LcpIsPrefix(a, b);
    LcpUnique(b, a, Lcp(a, b));
  }

  lemma LcpFull(a: seq<Byte>, b: seq<Byte>)
    requires |a| == |b|
    ensures Lcp(a, b) == |a| <==> a == b
  {
    LcpIsPrefix(a, b);
    if a == b {
      LcpUnique(a, b, |a|);
    }
  }

  /** Strings of one length are comparable, and exactly one of the three cases holds. */
  lemma LessTrichotomy(a: seq<Byte>, b: seq<Byte>)
    requires |a| == |b|
    ensures Less(a, b) || Less(b, a) || a == b
    ensures !(Less(a, b) && Less(b, a)) && !Less(a, a)
  {
    LcpIsPrefix(a, b);
    LcpSymmetric(a, b);
    LcpFull(a, b);
    LcpFull(a, a);
  }

  /** The order is transitive, and a string between two others shares at least as much with either of
      them as they share with each other. */
  lemma LcpBetween(a: seq<Byte>, b: seq<Byte>, c: seq<Byte>)
    requires |a| == |b| == |c|
    requires Less(a, b) && Less(b, c)
    ensures Less(a, c)
    ensures Lcp(a, c) <= Lcp(b, c) && Lcp(a, c) <= Lcp(a, b)
  {
    var m, n := Lcp(a, b), Lcp(b, c);
    LcpIsPrefix(a, b);
    LcpIsPrefix(b, c);
    LcpUnique(a, c, if m < n then m else n);
  }

  /** What is known once the strings of two slots have been found to agree on exactly i bytes. */
  lemma AgreeOn(text: seq<Byte>, r: Pos, p: Pos, i: nat)
    requires IsText(text) && i <= F
    requires text[r..r + i] == text[p..p + i] && (i < F ==> text[r + i] != text[p + i])
    ensures Lcp(KeyAt(text, r), KeyAt(text, p)) == i
    ensures i == F <==> KeyAt(text, r) == KeyAt(text, p)
    ensures Less(KeyAt(text, r), KeyAt(text, p)) <==> i < F && text[r + i] < text[p + i]
  {
    var a, b := KeyAt(text, r), KeyAt(text, p);
    forall j | 0 <= j < i ensures a[j] == b[j] {
      assert text[r..r + i][j] == text[p..p + i][j];
    }
    LcpUnique(a, b, i);
    LcpFull(a, b);
  }
}
