/** Comparing names without regard to case, and to characters that a table says to ignore. */
module UnicodeCompare {

  type Char = x: int | 0 <= x < 0x1_0000

  const COLON: Char := ':' as int
  const SLASH: Char := '/' as int

  /** A table of two levels: an offset for each upper byte, and the characters there. Wherever it leads, it has a
      character. */
  predicate TableOK(table: seq<Char>) {
    |table| >= 256 && forall hi | 0 <= hi < 256 :: table[hi] != 0 ==> table[hi] + 256 <= |table|
  }

  /** A character's meaning: folded, or zero if it is to be ignored. */
  function Folded(table: seq<Char>, c: Char): Char
    requires TableOK(table)
  {
    if table[c / 256] != 0 then table[table[c / 256] + c % 256] else c
  }

  /** The table gives a folding: for each upper byte either nothing, where every character means itself, or a page of 256
      meanings in the order of the lower byte. */
  ghost predicate Tabulates(table: seq<Char>, folding: Char -> Char)
    requires TableOK(table)
  {
    forall hi, lo | 0 <= hi < 256 && 0 <= lo < 256 :: EntryIs(table, folding, hi, lo)
  }

  ghost predicate EntryIs(table: seq<Char>, folding: Char -> Char, hi: int, lo: int)
    requires TableOK(table) && 0 <= hi < 256 && 0 <= lo < 256
  {
    folding(256 * hi + lo) == if table[hi] == 0 then 256 * hi + lo else table[table[hi] + lo]
  }

  /** Looking a character up is folding it. */
  lemma FoldedIsFolding(table: seq<Char>, folding: Char -> Char, c: Char)
    requires TableOK(table) && Tabulates(table, folding)
    ensures Folded(table, c) == folding(c)
  {
    var hi, lo := c / 256, c % 256;
    assert EntryIs(table, folding, hi, lo) && 256 * hi + lo == c;
  }

  /** The meanings of the characters that count, with colons as slashes. */
  function Meaning(table: seq<Char>, s: seq<Char>): (m: seq<Char>)
    requires TableOK(table)
    ensures forall c | c in m :: c != 0 && c != COLON
  {
    if s == [] then []
    else
      var f := Folded(table, s[0]);
      (if f == 0 then [] else [if f == COLON then SLASH else f]) + Meaning(table, s[1..])
  }

  /** The order of words. */
  function Lexicographic(a: seq<Char>, b: seq<Char>): (r: int)
    ensures r == -1 || r == 0 || r == 1
  {
    if a == [] then if b == [] then 0 else -1
    else if b == [] then 1
    else if a[0] < b[0] then -1
    else if a[0] > b[0] then 1
    else Lexicographic(a[1..], b[1..])
  }

  /** The place in the name of the next character that counts, or the name's end. */
  method NextChar(table: seq<Char>, s: seq<Char>, start: nat) returns (c: Char, next: nat)
    requires TableOK(table) && start <= |s|
    ensures start <= next <= |s| && (c != 0 ==> start < next)
    ensures Meaning(table, s[start..]) ==
      if c == 0 then [] else [if c == COLON then SLASH else c] + Meaning(table, s[next..])
    ensures c == 0 ==> next == |s|
  {
    hide Meaning;
    c, next := 0, start;
    while next < |s| && c == 0
      invariant start <= next <= |s| && (c != 0 ==> start < next)
      invariant Meaning(table, s[start..]) ==
        (if c == 0 then [] else [if c == COLON then SLASH else c]) + Meaning(table, s[next..])
    {
      MeaningFrom(table, s, next);
      c := s[next];
      next := next + 1;
      var temp := table[c / 256];
      if temp != 0 {
        c := table[temp + c % 256];
      }
    }
    NoMeaning(table, s);
  }

  lemma MeaningFrom(table: seq<Char>, s: seq<Char>, k: nat)
    requires TableOK(table) && k < |s|
    ensures var f := Folded(table, s[k]);
      Meaning(table, s[k..]) == (if f == 0 then [] else [if f == COLON then SLASH else f]) + Meaning(table, s[k + 1..])
  {
    assert s[k..][1..] == s[k + 1..];
  }

  lemma NoMeaning(table: seq<Char>, s: seq<Char>)
    requires TableOK(table)
    ensures Meaning(table, s[|s|..]) == []
  {}

  /** Compares two names: the order of words on what they mean. */
  method FastUnicodeCompare(table: seq<Char>, str1: seq<Char>, str2: seq<Char>) returns (r: int)
    requires TableOK(table)
    ensures r == Lexicographic(Meaning(table, str1), Meaning(table, str2))
  {
    var i, j := 0, 0;
    assert str1[0..] == str1 && str2[0..] == str2;
    var c1, c2: Char := 0, 0;
    while true
      invariant i <= |str1| && j <= |str2|
      invariant Lexicographic(Meaning(table, str1), Meaning(table, str2)) ==
        Lexicographic(Meaning(table, str1[i..]), Meaning(table, str2[j..]))
      decreases |str1| - i
    {
      ghost var a, b := Meaning(table, str1[i..]), Meaning(table, str2[j..]);
      c1, i := NextChar(table, str1, i);
      c2, j := NextChar(table, str2, j);
      if c1 == COLON {
        c1 := SLASH;
      }
      if c2 == COLON {
        c2 := SLASH;
      }
      Heads(a, b, c1, c2, Meaning(table, str1[i..]), Meaning(table, str2[j..]));
      if c1 != c2 {
        break;
      }
      if c1 == 0 {
        return 0;
      }
    }
    r := if c1 < c2 then -1 else 1;
  }

  /** Words are compared by their first letters, of which none is zero. */
  lemma Heads(a: seq<Char>, b: seq<Char>, c1: Char, c2: Char, a': seq<Char>, b': seq<Char>)
    requires a == if c1 == 0 then [] else [c1] + a'
    requires b == if c2 == 0 then [] else [c2] + b'
    ensures Lexicographic(a, b) ==
      if c1 < c2 then -1 else if c1 > c2 then 1 else if c1 == 0 then 0 else Lexicographic(a', b')
  {}

  // ----- An order -----

  /** Names are equal in the order just when they mean the same. */
  lemma {:induction false} EqualMeaning(a: seq<Char>, b: seq<Char>)
    ensures Lexicographic(a, b) == 0 <==> a == b
  {
    if a != [] && b != [] {
      EqualMeaning(a[1..], b[1..]);
      assert a == [a[0]] + a[1..] && b == [b[0]] + b[1..];
    }
  }

  lemma {:induction false} Opposite(a: seq<Char>, b: seq<Char>)
    ensures Lexicographic(a, b) == -Lexicographic(b, a)
  {
    if a != [] && b != [] {
      Opposite(a[1..], b[1..]);
    }
  }

  lemma {:induction false} Transitive(a: seq<Char>, b: seq<Char>, d: seq<Char>)
    requires Lexicographic(a, b) <= 0 && Lexicographic(b, d) <= 0
    ensures Lexicographic(a, d) <= 0
    ensures Lexicographic(a, d) == 0 ==> Lexicographic(a, b) == 0 && Lexicographic(b, d) == 0
  {
    if a != [] && b != [] && d != [] && a[0] == b[0] == d[0] {
      Transitive(a[1..], b[1..], d[1..]);
    }
  }

  function Compare(table: seq<Char>, x: seq<Char>, y: seq<Char>): int
    requires TableOK(table)
  {
    Lexicographic(Meaning(table, x), Meaning(table, y))
  }

  /** The comparison is a total preorder, as the search in a tree of names needs it: any two names compare one way
      and back, the order is kept along a chain, and what lies between equal names is equal to them. */
  lemma TotalPreorder(table: seq<Char>, x: seq<Char>, y: seq<Char>, z: seq<Char>)
    requires TableOK(table)
    ensures Compare(table, x, y) == -Compare(table, y, x)
    ensures Compare(table, x, y) == 0 <==> Meaning(table, x) == Meaning(table, y)
    ensures Compare(table, x, y) <= 0 && Compare(table, y, z) <= 0 ==> Compare(table, x, z) <= 0
    ensures Compare(table, x, y) < 0 && Compare(table, y, z) <= 0 ==> Compare(table, x, z) < 0
    ensures Compare(table, x, y) <= 0 && Compare(table, y, z) < 0 ==> Compare(table, x, z) < 0
  {
    var a, b, d := Meaning(table, x), Meaning(table, y), Meaning(table, z);
    Opposite(a, b);
    EqualMeaning(a, b);
    if Lexicographic(a, b) <= 0 && Lexicographic(b, d) <= 0 {
      Transitive(a, b, d);
    }
  }

  /** Characters that are ignored, and the case of those that are not, make no difference. */
  lemma {:induction false} SameFolding(table: seq<Char>, s: seq<Char>, i: nat, c: Char)
    requires TableOK(table) && i < |s| && Folded(table, c) == Folded(table, s[i])
    ensures Compare(table, s[i := c], s) == 0
  {
    MeaningUpdated(table, s, i, c);
    EqualMeaning(Meaning(table, s[i := c]), Meaning(table, s));
  }

  lemma {:induction false} MeaningUpdated(table: seq<Char>, s: seq<Char>, i: nat, c: Char)
    requires TableOK(table) && i < |s| && Folded(table, c) == Folded(table, s[i])
    ensures Meaning(table, s[i := c]) == Meaning(table, s)
  {
    if i > 0 {
      MeaningUpdated(table, s[1..], i - 1, c);
      assert s[i := c][1..] == s[1..][i - 1 := c];
    } else {
      assert s[i := c][1..] == s[1..];
    }
  }
}
