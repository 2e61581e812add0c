/** The decompression loop. It keeps only the last N bytes, in a ring, and no more than one group's flags. */
module Decompressor {
  import opened Bits
  import opened LzssBase
  import opened LzssFormat

  /** The ring holds the last N bytes of the history, and r is where the next byte goes. */
  ghost predicate Ring(text: seq<Byte>, r: int, h: seq<Byte>) {
    && IsText(text) && |h| >= N && r == Slot(|h| - F)
    && forall j | |h| - N <= j < |h| :: text[Slot(j - F)] == h[j]
  }

  lemma RingPut(text: seq<Byte>, r: Pos, h: seq<Byte>, c: Byte)
    requires Ring(text, r, h)
    ensures Ring(text[r := c], Slot(r + 1), h + [c])
  {}

  lemma SameSlot(n: nat, pos: Pos, k: nat)
    requires n >= N
    ensures Slot(n + k - Distance(n, pos) - F) == Slot(pos + k)
  {}

  /** While a match is copied, the source runs ahead of r at a fixed distance. */
  lemma SourceByte(text: seq<Byte>, r: Pos, h: seq<Byte>, n: nat, pos: Pos, k: nat)
    requires Ring(text, r, h) && n >= N && |h| == n + k
    ensures text[Slot(pos + k)] == h[|h| - Distance(n, pos)]
  {
    var j := |h| - Distance(n, pos);
    SameSlot(n, pos, k);
    hide Slot, Distance;
    assert Slot(j - F) == Slot(pos + k);
  }

  lemma SlotByMask(a: nat)
    ensures And(a, N - 1) == Slot(a)
  {
    AndLow12(a);
  }

  method PutByte(dst: array<Byte>, text: array<Byte>, n: nat, r: Pos, c: Byte, ghost h: seq<Byte>) returns (r': Pos)
    requires n < dst.Length && dst != text && Ring(text[..], r, h) && h[N..] == dst[..n]
    modifies dst, text
    ensures Ring(text[..], r', h + [c]) && (h + [c])[N..] == dst[..n + 1]
    ensures forall i | n < i < dst.Length :: dst[i] == old(dst[i])
  {
    RingPut(text[..], r, h, c);
    dst[n] := c;
    text[r] := c;
    SlotByMask(r + 1);
    r' := And(r + 1, N - 1);
    assert text[..] == old(text[..])[r := c];
  }

  lemma CopyBackMore(h: seq<Byte>, d: nat, len: nat)
    requires 1 <= d <= |h| && len > 0
    ensures CopyBack(h, d, len) == CopyBack(h + [h[|h| - d]], d, len - 1)
  {}

  lemma CopyBackEnd(h: seq<Byte>, d: nat)
    requires 1 <= d <= |h|
    ensures CopyBack(h, d, 0) == h
  {}

  method CopyMatch(dst: array<Byte>, text: array<Byte>, n: nat, r: Pos, pos: Pos, len: nat, ghost h: seq<Byte>)
    returns (n': nat, r': Pos)
    requires n + len <= dst.Length && dst != text && text.Length == N + F - 1
    requires |h| >= N && Ring(text[..], r, h) && h[N..] == dst[..n]
    requires THRESHOLD < len <= F
    modifies dst, text
    ensures n' == n + len
    ensures var h' := Step(h, Copy(pos, len)); Ring(text[..], r', h') && h'[N..] == dst[..n']
    ensures forall i | n' <= i < dst.Length :: dst[i] == old(dst[i])
  {
    hide And, Ring, Slot, Distance, CopyBack;
    n', r' := n, r;
    ghost var d, h' := Distance(|h|, pos), h;
    var k := 0;
    while k < len
      invariant 0 <= k <= len && n' == n + k && |h'| == |h| + k
      invariant Ring(text[..], r', h') && h'[N..] == dst[..n']
      invariant CopyBack(h, d, len) == CopyBack(h', d, len - k)
      invariant forall i | n' <= i < dst.Length :: dst[i] == old(dst[i])
    {
      SourceByte(text[..], r', h', |h|, pos, k);
      CopyBackMore(h', d, len - k);
      SlotByMask(pos + k);
      var c := text[And(pos + k, N - 1)];
      r' := PutByte(dst, text, n', r', c, h');
      h' := h' + [c];
      n' := n' + 1;
      k := k + 1;
    }
    CopyBackEnd(h', d);
  }

  // ----- The flag register -----

  /** The register holds k more flags u, under a sentinel of ones that shows when they have run out. */
  ghost predicate FlagsLeft(flags: int, k: nat, u: nat) {
    k <= 8 && u < Shl(1, k) && flags == u + 255 * Shl(1, k)
  }

  lemma LoadFlags(c: Byte)
    ensures FlagsLeft(Or(c, 0xFF00), 8, c)
  {
    hide Or;
    ShiftBy8(1);
    OrByte(255, c);
  }

  lemma TestFlags(flags: nat, k: nat, u: nat)
    requires FlagsLeft(flags, k, u)
    ensures And(flags, 0x100) == 0 <==> k == 0
    ensures k > 0 ==> And(flags, 1) == u % 2 && FlagsLeft(flags / 2, k - 1, u / 2)
  {
    hide And;
    BitTest(flags);
    PowersOfTwo();
    assert k == 0 || k == 1 || k == 2 || k == 3 || k == 4 || k == 5 || k == 6 || k == 7 || k == 8;
  }

  // ----- The whole input -----

  /** The history before decoding: the ring's unwritten slots, then the blanks. */
  ghost function Initial(junk: seq<Byte>): seq<Byte> {
    junk + seq(START, _ => SPACE)
  }

  method InitRing() returns (text: array<Byte>, ghost junk: seq<Byte>)
    ensures fresh(text) && text.Length == N + F - 1 && |junk| == F && Ring(text[..], START, Initial(junk))
  {
    text := new Byte[N + F - 1];
    junk := text[START..N];
    for i := 0 to START
      invariant forall j | 0 <= j < i :: text[j] == SPACE
      invariant text[START..N] == junk
    {
      text[i] := SPACE;
    }
    forall j | 0 <= j < N ensures text[Slot(j - F)] == Initial(junk)[j] {
      if j < F {
        assert Slot(j - F) == START + j;
        assert text[START..N][j] == junk[j];
      }
    }
  }

  /** Decoding what is left, with k more flags u, leads from the history h to the final one. */
  ghost predicate Leads(h: seq<Byte>, u: nat, k: nat, tail: seq<Byte>, final: seq<Byte>) {
    && k <= 8 && |h| >= N && Run(h, Units(u, k, tail)) == final
  }

  lemma LeadsReload(h: seq<Byte>, u: nat, tail: seq<Byte>, final: seq<Byte>)
    requires Leads(h, u, 0, tail, final) && tail != []
    ensures Leads(h, tail[0], 8, tail[1..], final)
  {
    assert Units(u, 0, tail) == Parse(tail) == Units(tail[0], 8, tail[1..]);
  }

  /** Input that ends at a group or inside a unit decodes to nothing more. */
  lemma LeadsEnd(h: seq<Byte>, u: nat, k: nat, tail: seq<Byte>, final: seq<Byte>)
    requires Leads(h, u, k, tail, final)
    requires tail == [] || (k > 0 && u % 2 == 0 && |tail| == 1)
    ensures h == final
  {
    assert k == 0 ==> Units(u, k, tail) == Parse(tail);
    assert Units(u, k, tail) == [];
  }

  lemma RunOne(h: seq<Byte>, t: Token, ts: seq<Token>)
    requires |h| >= N && t.Ok() && AllOk(ts)
    ensures AllOk([t] + ts) && Run(h, [t] + ts) == Run(Step(h, t), ts)
  {
    assert ([t] + ts)[1..] == ts;
  }

  lemma LeadsLiteral(h: seq<Byte>, u: nat, k: nat, tail: seq<Byte>, final: seq<Byte>)
    requires Leads(h, u, k, tail, final) && k > 0 && u % 2 == 1 && tail != []
    ensures Leads(h + [tail[0]], u / 2, k - 1, tail[1..], final) && |h| + 1 <= |final|
  {
    RunOne(h, Literal(tail[0]), Units(u / 2, k - 1, tail[1..]));
  }

  lemma LeadsCopy(h: seq<Byte>, u: nat, k: nat, tail: seq<Byte>, final: seq<Byte>, i: int, j: int)
    requires Leads(h, u, k, tail, final) && k > 0 && u % 2 == 0 && |tail| >= 2
    requires i == tail[0] as int + tail[1] as int / 16 * 256 && j == tail[1] as int % 16 + THRESHOLD
    ensures Leads(Step(h, Copy(i, j + 1)), u / 2, k - 1, tail[2..], final) && |h| + j + 1 <= |final|
  {
    hide Step, Run, Parse, CopyBack;
    RunOne(h, Copy(i, j + 1), Units(u / 2, k - 1, tail[2..]));
  }

  /** The two bytes of a copy, taken apart with masks. */
  lemma CopyFields(i: Byte, j: Byte)
    ensures Or(i, Shl(And(j, 0xF0), 4)) == i as int + j as int / 16 * 256
    ensures And(j, 0x0F) == j % 16
  {
    hide And, Or, Shl;
    HighNibble(j, 0xF0);
    LowNibble(j, 0x0F);
    ShiftBy4(And(j, 0xF0));
    OrByte(j / 16, i);
  }

  /** Decompresses src into dst, which must be large enough, as the code does not check it. The slots of
      the ring that are not blanked hold whatever was there: the ghost result. */
  method DecompressLzss(dst: array<Byte>, src: seq<Byte>) returns (n: nat, ghost junk: seq<Byte>)
    requires TotalSize(Parse(src)) <= dst.Length
    modifies dst
    ensures |junk| == F && n == TotalSize(Parse(src))
    ensures Run(Initial(junk), Parse(src)) == Initial(junk) + dst[..n]
    ensures forall i | n <= i < dst.Length :: dst[i] == old(dst[i])
  {
    hide And, Or, Shl, Ring, Leads, FlagsLeft, Step, Parse, Run, TotalSize;
    var text;
    text, junk := InitRing();
    var r: Pos := N - F;
    var flags: nat := 0;
    var next: nat := 0;
    n := 0;
    ghost var h, k: nat, u: nat := Initial(junk), 0, 0;
    ghost var final := Run(h, Parse(src));
    LeadsStart(h, src);
    assert src[0..] == src;
    while true
      invariant next <= |src| && fresh(text)
      invariant |h| >= N && n <= dst.Length && text.Length == N + F - 1
      invariant Ring(text[..], r, h) && h[N..] == dst[..n] && Initial(junk) <= h
      invariant (flags == 0 && k == 0) || FlagsLeft(flags / 2, k, u)
      invariant Leads(h, u, k, src[next..], final)
      invariant forall i | n <= i < dst.Length :: dst[i] == old(dst[i])
      decreases |src| - next
    {
      ghost var tail := src[next..];
      flags := flags / 2;
      NeedFlags(flags, k, u);
      if And(flags, 0x100) == 0 {
        if next >= |src| {
          LeadsEnd(h, u, k, tail, final);
          break;
        }
        LeadsReload(h, u, tail, final);
        LoadFlags(src[next]);
        flags := Or(src[next], 0xFF00);
        next := next + 1;
        k, u, tail := 8, tail[0], tail[1..];
      }
      TestFlags(flags, k, u);
      if And(flags, 1) != 0 {
        if next >= |src| {
          LeadsEnd(h, u, k, tail, final);
          break;
        }
        LeadsLiteral(h, u, k, tail, final);
        r := PutByte(dst, text, n, r, src[next], h);
        h := h + [src[next]];
        n := n + 1;
        next := next + 1;
      } else {
        if next + 1 >= |src| {
          LeadsEnd(h, u, k, tail, final);
          break;
        }
        CopyFields(src[next], src[next + 1]);
        var i := Or(src[next], Shl(And(src[next + 1], 0xF0), 4));
        var j := And(src[next + 1], 0x0F) + THRESHOLD;
        next := next + 2;
        LeadsCopy(h, u, k, tail, final, i, j);
        n, r := CopyMatch(dst, text, n, r, i, j + 1, h);
        h := Step(h, Copy(i, j + 1));
      }
      k, u := k - 1, u / 2;
    }
  }

  lemma LeadsStart(h: seq<Byte>, src: seq<Byte>)
    requires |h| >= N
    ensures Leads(h, 0, 0, src, Run(h, Parse(src)))
  {}

  /** Before the first group the register is empty; the test sees no flags left. */
  lemma NeedFlags(flags: nat, k: nat, u: nat)
    requires (flags == 0 && k == 0) || FlagsLeft(flags, k, u)
    ensures And(flags, 0x100) == 0 <==> k == 0
    ensures k > 0 ==> FlagsLeft(flags, k, u)
  {
    if flags != 0 {
      TestFlags(flags, k, u);
    }
  }
}
