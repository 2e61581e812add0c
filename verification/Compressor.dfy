/** The compression loop: eight tokens at a time, each the longest match the window offers. */
module Compressor {
  import opened Bits
  import opened LzssBase
  import opened LzssFormat
  import opened LzssText
  import opened Window
  import opened SearchTree
  import opened Encoder
  import opened Wrappers

  /** The text as the coder sees it, after the blanks the ring starts with. */
  ghost function Stream(src: seq<Byte>): seq<Byte> {
    seq(START, _ => SPACE) + src
  }

  /** The destination is as it was from index n on. */
  ghost predicate SameFrom(d: seq<Byte>, d': seq<Byte>, n: nat) {
    |d| == |d'| && forall i | n <= i < |d| :: d'[i] == d[i]
  }

  lemma SameFromSelf(d: seq<Byte>)
    ensures forall n :: SameFrom(d, d, n)
  {}

  lemma SameFromTwice(d: seq<Byte>, d1: seq<Byte>, d2: seq<Byte>, n: nat, m: nat)
    requires SameFrom(d, d1, n) && SameFrom(d1, d2, m) && n <= m
    ensures SameFrom(d, d2, m)
  {}

  // ----- The code buffer -----

  /** The buffer holds the unfinished group of tokens; the mask marks the next flag. */
  ghost predicate Holds(code: seq<Byte>, ptr: nat, mask: nat, cur: seq<Token>) {
    && |code| == 17 && AllOk(cur) && |cur| < 8 && mask == Shl(1, |cur|)
    && ptr == 1 + |Payload(cur)| && ptr <= 1 + 2 * |cur|
    && code[..ptr] == Group(cur)
  }

  lemma PayloadOne(t: Token)
    requires t.Ok()
    ensures AllOk([t]) && Payload([t]) == Code(t)
  {}

  lemma OneMore(cur: seq<Token>, t: Token)
    requires AllOk(cur) && |cur| < 8 && t.Ok()
    ensures AllOk(cur + [t]) && Payload(cur + [t]) == Payload(cur) + Code(t)
    ensures Flags(cur + [t]) == if t.Literal? then Or(Flags(cur), Shl(1, |cur|)) else Flags(cur)
    ensures Flags(cur + [t]) < 256
  {
    hide Payload, Flags, Or, Shl, Code;
    PayloadOne(t);
    PayloadAppend(cur, [t]);
    FlagsAppend(cur, t);
    FlagsBound(cur);
    FlagsBound(cur + [t]);
    OrDisjoint(1, Flags(cur), |cur|);
  }

  lemma GroupParts(code: seq<Byte>, ptr: nat, cur: seq<Token>)
    requires AllOk(cur) && |cur| <= 8 && 1 <= ptr <= |code|
    ensures code[..ptr] == Group(cur) <==> code[0] == Flags(cur) && code[1..ptr] == Payload(cur)
  {
    FlagsBound(cur);
    assert code[..ptr] == [code[0]] + code[1..ptr];
  }

  /** The high nibble of the position and the length share the second byte of a copy. */
  lemma SecondByte(pos: Pos, len: nat)
    requires THRESHOLD < len <= F
    ensures Or(And(Shr(pos, 4), 0xF0), len - (THRESHOLD + 1)) == pos / 256 * 16 + len - (THRESHOLD + 1)
  {
    var a, hi, lo := Shr(pos, 4), pos / 256, len - (THRESHOLD + 1);
    ShiftBy4(pos);
    HighNibble(a, 0xF0);
    assert a / 16 == hi && And(a, 0xF0) == 16 * hi;
    OrNibble(hi, lo);
  }

  /** A unit flagged as a plain byte. */
  method AddLiteral(code: array<Byte>, ptr: nat, mask: nat, b: Byte, ghost cur: seq<Token>) returns (ptr': nat)
    requires Holds(code[..], ptr, mask, cur)
    modifies code
    ensures ptr' == ptr + 1 <= 17
    ensures AllOk(cur + [Literal(b)]) && code[..ptr'] == Group(cur + [Literal(b)])
  {
    hide Payload, Flags, Shl, Shr, And, Or;
    ghost var pay := Payload(cur);
    GroupParts(code[..], ptr, cur);
    OneMore(cur, Literal(b));
    assert code[1..ptr] == pay;
    code[0] := Or(code[0], mask);
    code[ptr] := b;
    ptr' := ptr + 1;
    assert code[1..ptr'] == pay + [b];
    GroupParts(code[..], ptr', cur + [Literal(b)]);
  }

  /** A unit of two bytes. */
  method AddCopy(code: array<Byte>, ptr: nat, mask: nat, pos: Pos, len: nat, ghost cur: seq<Token>)
    returns (ptr': nat)
    requires Holds(code[..], ptr, mask, cur) && THRESHOLD < len <= F
    modifies code
    ensures ptr' == ptr + 2 <= 17
    ensures AllOk(cur + [Copy(pos, len)]) && code[..ptr'] == Group(cur + [Copy(pos, len)])
  {
    hide Payload, Flags, Shl, Shr, And, Or;
    ghost var pay := Payload(cur);
    GroupParts(code[..], ptr, cur);
    OneMore(cur, Copy(pos, len));
    assert code[1..ptr] == pay;
    ghost var c := Code(Copy(pos, len));
    code[ptr] := pos % 256;
    code[ptr + 1] := Or(And(Shr(pos, 4), 0xF0), len - (THRESHOLD + 1)) % 256;
    ptr' := ptr + 2;
    assert code[ptr + 1] == c[1] by { SecondByte(pos, len); }
    assert code[ptr..ptr'] == c;
    assert code[1..ptr'] == code[1..ptr] + code[ptr..ptr'];
    GroupParts(code[..], ptr', cur + [Copy(pos, len)]);
  }

  /** Adds the token for position R to the code buffer; the reported match is cut to what is left. */
  method PutToken(sp: EncodeState, code: array<Byte>, ptr: nat, mask: nat, r: Pos, len: nat,
                  ghost x: seq<Byte>, ghost R: int, ghost cur: seq<Token>)
    returns (ptr': nat, ghost t: Token)
    requires sp.Ready(x, R) && r == Slot(R) && len == Top(x, R) - R
    requires code != sp.textBuf && Holds(code[..], ptr, mask, cur)
    modifies sp`matchLength, code
    ensures sp.Settled(x, R)
    ensures Encodes(x, R, t) && Longest(x, R, t) && t.Size() == sp.matchLength <= len
    ensures ptr <= ptr' <= ptr + 2 && ptr' <= 17
    ensures AllOk(cur + [t]) && code[..ptr'] == Group(cur + [t])
  {
    FoundMakesToken(sp.textBuf[..], x, R, sp.matchPosition, sp.matchLength);
    if sp.matchLength > len {
      sp.matchLength := len;
    }
    t := Choose(sp.textBuf[r], sp.matchPosition, sp.matchLength);
    if sp.matchLength <= THRESHOLD {
      sp.matchLength := 1;
      ptr' := AddLiteral(code, ptr, mask, sp.textBuf[r], cur);
    } else {
      ptr' := AddCopy(code, ptr, mask, sp.matchPosition, sp.matchLength, cur);
    }
  }

  /** Writes the code buffer out, unless the destination is full. */
  method Flush(dst: array<Byte>, dstLen: nat, n: nat, code: array<Byte>, ptr: nat)
    returns (n': nat, ok: bool)
    requires n <= dstLen <= dst.Length && ptr <= code.Length && code != dst
    modifies dst
    ensures ok <==> n + ptr <= dstLen
    ensures ok ==> n' == n + ptr && dst[..n'] == old(dst[..n]) + code[..ptr]
    ensures SameFrom(old(dst[..]), dst[..], if ok then n' else dstLen)
  {
    n' := n;
    var i := 0;
    while i < ptr
      invariant 0 <= i <= ptr && n' == n + i <= dstLen
      invariant dst[..n'] == old(dst[..n]) + code[..i] && SameFrom(old(dst[..]), dst[..], n')
    {
      if n' >= dstLen {
        return n', false;
      }
      dst[n'] := code[i];
      n' := n' + 1;
      i := i + 1;
    }
    ok := true;
  }

  // ----- The window moves on -----

  /** The encoder's indices for position R: bytes read so far, the two ring positions, and how much of the
      text the ring holds from R on. */
  ghost predicate At(src: seq<Byte>, R: int, next: int, r: int, s: int, len: int) {
    var x := Stream(src);
    && START <= R <= |x| && next == Top(x, R) - START && r == Slot(R) && s == Slot(R + F)
    && len == Top(x, R) - R
  }

  /** Incrementing a ring position modulo N. */
  lemma RingNext(a: int)
    requires a >= 0
    ensures And(Slot(a) + 1, N - 1) == Slot(a + 1)
  {
    var p := Slot(a) + 1;
    hide And;
    AndLow12(p);
    assert Slot(a + 1) == p % N;
  }

  method NextPos(p: Pos, ghost a: int) returns (p': Pos)
    requires a >= 0 && p == Slot(a)
    ensures p' == Slot(a + 1)
  {
    RingNext(a);
    p' := And(p + 1, N - 1);
  }

  /** One byte of text is read, and the next position registered. */
  method ReadOne(sp: EncodeState, src: seq<Byte>, next: nat, r: Pos, s: Pos, ghost R: int)
    returns (r': Pos, s': Pos)
    requires sp.Settled(Stream(src), R) && next < |src| && At(src, R, next, r, s, F)
    modifies sp, sp.lchild, sp.rchild, sp.parent, sp.textBuf
    ensures At(src, R + 1, next + 1, r', s', F) && sp.Ready(Stream(src), R + 1)
    ensures sp.Settled(Stream(src), R + 1)
  {
    hide EncodeState.Settled, EncodeState.Open;
    ghost var x := Stream(src);
    assert x[R + F] == src[next];
    sp.ReadByte(s, src[next], x, R);
    s' := NextPos(s, R + F);
    r' := NextPos(r, R);
    sp.Register(r', x, R + 1);
  }

  /** The text is exhausted: the window shrinks, and the next position is registered if there is one. */
  method ExpireOne(sp: EncodeState, src: seq<Byte>, r: Pos, s: Pos, len: nat, ghost R: int)
    returns (r': Pos, s': Pos, len': nat)
    requires sp.Settled(Stream(src), R) && At(src, R, |src|, r, s, len)
    modifies sp, sp.lchild, sp.rchild, sp.parent
    ensures At(src, R + 1, |src|, r', s', len') && len' == len - 1
    ensures len' > 0 ==> sp.Ready(Stream(src), R + 1) && sp.Settled(Stream(src), R + 1)
  {
    hide EncodeState.Settled, EncodeState.Open;
    ghost var x := Stream(src);
    sp.Expire(s, x, R);
    s' := NextPos(s, R + F);
    r' := NextPos(r, R);
    len' := len - 1;
    if len' > 0 {
      sp.Register(r', x, R + 1);
    }
  }

  /** Moves the window on by `count` bytes, the size of the token just sent: first as long as there is text
      to read, then by dropping old positions only. */
  method Advance(sp: EncodeState, src: seq<Byte>, next: nat, r: Pos, s: Pos, len: nat, count: nat, ghost R: int)
    returns (next': nat, r': Pos, s': Pos, len': nat)
    requires sp.Settled(Stream(src), R) && 0 < count <= len && At(src, R, next, r, s, len)
    modifies sp, sp.lchild, sp.rchild, sp.parent, sp.textBuf
    ensures At(src, R + count, next', r', s', len')
    ensures len' > 0 ==> sp.Ready(Stream(src), R + count)
  {
    hide EncodeState.Ready, EncodeState.Settled;
    next', r', s', len' := next, r, s, len;
    var i := 0;
    while i < count && next' < |src|
      invariant 0 <= i <= count && len' == len
      invariant sp.Settled(Stream(src), R + i) && (i > 0 ==> sp.Ready(Stream(src), R + i))
      invariant At(src, R + i, next', r', s', len')
    {
      r', s' := ReadOne(sp, src, next', r', s', R + i);
      next' := next' + 1;
      i := i + 1;
    }
    ghost var j := i;
    while i < count
      invariant j <= i <= count && len' == len - (i - j)
      invariant i < count ==> next' == |src|
      invariant len' > 0 ==> sp.Settled(Stream(src), R + i) && (i > 0 ==> sp.Ready(Stream(src), R + i))
      invariant At(src, R + i, next', r', s', len')
    {
      r', s', len' := ExpireOne(sp, src, r', s', len', R + i);
      i := i + 1;
    }
  }

  // ----- The whole text -----

  /** What has been written and what is waiting in the code buffer, when position R is next. */
  ghost predicate Progress(x: seq<Byte>, R: int, out: seq<Byte>, done: seq<Token>, cur: seq<Token>) {
    && AllOk(done) && AllOk(cur) && |done| % 8 == 0
    && out == Serialize(done) && Encoded(x, START, done + cur, R)
  }

  lemma NothingEncoded(x: seq<Byte>)
    ensures Progress(x, START, [], [], []) && Encoded(x, START, [], START)
  {}

  /** One more token: it joins the current group, and a full group is ready to be written. */
  lemma ProgressStep(x: seq<Byte>, R: int, out: seq<Byte>, done: seq<Token>, cur: seq<Token>, t: Token)
    requires Progress(x, R, out, done, cur) && |cur| < 8
    requires Encodes(x, R, t) && Longest(x, R, t)
    ensures Progress(x, R + t.Size(), out, done, cur + [t])
    ensures |cur| == 7 ==> Progress(x, R + t.Size(), out + Group(cur + [t]), done + (cur + [t]), [])
    ensures AllOk(done + (cur + [t])) && Encoded(x, START, done + (cur + [t]), R + t.Size())
    ensures Serialize(done + (cur + [t])) == out + Group(cur + [t])
  {
    hide Longest, Encoded, Serialize;
    EncodedAppend(x, START, done + cur, R, t);
    assert done + cur + [t] == done + (cur + [t]);
    SerializeAppend(done, cur + [t]);
    assert done + (cur + [t]) + [] == done + (cur + [t]);
  }

  lemma EmptyGroup(code: seq<Byte>)
    requires |code| == 17 && code[0] == 0
    ensures Holds(code, 1, 1, [])
  {
    assert code[..1] == [code[0]];
  }

  /** The mask runs out of the byte after eight units. */
  lemma MaskShift(mask: nat, n: nat)
    requires n < 8 && mask == Shl(1, n)
    ensures Shl(mask, 1) % 256 == if n < 7 then Shl(1, n + 1) else 0
    ensures Shl(1, n + 1) > 0
  {
    ShiftBy8(1);
    assert Shl(mask, 1) == 2 * Shl(mask, 0) == 2 * mask == Shl(1, n + 1);
    ShlMonotone(n + 1, 8);
    if n < 7 {
      ShlMonotone(n + 1, 7);
      assert 2 * Shl(1, 7) == Shl(1, 8);
    }
  }

  /** Encodes position R; when that completes a group of eight, the group is written out. */
  method Send(sp: EncodeState, code: array<Byte>, dst: array<Byte>, dstLen: nat, n: nat, ptr: nat, mask: nat,
              r: Pos, len: nat, ghost x: seq<Byte>, ghost R: int, ghost done: seq<Token>, ghost cur: seq<Token>)
    returns (n': nat, ptr': nat, mask': nat, ok: bool, ghost done': seq<Token>, ghost cur': seq<Token>)
    requires sp.Ready(x, R) && r == Slot(R) && len == Top(x, R) - R
    requires code != dst && dst != sp.textBuf && code != sp.textBuf && n <= dstLen <= dst.Length
    requires Holds(code[..], ptr, mask, cur) && Progress(x, R, dst[..n], done, cur)
    modifies sp`matchLength, code, dst
    ensures 0 < sp.matchLength <= len && sp.Settled(x, R)
    ensures ok ==> n <= n' <= dstLen
    ensures SameFrom(old(dst[..]), dst[..], if ok then n' else dstLen)
    ensures ok ==> Holds(code[..], ptr', mask', cur') && Progress(x, R + sp.matchLength, dst[..n'], done', cur')
    ensures !ok ==> Encoded(x, START, done', R + sp.matchLength) && AllOk(done') && |Serialize(done')| > dstLen
  {
    hide EncodeState.Ready, EncodeState.Settled, Encodes, Longest, Encoded, Progress, Shl, Payload, Flags, Serialize;
    n', mask', ok, done', cur' := n, Shl(mask, 1) % 256, true, done, cur;
    ghost var t;
    ptr', t := PutToken(sp, code, ptr, mask, r, len, x, R, cur);
    ghost var out := dst[..n];
    ProgressStep(x, R, out, done, cur, t);
    MaskShift(mask, |cur|);
    cur' := cur + [t];
    assert dst[..n] == out;
    if mask' == 0 {
      assert |cur| == 7;
      ghost var group := Group(cur + [t]);
      assert code[..ptr'] == group;
      n', ok := Flush(dst, dstLen, n, code, ptr');
      done', cur' := done + (cur + [t]), [];
      if ok {
        assert dst[..n'] == out + group;
        assert Progress(x, R + sp.matchLength, dst[..n'], done', cur');
        code[0] := 0;
        ptr', mask' := 1, 1;
        EmptyGroup(code[..]);
      }
    } else {
      assert Progress(x, R + sp.matchLength, dst[..n'], done', cur');
    }
  }

  /** A fresh encoder with the first bytes of the text read, ready for the first position. */
  method Start(src: seq<Byte>) returns (sp: EncodeState, len: nat)
    ensures fresh(sp) && fresh(sp.textBuf) && fresh(sp.lchild) && fresh(sp.rchild) && fresh(sp.parent)
    ensures len == if |src| < F then |src| else F
    ensures len > 0 ==> sp.Ready(Stream(src), START)
  {
    sp := new EncodeState();
    len := sp.Load(src);
    if len > 0 {
      sp.RegisterBlanks(Stream(src));
      sp.Register(START, Stream(src), START);
    }
  }

  /** Writes the last, unfinished group. */
  method Finish(code: array<Byte>, dst: array<Byte>, dstLen: nat, n: nat, ptr: nat, mask: nat,
                ghost x: seq<Byte>, ghost done: seq<Token>, ghost cur: seq<Token>)
    returns (end: Option<nat>, ghost ts: seq<Token>)
    requires code != dst && n <= dstLen <= dst.Length
    requires Holds(code[..], ptr, mask, cur) && Progress(x, |x|, dst[..n], done, cur)
    modifies dst
    ensures AllOk(ts) && Encoded(x, START, ts, |x|)
    ensures end.None? <==> |Serialize(ts)| > dstLen
    ensures end.Some? ==> n <= end.value == |Serialize(ts)| && dst[..end.value] == Serialize(ts)
    ensures SameFrom(old(dst[..]), dst[..], if end.Some? then end.value else dstLen)
  {
    hide Encoded;
    ts := done + cur;
    var n' := n;
    if ptr > 1 {
      SerializeAppend(done, cur);
      var ok;
      n', ok := Flush(dst, dstLen, n, code, ptr);
      if !ok {
        return None, ts;
      }
    } else {
      assert ts == done;
    }
    end := Some(n');
  }

  /** Compresses src into dst. Returns where the output ends, or None if src is empty or dst is too short.
      The ghost result is the token sequence: all of it, or as much as it took to overrun dst. */
  method CompressLzss(dst: array<Byte>, dstLen: nat, src: seq<Byte>) returns (end: Option<nat>, ghost ts: seq<Token>)
    requires dstLen <= dst.Length
    modifies dst
    ensures AllOk(ts) && TotalSize(ts) <= |src| && Encoded(Stream(src), START, ts, START + TotalSize(ts))
    ensures end.None? <==> src == [] || |Serialize(ts)| > dstLen
    ensures end.Some? ==> TotalSize(ts) == |src|
    ensures end.Some? ==> end.value == |Serialize(ts)| && dst[..end.value] == Serialize(ts)
    ensures SameFrom(old(dst[..]), dst[..], if end.Some? then end.value else dstLen)
  {
    hide EncodeState.Ready, EncodeState.Settled, EncodeState.Valid, Encoded, Progress, SameFrom, Serialize;
    ghost var x := Stream(src);
    SameFromSelf(dst[..]);
    var sp, len := Start(src);
    if len == 0 {
      NothingEncoded(x);
      return None, [];
    }
    var code := new Byte[17](_ => 0);
    var ptr: nat, mask: nat, n: nat := 1, 1, 0;
    var s: Pos, r: Pos := 0, N - F;
    var next := len;
    ghost var R, done, cur := START, [], [];
    EmptyGroup(code[..]);
    NothingEncoded(x);
    while true
      invariant 0 < len && sp.Ready(x, R) && At(src, R, next, r, s, len)
      invariant n <= dstLen && SameFrom(old(dst[..]), dst[..], n)
      invariant Holds(code[..], ptr, mask, cur) && Progress(x, R, dst[..n], done, cur)
      invariant fresh(sp.textBuf) && fresh(sp.lchild) && fresh(sp.rchild) && fresh(sp.parent)
      decreases |x| - R
    {
      var ok;
      ghost var d, m := dst[..], n;
      n, ptr, mask, ok, done, cur := Send(sp, code, dst, dstLen, n, ptr, mask, r, len, x, R, done, cur);
      SameFromTwice(old(dst[..]), d, dst[..], m, if ok then n else dstLen);
      if !ok {
        EncodedIsOk(x, START, done, R + sp.matchLength);
        return None, done;
      }
      ghost var R' := R + sp.matchLength;
      next, r, s, len := Advance(sp, src, next, r, s, len, sp.matchLength, R);
      R := R';
      if len == 0 {
        break;
      }
    }
    ghost var d := dst[..];
    end, ts := Finish(code, dst, dstLen, n, ptr, mask, x, done, cur);
    SameFromTwice(old(dst[..]), d, dst[..], n, if end.Some? then end.value else dstLen);
    EncodedIsOk(x, START, ts, |x|);
  }
}
