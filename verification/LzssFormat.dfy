/** The compressed format: tokens, how they are written in groups of eight, how they are read back, and
    what a token means for the text decoded so far. */
module LzssFormat {
  import opened LzssBase
  import opened Bits

  datatype Token = Literal(b: Byte) | Copy(pos: Pos, len: nat) {
    predicate Ok() {
      Copy? ==> THRESHOLD < len <= F
    }

    /** How many bytes of text the token stands for. */
    function Size(): nat {
      if Literal? then 1 else len
    }
  }

  ghost predicate AllOk(ts: seq<Token>) {
    forall t | t in ts :: t.Ok()
  }

  // ----- Writing -----

  /** The two bytes of a copy are the low byte of the position, then the position's high nibble and the
      length. */
  function Code(t: Token): seq<Byte>
    requires t.Ok()
  {
    match t
    case Literal(b) => [b]
    case Copy(pos, len) => [pos % 256, pos / 256 * 16 + len - (THRESHOLD + 1)]
  }

  ghost function Payload(ts: seq<Token>): seq<Byte>
    requires AllOk(ts)
  {
    if ts == [] then [] else Code(ts[0]) + Payload(ts[1..])
  }

  /** Bit i says that unit i is a plain byte. */
  ghost function Flags(ts: seq<Token>): nat {
    if ts == [] then 0 else (if ts[0].Literal? then 1 else 0) + 2 * Flags(ts[1..])
  }

  lemma {:induction false} FlagsBound(ts: seq<Token>)
    requires |ts| <= 8
    ensures Flags(ts) < Shl(1, |ts|) <= 256
  {
    ShiftBy8(1);
    ShlMonotone(|ts|, 8);
    if ts != [] {
      FlagsBound(ts[1..]);
    }
  }

  ghost function Group(ts: seq<Token>): seq<Byte>
    requires AllOk(ts) && |ts| <= 8
  {
    FlagsBound(ts);
    [Flags(ts)] + Payload(ts)
  }

  ghost function Serialize(ts: seq<Token>): seq<Byte>
    requires AllOk(ts)
  {
    if ts == [] then [] else if |ts| <= 8 then Group(ts)
    else Group(ts[..8]) + Serialize(ts[8..])
  }

  lemma {:induction false} PayloadAppend(ts: seq<Token>, us: seq<Token>)
    requires AllOk(ts) && AllOk(us)
    ensures Payload(ts + us) == Payload(ts) + Payload(us)
  {
    if ts == [] {
      assert ts + us == us;
    } else {
      assert (ts + us)[1..] == ts[1..] + us;
      PayloadAppend(ts[1..], us);
    }
  }

  lemma {:induction false} FlagsAppend(ts: seq<Token>, t: Token)
    ensures Flags(ts + [t]) == Flags(ts) + if t.Literal? then Shl(1, |ts|) else 0
  {
    if ts == [] {
      assert ts + [t] == [t];
    } else {
      assert (ts + [t])[1..] == ts[1..] + [t];
      FlagsAppend(ts[1..], t);
    }
  }

  /** Groups written one after the other are the serialisation of the whole. */
  lemma {:induction false} SerializeAppend(ts: seq<Token>, us: seq<Token>)
    requires AllOk(ts) && AllOk(us) && |ts| % 8 == 0 && 0 < |us| <= 8
    ensures Serialize(ts + us) == Serialize(ts) + Group(us)
  {
    if ts == [] {
      assert ts + us == us;
    } else {
      assert (ts + us)[8..] == ts[8..] + us;
      assert (ts + us)[..8] == ts[..8];
      SerializeAppend(ts[8..], us);
      if |ts| == 8 {
        assert ts[..8] == ts && ts[8..] == [];
      }
    }
  }

  ghost function TotalSize(ts: seq<Token>): nat {
    if ts == [] then 0 else ts[0].Size() + TotalSize(ts[1..])
  }

  lemma {:induction false} PayloadBound(ts: seq<Token>)
    requires AllOk(ts)
    ensures |Payload(ts)| <= TotalSize(ts) && |ts| <= TotalSize(ts)
  {
    if ts != [] {
      assert ts[0].Ok();
      PayloadBound(ts[1..]);
    }
  }

  /** Compression never costs more than one byte in eight. */
  lemma {:induction false} SerializedBound(ts: seq<Token>)
    requires AllOk(ts)
    ensures |Serialize(ts)| == |Payload(ts)| + (|ts| + 7) / 8
    ensures |Serialize(ts)| <= TotalSize(ts) + (TotalSize(ts) + 7) / 8
  {
    PayloadBound(ts);
    if |ts| > 8 {
      SerializedBound(ts[8..]);
      PayloadAppend(ts[..8], ts[8..]);
      assert ts[..8] + ts[8..] == ts;
    }
  }

  // ----- Reading -----

  /** The copy that two bytes stand for. */
  function CopyOf(lo: Byte, hi: Byte): Token {
    Copy(lo as int + hi as int / 16 * 256, hi as int % 16 + THRESHOLD + 1)
  }

  /** The tokens in a byte string. Reading stops where the input ends, even inside a token. */
  ghost function Parse(src: seq<Byte>): (ts: seq<Token>)
    ensures AllOk(ts)
    decreases |src|, 0
  {
    if src == [] then [] else Units(src[0], 8, src[1..])
  }

  /** The rest of a group: k more units, described by the low bits of flags. */
  ghost function Units(flags: nat, k: nat, src: seq<Byte>): (ts: seq<Token>)
    requires k <= 8
    ensures AllOk(ts)
    decreases |src|, k + 1
  {
    if k == 0 then Parse(src)
    else if flags % 2 == 1 then
      if src == [] then [] else [Literal(src[0])] + Units(flags / 2, k - 1, src[1..])
    else if |src| < 2 then []
    else [CopyOf(src[0], src[1])] + Units(flags / 2, k - 1, src[2..])
  }

  lemma CodeFields(t: Token)
    requires t.Ok() && t.Copy?
    ensures CopyOf(Code(t)[0], Code(t)[1]) == t
  {}

  /** Reading the first unit back. */
  lemma UnitOfCode(t: Token, flags: nat, k: nat, rest: seq<Byte>)
    requires t.Ok() && 0 < k <= 8 && (flags % 2 == 1 <==> t.Literal?)
    ensures Units(flags, k, Code(t) + rest) == [t] + Units(flags / 2, k - 1, rest)
  {
    hide Parse, AllOk;
    var code := Code(t);
    var src := code + rest;
    assert src[|code|..] == rest;
    if t.Copy? {
      CodeFields(t);
      hide Code, CopyOf;
      assert src[0] == code[0] && src[1] == code[1];
    }
  }

  lemma FirstOfGroup(ts: seq<Token>)
    requires AllOk(ts) && ts != []
    ensures ts[0].Ok() && AllOk(ts[1..]) && ts == [ts[0]] + ts[1..]
    ensures Payload(ts) == Code(ts[0]) + Payload(ts[1..])
    ensures Flags(ts) / 2 == Flags(ts[1..]) && (Flags(ts) % 2 == 1 <==> ts[0].Literal?)
  {}

  lemma UnitsOfNothing(k: nat, rest: seq<Byte>)
    requires k <= 8 && (k == 0 || rest == [])
    ensures Units(0, k, rest) == if k == 0 then Parse(rest) else []
  {}

  lemma {:induction false} UnitsOfPayload(ts: seq<Token>, k: nat, rest: seq<Byte>)
    requires AllOk(ts) && |ts| <= k <= 8 && (|ts| == k || rest == [])
    ensures Units(Flags(ts), k, Payload(ts) + rest) == ts + if |ts| == k then Parse(rest) else []
  {
    hide Units, Code, Parse;
    if ts == [] {
      assert Payload(ts) + rest == rest;
      UnitsOfNothing(k, rest);
    } else {
      FirstOfGroup(ts);
      hide Payload, Flags;
      var t, us := ts[0], ts[1..];
      var more := Payload(us) + rest;
      assert Payload(ts) + rest == Code(t) + more;
      UnitOfCode(t, Flags(ts), k, more);
      UnitsOfPayload(us, k - 1, rest);
    }
  }

  /** Reading undoes writing. */
  lemma {:induction false} ParseSerialize(ts: seq<Token>)
    requires AllOk(ts)
    ensures Parse(Serialize(ts)) == ts
  {
    if ts != [] {
      var g, more := if |ts| <= 8 then ts else ts[..8], if |ts| <= 8 then [] else ts[8..];
      var rest := Serialize(more);
      assert Serialize(ts) == Group(g) + rest;
      assert (Group(g) + rest)[1..] == Payload(g) + rest;
      UnitsOfPayload(g, 8, rest);
      if |ts| > 8 {
        ParseSerialize(more);
        assert ts == g + more;
      }
    }
  }

  // ----- Meaning -----

  /** How far back a ring position lies when the history has length n. */
  ghost function Distance(n: nat, pos: Pos): (d: nat)
    requires n >= N
    ensures 1 <= d <= N
  {
    (n - F - pos - 1) % N + 1
  }

  /** The history after copying len bytes from distance d; source and copy may overlap. */
  ghost function CopyBack(h: seq<Byte>, d: nat, len: nat): (h': seq<Byte>)
    requires 1 <= d <= |h|
    ensures |h'| == |h| + len && h <= h'
    decreases len
  {
    if len == 0 then h else CopyBack(h + [h[|h| - d]], d, len - 1)
  }

  /** What a token appends to the history. The history starts with the N bytes of the initial ring. */
  ghost function Step(h: seq<Byte>, t: Token): (h': seq<Byte>)
    requires |h| >= N && t.Ok()
    ensures |h'| == |h| + t.Size() && h <= h'
  {
    match t
    case Literal(b) => h + [b]
    case Copy(pos, len) => CopyBack(h, Distance(|h|, pos), len)
  }

  ghost function Run(h: seq<Byte>, ts: seq<Token>): (h': seq<Byte>)
    requires |h| >= N && AllOk(ts)
    ensures |h'| == |h| + TotalSize(ts) && h <= h'
    decreases ts
  {
    if ts == [] then h else Run(Step(h, ts[0]), ts[1..])
  }

  lemma RunNone(h: seq<Byte>)
    requires |h| >= N
    ensures Run(h, []) == h
  {}

  lemma RunFirst(h: seq<Byte>, ts: seq<Token>)
    requires |h| >= N && AllOk(ts) && ts != []
    ensures ts[0].Ok() && Run(h, ts) == Run(Step(h, ts[0]), ts[1..])
  {}
}
