/** When a token is right for a position of the stream, and when it is the best one: the link between the
    window and the compressed format. */
module LzssText {
  import opened Bits
  import opened LzssBase
  import opened LzssFormat
  import opened Window

  /** Decoding t after the first R bytes of x gives the next bytes of x. */
  ghost predicate Encodes(x: seq<Byte>, R: int, t: Token) {
    && START <= R && R + t.Size() <= |x| && t.Ok()
    && match t
       case Literal(b) => b == x[R]
       case Copy(pos, len) =>
         var a := R - Distance(R + F, pos);
         0 <= a && x[a..a + len] == x[R..R + len]
  }

  /** How many bytes of x agree from a and from R on, up to the longest match there can be. */
  ghost function Common(x: seq<Byte>, a: int, R: int): nat
    requires 0 <= a < R <= |x|
  {
    var m := Top(x, R) - R;
    Lcp(x[R..R + m], x[a..a + m])
  }

  /** The first position of the window. */
  ghost function Base(R: int): int {
    if R + F < N then 0 else R + F - N
  }

  /** How many blanks a text begins with. */
  ghost function LeadingBlanks(s: seq<Byte>): (m: nat)
    ensures m <= |s| && (forall j | 0 <= j < m :: s[j] == SPACE) && (m < |s| ==> s[m] != SPACE)
  {
    if s == [] || s[0] != SPACE then 0 else 1 + LeadingBlanks(s[1..])
  }

  /** F blanks begin at position a. */
  ghost predicate BlankAt(x: seq<Byte>, a: int) {
    0 <= a && a + F <= |x| && x[a..a + F] == Blanks()
  }

  /** F blanks are to be encoded, and the only ones in the window begin with the blanks before the text, of which only
      the string furthest left was registered, and that one is gone. */
  ghost predicate Missed(x: seq<Byte>, R: int)
    requires START <= R <= |x|
  {
    var m := LeadingBlanks(x[START..]);
    && BlankAt(x, R)
    && 0 < m < F && START - F < R + F - N <= START - F + m
    && forall b | START <= b < R :: !BlankAt(x, b)
  }

  /** No position of the window agrees with position R on more bytes. */
  ghost predicate NoneLonger(x: seq<Byte>, R: int, len: int)
    requires 0 <= R <= |x|
  {
    forall a | Base(R) <= a < R :: Common(x, a, R) <= len
  }

  /** A match of this length is the longest of the window, unless that is missed; then it is short by one. */
  ghost predicate Reaches(x: seq<Byte>, R: int, len: int)
    requires START <= R <= |x|
  {
    if Missed(x, R) then len == F - 1 else NoneLonger(x, R, len)
  }

  /** How far a token reaches: matches that do not pay are sent as plain bytes. */
  ghost function Reach(t: Token): int {
    if t.Literal? then THRESHOLD else t.len
  }

  ghost predicate Longest(x: seq<Byte>, R: int, t: Token) {
    START <= R < |x| && if Missed(x, R) then t.Size() == F - 1 else NoneLonger(x, R, Reach(t))
  }

  /** A token of the encoder is the longest the window offers if and only if it is not a missed one. */
  lemma LongestUnlessMissed(x: seq<Byte>, R: int, t: Token)
    requires BlankStart(x) && t.Ok() && Longest(x, R, t)
    ensures NoneLonger(x, R, Reach(t)) <==> !Missed(x, R)
  {
    if Missed(x, R) {
      MissedIsLonger(x, R);
    }
  }

  /** At a missed position the window does offer F bytes. */
  lemma MissedIsLonger(x: seq<Byte>, R: int)
    requires BlankStart(x) && START <= R < |x| && Missed(x, R)
    ensures Base(R) <= R + F - N < R && Common(x, R + F - N, R) == F
  {
    var a, m := R + F - N, LeadingBlanks(x[START..]);
    forall j | a <= j < a + F ensures x[j] == SPACE {
      if j >= START {
        assert x[START..][j - START] == SPACE;
      }
    }
    assert x[a..a + F] == Blanks();
    LcpFull(x[R..R + F], x[a..a + F]);
  }

  /** The tokens encode x from R to R', each with the longest match. */
  ghost predicate Encoded(x: seq<Byte>, R: int, ts: seq<Token>, R': int)
    decreases |ts|
  {
    if ts == [] then R == R'
    else Encodes(x, R, ts[0]) && Longest(x, R, ts[0]) && Encoded(x, R + ts[0].Size(), ts[1..], R')
  }

  lemma {:induction false} EncodedAppend(x: seq<Byte>, R: int, ts: seq<Token>, R': int, t: Token)
    requires Encoded(x, R, ts, R') && Encodes(x, R', t) && Longest(x, R', t)
    ensures Encoded(x, R, ts + [t], R' + t.Size())
    decreases |ts|
  {
    hide Encodes, Longest;
    if ts == [] {
      assert ts + [t] == [t] && [t][1..] == [];
      assert Encoded(x, R + t.Size(), [], R' + t.Size());
    } else {
      assert (ts + [t])[1..] == ts[1..] + [t];
      EncodedAppend(x, R + ts[0].Size(), ts[1..], R', t);
    }
  }

  lemma {:induction false} EncodedIsOk(x: seq<Byte>, R: int, ts: seq<Token>, R': int)
    requires Encoded(x, R, ts, R')
    ensures AllOk(ts) && R' == R + TotalSize(ts)
    decreases |ts|
  {
    if ts != [] {
      EncodedIsOk(x, R + ts[0].Size(), ts[1..], R');
      assert ts == [ts[0]] + ts[1..];
    }
  }

  /** Every token is the longest the window offers at its place. */
  ghost predicate AllLongest(x: seq<Byte>, R: int, ts: seq<Token>)
    requires 0 <= R <= |x| - TotalSize(ts)
    decreases |ts|
  {
    ts != [] ==> NoneLonger(x, R, Reach(ts[0])) && AllLongest(x, R + ts[0].Size(), ts[1..])
  }

  /** No token begins at a missed position. */
  ghost predicate NoneMissed(x: seq<Byte>, R: int, ts: seq<Token>)
    requires START <= R <= |x| - TotalSize(ts)
    decreases |ts|
  {
    ts != [] ==> !Missed(x, R) && NoneMissed(x, R + ts[0].Size(), ts[1..])
  }

  /** The encoder's tokens are the longest throughout if and only if none begins at a missed position. */
  lemma {:induction false} LongestThroughout(x: seq<Byte>, R: int, ts: seq<Token>)
    requires BlankStart(x) && START <= R <= |x| - TotalSize(ts) && AllOk(ts) && Encoded(x, R, ts, R + TotalSize(ts))
    ensures AllLongest(x, R, ts) <==> NoneMissed(x, R, ts)
    decreases |ts|
  {
    hide Missed, NoneLonger;
    if ts != [] {
      LongestUnlessMissed(x, R, ts[0]);
      LongestThroughout(x, R + ts[0].Size(), ts[1..]);
    }
  }

  // ----- Decoding such tokens -----

  lemma {:induction false} CopyBackIsText(junk: seq<Byte>, x: seq<Byte>, R: int, a: int, len: nat)
    requires |junk| == F && 0 <= a < R && R + len <= |x| && x[a..a + len] == x[R..R + len]
    ensures CopyBack(junk + x[..R], R - a, len) == junk + x[..R + len]
    decreases len
  {
    if len > 0 {
      var h := junk + x[..R];
      assert h[|h| - (R - a)] == x[a] == x[a..a + len][0] == x[R..R + len][0] == x[R];
      assert h + [x[R]] == junk + x[..R + 1];
      assert x[a + 1..a + len] == x[a..a + len][1..] == x[R..R + len][1..] == x[R + 1..R + len];
      CopyBackIsText(junk, x, R + 1, a + 1, len - 1);
    }
  }

  lemma StepIsText(junk: seq<Byte>, x: seq<Byte>, R: int, t: Token)
    requires |junk| == F && Encodes(x, R, t)
    ensures Step(junk + x[..R], t) == junk + x[..R + t.Size()]
  {
    hide CopyBack, Distance;
    var h := junk + x[..R];
    assert |h| == R + F;
    match t
    case Literal(b) =>
      assert h + [b] == junk + x[..R + 1];
    case Copy(pos, len) =>
      var a := R - Distance(R + F, pos);
      CopyBackIsText(junk, x, R, a, len);
  }

  /** The decoder rebuilds the stream from the tokens alone, whatever the ring held before. */
  lemma {:induction false} RunIsText(junk: seq<Byte>, x: seq<Byte>, R: int, ts: seq<Token>, R': int)
    requires |junk| == F && START <= R <= R' <= |x| && Encoded(x, R, ts, R') && AllOk(ts)
    ensures Run(junk + x[..R], ts) == junk + x[..R']
    decreases |ts|
  {
    hide Step, Encodes, Longest, Run;
    if ts == [] {
      RunNone(junk + x[..R]);
    } else {
      var t, us := ts[0], ts[1..];
      RunFirst(junk + x[..R], ts);
      EncodedIsOk(x, R + t.Size(), us, R');
      StepIsText(junk, x, R, t);
      RunIsText(junk, x, R + t.Size(), us, R');
    }
  }

  // ----- Choosing tokens -----

  /** The encoder's choice for position R, given the match its search reported. */
  function Choose(b: Byte, pos: int, len: int): Token {
    if len <= THRESHOLD || !(0 <= pos < N) then Literal(b) else Copy(pos, len)
  }

  lemma KeyPrefix(text: seq<Byte>, x: seq<Byte>, R: int, a: int)
    requires IsText(text) && START <= R < |x| && TextHolds(text, x, R, Top(x, R))
    requires 0 <= a && R + F - N <= a <= R
    ensures var m := Top(x, R) - R;
      0 < m <= F && a + m <= |x| && KeyAt(text, Slot(a))[..m] == x[a..a + m]
  {
    var m := Top(x, R) - R;
    forall i | 0 <= i < m ensures KeyAt(text, Slot(a))[i] == x[a..a + m][i] {
      KeyHolds(text, x, R, Top(x, R), a, i);
    }
  }

  lemma LcpOfPrefix(a: seq<Byte>, b: seq<Byte>, m: nat)
    requires |a| == |b| && m <= |a|
    ensures Lcp(a[..m], b[..m]) == if Lcp(a, b) < m then Lcp(a, b) else m
  {
    LcpIsPrefix(a, b);
    LcpUnique(a[..m], b[..m], if Lcp(a, b) < m then Lcp(a, b) else m);
  }

  lemma CommonIsLcp(text: seq<Byte>, x: seq<Byte>, R: int, a: int)
    requires IsText(text) && START <= R < |x| && TextHolds(text, x, R, Top(x, R))
    requires Oldest(R) <= a < R
    ensures var m, n := Top(x, R) - R, Lcp(KeyAt(text, Slot(R)), KeyAt(text, Slot(a)));
      Common(x, a, R) == if n < m then n else m
  {
    KeyPrefix(text, x, R, R);
    KeyPrefix(text, x, R, a);
    LcpOfPrefix(KeyAt(text, Slot(R)), KeyAt(text, Slot(a)), Top(x, R) - R);
  }

  lemma AgreeingPrefix(a: seq<Byte>, b: seq<Byte>, n: nat)
    requires n <= Lcp(a, b)
    ensures a[..n] == b[..n]
  {
    LcpIsPrefix(a, b);
  }

  lemma PrefixOfSlice(x: seq<Byte>, i: nat, m: nat, n: nat)
    requires n <= m && i + m <= |x|
    ensures x[i..i + m][..n] == x[i..i + n]
  {}

  lemma DistanceOfSlot(R: int, a: int)
    requires START <= R && Oldest(R) <= a < R
    ensures R - Distance(R + F, Slot(a)) == a
  {}

  /** Bytes that agree can be copied. */
  lemma CommonMakesCopy(x: seq<Byte>, R: int, a: int, len: nat)
    requires START <= R < |x| && Oldest(R) <= a < R && THRESHOLD < len <= Common(x, a, R)
    ensures Encodes(x, R, Copy(Slot(a), len))
  {
    var m := Top(x, R) - R;
    DistanceOfSlot(R, a);
    hide Distance, Slot, Lcp;
    AgreeingPrefix(x[R..R + m], x[a..a + m], len);
    PrefixOfSlice(x, R, m, len);
    PrefixOfSlice(x, a, m, len);
  }

  // ----- Blanks -----

  lemma LcpWithBlanks(key: seq<Byte>, other: seq<Byte>)
    requires |key| == |other| == F && forall j | 0 <= j < F - 1 :: other[j] == SPACE
    ensures var q := Lcp(key, Blanks()); Lcp(key, other) >= if q < F then q else F - 1
  {
    LcpIsPrefix(key, Blanks());
    LcpIsPrefix(key, other);
  }

  /** The string behind the shadowed ones has one blank less than they, and is not shadowed itself. */
  lemma NearBlank(text: seq<Byte>, x: seq<Byte>, R: int, m: nat)
    requires IsText(text) && BlankStart(x) && START <= R < |x| && TextHolds(text, x, R, Top(x, R))
    requires m == LeadingBlanks(x[START..]) < F && START - F < R + F - N <= START - F + m
    ensures var p := START - F + m + 1;
      var q := Lcp(KeyAt(text, Slot(R)), Blanks());
      && Oldest(R) <= p < R && !Shadowed(text, p)
      && Lcp(KeyAt(text, Slot(R)), KeyAt(text, Slot(p))) >= if q < F then q else F - 1
  {
    var p, top := START - F + m + 1, Top(x, R);
    var key := KeyAt(text, Slot(p));
    forall j | 0 <= j < F - 1 ensures key[j] == SPACE {
      KeyHolds(text, x, R, top, p, j);
      if p + j >= START {
        assert x[START..][p + j - START] == SPACE;
      }
    }
    LcpWithBlanks(KeyAt(text, Slot(R)), key);
    KeyHolds(text, x, R, top, p, F - 1);
    assert key[F - 1] == x[START..][m] != SPACE;
  }

  /** Once the text is long enough, a shadowed string tells how many blanks it begins with. */
  lemma ShadowedIsLeading(text: seq<Byte>, x: seq<Byte>, R: int, a: int)
    requires IsText(text) && BlankStart(x) && START + F <= R < |x| && TextHolds(text, x, R, Top(x, R))
    requires Shadowed(text, a) && R + F - N <= a
    ensures START - F < a <= START - F + LeadingBlanks(x[START..])
  {
    forall j: nat | j < a + F - START ensures x[START..][j] == SPACE {
      KeyHolds(text, x, R, Top(x, R), a, START + j - a);
      assert KeyAt(text, Slot(a))[START + j - a] == Blanks()[START + j - a];
    }
    BlanksLead(x[START..], a + F - START);
  }

  lemma BlanksLead(s: seq<Byte>, n: nat)
    requires n <= |s| && forall j: nat | j < n :: s[j] == SPACE
    ensures LeadingBlanks(s) >= n
  {}

  /** A blank string of the text is blank in the ring. */
  lemma BlankKey(text: seq<Byte>, x: seq<Byte>, R: int, b: int)
    requires IsText(text) && START <= R < |x| && TextHolds(text, x, R, Top(x, R)) && 0 <= b && R + F - N <= b <= R
    requires b + F <= |x|
    ensures BlankAt(x, b) <==> KeyAt(text, Slot(b)) == Blanks()
  {
    var key := KeyAt(text, Slot(b));
    forall j | 0 <= j < F ensures key[j] == x[b..b + F][j] {
      KeyHolds(text, x, R, Top(x, R), b, j);
    }
    assert key == x[b..b + F];
  }

  lemma ManyLeadingBlanks(x: seq<Byte>)
    requires START + F <= |x| && LeadingBlanks(x[START..]) >= F
    ensures BlankAt(x, START)
  {
    forall j | START <= j < START + F ensures x[j] == SPACE {
      assert x[START..][j - START] == SPACE;
    }
  }

  /** At a missed position the match is short by one. */
  lemma MissedMatch(text: seq<Byte>, x: seq<Byte>, R: int, pos: int, len: nat)
    requires IsText(text) && BlankStart(x) && START <= R < |x| && TextHolds(text, x, R, Top(x, R))
    requires Found(text, R, pos, len) && Missed(x, R)
    ensures len == F - 1
  {
    var key := KeyAt(text, Slot(R));
    BlankKey(text, x, R, R);
    LcpFull(key, Blanks());
    NearBlank(text, x, R, LeadingBlanks(x[START..]));
    if len == F {
      var a :| Oldest(R) <= a < R && !Shadowed(text, a) && Lcp(key, KeyAt(text, Slot(a))) == F;
      LcpFull(key, KeyAt(text, Slot(a)));
      BlankKey(text, x, R, a);
    }
  }

  /** A shadowed string is made up for by another one, unless the match is missed. */
  lemma ShadowedMatch(text: seq<Byte>, x: seq<Byte>, R: int, pos: int, len: nat, a: int)
    requires IsText(text) && BlankStart(x) && START <= R < |x| && TextHolds(text, x, R, Top(x, R))
    requires Found(text, R, pos, len) && !Missed(x, R)
    requires Shadowed(text, a) && Oldest(R) <= a < R
    ensures Common(x, a, R) <= if len > Top(x, R) - R then Top(x, R) - R else len
  {
    var key, m := KeyAt(text, Slot(R)), LeadingBlanks(x[START..]);
    CommonIsLcp(text, x, R, a);
    if R + F - N <= START - F {
      BlankKey(text, x, R, START - F);
      assert x[START - F..START] == Blanks();
      assert !Shadowed(text, START - F);
    } else if b :| START <= b < R && KeyAt(text, Slot(b)) == Blanks() {
      assert !Shadowed(text, b);
    } else {
      ShadowedIsLeading(text, x, R, a);
      BlankKey(text, x, R, START);
      if m >= F {
        ManyLeadingBlanks(x);
      } else {
        NearBlank(text, x, R, m);
        if Lcp(key, Blanks()) == F && R + F <= |x| {
          LcpFull(key, Blanks());
          BlankKey(text, x, R, R);
          forall b | START <= b < R ensures !BlankAt(x, b) {
            BlankKey(text, x, R, b);
          }
        }
      }
    }
  }

  /** Further left there are only blanks, as at START - F. */
  lemma FarBlank(x: seq<Byte>, R: int, a: int)
    requires BlankStart(x) && START <= R < |x| && 0 <= a < START - F
    ensures Common(x, a, R) == Common(x, START - F, R)
  {
    var m := Top(x, R) - R;
    assert x[a..a + m] == x[START - F..START - F + m];
  }

  /** The reported match, cut to what is left of the text, is the longest of the whole window unless that is missed. */
  lemma FoundReaches(text: seq<Byte>, x: seq<Byte>, R: int, pos: int, len: nat)
    requires IsText(text) && BlankStart(x) && START <= R < |x| && TextHolds(text, x, R, Top(x, R))
    requires Found(text, R, pos, len)
    ensures Reaches(x, R, if len > Top(x, R) - R then Top(x, R) - R else len)
  {
    var len' := if len > Top(x, R) - R then Top(x, R) - R else len;
    if Missed(x, R) {
      MissedMatch(text, x, R, pos, len);
    } else {
      forall a | Base(R) <= a < R ensures Common(x, a, R) <= len' {
        var b := if a < START - F then START - F else a;
        if a < START - F {
          FarBlank(x, R, a);
        }
        if Shadowed(text, b) {
          ShadowedMatch(text, x, R, pos, len, b);
        } else {
          CommonIsLcp(text, x, R, b);
        }
      }
    }
  }

  /** The match reported for a position, cut to what is left of the text, is the longest of the whole window if and only
      if the position is not a missed one. */
  lemma FoundIsLongest(text: seq<Byte>, x: seq<Byte>, R: int, pos: int, len: nat)
    requires IsText(text) && BlankStart(x) && START <= R < |x| && TextHolds(text, x, R, Top(x, R))
    requires Found(text, R, pos, len)
    ensures NoneLonger(x, R, if len > Top(x, R) - R then Top(x, R) - R else len) <==> !Missed(x, R)
    ensures Missed(x, R) ==> len == F - 1
  {
    FoundReaches(text, x, R, pos, len);
    if Missed(x, R) {
      MissedIsLonger(x, R);
    }
  }

  /** A reported match, cut to what is left of the text, makes a right token, and the longest unless that is missed. */
  lemma FoundMakesToken(text: seq<Byte>, x: seq<Byte>, R: int, pos: int, len: nat)
    requires IsText(text) && BlankStart(x) && START <= R < |x| && TextHolds(text, x, R, Top(x, R))
    requires Found(text, R, pos, len)
    ensures var m := Top(x, R) - R;
      var t := Choose(x[R], pos, if len > m then m else len);
      Encodes(x, R, t) && Longest(x, R, t) && t.Size() <= m
    ensures text[Slot(R)] == x[R]
    ensures len > 0 ==> 0 <= pos < N
  {
    hide Missed, NoneLonger, Shadowed;
    var m := Top(x, R) - R;
    var len' := if len > m then m else len;
    FoundReaches(text, x, R, pos, len);
    MissedInside(x, R);
    if len' <= THRESHOLD && !Missed(x, R) {
      NoneLongerMore(x, R, len', THRESHOLD);
    }
    if len' > THRESHOLD {
      var a :| Oldest(R) <= a < R && !Shadowed(text, a) && Slot(a) == pos && Lcp(KeyAt(text, Slot(R)), KeyAt(text, Slot(a))) == len;
      CommonIsLcp(text, x, R, a);
      CommonMakesCopy(x, R, a, len');
    }
  }

  lemma NoneLongerMore(x: seq<Byte>, R: int, i: int, j: int)
    requires 0 <= R <= |x| && NoneLonger(x, R, i) && i <= j
    ensures NoneLonger(x, R, j)
  {}

  lemma MissedInside(x: seq<Byte>, R: int)
    requires START <= R < |x|
    ensures Missed(x, R) ==> R + F <= |x|
  {}

  // ----- An input -----

  /** One blank, 4060 times the letter a, and blanks again. */
  ghost function OneBlankText(): (src: seq<Byte>)
    ensures |src| == 4061 + F
  {
    [SPACE] + seq(4060, _ => 97) + Blanks()
  }

  /** At the blanks behind the letters the window offers F blanks, from position 4061 on, and they are missed. */
  lemma BlanksAreMissed()
    ensures var x := seq(START, _ => SPACE) + OneBlankText();
      var R := START + 4061;
      && |x| == R + F && R + F - N == 4061
      && Missed(x, R) && Common(x, 4061, R) == F && !NoneLonger(x, R, F - 1)
  {
    var src := OneBlankText();
    var x := seq(START, _ => SPACE) + src;
    var R := START + 4061;
    assert x[START..] == src && src[1] == 97;
    assert LeadingBlanks(src) == 1 by {
      assert src[1..][0] == 97;
    }
    assert x[R..R + F] == Blanks();
    forall b | START <= b < R ensures !BlankAt(x, b) {
      var j := if b == START then 1 else 0;
      assert x[b..b + F][j] == x[b + j] == src[b + j - START] == 97;
    }
    MissedIsLonger(x, R);
  }
}
