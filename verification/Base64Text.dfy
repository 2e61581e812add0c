/** Writing base-64 text into a growing buffer, line by line, and reading it back. */
module Base64Text {
  import opened Base64
  import opened Bits
  import opened Numbers

  const NUL := '\0'

  /** A buffer of twice the size with the same contents. */
  method Doubled<T(0)>(buffer: array<T>) returns (b: array<T>)
    ensures fresh(b) && b.Length == 2 * buffer.Length && b[..buffer.Length] == buffer[..]
  {
    b := new T[2 * buffer.Length];
    forall i | 0 <= i < buffer.Length {
      b[i] := buffer[i];
    }
  }

  class Writer {
    const tabLength: int
    const width: int
    var buffer: array<char>
    var pos: nat
    var lineLength: int

    ghost predicate Valid()
      reads this
    {
      0 < buffer.Length && pos <= buffer.Length
    }

    ghost function Text(): seq<char>
      requires Valid()
      reads this, buffer
    {
      buffer[..pos]
    }

    constructor (tabLength: int, width: int)
      ensures Valid() && fresh(buffer) && pos == 0 && lineLength == 0 && buffer.Length == 100
      ensures this.tabLength == tabLength && this.width == width
    {
      this.tabLength, this.width := tabLength, width;
      pos, lineLength := 0, 0;
      buffer := new char[100];
    }

    method CheckBufferSize()
      requires Valid()
      modifies this`buffer
      ensures Valid() && pos < buffer.Length && Text() == old(Text()) && (buffer == old(buffer) || fresh(buffer))
      ensures old(pos < buffer.Length) ==> buffer == old(buffer)
      ensures old(pos == buffer.Length) ==> buffer.Length == 2 * old(buffer.Length)
    {
      if pos == buffer.Length {
        buffer := Doubled(buffer);
      }
    }

    method Put(c: char)
      requires Valid() && pos < buffer.Length
      modifies this`pos, buffer
      ensures Valid() && Text() == old(Text()) + [c] && pos == old(pos) + 1
    {
      buffer[pos] := c;
      pos := pos + 1;
    }

    /** The text is the tabs of the first line and then s, a line end and tabs behind each full line. */
    ghost predicate Holds(s: seq<char>)
      reads this, buffer
    {
      Valid() && Text() == Indent(tabLength) + Laid(s, tabLength, width) && (width >= 0 ==> lineLength == |s| % (width + 1)) && lineLength >= 0
    }

    /** A line end and the tabs of the next line, if the line is full. */
    method CheckLineEnd()
      requires Valid()
      modifies this`buffer, this`pos, this`lineLength, buffer
      ensures Valid() && pos < buffer.Length && (buffer == old(buffer) || fresh(buffer))
      ensures Text() == old(Text()) + if width == old(lineLength) then ['\n'] + Indent(tabLength) else []
      ensures lineLength == if width == old(lineLength) then 0 else old(lineLength) + 1
    {
      CheckBufferSize();
      if width == lineLength {
        ghost var before := Text();
        Layout('\n');
        for j := 0 to if tabLength > 0 then tabLength else 0
          invariant Valid() && pos < buffer.Length && (buffer == old(buffer) || fresh(buffer))
          invariant Text() == before + ['\n'] + Indent(j)
        {
          Layout('\t');
        }
        assert before + ['\n'] + Indent(tabLength) == before + (['\n'] + Indent(tabLength));
        lineLength := 0;
      } else {
        lineLength := lineLength + 1;
      }
    }

    method Layout(c: char)
      requires Valid() && pos < buffer.Length
      modifies this`buffer, this`pos, buffer
      ensures Valid() && pos < buffer.Length && (buffer == old(buffer) || fresh(buffer))
      ensures Text() == old(Text()) + [c]
    {
      Put(c);
      CheckBufferSize();
    }

    /** One character more of what is laid out in lines. */
    method Letters(c: char, ghost s: seq<char>)
      requires Holds(s) && pos < buffer.Length
      modifies this`buffer, this`pos, this`lineLength, buffer
      ensures Holds(s + [c]) && pos < buffer.Length && (buffer == old(buffer) || fresh(buffer))
    {
      hide Laid, Indent;
      LaidOne(s, c, tabLength, width);
      if width >= 0 {
        NextInLine(|s|, width);
      }
      Put(c);
      CheckLineEnd();
    }
  }

  /** The tabs at the beginning of a line. */
  function Indent(tabLength: int): (s: seq<char>)
    ensures |s| == if tabLength > 0 then tabLength else 0
  {
    seq(if tabLength > 0 then tabLength else 0, _ => '\t')
  }

  /** Characters in lines: behind each whose number, counted from one, is a multiple of width + 1, a line end and the
      tabs of the next line. With a negative width there is one line only. */
  ghost function Laid(s: seq<char>, tabLength: int, width: int): seq<char> {
    if s == [] then []
    else
      Laid(s[..|s| - 1], tabLength, width) + [s[|s| - 1]]
      + if width >= 0 && |s| % (width + 1) == 0 then ['\n'] + Indent(tabLength) else []
  }

  lemma LaidOne(s: seq<char>, c: char, tabLength: int, width: int)
    ensures Laid(s + [c], tabLength, width) ==
      Laid(s, tabLength, width) + [c] + if width >= 0 && (|s| + 1) % (width + 1) == 0 then ['\n'] + Indent(tabLength) else []
  {
    assert (s + [c])[..|s|] == s;
  }

  lemma NextInLine(n: nat, width: int)
    requires width >= 0
    ensures (n + 1) % (width + 1) == if n % (width + 1) == width then 0 else n % (width + 1) + 1
  {
    var q, r, m := n / (width + 1), n % (width + 1), width + 1;
    assert n == q * m + r;
    if r == width {
      assert n + 1 == (q + 1) * m;
      RestOf(q + 1, m, 0);
    } else {
      RestOf(q, m, r + 1);
    }
  }

  /** Characters that do not fill a line. */
  lemma {:induction false} LaidInOne(s: seq<char>, tabLength: int, width: int)
    requires width < 0 || |s| <= width
    ensures Laid(s, tabLength, width) == s
  {
    if s != [] {
      hide Laid;
      var n := |s| - 1;
      LaidInOne(s[..n], tabLength, width);
      LaidOne(s[..n], s[n], tabLength, width);
      assert s == s[..n] + [s[n]];
      if width > n {
        RestOf(0, width + 1, n + 1);
      }
    } else {
      NothingLaid(tabLength, width);
    }
  }

  /** A full line holds width + 1 characters, and is followed by a line end, the tabs, and the other lines. */
  lemma {:induction false} LaidInLines(s: seq<char>, tabLength: int, width: int)
    requires 0 <= width < |s|
    ensures Laid(s, tabLength, width) ==
      s[..width + 1] + ['\n'] + Indent(tabLength) + Laid(s[width + 1..], tabLength, width)
  {
    hide Laid, Indent;
    var m, n := width + 1, |s| - 1;
    var t, c := s[..n], s[n];
    LaidOne(t, c, tabLength, width);
    assert s == t + [c];
    if n == width {
      LaidInOne(t, tabLength, width);
      NothingLaid(tabLength, width);
      RestOf(1, m, 0);
      assert s[m..] == [] && s[..m] == s;
    } else {
      LaidInLines(t, tabLength, width);
      LaidOne(t[m..], c, tabLength, width);
      OneLineLess(|s|, m);
      assert s[m..] == t[m..] + [c] && t[..m] == s[..m];
    }
  }

  lemma OneLineLess(n: nat, m: nat)
    requires 0 < m <= n
    ensures (n - m) % m == n % m
  {
    var q, r := n / m, n % m;
    assert n == q * m + r && n - m == (q - 1) * m + r;
    RestOf(q - 1, m, r);
  }

  /** The lay-out adds nothing significant, and no zero. */
  lemma {:induction false} LaidIsSignificant(s: seq<char>, tabLength: int, width: int)
    requires forall i | 0 <= i < |s| :: IsLetter(s[i]) || s[i] == '='
    ensures Significant(Laid(s, tabLength, width)) == s && NUL !in Laid(s, tabLength, width)
  {
    if s != [] {
      hide Significant, IsLetter, Laid, Indent;
      var n := |s| - 1;
      var front, c := Laid(s[..n], tabLength, width), s[n];
      LaidIsSignificant(s[..n], tabLength, width);
      LaidOne(s[..n], c, tabLength, width);
      LineSignificant(front, c, tabLength);
      assert s == s[..n] + [c];
      assert front + [c] + [] == front + [c];
    }
  }

  lemma LineSignificant(front: seq<char>, c: char, tabLength: int)
    requires (IsLetter(c) || c == '=') && NUL !in front
    ensures Significant(front + [c]) == Significant(front) + [c] && NUL !in front + [c]
    ensures var line := front + [c] + (['\n'] + Indent(tabLength)); Significant(line) == Significant(front) + [c] && NUL !in line
  {
    hide Significant, IsLetter, Indent;
    SignificantOne(front, c);
    IndentIsNot(tabLength);
    SignificantJoin(front + [c], ['\n'] + Indent(tabLength));
    SignificantJoin(['\n'], Indent(tabLength));
    NotSignificant('\n');
    NotZero(c);
  }

  lemma NotZero(c: char)
    requires IsLetter(c) || c == '='
    ensures c != NUL
  {}

  lemma NotSignificant(c: char)
    requires c == '\n'
    ensures Significant([c]) == []
  {
    SignificantOne([], c);
    assert [] + [c] == [c];
  }

  lemma {:induction false} IndentIsNot(tabLength: int)
    ensures Significant(Indent(tabLength)) == [] && NUL !in Indent(tabLength)
    decreases if tabLength > 0 then tabLength else 0
  {
    if tabLength > 0 {
      IndentIsNot(tabLength - 1);
      assert Indent(tabLength) == Indent(tabLength - 1) + ['\t'];
      SignificantOne(Indent(tabLength - 1), '\t');
    }
  }

  /** As many characters as the buffer has room for after some doublings. */
  ghost predicate FillsBuffer(n: int) {
    exists j: nat :: n == 100 * Shl(1, j)
  }

  /** The buffer has been doubled whenever it was full and no sooner. */
  ghost predicate GrownTo(size: int, n: int) {
    (exists j: nat :: size == 100 * Shl(1, j)) && 0 <= n <= size && (size > 100 ==> 2 * n > size)
  }

  lemma FirstSize()
    ensures GrownTo(100, 0)
  {
    assert 100 == 100 * Shl(1, 0);
  }

  lemma NextSize(size: int, n: int)
    requires GrownTo(size, n)
    ensures n < size ==> GrownTo(size, n + 1)
    ensures n == size ==> GrownTo(2 * size, n + 1)
  {
    var j: nat :| size == 100 * Shl(1, j);
    assert Shl(1, j + 1) == 2 * Shl(1, j);
    ShlMonotone(0, j);
  }

  lemma FullExactly(size: int, n: int)
    requires GrownTo(size, n)
    ensures n == size <==> FillsBuffer(n)
  {
    var j: nat :| size == 100 * Shl(1, j);
    if FillsBuffer(n) {
      var i: nat :| n == 100 * Shl(1, i);
      ShlMonotone(0, i);
      if i < j {
        ShlMonotone(i + 1, j);
        assert Shl(1, i + 1) == 2 * Shl(1, i);
      } else {
        ShlMonotone(j, i);
      }
    }
  }

  /** Tabs at the beginning. Afterwards the buffer is full exactly if their number is its size after some doublings. */
  method StartLine(w: Writer)
    requires w.Valid() && w.pos == 0 && w.buffer.Length == 100 && w.lineLength == 0
    modifies w`buffer, w`pos, w.buffer
    ensures w.Holds([]) && (w.buffer == old(w.buffer) || fresh(w.buffer))
    ensures w.pos == w.buffer.Length <==> FillsBuffer(w.tabLength)
  {
    hide GrownTo, FillsBuffer;
    FirstSize();
    for k := 0 to if w.tabLength > 0 then w.tabLength else 0
      invariant w.Valid() && (w.buffer == old(w.buffer) || fresh(w.buffer)) && w.pos == k && GrownTo(w.buffer.Length, k)
      invariant w.Text() == Indent(k)
    {
      NextSize(w.buffer.Length, k);
      w.CheckBufferSize();
      w.Put('\t');
    }
    FullExactly(w.buffer.Length, w.pos);
    NoTabs(w.tabLength);
    NothingLaid(w.tabLength, w.width);
    assert w.Text() == Indent(w.tabLength) + [];
  }

  lemma NothingLaid(tabLength: int, width: int)
    ensures Laid([], tabLength, width) == [] && (width >= 0 ==> 0 % (width + 1) == 0)
  {}

  lemma NoTabs(n: int)
    ensures n <= 0 ==> !FillsBuffer(n) && !FillsBuffer(0)
  {
    forall j: nat ensures 100 * Shl(1, j) > 0 {
      ShlMonotone(0, j);
    }
  }

  /** Three bytes make four letters. */
  method PutThree(w: Writer, a: Byte, b: Byte, c: Byte, ghost s: seq<char>)
    requires w.Holds(s) && w.pos < w.buffer.Length
    modifies w`buffer, w`pos, w`lineLength, w.buffer
    ensures w.Holds(s + Four(a, b, c)) && w.pos < w.buffer.Length && (w.buffer == old(w.buffer) || fresh(w.buffer))
  {
    hide Laid, And, Or, Shl, Shr, First, Second, Third, Fourth, Letter, Indent, Writer.Holds;
    ghost var four := Four(a, b, c);
    w.Letters(Letter(First(a)), s);
    w.Letters(Letter(Second(a, b)), s + [four[0]]);
    w.Letters(Letter(Third(b, c)), s + [four[0]] + [four[1]]);
    w.Letters(Letter(Fourth(c)), s + [four[0]] + [four[1]] + [four[2]]);
    assert s + [four[0]] + [four[1]] + [four[2]] + [four[3]] == s + four;
  }

  /** One or two bytes at the end. */
  method PutTail(w: Writer, tail: seq<Byte>, ghost s: seq<char>)
    requires w.Holds(s) && (tail != [] ==> w.pos < w.buffer.Length) && |tail| < 3
    modifies w`buffer, w`pos, w`lineLength, w.buffer
    ensures w.Valid() && (w.buffer == old(w.buffer) || fresh(w.buffer))
    ensures tail == [] ==> w.Holds(s)
    ensures tail != [] ==> w.Text() == Indent(w.tabLength) + Laid(s + Encoded(tail)[..3], w.tabLength, w.width) + ['=']
  {
    hide Laid, And, Or, Shl, Shr, First, Second, Letter, Encoded, Indent;
    if |tail| == 2 {
      TwoBytes(tail);
      ThirdParts(tail[1], 0);
      ghost var code := Encoded(tail);
      w.Letters(Letter(First(tail[0])), s);
      w.Letters(Letter(Second(tail[0], tail[1])), s + [code[0]]);
      w.Letters(Letter(And(Shl(tail[1], 2), 0x3C)), s + [code[0]] + [code[1]]);
      assert s + [code[0]] + [code[1]] + [code[2]] == s + code[..3];
      w.Put('=');
    } else if |tail| == 1 {
      OneByte(tail);
      SecondParts(tail[0], 0);
      ghost var code := Encoded(tail);
      w.Letters(Letter(First(tail[0])), s);
      w.Letters(Letter(And(Shl(tail[0], 4), 0x30)), s + [code[0]]);
      w.Letters('=', s + [code[0]] + [code[1]]);
      assert s + [code[0]] + [code[1]] + [code[2]] == s + code[..3];
      w.Put('=');
    }
  }

  /** How many characters of the encoding of n bytes a line check follows: all but an equals sign at the end. */
  ghost function Checked(code: seq<char>, n: nat): (k: nat)
    ensures k <= |code|
  {
    if n % 3 == 0 || code == [] then |code| else |code| - 1
  }

  ghost function InLines(data: seq<Byte>, tabLength: int, width: int): seq<char> {
    var code := Encoded(data);
    var k := Checked(code, |data|);
    Indent(tabLength) + Laid(code[..k], tabLength, width) + code[k..] + ['\n', NUL]
  }

  lemma Whole(data: seq<Byte>, tabLength: int, width: int, s: seq<char>, tail: seq<Byte>, before: seq<char>)
    requires Encoded(data) == s + Encoded(tail) && |tail| < 3 && |data| % 3 == |tail|
    requires before == Indent(tabLength) + (
        if tail == [] then Laid(s, tabLength, width) else Laid(s + Encoded(tail)[..3], tabLength, width) + ['=']) + ['\n']
    ensures before + [NUL] == InLines(data, tabLength, width)
    ensures Significant(before + [NUL]) == Encoded(data) && NUL !in before
  {
    hide Significant, Letter, Laid, Indent, Encoded, IsLetter;
    var code := Encoded(data);
    var k := Checked(code, |data|);
    TailCode(tail);
    assert code[..k] == s + if tail == [] then [] else Encoded(tail)[..3];
    assert code[k..] == if tail == [] then [] else ['='];
    var laid := Laid(code[..k], tabLength, width);
    assert before + [NUL] == Indent(tabLength) + laid + code[k..] + ['\n', NUL];
    CodeLetters(data);
    LinesSignificant(code, k, tabLength, width);
  }

  lemma LinesSignificant(code: seq<char>, k: nat, tabLength: int, width: int)
    requires k <= |code| && (k == |code| || code[k..] == ['='])
    requires forall i | 0 <= i < |code| :: IsLetter(code[i]) || code[i] == '='
    ensures var text := Indent(tabLength) + Laid(code[..k], tabLength, width) + code[k..] + ['\n', NUL];
      Significant(text) == code && NUL !in text[..|text| - 1]
  {
    hide Significant, Laid, Indent, IsLetter;
    var laid := Laid(code[..k], tabLength, width);
    LaidIsSignificant(code[..k], tabLength, width);
    IndentIsNot(tabLength);
    SignificantJoin(Indent(tabLength), laid);
    SignificantAtEnd(Indent(tabLength) + laid, code[k..]);
    assert code == code[..k] + code[k..];
  }

  lemma SignificantAtEnd(text: seq<char>, end: seq<char>)
    requires end == [] || end == ['=']
    ensures Significant(text + end + ['\n', NUL]) == Significant(text) + end
  {
    hide Significant;
    assert text + end + ['\n', NUL] == (text + end + ['\n']) + [NUL];
    SignificantOne(text + end + ['\n'], NUL);
    SignificantOne(text + end, '\n');
    if end == ['='] {
      SignificantOne(text, '=');
    } else {
      assert text + end == text;
    }
  }

  lemma TailCode(tail: seq<Byte>)
    requires |tail| < 3
    ensures if tail == [] then Encoded(tail) == [] else |Encoded(tail)| == 4 && Encoded(tail)[3..] == ['=']
  {
    hide Letter;
  }

  lemma {:induction false} CodeLetters(data: seq<Byte>)
    ensures forall i | 0 <= i < |Encoded(data)| :: IsLetter(Encoded(data)[i]) || Encoded(data)[i] == '='
  {
    if |data| >= 3 {
      CodeLetters(data[3..]);
    }
  }

  /** The bytes as text: tabs, the encoding laid out in lines, a line end, and the only zero character. No line check
      follows the equals sign at the end. Behind the first tabs the program does not look whether the buffer is full; so it
      is left exactly if there are bytes, and as many tabs as the buffer holds after some doublings. There the model stops. */
  method ConvertBase64(data: seq<Byte>, tabLength: int, width: int) returns (text: seq<char>, inRoom: bool)
    ensures inRoom <==> data == [] || !FillsBuffer(tabLength)
    ensures inRoom ==> text == InLines(data, tabLength, width)
    ensures inRoom ==> |text| > 0 && text[|text| - 1] == NUL && NUL !in text[..|text| - 1]
    ensures inRoom ==> Significant(text) == Encoded(data)
  {
    hide Significant, Encoded, Four, FillsBuffer, Laid, Indent, InLines;
    var w := new Writer(tabLength, width);
    StartLine(w);
    inRoom := |data| == 0 || w.pos < w.buffer.Length;
    if !inRoom {
      return [], false;
    }
    var i := 0;
    ghost var s := [];
    assert data[0..] == data && [] + Encoded(data) == Encoded(data);
    while |data| - i >= 3
      invariant i <= |data| && fresh(w) && fresh(w.buffer) && (data != [] ==> w.pos < w.buffer.Length)
      invariant w.Holds(s) && Encoded(data) == s + Encoded(data[i..])
      invariant i % 3 == 0
    {
      EncodedThree(data, i);
      PutThree(w, data[i], data[i + 1], data[i + 2], s);
      s := s + Four(data[i], data[i + 1], data[i + 2]);
      i := i + 3;
    }
    PutTail(w, data[i..], s);
    ghost var before := w.Text() + ['\n'];
    text := LastLine(w);
    Whole(data, tabLength, width, s, data[i..], before);
    assert text[..|text| - 1] == before;
  }

  /** A line end and the zero character. */
  method LastLine(w: Writer) returns (text: seq<char>)
    requires w.Valid()
    modifies w`buffer, w`pos, w.buffer
    ensures text == old(w.Text()) + ['\n'] + [NUL]
  {
    w.CheckBufferSize();
    w.Layout('\n');
    w.Put(NUL);
    text := w.buffer[..w.pos];
  }
  lemma TwoBytes(tail: seq<Byte>)
    requires |tail| == 2
    ensures Encoded(tail) == [Letter(tail[0] / 4), Letter(tail[0] % 4 * 16 + tail[1] / 16), Letter(tail[1] % 16 * 4), '=']
  {
    hide Letter;
  }

  lemma OneByte(tail: seq<Byte>)
    requires |tail| == 1
    ensures Encoded(tail) == [Letter(tail[0] / 4), Letter(tail[0] % 4 * 16), '=', '=']
  {
    hide Letter;
  }

  lemma EncodedThree(data: seq<Byte>, i: nat)
    requires |data| - i >= 3
    ensures Encoded(data[i..]) == Four(data[i], data[i + 1], data[i + 2]) + Encoded(data[i + 3..])
  {
    assert data[i..][3..] == data[i + 3..];
  }

  // ----- Reading back -----

  /** How many letters there are of a group, how many equals signs, and what they are worth, when the text encodes
      data of which the first i bytes have been decoded. */
  ghost predicate GroupSoFar(data: seq<Byte>, i: nat, values: seq<Sextet>, chars: nat, drop: nat, rest: seq<char>) {
    && i <= |data| && |values| == 4 && chars < 4
    && var code := Encoded(data[i..]);
    && chars + drop <= |code| && rest == code[chars + drop..] && (drop > 0 ==> chars > 0 && |data| - i < 3 && chars == |data| - i + 1)
    && forall k | 0 <= k < chars :: IsLetter(code[k]) && values[k] == Value(code[k])
  }

  /** The values of a whole group. */
  ghost predicate IsGroup(data: seq<Byte>, i: nat, values: seq<Sextet>)
    requires i + 3 <= |data|
  {
    values == [data[i] / 4, data[i] % 4 * 16 + data[i + 1] / 16, data[i + 1] % 16 * 4 + data[i + 2] / 64, data[i + 2] % 64]
  }

  /** The next significant character is a letter, unless only equals signs are left. */
  lemma NextLetter(data: seq<Byte>, i: nat, values: seq<Sextet>, chars: nat, drop: nat, rest: seq<char>, values': seq<Sextet>)
    requires GroupSoFar(data, i, values, chars, drop, rest) && rest != [] && IsLetter(rest[0])
    requires values' == values[chars := Value(rest[0])]
    ensures drop == 0
    ensures chars < 3 ==> GroupSoFar(data, i, values', chars + 1, 0, rest[1..])
    ensures chars == 3 ==> i + 3 <= |data| && rest[1..] == Encoded(data[i + 3..])
    ensures chars == 3 ==> IsGroup(data, i, values')
  {
    var code := Encoded(data[i..]);
    assert code[chars + drop] == rest[0] && rest[1..] == code[chars + drop + 1..];
    if |data| - i >= 3 {
      EncodedThree(data, i);
      assert code[4..] == Encoded(data[i + 3..]);
    }
  }

  /** Of a group that is whole all characters are letters; of the last, all but the equals signs. */
  lemma GroupLetters(data: seq<Byte>, i: nat, k: nat)
    requires i <= |data| && k < 4 && k < |Encoded(data[i..])|
    ensures IsLetter(Encoded(data[i..])[k]) <==> |data| - i >= 3 || k <= |data| - i
  {
    if |data| - i >= 3 {
      EncodedThree(data, i);
      assert Encoded(data[i..])[k] == Four(data[i], data[i + 1], data[i + 2])[k];
    }
  }

  lemma NextEquals(data: seq<Byte>, i: nat, values: seq<Sextet>, chars: nat, drop: nat, rest: seq<char>)
    requires GroupSoFar(data, i, values, chars, drop, rest) && rest != [] && rest[0] == '='
    ensures drop < 2 && GroupSoFar(data, i, values, chars, drop + 1, rest[1..])
  {
    var code := Encoded(data[i..]);
    assert code[chars + drop] == rest[0] && rest[1..] == code[chars + drop + 1..];
    if drop == 0 {
      GroupLetters(data, i, chars);
      if chars > 0 {
        GroupLetters(data, i, chars - 1);
      }
      EmptyGroup(data, i);
    }
    hide Encoded;
  }

  lemma EmptyGroup(data: seq<Byte>, i: nat)
    requires i <= |data|
    ensures i == |data| <==> Encoded(data[i..]) == []
  {}

  /** What is left of the group at the end of the text. */
  lemma AtEnd(data: seq<Byte>, i: nat, values: seq<Sextet>, chars: nat, drop: nat)
    requires GroupSoFar(data, i, values, chars, drop, [])
    ensures |data| - i < 3 && drop == (if |data| == i then 0 else 3 - (|data| - i))
    ensures |data| > i ==> IsLastGroup(data, i, values)
  {
    var code := Encoded(data[i..]);
    assert |code| == chars + drop;
    if |data| - i >= 3 {
      EncodedThree(data, i);
    } else if |data| - i == 2 {
      assert code[0] == Letter(data[i] / 4) && code[1] == Letter(data[i] % 4 * 16 + data[i + 1] / 16);
      assert code[2] == Letter(data[i + 1] % 16 * 4);
    } else if |data| - i == 1 {
      assert code[0] == Letter(data[i] / 4) && code[1] == Letter(data[i] % 4 * 16);
    }
  }

  lemma {:induction false} SignificantJoin(a: seq<char>, b: seq<char>)
    ensures Significant(a + b) == Significant(a) + Significant(b)
  {
    if b == [] {
      assert a + b == a;
    } else {
      hide Significant, IsLetter;
      var n := |b| - 1;
      SignificantJoin(a, b[..n]);
      assert a + b == (a + b[..n]) + [b[n]];
      SignificantOne(a + b[..n], b[n]);
      assert b == b[..n] + [b[n]];
      SignificantOne(b[..n], b[n]);
    }
  }

  lemma SignificantFirst(text: seq<char>, p: nat)
    requires p < |text|
    ensures Significant(text[p..]) == (if IsLetter(text[p]) || text[p] == '=' then [text[p]] else []) + Significant(text[p + 1..])
  {
    assert text[p..] == [text[p]] + text[p + 1..];
    SignificantJoin([text[p]], text[p + 1..]);
    SignificantOne([], text[p]);
    assert [] + [text[p]] == [text[p]];
  }

  lemma LastSignificant(text: seq<char>, p: nat)
    requires p + 1 == |text| && text[p] == NUL
    ensures Significant(text[p..]) == []
  {
    SignificantFirst(text, p);
    assert text[p + 1..] == [];
  }

  method Realloc(buffer: array<Byte>, loc: nat) returns (b: array<Byte>)
    requires loc <= buffer.Length && buffer.Length >= 4
    ensures loc + 3 < b.Length && b.Length >= 4 && b[..loc] == buffer[..loc] && (b == buffer || fresh(b))
  {
    b := buffer;
    if loc + 3 >= buffer.Length {
      b := Doubled(buffer);
      assert b[..loc] == b[..buffer.Length][..loc];
    }
  }

  /** The bytes of a group of four values. */
  function ByteOne(w: Sextet, x: Sextet): (a: Byte)
    ensures a == 4 * w + x / 16 == Or(And(Shl(w, 2), 0xFC), And(Shr(x, 4), 0x3F))
  {
    FirstBack(w, x);
    OrBelow(w, x / 16, 2);
    And(Shl(w, 2), 0xFC) + And(Shr(x, 4), 0x3F)
  }

  function ByteTwo(x: Sextet, y: Sextet): (b: Byte)
    ensures b == 16 * (x % 16) + y / 4 == Or(And(Shl(x, 4), 0xF0), And(Shr(y, 2), 0x0F))
  {
    SecondBack(x, y);
    OrBelow(x % 16, y / 4, 4);
    And(Shl(x, 4), 0xF0) + And(Shr(y, 2), 0x0F)
  }

  function ByteThree(y: Sextet, z: Sextet): (c: Byte)
    ensures c == 64 * (y % 4) + z == Or(And(Shl(y, 6), 0xC0), And(z, 0x3F))
  {
    ThirdBack(y, z);
    OrBelow(y % 4, z, 6);
    And(Shl(y, 6), 0xC0) + And(z, 0x3F)
  }

  lemma Start(data: seq<Byte>, values: seq<Sextet>, text: seq<char>)
    requires |values| == 4
    ensures text == Encoded(data) ==> GroupSoFar(data, 0, values, 0, 0, text)
  {
    assert data[0..] == data && text[0..] == text;
  }

  lemma NextGroup(data: seq<Byte>, i: nat, values: seq<Sextet>)
    requires i <= |data| && |values| == 4
    ensures GroupSoFar(data, i, values, 0, 0, Encoded(data[i..]))
  {
    assert Encoded(data[i..])[0..] == Encoded(data[i..]);
  }

  /** A whole group gives three bytes of the data. */
  lemma ThreeBack(data: seq<Byte>, i: nat, group: seq<Sextet>)
    requires i + 3 <= |data| && |group| == 4
    requires IsGroup(data, i, group)
    ensures data[..i] + [ByteOne(group[0], group[1]), ByteTwo(group[1], group[2]), ByteThree(group[2], group[3])] == data[..i + 3]
  {
    hide ByteOne, ByteTwo, ByteThree;
    BytesOf(data[i], data[i + 1], data[i + 2]);
    assert data[..i + 3] == data[..i] + [data[i], data[i + 1], data[i + 2]];
  }

  lemma BytesOf(a: Byte, b: Byte, c: Byte)
    ensures ByteOne(a / 4, a % 4 * 16 + b / 16) == a
    ensures ByteTwo(a % 4 * 16 + b / 16, b % 16 * 4 + c / 64) == b
    ensures ByteThree(b % 16 * 4 + c / 64, c % 64) == c
  {
    hide ByteOne, ByteTwo, ByteThree, And, Or, Shl, Shr;
  }

  // ----- Any text -----

  /** The values of the letters of a text. */
  ghost function Values(text: seq<char>): seq<Sextet> {
    if text == [] then []
    else
      var c := text[|text| - 1];
      Values(text[..|text| - 1]) + if IsLetter(c) then [Value(c)] else []
  }

  /** How many equals signs there are. */
  ghost function Signs(text: seq<char>): nat {
    if text == [] then 0 else Signs(text[..|text| - 1]) + if text[|text| - 1] == '=' then 1 else 0
  }

  function GroupBytes(w: Sextet, x: Sextet, y: Sextet, z: Sextet): seq<Byte> {
    [ByteOne(w, x), ByteTwo(x, y), ByteThree(y, z)]
  }

  /** Four values make three bytes. */
  ghost predicate GroupIs(bytes: seq<Byte>, values: seq<Sextet>, g: nat) {
    && 4 * g + 4 <= |values| && 3 * g + 3 <= |bytes|
    && bytes[3 * g..3 * g + 3] == GroupBytes(values[4 * g], values[4 * g + 1], values[4 * g + 2], values[4 * g + 3])
  }

  /** The bytes of all whole groups. */
  ghost predicate AreBytes(bytes: seq<Byte>, values: seq<Sextet>) {
    |bytes| == 3 * (|values| / 4) && forall g: nat | g < |values| / 4 :: GroupIs(bytes, values, g)
  }

  /** The values behind the last whole group. Once there has been one, those that are missing are zero. */
  ghost predicate AreLast(buffer: seq<Sextet>, values: seq<Sextet>) {
    var n := |values| % 4;
    && |buffer| == 4 && (forall k: nat | k < n :: buffer[k] == values[|values| - n + k])
    && (|values| >= 4 ==> forall k: nat | n <= k < 4 :: buffer[k] == 0)
  }

  lemma NextChar(text: seq<char>, p: nat)
    requires p < |text|
    ensures Values(text[..p + 1]) == if IsLetter(text[p]) then Values(text[..p]) + [Value(text[p])] else Values(text[..p])
    ensures Signs(text[..p + 1]) % 256 == if text[p] == '=' then (Signs(text[..p]) % 256 + 1) % 256 else Signs(text[..p]) % 256
    ensures IsLetter(text[p]) ==> text[p] != '='
  {
    assert text[..p + 1][..p] == text[..p];
  }

  /** A value that does not complete a group. */
  lemma ValueMore(bytes: seq<Byte>, buffer: seq<Sextet>, values: seq<Sextet>, v: Sextet)
    requires AreBytes(bytes, values) && AreLast(buffer, values) && |values| % 4 < 3
    ensures AreBytes(bytes, values + [v]) && AreLast(buffer[|values| % 4 := v], values + [v])
  {
    hide GroupBytes;
    assert |values + [v]| / 4 == |values| / 4 && |values + [v]| % 4 == |values| % 4 + 1;
    forall g: nat | g < |values| / 4 ensures GroupIs(bytes, values + [v], g) {
      assert GroupIs(bytes, values, g);
    }
  }

  lemma GroupStill(bytes: seq<Byte>, values: seq<Sextet>, bytes': seq<Byte>, values': seq<Sextet>, g: nat)
    requires GroupIs(bytes, values, g) && bytes <= bytes' && values <= values'
    ensures GroupIs(bytes', values', g)
  {
    hide GroupBytes;
    assert bytes'[3 * g..3 * g + 3] == bytes[3 * g..3 * g + 3];
  }

  lemma GroupNow(bytes: seq<Byte>, values: seq<Sextet>, buffer: seq<Sextet>, v: Sextet)
    requires |values| % 4 == 3 && AreLast(buffer, values) && |bytes| == 3 * (|values| / 4)
    ensures GroupIs(bytes + GroupBytes(buffer[0], buffer[1], buffer[2], v), values + [v], |values| / 4)
  {
    hide ByteOne, ByteTwo, ByteThree;
    var n := |values| / 4;
    assert |values| - 3 == 4 * n;
    assert buffer[0] == values[4 * n + 0] && buffer[1] == values[4 * n + 1] && buffer[2] == values[4 * n + 2];
  }

  /** A value that does. */
  lemma GroupMore(bytes: seq<Byte>, buffer: seq<Sextet>, values: seq<Sextet>, v: Sextet)
    requires AreBytes(bytes, values) && AreLast(buffer, values) && |values| % 4 == 3
    ensures var b := buffer[3 := v];
      AreBytes(bytes + GroupBytes(b[0], b[1], b[2], b[3]), values + [v]) && AreLast([0, 0, 0, 0], values + [v])
  {
    GroupNow(bytes, values, buffer, v);
    var n := |values| / 4;
    Quarters(|values|, n);
    hide GroupBytes, GroupIs;
    GroupsMore(bytes, values, bytes + GroupBytes(buffer[0], buffer[1], buffer[2], v), values + [v], n);
  }

  lemma Quarters(size: nat, n: nat)
    requires size % 4 == 3 && n == size / 4
    ensures size == 4 * n + 3 && (size + 1) / 4 == n + 1 && (size + 1) % 4 == 0
  {}

  lemma GroupsMore(bytes: seq<Byte>, values: seq<Sextet>, bytes': seq<Byte>, values': seq<Sextet>, n: nat)
    requires AreBytes(bytes, values) && n == |values| / 4 && bytes <= bytes' && values <= values' && |values'| / 4 == n + 1
    requires GroupIs(bytes', values', n) && |bytes'| == 3 * n + 3
    ensures AreBytes(bytes', values')
  {
    hide GroupIs;
    forall g: nat | g < n + 1 ensures GroupIs(bytes', values', g) {
      if g < n {
        GroupStill(bytes, values, bytes', values', g);
      }
    }
  }

  lemma NoValues(buffer: seq<Sextet>)
    requires |buffer| == 4
    ensures Values([]) == [] && Signs([]) == 0 && AreBytes([], []) && AreLast(buffer, [])
  {}

  /** What comes out for a text, whether or not it encodes anything: the bytes of its whole groups, and, if there are
      equals signs, those of the last group without as many as there are signs. */
  ghost predicate DecodesTo(text: seq<char>, decoded: seq<Byte>, dataLength: int, last: seq<Sextet>) {
    var values, signs := Values(text), Signs(text) % 256;
    var n := 3 * (|values| / 4);
    && n <= |decoded| && AreBytes(decoded[..n], values) && AreLast(last, values)
    && dataLength == n + (if signs == 0 then 0 else 3 - signs)
    && (signs > 0 ==> n + 3 < |decoded| && decoded[n] == ByteOne(last[0], last[1]))
    && (0 < signs <= 2 ==> decoded[n + 1] == ByteTwo(last[1], last[2]))
    && (signs == 1 ==> decoded[n + 2] == ByteThree(last[2], last[3]))
  }

  /** Writes the three bytes of a group of four values. */
  method PutGroup(decoded: array<Byte>, loc: nat, group: seq<Sextet>, ghost data: seq<Byte>, ghost good: bool)
    requires |group| == 4 && loc + 3 < decoded.Length
    requires good ==> loc + 3 <= |data| && decoded[..loc] == data[..loc] && IsGroup(data, loc, group)
    modifies decoded
    ensures decoded[..loc + 3] == old(decoded[..loc]) + GroupBytes(group[0], group[1], group[2], group[3])
    ensures good ==> decoded[..loc + 3] == data[..loc + 3]
  {
    hide ByteOne, ByteTwo, ByteThree, IsGroup;
    ghost var front := decoded[..loc];
    decoded[loc] := ByteOne(group[0], group[1]);
    decoded[loc + 1] := ByteTwo(group[1], group[2]);
    decoded[loc + 2] := ByteThree(group[2], group[3]);
    assert decoded[..loc + 3] == front + [decoded[loc], decoded[loc + 1], decoded[loc + 2]];
    if good {
      ThreeBack(data, loc, group);
    }
  }

  /** Those of a last group, which is not whole. */
  method PutLastGroup(decoded: array<Byte>, loc: nat, group: seq<Sextet>, drop: nat)
    requires |group| == 4 && loc + 3 < decoded.Length
    modifies decoded
    ensures decoded[..loc] == old(decoded[..loc]) && decoded[loc] == ByteOne(group[0], group[1])
    ensures drop <= 2 ==> decoded[loc + 1] == ByteTwo(group[1], group[2])
    ensures drop <= 1 ==> decoded[loc + 2] == ByteThree(group[2], group[3])
  {
    hide ByteOne, ByteTwo, ByteThree;
    decoded[loc] := ByteOne(group[0], group[1]);
    if drop <= 2 {
      decoded[loc + 1] := ByteTwo(group[1], group[2]);
    }
    if drop <= 1 {
      decoded[loc + 2] := ByteThree(group[2], group[3]);
    }
  }

  /** Reads text back, up to its zero character: if it encodes data, those are what comes out. */
  method DecodeBase64(text: seq<char>, ghost data: seq<Byte>) returns (decoded: array<Byte>, dataLength: int, ghost last: seq<Sextet>)
    requires |text| > 0 && text[|text| - 1] == NUL && NUL !in text[..|text| - 1]
    ensures fresh(decoded) && DecodesTo(text[..|text| - 1], decoded[..], dataLength, last)
    ensures Significant(text) == Encoded(data) ==> dataLength == |data| <= decoded.Length && decoded[..dataLength] == data
  {
    hide Significant, Encoded, ByteOne, ByteTwo, ByteThree, GroupSoFar, IsGroup, IsLastGroup, IsLetter, Value;
    hide Values, Signs, AreBytes, AreLast, GroupBytes, DecodesTo;
    ghost var good := Significant(text) == Encoded(data);
    var buffer := new Sextet[4];
    var charsInBuffer, bytesToDrop, decodeLoc := 0, 0, 0;
    decoded := new Byte[100];
    var p := 0;
    assert text[0..] == text;
    Start(data, buffer[..], Significant(text));
    NoValues(buffer[..]);
    assert text[..0] == [] && decoded[..0] == [];
    while text[p] != NUL
      invariant p < |text| && 0 <= charsInBuffer < 4 && 0 <= bytesToDrop && fresh(buffer)
      invariant decoded.Length >= 4 && 0 <= decodeLoc <= decoded.Length && fresh(decoded)
      invariant good ==> GroupSoFar(data, decodeLoc, buffer[..], charsInBuffer, bytesToDrop, Significant(text[p..]))
      invariant good ==> decodeLoc <= |data| && decoded[..decodeLoc] == data[..decodeLoc]
      invariant AreBytes(decoded[..decodeLoc], Values(text[..p])) && AreLast(buffer[..], Values(text[..p]))
      invariant charsInBuffer == |Values(text[..p])| % 4 && bytesToDrop == Signs(text[..p]) % 256
      decreases |text| - p
    {
      NextChar(text, p);
      ghost var before, bytes := Values(text[..p]), decoded[..decodeLoc];
      NotLast(text, p);
      SignificantFirst(text, p);
      ghost var rest, values := Significant(text[p..]), buffer[..];
      if IsLetter(text[p]) || text[p] == '=' {
        assert rest[1..] == Significant(text[p + 1..]);
      } else {
        assert rest == Significant(text[p + 1..]);
      }
      if IsLetter(text[p]) {
        buffer[charsInBuffer] := Value(text[p]);
        charsInBuffer := charsInBuffer + 1;
        if good {
          NextLetter(data, decodeLoc, values, charsInBuffer - 1, bytesToDrop, rest, buffer[..]);
        }
        assert buffer[..] == values[charsInBuffer - 1 := Value(text[p])];
        if charsInBuffer < 4 {
          ValueMore(bytes, values, before, Value(text[p]));
        } else {
          GroupMore(bytes, values, before, Value(text[p]));
        }
      } else if text[p] == '=' {
        if good {
          NextEquals(data, decodeLoc, values, charsInBuffer, bytesToDrop, rest);
        }
        bytesToDrop := (bytesToDrop + 1) % 256;
      }
      p := p + 1;
      if charsInBuffer == 4 {
        charsInBuffer := 0;
        decoded := Realloc(decoded, decodeLoc);
        PutGroup(decoded, decodeLoc, buffer[..], data, good);
        assert decoded[..decodeLoc + 3] == bytes + GroupBytes(buffer[0], buffer[1], buffer[2], buffer[3]);
        decodeLoc := decodeLoc + 3;
        buffer[0], buffer[1], buffer[2], buffer[3] := 0, 0, 0, 0;
        assert buffer[..] == [0, 0, 0, 0];
        if good {
          NextGroup(data, decodeLoc, buffer[..]);
        }
      }
    }
    LastPlace(text, p);
    if good {
      AtEnd(data, decodeLoc, buffer[..], charsInBuffer, bytesToDrop);
    }
    last := buffer[..];
    assert text[..|text| - 1] == text[..p];
    decoded, dataLength := PutLast(decoded, decodeLoc, buffer[..], bytesToDrop, data, good);
    Decoded(text[..p], decoded[..], decodeLoc, dataLength, last, bytesToDrop);
  }

  /** What is left in the end. */
  method PutLast(buffer: array<Byte>, loc: nat, last: seq<Sextet>, drop: nat, ghost data: seq<Byte>, ghost good: bool)
    returns (decoded: array<Byte>, dataLength: int)
    requires loc <= buffer.Length && buffer.Length >= 4 && |last| == 4
    requires good ==> loc <= |data| < loc + 3 && buffer[..loc] == data[..loc] && drop == if |data| == loc then 0 else 3 - (|data| - loc)
    requires good && |data| > loc ==> IsLastGroup(data, loc, last)
    modifies buffer
    ensures decoded == buffer || fresh(decoded)
    ensures loc <= decoded.Length && decoded[..loc] == old(buffer[..loc]) && dataLength == loc + if drop == 0 then 0 else 3 - drop
    ensures drop > 0 ==> loc + 3 < decoded.Length && decoded[loc] == ByteOne(last[0], last[1])
    ensures 0 < drop <= 2 ==> decoded[loc + 1] == ByteTwo(last[1], last[2])
    ensures drop == 1 ==> decoded[loc + 2] == ByteThree(last[2], last[3])
    ensures good ==> dataLength == |data| <= decoded.Length && decoded[..dataLength] == data
  {
    hide ByteOne, ByteTwo, ByteThree, IsLastGroup;
    decoded, dataLength := buffer, loc;
    if drop != 0 {
      decoded := Realloc(decoded, loc);
      PutLastGroup(decoded, loc, last, drop);
      dataLength := loc + 3 - drop;
      if good {
        LastBack(data, loc, last, decoded[..]);
      }
    } else if good {
      assert data[..loc] == data;
    }
  }

  lemma Decoded(text: seq<char>, decoded: seq<Byte>, loc: nat, dataLength: int, last: seq<Sextet>, drop: nat)
    requires loc <= |decoded| && AreBytes(decoded[..loc], Values(text)) && AreLast(last, Values(text)) && drop == Signs(text) % 256
    requires dataLength == loc + if drop == 0 then 0 else 3 - drop
    requires drop > 0 ==> loc + 3 < |decoded| && decoded[loc] == ByteOne(last[0], last[1])
    requires 0 < drop <= 2 ==> decoded[loc + 1] == ByteTwo(last[1], last[2])
    requires drop == 1 ==> decoded[loc + 2] == ByteThree(last[2], last[3])
    ensures DecodesTo(text, decoded, dataLength, last)
  {
    hide ByteOne, ByteTwo, ByteThree, GroupIs, Values, Signs;
  }

  lemma NotLast(text: seq<char>, p: nat)
    requires p < |text| && text[p] != NUL && text[|text| - 1] == NUL
    ensures p + 1 < |text|
  {}

  lemma LastPlace(text: seq<char>, p: nat)
    requires p < |text| && text[p] == NUL && NUL !in text[..|text| - 1]
    ensures p + 1 == |text| && Significant(text[p..]) == []
  {
    if p + 1 < |text| {
      NotInFront(text, p);
    }
    LastSignificant(text, p);
  }

  lemma NotInFront(text: seq<char>, p: nat)
    requires p + 1 < |text| && NUL !in text[..|text| - 1]
    ensures text[p] != NUL
  {
    assert text[..|text| - 1][p] == text[p];
  }

  /** The values of a group that is not whole. */
  ghost predicate IsLastGroup(data: seq<Byte>, i: nat, values: seq<Sextet>)
    requires i < |data| < i + 3
  {
    && |values| == 4 && values[0] == data[i] / 4
    && (|data| == i + 2 ==> values[1] == data[i] % 4 * 16 + data[i + 1] / 16 && values[2] == data[i + 1] % 16 * 4)
    && (|data| == i + 1 ==> values[1] == data[i] % 4 * 16)
  }

  lemma LastOne(data: seq<Byte>, i: nat, values: seq<Sextet>)
    requires |data| == i + 1 && IsLastGroup(data, i, values)
    ensures ByteOne(values[0], values[1]) == data[i]
  {
    hide ByteOne;
    BytesOf(data[i], 0, 0);
  }

  lemma LastTwo(data: seq<Byte>, i: nat, values: seq<Sextet>)
    requires |data| == i + 2 && IsLastGroup(data, i, values)
    ensures ByteOne(values[0], values[1]) == data[i] && ByteTwo(values[1], values[2]) == data[i + 1]
  {
    hide ByteOne, ByteTwo;
    BytesOf(data[i], data[i + 1], 0);
  }

  /** The last one or two bytes. */
  lemma LastBack(data: seq<Byte>, i: nat, group: seq<Sextet>, decoded: seq<Byte>)
    requires i < |data| < i + 3 && |group| == 4 && i + 3 < |decoded| && decoded[..i] == data[..i]
    requires decoded[i] == ByteOne(group[0], group[1]) && decoded[i + 1] == ByteTwo(group[1], group[2])
    requires IsLastGroup(data, i, group)
    ensures decoded[..|data|] == data
  {
    hide ByteOne, ByteTwo, IsLastGroup;
    if |data| == i + 2 {
      LastTwo(data, i, group);
    } else {
      LastOne(data, i, group);
    }
    Agree(data, i, decoded);
  }

  lemma Agree(data: seq<Byte>, i: nat, decoded: seq<Byte>)
    requires i <= |data| <= |decoded| && decoded[..i] == data[..i]
    requires forall k | i <= k < |data| :: decoded[k] == data[k]
    ensures decoded[..|data|] == data
  {
    forall k | 0 <= k < |data| ensures decoded[k] == data[k] {
      if k < i {
        assert decoded[..i][k] == data[..i][k];
      }
    }
  }

  /** The round trip: any bytes, with any width of the lines, come back, unless the buffer is left. */
  method RoundTrip(data: seq<Byte>, tabLength: int, width: int) returns (ok: bool, decoded: array<Byte>, dataLength: int)
    ensures ok <==> data == [] || !FillsBuffer(tabLength)
    ensures ok ==> dataLength == |data| <= decoded.Length && decoded[..dataLength] == data
  {
    hide Significant, Encoded, FillsBuffer;
    var text;
    text, ok := ConvertBase64(data, tabLength, width);
    if ok {
      ghost var last;
      decoded, dataLength, last := DecodeBase64(text, data);
    } else {
      decoded, dataLength := new Byte[0], 0;
    }
  }

  /** A hundred tabs fill the first buffer. */
  lemma HundredTabs()
    ensures FillsBuffer(100) && FillsBuffer(200) && forall n | n < 100 :: !FillsBuffer(n)
  {
    assert 100 == 100 * Shl(1, 0) && 200 == 100 * Shl(1, 1);
    forall j: nat ensures 100 * Shl(1, j) >= 100 {
      ShlMonotone(0, j);
    }
  }
}
