/** Property lists as values: how they are printed, how they are parsed, and that parsing undoes printing. */
module PlistValues {
  import opened PlistTags
  import opened Wrappers

  datatype Value =
    | Dict(entries: seq<Entry>)
    | Arr(values: seq<Value>)
    | Str(text: string)
    | Int(n: int)
    | Bool(b: bool)

  datatype Entry = Entry(key: string, value: Value)

  // ----- Numbers -----

  function Digit(n: nat): char
    requires n < 10
  {
    '0' + n as char
  }

  function Digits(n: nat): (s: string)
    ensures s != "" && forall c | c in s :: '0' <= c <= '9'
  {
    if n < 10 then [Digit(n)] else Digits(n / 10) + [Digit(n % 10)]
  }

  function IntText(n: int): string {
    if n < 0 then "-" + Digits(-n) else Digits(n)
  }

  predicate IsBlank(c: char) {
    c == ' ' || '\t' <= c <= '\r'
  }

  predicate IsDigit(c: char) {
    '0' <= c <= '9'
  }

  /** The number that the leading digits make, behind a number already read. */
  function ReadDigits(s: string, n: nat): nat {
    if s == "" || !IsDigit(s[0]) then n else ReadDigits(s[1..], 10 * n + (s[0] - '0') as nat)
  }

  const INT_MIN := -0x8000_0000
  const INT_MAX := 0x7FFF_FFFF

  /** Reading a decimal number as sscanf does: blanks, a sign, digits. None where no number is stored, or one
      that does not fit. */
  function ReadInt(s: string): Option<int>
    decreases |s|
  {
    if s != "" && IsBlank(s[0]) then ReadInt(s[1..])
    else
      var negative := s != "" && s[0] == '-';
      var digits := if s != "" && (s[0] == '-' || s[0] == '+') then s[1..] else s;
      if digits == "" || !IsDigit(digits[0]) then None
      else
        var k: int := ReadDigits(digits, 0);
        var n := if negative then -k else k;
        if INT_MIN <= n <= INT_MAX then Some(n) else None
  }

  lemma {:induction false} ReadMore(s: string, c: char, n: nat)
    requires IsDigit(c) && forall d | d in s :: IsDigit(d)
    ensures ReadDigits(s + [c], n) == 10 * ReadDigits(s, n) + (c - '0') as nat
  {
    if s == "" {
      assert ([c])[1..] == "";
    } else {
      assert (s + [c])[1..] == s[1..] + [c] && s[0] in s && forall d | d in s[1..] :: d in s;
      ReadMore(s[1..], c, 10 * n + (s[0] - '0') as nat);
    }
  }

  lemma {:induction false} DigitsRead(n: nat)
    ensures ReadDigits(Digits(n), 0) == n
  {
    if n < 10 {
      assert Digits(n)[1..] == "";
    } else {
      DigitsRead(n / 10);
      ReadMore(Digits(n / 10), Digit(n % 10), 0);
    }
  }

  lemma IntRead(n: int)
    requires -0x8000_0000 <= n <= 0x7FFF_FFFF
    ensures ReadInt(IntText(n)) == Some(n) && NoBrackets(IntText(n))
  {
    var s, k := IntText(n), if n < 0 then -n else n;
    DigitsRead(k);
    assert Digits(k)[0] in Digits(k);
    if n < 0 {
      assert s[1..] == Digits(k);
    }
  }

  lemma {:induction false} ReadUpTo(s: string, rest: string, n: nat)
    requires (forall d | d in s :: IsDigit(d)) && (rest == "" || !IsDigit(rest[0]))
    ensures ReadDigits(s + rest, n) == ReadDigits(s, n)
  {
    if s == "" {
      assert s + rest == rest;
    } else {
      assert (s + rest)[1..] == s[1..] + rest && s[0] in s && forall d | d in s[1..] :: d in s;
      ReadUpTo(s[1..], rest, 10 * n + (s[0] - '0') as nat);
    }
  }

  ghost predicate IsSign(sign: string) {
    sign == "" || sign == "+" || sign == "-"
  }

  /** What a sign makes of a number, if it is one of 32 bits then. */
  function Signed(sign: string, k: int): Option<int> {
    var n := if sign == "-" then -k else k;
    if -0x8000_0000 <= n <= 0x7FFF_FFFF then Some(n) else None
  }

  lemma DigitsInText(k: nat, rest: string)
    requires rest == "" || !IsDigit(rest[0])
    ensures var digits := Digits(k) + rest; digits != "" && IsDigit(digits[0]) && ReadDigits(digits, 0) == k
  {
    DigitsRead(k);
    ReadUpTo(Digits(k), rest, 0);
    hide ReadDigits;
    assert Digits(k)[0] in Digits(k);
  }

  lemma SignedNumber(sign: string, digits: string)
    requires IsSign(sign) && digits != "" && IsDigit(digits[0])
    ensures ReadInt(sign + digits) == Signed(sign, ReadDigits(digits, 0))
  {
    hide ReadDigits;
    assert (sign + digits)[|sign|..] == digits;
    assert sign == "" ==> sign + digits == digits;
  }

  /** Blanks, a sign, digits, and anything else: the digits are read, with their sign, if the number is one of 32 bits. */
  lemma {:induction false} NumberInText(blanks: string, sign: string, k: nat, rest: string)
    requires (forall c | c in blanks :: IsBlank(c)) && IsSign(sign) && (rest == "" || !IsDigit(rest[0]))
    ensures ReadInt(blanks + (sign + (Digits(k) + rest))) == Signed(sign, k)
  {
    hide ReadDigits, Digits, Signed;
    var tail := sign + (Digits(k) + rest);
    if blanks != "" {
      var s := blanks + tail;
      assert s[0] == blanks[0] && blanks[0] in blanks && s[1..] == blanks[1..] + tail;
      assert forall c | c in blanks[1..] :: c in blanks;
      NumberInText(blanks[1..], sign, k, rest);
    } else {
      DigitsInText(k, rest);
      SignedNumber(sign, Digits(k) + rest);
      assert blanks + tail == tail;
    }
  }

  /** Where there is no digit there is no number. */
  lemma {:induction false} NoNumberInText(blanks: string, sign: string, rest: string)
    requires (forall c | c in blanks :: IsBlank(c)) && IsSign(sign)
    requires rest == "" || (!IsDigit(rest[0]) && !IsBlank(rest[0]) && rest[0] != '+' && rest[0] != '-')
    ensures ReadInt(blanks + sign + rest) == None
  {
    var s := blanks + sign + rest;
    if blanks != "" {
      assert s[0] == blanks[0] && blanks[0] in blanks && s[1..] == blanks[1..] + sign + rest;
      assert forall c | c in blanks[1..] :: c in blanks;
      NoNumberInText(blanks[1..], sign, rest);
    } else {
      assert s == sign + rest && s[|sign|..] == rest;
    }
  }

  // ----- Printing -----

  function Tabs(n: nat): string {
    if n == 0 then "" else Tabs(n - 1) + "\t"
  }

  /** A value without the tabs in front of it and the line break behind it. */
  function Core(v: Value, tabs: nat): string
    decreases v, 0
  {
    match v
    case Dict(es) => Element("dict", "\n" + PrintEntries(es, tabs) + Tabs(tabs))
    case Arr(vs) => Element("array", "\n" + PrintValues(vs, tabs) + Tabs(tabs))
    case Str(s) => Element("string", s)
    case Int(n) => Element("integer", IntText(n))
    case Bool(b) => Open((if b then "true" else "false") + "/")
  }

  function PrintValue(v: Value, tabs: nat): string
    decreases v, 1
  {
    Tabs(tabs) + Core(v, tabs) + "\n"
  }

  function PrintEntries(es: seq<Entry>, tabs: nat): string
    decreases es, 0
  {
    if es == [] then ""
    else Tabs(tabs) + "\t" + Element("key", es[0].key) + "\n" + PrintValue(es[0].value, tabs + 1) + PrintEntries(es[1..], tabs)
  }

  function PrintValues(vs: seq<Value>, tabs: nat): string
    decreases vs, 0
  {
    if vs == [] then "" else PrintValue(vs[0], tabs + 1) + PrintValues(vs[1..], tabs)
  }

  // ----- Parsing -----

  /** What a tag's name and text stand for; None for names other than these, whose values the source leaves
      unset, for data, and for a dictionary without entries, whose list it leaves unset. */
  ghost function ParseValue(name: string, text: string): Option<Value>
    decreases |text|, 1
  {
    if name == "dict" then
      match ParseEntries(text)
      case None => None
      case Some(es) => if es == [] then None else Some(Dict(es))
    else if name == "string" then Some(Str(text))
    else if name == "integer" then
      match ReadInt(text) case None => None case Some(n) => Some(Int(n))
    else if name == "array" then
      match ParseValues(text) case None => None case Some(vs) => Some(Arr(vs))
    else if name == "true/" then Some(Bool(true))
    else if name == "false/" then Some(Bool(false))
    else None
  }

  /** The entries of a dictionary: keys, each followed by a value; other tags in the place of a key are
      skipped. */
  ghost function ParseEntries(s: string): Option<seq<Entry>>
    decreases |s|, 0
  {
    match NextTag(s)
    case NoTag => Some([])
    case Broken => None
    case Tag(name, key, rest) =>
      if name != "key" then ParseEntries(rest)
      else
        match NextTag(rest)
        case NoTag => Some([])
        case Broken => None
        case Tag(kind, text, rest') =>
          match ParseValue(kind, text)
          case None => None
          case Some(v) =>
            match ParseEntries(rest')
            case None => None
            case Some(es) => Some([Entry(key, v)] + es)
  }

  ghost function ParseValues(s: string): Option<seq<Value>>
    decreases |s|, 0
  {
    match NextTag(s)
    case NoTag => Some([])
    case Broken => None
    case Tag(kind, text, rest) =>
      match ParseValue(kind, text)
      case None => None
      case Some(v) =>
        match ParseValues(rest)
        case None => None
        case Some(vs) => Some([v] + vs)
  }

  // ----- The round trip -----

  /** What can be printed so that it is parsed as it was: keys and strings that come out even at any depth at which they
      are scanned, up to k; numbers of 32 bits; no empty dictionaries. */
  ghost predicate Printable(v: Value, k: int)
    decreases v, 0
  {
    match v
    case Dict(es) => es != [] && PrintableEntries(es, k + 1)
    case Arr(vs) => PrintableValues(vs, k + 1)
    case Str(s) => Even(s, k)
    case Int(n) => -0x8000_0000 <= n <= 0x7FFF_FFFF
    case Bool(_) => true
  }

  ghost predicate PrintableEntries(es: seq<Entry>, k: int)
    decreases es, 0
  {
    es != [] ==> Even(es[0].key, k) && Printable(es[0].value, k) && PrintableEntries(es[1..], k)
  }

  ghost predicate PrintableValues(vs: seq<Value>, k: int)
    decreases vs, 0
  {
    vs != [] ==> Printable(vs[0], k) && PrintableValues(vs[1..], k)
  }

  lemma {:induction false} TabsPlain(n: nat)
    ensures NoBrackets(Tabs(n))
  {
    if n > 0 {
      TabsPlain(n - 1);
    }
  }

  /** A list of entries, taken apart. */
  lemma EntriesLayout(before: string, es: seq<Entry>, tabs: nat)
    requires es != []
    ensures var rest2 := "\n" + PrintEntries(es[1..], tabs) + Tabs(tabs);
      var rest1 := "\n" + Tabs(tabs + 1) + Core(es[0].value, tabs + 1) + rest2;
      before + PrintEntries(es, tabs) + Tabs(tabs) == (before + Tabs(tabs) + "\t") + Element("key", es[0].key) + rest1
  {
    hide Element, Core, Tabs;
  }

  lemma ValuesLayout(before: string, vs: seq<Value>, tabs: nat)
    requires vs != []
    ensures var rest := "\n" + PrintValues(vs[1..], tabs) + Tabs(tabs);
      before + PrintValues(vs, tabs) + Tabs(tabs) == (before + Tabs(tabs + 1)) + Core(vs[0], tabs + 1) + rest
  {
    hide Core, Tabs;
  }

  /** Printed values leave as many tags open as there were. */
  lemma {:induction false} CoreNet(v: Value, k: int, tabs: nat, prev: char, depth: int)
    requires Printable(v, k) && 1 <= depth < k
    ensures Core(v, tabs) != "" && Core(v, tabs)[|Core(v, tabs)| - 1] == '>' && Net(Core(v, tabs), prev, depth) == Some(depth)
    decreases v, 0
  {
    hide Net;
    match v
    case Dict(es) =>
      EntriesNet(es, k + 1, tabs, "\n", '>', depth + 1);
      ElementNet("dict", "\n" + PrintEntries(es, tabs) + Tabs(tabs), prev, depth);
    case Arr(vs) =>
      ValuesNet(vs, k + 1, tabs, "\n", '>', depth + 1);
      ElementNet("array", "\n" + PrintValues(vs, tabs) + Tabs(tabs), prev, depth);
    case Str(s) =>
      EvenElementNet("string", s, k, prev, depth);
    case Int(n) =>
      IntRead(n);
      PlainIsEven(IntText(n), k);
      EvenElementNet("integer", IntText(n), k, prev, depth);
    case Bool(b) =>
      EmptyElementNet(if b then "true" else "false", prev, depth);
  }

  lemma EvenElementNet(name: string, text: string, k: int, prev: char, depth: int)
    requires IsName(name) && Even(text, k) && 1 <= depth < k
    ensures Net(Element(name, text), prev, depth) == Some(depth)
  {
    hide Net;
    assert Net(text, '>', depth + 1) == Some(depth + 1);
    ElementNet(name, text, prev, depth);
  }

  lemma PlainEnd(s: string)
    requires NoBrackets(s)
    ensures s != "" ==> s[|s| - 1] != '<'
  {
    if s != "" {
      assert s[|s| - 1] in s;
    }
  }

  /** Blanks, then a value, then what follows. */
  lemma PieceNet(before: string, core: string, rest: string, prev: char, depth: int)
    requires NoBrackets(before) && before != "" && core != "" && core[|core| - 1] == '>'
    requires Net(core, before[|before| - 1], depth) == Some(depth) && Net(rest, '>', depth) == Some(depth)
    ensures Net(before + core + rest, prev, depth) == Some(depth)
  {
    hide Net;
    assert before + core + rest == before + (core + rest);
    PlainNet(before, prev, depth);
    PlainEnd(before);
    NetAppend(before, core + rest, prev, depth);
    NetAppend(core, rest, before[|before| - 1], depth);
  }

  lemma {:induction false} EntriesNet(es: seq<Entry>, k: int, tabs: nat, before: string, prev: char, depth: int)
    requires PrintableEntries(es, k) && 1 <= depth < k && NoBrackets(before) && before != ""
    ensures Ends(before + PrintEntries(es, tabs) + Tabs(tabs))
    ensures Net(before + PrintEntries(es, tabs) + Tabs(tabs), prev, depth) == Some(depth)
    decreases es, 0
  {
    hide Net, Element, Core, Tabs;
    TabsPlain(tabs);
    TabsPlain(tabs + 1);
    if es == [] {
      BlankNet(before, tabs, prev, depth);
    } else {
      var rest2 := "\n" + PrintEntries(es[1..], tabs) + Tabs(tabs);
      var between, core := "\n" + Tabs(tabs + 1), Core(es[0].value, tabs + 1);
      EntriesLayout(before, es, tabs);
      EntriesNet(es[1..], k, tabs, "\n", '>', depth);
      CoreNet(es[0].value, k, tabs + 1, between[|between| - 1], depth);
      PieceNet(between, core, rest2, '>', depth);
      KeyNet(before + Tabs(tabs) + "\t", es[0].key, k, between + core + rest2, prev, depth);
      LastOfRest(between + core, rest2);
      LastOfRest(before + Tabs(tabs) + "\t" + Element("key", es[0].key), between + core + rest2);
    }
  }

  lemma KeyNet(before: string, key: string, k: int, rest: string, prev: char, depth: int)
    requires NoBrackets(before) && before != "" && Even(key, k) && 1 <= depth < k && Net(rest, '>', depth) == Some(depth)
    ensures Net(before + Element("key", key) + rest, prev, depth) == Some(depth)
  {
    hide Net;
    EvenElementNet("key", key, k, before[|before| - 1], depth);
    PieceNet(before, Element("key", key), rest, prev, depth);
  }

  lemma BlankNet(before: string, tabs: nat, prev: char, depth: int)
    requires NoBrackets(before) && before != ""
    ensures before + "" + Tabs(tabs) == before + Tabs(tabs) && Ends(before + Tabs(tabs))
    ensures Net(before + Tabs(tabs), prev, depth) == Some(depth)
  {
    var s := before + Tabs(tabs);
    TabsPlain(tabs);
    PlainEnd(s);
    PlainNet(s, prev, depth);
  }

  lemma LastOfRest(a: string, b: string)
    requires Ends(b)
    ensures Ends(a + b)
  {}

  ghost predicate Ends(s: string) {
    s != "" && s[|s| - 1] != '<'
  }

  lemma {:induction false} ValuesNet(vs: seq<Value>, k: int, tabs: nat, before: string, prev: char, depth: int)
    requires PrintableValues(vs, k) && 1 <= depth < k && NoBrackets(before) && before != ""
    ensures Ends(before + PrintValues(vs, tabs) + Tabs(tabs))
    ensures Net(before + PrintValues(vs, tabs) + Tabs(tabs), prev, depth) == Some(depth)
    decreases vs, 0
  {
    hide Net, Core, Tabs;
    TabsPlain(tabs);
    TabsPlain(tabs + 1);
    if vs == [] {
      BlankNet(before, tabs, prev, depth);
    } else {
      var rest := "\n" + PrintValues(vs[1..], tabs) + Tabs(tabs);
      var start, core := before + Tabs(tabs + 1), Core(vs[0], tabs + 1);
      ValuesLayout(before, vs, tabs);
      ValuesNet(vs[1..], k, tabs, "\n", '>', depth);
      CoreNet(vs[0], k, tabs + 1, start[|start| - 1], depth);
      PieceNet(start, core, rest, prev, depth);
      LastOfRest(start + core, rest);
    }
  }

  function NameOf(v: Value): string {
    match v
    case Dict(_) => "dict"
    case Arr(_) => "array"
    case Str(_) => "string"
    case Int(_) => "integer"
    case Bool(b) => if b then "true/" else "false/"
  }

  function TextOf(v: Value, tabs: nat): string {
    match v
    case Dict(es) => "\n" + PrintEntries(es, tabs) + Tabs(tabs)
    case Arr(vs) => "\n" + PrintValues(vs, tabs) + Tabs(tabs)
    case Str(s) => s
    case Int(n) => IntText(n)
    case Bool(_) => ""
  }

  /** A printed value is the next tag with its own text, however deep it is nested. */
  lemma ValueIsNext(before: string, v: Value, k: int, tabs: nat, rest: string)
    requires NoBrackets(before) && Printable(v, k) && k >= 1
    ensures NextTag(before + Core(v, tabs) + rest) == Tag(NameOf(v), TextOf(v, tabs), rest)
  {
    hide Net, NextTag, Element, Open, Tabs, IntText;
    match v
    case Dict(es) =>
      EntriesNet(es, k + 1, tabs, "\n", '>', 1);
      ElementIsNext(before, "dict", TextOf(v, tabs), rest);
    case Arr(vs) =>
      ValuesNet(vs, k + 1, tabs, "\n", '>', 1);
      ElementIsNext(before, "array", TextOf(v, tabs), rest);
    case Str(s) =>
      assert Net(s, '>', 1) == Some(1);
      ElementIsNext(before, "string", s, rest);
    case Int(n) =>
      IntRead(n);
      PlainIsNext(before, "integer", IntText(n), rest);
    case Bool(b) =>
      EmptyElementIsNext(before, if b then "true" else "false", rest);
  }

  lemma PlainIsNext(before: string, name: string, text: string, rest: string)
    requires NoBrackets(before) && IsName(name) && NoBrackets(text)
    ensures NextTag(before + Element(name, text) + rest) == Tag(name, text, rest)
  {
    PlainNet(text, '>', 1);
    ElementIsNext(before, name, text, rest);
  }

  lemma {:induction false} ValueRead(v: Value, k: int, tabs: nat)
    requires Printable(v, k) && k >= 1
    ensures ParseValue(NameOf(v), TextOf(v, tabs)) == Some(v)
    decreases v, 0
  {
    match v
    case Dict(es) => EntriesRead("\n", es, k + 1, tabs);
    case Arr(vs) => ValuesRead("\n", vs, k + 1, tabs);
    case Str(_) =>
    case Int(n) => IntRead(n);
    case Bool(_) =>
  }

  lemma {:induction false} EntriesRead(before: string, es: seq<Entry>, k: int, tabs: nat)
    requires PrintableEntries(es, k) && k >= 1 && NoBrackets(before)
    ensures ParseEntries(before + PrintEntries(es, tabs) + Tabs(tabs)) == Some(es)
    decreases es, 0
  {
    hide NextTag, Element, Core, Tabs;
    var s := before + PrintEntries(es, tabs) + Tabs(tabs);
    TabsPlain(tabs);
    TabsPlain(tabs + 1);
    if es == [] {
      assert s == before + Tabs(tabs);
      NoNextTag(s);
    } else {
      var key, v := es[0].key, es[0].value;
      var rest2 := "\n" + PrintEntries(es[1..], tabs) + Tabs(tabs);
      var rest1 := "\n" + Tabs(tabs + 1) + Core(v, tabs + 1) + rest2;
      EntriesLayout(before, es, tabs);
      assert Net(key, '>', 1) == Some(1);
      ElementIsNext(before + Tabs(tabs) + "\t", "key", key, rest1);
      ValueIsNext("\n" + Tabs(tabs + 1), v, k, tabs + 1, rest2);
      ValueRead(v, k, tabs + 1);
      EntriesRead("\n", es[1..], k, tabs);
      assert [Entry(key, v)] + es[1..] == es;
    }
  }

  lemma NoNextTag(s: string)
    requires NoBrackets(s)
    ensures NextTag(s) == NoTag
  {}

  lemma {:induction false} ValuesRead(before: string, vs: seq<Value>, k: int, tabs: nat)
    requires PrintableValues(vs, k) && k >= 1 && NoBrackets(before)
    ensures ParseValues(before + PrintValues(vs, tabs) + Tabs(tabs)) == Some(vs)
    decreases vs, 0
  {
    hide NextTag, Core, Tabs;
    var s := before + PrintValues(vs, tabs) + Tabs(tabs);
    TabsPlain(tabs);
    TabsPlain(tabs + 1);
    if vs == [] {
      assert s == before + Tabs(tabs);
      NoNextTag(s);
    } else {
      ValuesLayout(before, vs, tabs);
      ValueIsNext(before + Tabs(tabs + 1), vs[0], k, tabs + 1, "\n" + PrintValues(vs[1..], tabs) + Tabs(tabs));
      ValueRead(vs[0], k, tabs + 1);
      ValuesRead("\n", vs[1..], k, tabs);
      assert [vs[0]] + vs[1..] == vs;
    }
  }

  // ----- Roots -----

  // The lines in front of the root, in parts that hold no bracket but the first.

  function XmlVersion(): (s: string)
    ensures '<' !in s && s != "" && s[0] == '?'
  {
    "?xml version=\"1.0\" "
  }

  function Encoding(): (s: string)
    ensures '<' !in s
  {
    "encoding=\"UTF-8\"?>\n"
  }

  function Doctype(): (s: string)
    ensures '<' !in s && s != "" && s[0] == '!'
  {
    "!DOCTYPE plist PUBLIC "
  }

  function PublicId(): (s: string)
    ensures '<' !in s
  {
    "\"-//Apple//DTD PLIST 1.0//EN\" "
  }

  function Host(): (s: string)
    ensures '<' !in s
  {
    "\"http://www.apple.com/"
  }

  function Dtd(): (s: string)
    ensures '<' !in s
  {
    "DTDs/PropertyList-1.0.dtd\">\n"
  }

  function PlistVersion(): (s: string)
    ensures '<' !in s && s != "" && s[0] == 'p'
  {
    "plist version=\"1.0\">\n"
  }

  function XmlLine(): string {
    "<" + XmlVersion() + Encoding()
  }

  function DoctypeLine(): string {
    "<" + Doctype() + PublicId() + Host() + Dtd()
  }

  function PlistLine(): string {
    "<" + PlistVersion()
  }

  const PLIST_END := "</plist>\n"

  function PrintRoot(es: seq<Entry>): string {
    XmlLine() + DoctypeLine() + PlistLine() + PrintValue(Dict(es), 0) + PLIST_END
  }

  /** None of the lines in front of the root begins a dictionary. */
  ghost predicate OtherLine(line: string) {
    |line| > 1 && line[1] != 'd' && '<' !in line[1..]
  }

  lemma OtherLines()
    ensures OtherLine(XmlLine()) && OtherLine(DoctypeLine()) && OtherLine(PlistLine())
  {
    hide XmlVersion, Encoding, Doctype, PublicId, Host, Dtd, PlistVersion;
    assert XmlLine()[1..] == XmlVersion() + Encoding();
    assert DoctypeLine()[1..] == Doctype() + PublicId() + Host() + Dtd();
    assert PlistLine()[1..] == PlistVersion();
  }

  /** Where the first dictionary begins. */
  function FindDict(s: string): (i: nat)
    ensures i <= |s|
  {
    if s == "" || "<dict>" <= s then 0 else 1 + FindDict(s[1..])
  }

  /** It begins at the first place at which there is its tag, and is missing if there is no such place. */
  lemma {:induction false} FirstDict(s: string)
    ensures var i := FindDict(s); (i < |s| ==> "<dict>" <= s[i..]) && forall j | 0 <= j < i :: !("<dict>" <= s[j..])
  {
    if s != "" && !("<dict>" <= s) {
      FirstDict(s[1..]);
      forall j | 0 <= j < FindDict(s) ensures !("<dict>" <= s[j..]) {
        assert j > 0 ==> s[1..][j - 1..] == s[j..];
      }
    }
  }

  // The lines around a root.

  lemma FirstLine()
    ensures XmlLine() == "<?xml version=\"1.0\" encoding=\"UTF-8\"?>\n"
  {}

  lemma SecondLine()
    ensures DoctypeLine() ==
      "<!DOCTYPE plist PUBLIC " + "\"-//Apple//DTD PLIST 1.0//EN\" " + "\"http://www.apple.com/" + "DTDs/PropertyList-1.0.dtd\">\n"
  {
    assert "<" + Doctype() == "<!DOCTYPE plist PUBLIC ";
  }

  lemma ThirdLine()
    ensures PlistLine() == "<plist version=\"1.0\">\n" && PLIST_END == "</plist>\n"
  {}

  /** The root dictionary, which may be empty. */
  ghost function ParseRoot(s: string): Option<seq<Entry>> {
    if FindDict(s) == |s| then None
    else
      match NextTag(s[FindDict(s)..])
      case NoTag => None
      case Broken => None
      case Tag(_, xml, _) => ParseEntries(xml)
  }

  lemma {:induction false} SkipPlain(line: string, rest: string)
    requires '<' !in line
    ensures FindDict(line + rest) == |line| + FindDict(rest)
  {
    if line == "" {
      assert line + rest == rest;
    } else {
      assert line[0] in line && (line + rest)[1..] == line[1..] + rest && (line + rest)[0] == line[0];
      SkipPlain(line[1..], rest);
    }
  }

  /** A line that begins with another tag holds no dictionary. */
  lemma SkipLine(line: string, rest: string)
    requires OtherLine(line)
    ensures FindDict(line + rest) == |line| + FindDict(rest)
  {
    assert (line + rest)[1..] == line[1..] + rest && (line + rest)[1] != 'd';
    SkipPlain(line[1..], rest);
  }

  /** The parser finds the root. */
  lemma DictFound(es: seq<Entry>)
    ensures ParseRoot(PrintRoot(es)) ==
      match NextTag(Core(Dict(es), 0) + ("\n" + PLIST_END))
      case NoTag => None
      case Broken => None
      case Tag(_, xml, _) => ParseEntries(xml)
  {
    hide NextTag, FindDict, Core, XmlLine, DoctypeLine, PlistLine, OtherLine, ParseEntries;
    var core, tail := Core(Dict(es), 0), "\n" + PLIST_END;
    var rest := core + tail;
    var rest1 := PlistLine() + rest;
    var rest2 := DoctypeLine() + rest1;
    var s := XmlLine() + rest2;
    RootLayout(es);
    OtherLines();
    SkipLine(PlistLine(), rest);
    SkipLine(DoctypeLine(), rest1);
    SkipLine(XmlLine(), rest2);
    DictFirst(es, tail);
    assert s == XmlLine() + DoctypeLine() + PlistLine() + rest;
    assert s[FindDict(s)..] == rest;
  }

  /** Parsing undoes printing. */
  lemma RootRoundTrip(es: seq<Entry>)
    requires PrintableEntries(es, 2)
    ensures ParseRoot(PrintRoot(es)) == Some(es)
  {
    hide NextTag, ParseRoot, PrintRoot, Core, Net, ParseEntries;
    var tail := "\n" + PLIST_END;
    DictFound(es);
    EntriesNet(es, 2, 0, "\n", '>', 1);
    DictIsNext(es, tail);
    EntriesRead("\n", es, 2, 0);
  }

  lemma RootLayout(es: seq<Entry>)
    ensures PrintRoot(es) == XmlLine() + (DoctypeLine() + (PlistLine() + (Core(Dict(es), 0) + ("\n" + PLIST_END))))
  {
    hide Core, XmlLine, DoctypeLine, PlistLine;
    assert Tabs(0) == "";
  }

  lemma DictFirst(es: seq<Entry>, rest: string)
    ensures Core(Dict(es), 0) + rest != "" && FindDict(Core(Dict(es), 0) + rest) == 0
  {
    var s := Core(Dict(es), 0) + rest;
    assert s == "<dict>" + ("\n" + PrintEntries(es, 0) + Tabs(0) + Close("dict") + rest);
  }

  lemma DictIsNext(es: seq<Entry>, rest: string)
    requires Net("\n" + PrintEntries(es, 0) + Tabs(0), '>', 1) == Some(1)
    ensures NextTag(Core(Dict(es), 0) + rest) == Tag("dict", "\n" + PrintEntries(es, 0) + Tabs(0), rest)
  {
    hide NextTag, Net;
    var text := "\n" + PrintEntries(es, 0) + Tabs(0);
    ElementIsNext("", "dict", text, rest);
    assert "" + Element("dict", text) + rest == Core(Dict(es), 0) + rest;
  }
}
