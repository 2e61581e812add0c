/** Which property lists come back when they are printed and parsed: those that are printable, and no others. */
module PlistConverse {
  import opened PlistTags
  import opened PlistValues
  import opened Wrappers

  // ----- What is parsed is sound -----

  /** What any parsed value is like: its texts come out even by themselves, its numbers are of 32 bits, and no
      dictionary in it is empty. */
  ghost predicate Sound(v: Value)
    decreases v, 0
  {
    match v
    case Dict(es) => es != [] && SoundEntries(es)
    case Arr(vs) => SoundValues(vs)
    case Str(s) => Even(s, 1)
    case Int(n) => -0x8000_0000 <= n <= 0x7FFF_FFFF
    case Bool(_) => true
  }

  ghost predicate SoundEntries(es: seq<Entry>)
    decreases es, 0
  {
    es != [] ==> Even(es[0].key, 1) && Sound(es[0].value) && SoundEntries(es[1..])
  }

  ghost predicate SoundValues(vs: seq<Value>)
    decreases vs, 0
  {
    vs != [] ==> Sound(vs[0]) && SoundValues(vs[1..])
  }

  lemma {:induction false} ReadIntInRange(s: string)
    ensures ReadInt(s).Some? ==> INT_MIN <= ReadInt(s).value <= INT_MAX
    decreases |s|
  {
    if s != "" && IsBlank(s[0]) {
      ReadIntInRange(s[1..]);
    }
  }

  lemma {:induction false} ParsedValueIsSound(name: string, text: string)
    requires Even(text, 1) && ParseValue(name, text).Some?
    ensures Sound(ParseValue(name, text).value)
    decreases |text|, 1
  {
    hide Even;
    if name == "dict" {
      ParsedEntriesAreSound(text);
    } else if name == "array" {
      ParsedValuesAreSound(text);
    } else if name == "integer" {
      ReadIntInRange(text);
    }
  }

  lemma {:induction false} ParsedEntriesAreSound(s: string)
    requires ParseEntries(s).Some?
    ensures SoundEntries(ParseEntries(s).value)
    decreases |s|, 0
  {
    hide Even, NextTag, ParseValue, Sound;
    match NextTag(s)
    case NoTag =>
    case Broken =>
    case Tag(name, key, rest) =>
      TextIsEven(s);
      if name != "key" {
        ParsedEntriesAreSound(rest);
      } else if NextTag(rest).Tag? {
        var kind, text, rest' := NextTag(rest).name, NextTag(rest).xml, NextTag(rest).rest;
        TextIsEven(rest);
        ParsedValueIsSound(kind, text);
        ParsedEntriesAreSound(rest');
        var v, es := ParseValue(kind, text).value, ParseEntries(rest').value;
        assert ([Entry(key, v)] + es)[1..] == es;
      }
  }

  lemma {:induction false} ParsedValuesAreSound(s: string)
    requires ParseValues(s).Some?
    ensures SoundValues(ParseValues(s).value)
    decreases |s|, 0
  {
    hide Even, NextTag, ParseValue, Sound;
    if NextTag(s).Tag? {
      var kind, text, rest := NextTag(s).name, NextTag(s).xml, NextTag(s).rest;
      TextIsEven(s);
      ParsedValueIsSound(kind, text);
      ParsedValuesAreSound(rest);
      var v, vs := ParseValue(kind, text).value, ParseValues(rest).value;
      assert ([v] + vs)[1..] == vs;
    }
  }

  // ----- Scanning printed values -----

  /** A scan with so many tags open goes over the printed value, whose texts it meets one tag deeper. */
  ghost predicate Passes(v: Value, depth: int)
    decreases v, 0
  {
    match v
    case Dict(es) => PassesEntries(es, depth + 1)
    case Arr(vs) => PassesValues(vs, depth + 1)
    case Str(s) => Net(s, '>', depth + 1) == Some(depth + 1)
    case Int(_) => true
    case Bool(_) => true
  }

  ghost predicate PassesEntries(es: seq<Entry>, depth: int)
    decreases es, 0
  {
    es != [] ==> Net(es[0].key, '>', depth + 1) == Some(depth + 1) && Passes(es[0].value, depth) && PassesEntries(es[1..], depth)
  }

  ghost predicate PassesValues(vs: seq<Value>, depth: int)
    decreases vs, 0
  {
    vs != [] ==> Passes(vs[0], depth) && PassesValues(vs[1..], depth)
  }

  ghost function PassedIf(b: bool, depth: int): Option<int> {
    if b then Some(depth) else None
  }

  /** A piece of a text that ends with a bracket, between blanks and what follows. */
  lemma PieceOver(before: string, core: string, rest: string, prev: char, depth: int)
    requires NoBrackets(before) && before != "" && core != "" && core[|core| - 1] == '>'
    ensures Net(before + core + rest, prev, depth) ==
      match Net(core, before[|before| - 1], depth) case None => None case Some(e) => Net(rest, '>', e)
  {
    hide Net;
    assert before + core + rest == before + (core + rest);
    PlainNet(before, prev, depth);
    PlainEnd(before);
    NetAppend(before, core + rest, prev, depth);
    NetAppend(core, rest, before[|before| - 1], depth);
  }

  lemma EvenElementOver(name: string, text: string, prev: char, depth: int)
    requires IsName(name) && Even(text, 1) && depth >= 1
    ensures Net(Element(name, text), prev, depth) == PassedIf(Net(text, '>', depth + 1) == Some(depth + 1), depth)
  {
    ElementOver(name, text, prev, depth);
    EvenOrStops(text, depth + 1);
  }

  lemma CoreEnds(v: Value, tabs: nat)
    ensures Core(v, tabs) != "" && Core(v, tabs)[|Core(v, tabs)| - 1] == '>'
  {
    hide PrintEntries, PrintValues, Tabs, IntText;
  }

  lemma {:induction false} CoreOver(v: Value, tabs: nat, prev: char, depth: int)
    requires Sound(v) && depth >= 1
    ensures Net(Core(v, tabs), prev, depth) == PassedIf(Passes(v, depth), depth)
    decreases v, 0
  {
    hide Net, Even, Element, Open, IntText, Tabs;
    match v
    case Dict(es) =>
      EntriesOver(es, tabs, "\n", '>', depth + 1);
      ElementOver("dict", "\n" + PrintEntries(es, tabs) + Tabs(tabs), prev, depth);
    case Arr(vs) =>
      ValuesOver(vs, tabs, "\n", '>', depth + 1);
      ElementOver("array", "\n" + PrintValues(vs, tabs) + Tabs(tabs), prev, depth);
    case Str(s) =>
      EvenElementOver("string", s, prev, depth);
    case Int(n) =>
      IntRead(n);
      PlainIsEven(IntText(n), depth + 1);
      EvenElementNet("integer", IntText(n), depth + 1, prev, depth);
    case Bool(b) =>
      EmptyElementNet(if b then "true" else "false", prev, depth);
  }

  lemma {:induction false} EntriesOver(es: seq<Entry>, tabs: nat, before: string, prev: char, depth: int)
    requires SoundEntries(es) && depth >= 1 && NoBrackets(before) && before != ""
    ensures Net(before + PrintEntries(es, tabs) + Tabs(tabs), prev, depth) == PassedIf(PassesEntries(es, depth), depth)
    decreases es, 0
  {
    hide Net, Element, Core, Tabs, Passes, Even;
    TabsPlain(tabs);
    TabsPlain(tabs + 1);
    if es == [] {
      BlankNet(before, tabs, prev, depth);
    } else {
      var rest2 := "\n" + PrintEntries(es[1..], tabs) + Tabs(tabs);
      var between, core := "\n" + Tabs(tabs + 1), Core(es[0].value, tabs + 1);
      var front := before + Tabs(tabs) + "\t";
      EntriesLayout(before, es, tabs);
      EntriesOver(es[1..], tabs, "\n", '>', depth);
      CoreEnds(es[0].value, tabs + 1);
      CoreOver(es[0].value, tabs + 1, between[|between| - 1], depth);
      PieceOver(between, core, rest2, '>', depth);
      ElementEnds("key", es[0].key);
      EvenElementOver("key", es[0].key, front[|front| - 1], depth);
      PieceOver(front, Element("key", es[0].key), between + core + rest2, prev, depth);
    }
  }

  lemma ElementEnds(name: string, text: string)
    ensures Element(name, text) != "" && Element(name, text)[|Element(name, text)| - 1] == '>'
  {}

  lemma {:induction false} ValuesOver(vs: seq<Value>, tabs: nat, before: string, prev: char, depth: int)
    requires SoundValues(vs) && depth >= 1 && NoBrackets(before) && before != ""
    ensures Net(before + PrintValues(vs, tabs) + Tabs(tabs), prev, depth) == PassedIf(PassesValues(vs, depth), depth)
    decreases vs, 0
  {
    hide Net, Core, Tabs, Passes;
    TabsPlain(tabs);
    TabsPlain(tabs + 1);
    if vs == [] {
      BlankNet(before, tabs, prev, depth);
    } else {
      var rest := "\n" + PrintValues(vs[1..], tabs) + Tabs(tabs);
      var start, core := before + Tabs(tabs + 1), Core(vs[0], tabs + 1);
      ValuesLayout(before, vs, tabs);
      ValuesOver(vs[1..], tabs, "\n", '>', depth);
      CoreEnds(vs[0], tabs + 1);
      CoreOver(vs[0], tabs + 1, start[|start| - 1], depth);
      PieceOver(start, core, rest, prev, depth);
    }
  }

  // ----- What is parsed has been read to its end -----

  /** Every dictionary and array in the value is read with just its own text. */
  ghost predicate Exact(v: Value)
    decreases v, 0
  {
    match v
    case Dict(es) => PassesEntries(es, 1) && ExactEntries(es)
    case Arr(vs) => PassesValues(vs, 1) && ExactValues(vs)
    case _ => true
  }

  ghost predicate ExactEntries(es: seq<Entry>)
    decreases es, 0
  {
    es != [] ==> Exact(es[0].value) && ExactEntries(es[1..])
  }

  ghost predicate ExactValues(vs: seq<Value>)
    decreases vs, 0
  {
    vs != [] ==> Exact(vs[0]) && ExactValues(vs[1..])
  }

  /** No tag begins from m on. */
  ghost predicate NoneOpens(s: string, m: int) {
    forall j | m <= j < |s| && 0 <= j :: s[j] != '<'
  }

  /** An element whose text comes out even is read whole or not at all. */
  lemma WholeElement(before: string, name: string, text: string, rest: string, m: nat)
    requires NoBrackets(before) && IsName(name) && Net(text, '>', 1) == Some(1) && m <= |before + Element(name, text) + rest|
    ensures var r := NextTag((before + Element(name, text) + rest)[..m]);
      r.Tag? ==> |before + Element(name, text)| <= m && r == Tag(name, text, rest[..m - |before + Element(name, text)|])
  {
    hide Net, NextTag, Scan;
    ElementCut(before, name, text, rest, m);
    var tail := Close(name) + rest;
    assert text + Close(name) + rest == text + tail && tail[0] == '<';
    ScanOver(text, tail, '>', 1);
    ScanClose(tail, if text == "" then '>' else text[|text| - 1]);
    assert (text + Close(name) + rest)[..|text|] == text;
  }

  lemma ScanClose(tail: string, prev: char)
    requires |tail| > 1 && tail[0] == '<' && tail[1] == '/'
    ensures Scan(tail, prev, 1) == 0
  {}

  /** One whose text does not is read up to a tag inside. */
  lemma BrokenElement(before: string, name: string, text: string, rest: string, m: nat)
    requires NoBrackets(before) && IsName(name) && Net(text, '>', 1) == None && m <= |before + Element(name, text) + rest|
    ensures var r := NextTag((before + Element(name, text) + rest)[..m]);
      r.Tag? ==> r.name == name && |r.xml| < |text| && r.xml == text[..|r.xml|] && text[|r.xml|] == '<'
  {
    hide Net, NextTag, Scan;
    ElementCut(before, name, text, rest, m);
    var tail := Close(name) + rest;
    assert text + Close(name) + rest == text + tail && tail[0] == '<';
    ScanOver(text, tail, '>', 1);
  }

  /** A dictionary whose entries are parsed as they were printed has been read with just its own text. */
  lemma {:induction false} DictWhole(before: string, es: seq<Entry>, tabs: nat, rest: string, m: nat)
    requires NoBrackets(before) && SoundEntries(es) && m <= |before + Core(Dict(es), tabs) + rest|
    requires var r := NextTag((before + Core(Dict(es), tabs) + rest)[..m]); r.Tag? && ParseEntries(r.xml) == Some(es)
    ensures PassesEntries(es, 1) && ExactEntries(es) && |before + Core(Dict(es), tabs)| <= m
    ensures NextTag((before + Core(Dict(es), tabs) + rest)[..m]).rest == rest[..m - |before + Core(Dict(es), tabs)|]
    decreases es, 2
  {
    hide Net, NextTag, Element, Tabs, Even, Passes, PrintEntries, ParseEntries, PassesEntries, ExactEntries, SoundEntries;
    var text := "\n" + PrintEntries(es, tabs) + Tabs(tabs);
    var r := NextTag((before + Core(Dict(es), tabs) + rest)[..m]);
    EntriesOver(es, tabs, "\n", '>', 1);
    if PassesEntries(es, 1) {
      WholeElement(before, "dict", text, rest, m);
      assert text[..|text|] == text;
      EntriesWhole("\n", es, tabs, |text|);
    } else {
      BrokenElement(before, "dict", text, rest, m);
      EntriesWhole("\n", es, tabs, |r.xml|);
      assert false;
    }
  }

  lemma {:induction false} ArrayWhole(before: string, vs: seq<Value>, tabs: nat, rest: string, m: nat)
    requires NoBrackets(before) && SoundValues(vs) && m <= |before + Core(Arr(vs), tabs) + rest|
    requires var r := NextTag((before + Core(Arr(vs), tabs) + rest)[..m]); r.Tag? && ParseValues(r.xml) == Some(vs)
    ensures PassesValues(vs, 1) && ExactValues(vs) && |before + Core(Arr(vs), tabs)| <= m
    ensures NextTag((before + Core(Arr(vs), tabs) + rest)[..m]).rest == rest[..m - |before + Core(Arr(vs), tabs)|]
    decreases vs, 2
  {
    hide Net, NextTag, Element, Tabs, Even, Passes, PrintValues, ParseValues, PassesValues, ExactValues, SoundValues;
    var text := "\n" + PrintValues(vs, tabs) + Tabs(tabs);
    var r := NextTag((before + Core(Arr(vs), tabs) + rest)[..m]);
    ValuesOver(vs, tabs, "\n", '>', 1);
    if PassesValues(vs, 1) {
      WholeElement(before, "array", text, rest, m);
      assert text[..|text|] == text;
      ValuesWhole("\n", vs, tabs, |text|);
    } else {
      BrokenElement(before, "array", text, rest, m);
      ValuesWhole("\n", vs, tabs, |r.xml|);
      assert false;
    }
  }

  /** A value that is parsed as it was printed has been read whole. */
  lemma {:induction false} ValueWhole(before: string, v: Value, tabs: nat, rest: string, m: nat)
    requires NoBrackets(before) && Sound(v) && m <= |before + Core(v, tabs) + rest|
    requires var r := NextTag((before + Core(v, tabs) + rest)[..m]); r.Tag? && ParseValue(r.name, r.xml) == Some(v)
    ensures Exact(v) && |before + Core(v, tabs)| <= m
    ensures NextTag((before + Core(v, tabs) + rest)[..m]).rest == rest[..m - |before + Core(v, tabs)|]
    decreases v, 1
  {
    hide Net, NextTag, Core, ParseEntries, ParseValues, PassesEntries, PassesValues, SoundEntries, SoundValues;
    match v
    case Dict(es) => DictWhole(before, es, tabs, rest, m);
    case Arr(vs) => ArrayWhole(before, vs, tabs, rest, m);
    case Str(_) => LeafWhole(before, v, tabs, rest, m);
    case Int(_) => LeafWhole(before, v, tabs, rest, m);
    case Bool(_) => LeafWhole(before, v, tabs, rest, m);
  }

  lemma LeafWhole(before: string, v: Value, tabs: nat, rest: string, m: nat)
    requires NoBrackets(before) && Sound(v) && (v.Str? || v.Int? || v.Bool?) && m <= |before + Core(v, tabs) + rest|
    requires NextTag((before + Core(v, tabs) + rest)[..m]).Tag?
    ensures |before + Core(v, tabs)| <= m
    ensures NextTag((before + Core(v, tabs) + rest)[..m]).rest == rest[..m - |before + Core(v, tabs)|]
  {
    hide Net, NextTag, Element, Open, Tabs, IntText, Even;
    match v
    case Str(s) =>
      EvenOnce(s);
      WholeElement(before, "string", s, rest, m);
    case Int(n) =>
      IntRead(n);
      PlainNet(IntText(n), '>', 1);
      WholeElement(before, "integer", IntText(n), rest, m);
    case Bool(b) =>
      EmptyElementCut(before, if b then "true" else "false", rest, m);
  }

  /** Entries that are parsed as they were printed, from a text that may have been cut off: only blanks were cut. */
  lemma {:induction false} EntriesWhole(before: string, es: seq<Entry>, tabs: nat, m: nat)
    requires NoBrackets(before) && SoundEntries(es) && m <= |before + PrintEntries(es, tabs) + Tabs(tabs)|
    requires ParseEntries((before + PrintEntries(es, tabs) + Tabs(tabs))[..m]) == Some(es)
    ensures ExactEntries(es) && NoneOpens(before + PrintEntries(es, tabs) + Tabs(tabs), m)
    decreases es, 1
  {
    hide Net, NextTag, Element, Core, Tabs, Exact, Sound, ParseEntries, Even, PrintEntries, NoneOpens;
    var s := before + PrintEntries(es, tabs) + Tabs(tabs);
    TabsPlain(tabs);
    TabsPlain(tabs + 1);
    if es == [] {
      NoEntries(before, tabs, m);
    } else {
      var v := es[0].value;
      var front, between := before + Tabs(tabs) + "\t", "\n" + Tabs(tabs + 1);
      var rest2 := "\n" + PrintEntries(es[1..], tabs) + Tabs(tabs);
      var rest1 := between + Core(v, tabs + 1) + rest2;
      EntriesLayout(before, es, tabs);
      assert s == front + Element("key", es[0].key) + rest1;
      EvenOnce(es[0].key);
      WholeElement(front, "key", es[0].key, rest1, m);
      FirstEntry(s[..m], es);
      var m1 := m - |front + Element("key", es[0].key)|;
      ValueWhole(between, v, tabs + 1, rest2, m1);
      var m2 := m1 - |between + Core(v, tabs + 1)|;
      EntriesWhole("\n", es[1..], tabs, m2);
      NoneOpensBehind(front + Element("key", es[0].key) + between + Core(v, tabs + 1), rest2, m2);
      assert s == front + Element("key", es[0].key) + between + Core(v, tabs + 1) + rest2;
    }
  }

  lemma NoEntries(before: string, tabs: nat, m: int)
    requires NoBrackets(before)
    ensures NoneOpens(before + PrintEntries([], tabs) + Tabs(tabs), m)
  {
    TabsPlain(tabs);
    assert before + PrintEntries([], tabs) + Tabs(tabs) == before + Tabs(tabs);
  }

  lemma EvenOnce(s: string)
    requires Even(s, 1)
    ensures Net(s, '>', 1) == Some(1)
  {}

  lemma NoneOpensBehind(a: string, b: string, m: nat)
    requires NoneOpens(b, m)
    ensures NoneOpens(a + b, |a| + m)
  {
    forall j | |a| + m <= j < |a + b| ensures (a + b)[j] != '<' {
      assert (a + b)[j] == b[j - |a|];
    }
  }

  /** The first entry that is parsed. */
  lemma FirstEntry(c: string, es: seq<Entry>)
    requires es != [] && ParseEntries(c) == Some(es) && (NextTag(c).Tag? ==> NextTag(c).name == "key")
    ensures NextTag(c).Tag? && NextTag(NextTag(c).rest).Tag?
    ensures var r := NextTag(NextTag(c).rest);
      ParseValue(r.name, r.xml) == Some(es[0].value) && ParseEntries(r.rest) == Some(es[1..])
  {
    hide NextTag, ParseValue;
    var r := NextTag(NextTag(c).rest);
    var v, more := ParseValue(r.name, r.xml).value, ParseEntries(r.rest).value;
    assert ([Entry(NextTag(c).xml, v)] + more)[1..] == more;
  }

  lemma {:induction false} ValuesWhole(before: string, vs: seq<Value>, tabs: nat, m: nat)
    requires NoBrackets(before) && SoundValues(vs) && m <= |before + PrintValues(vs, tabs) + Tabs(tabs)|
    requires ParseValues((before + PrintValues(vs, tabs) + Tabs(tabs))[..m]) == Some(vs)
    ensures ExactValues(vs) && NoneOpens(before + PrintValues(vs, tabs) + Tabs(tabs), m)
    decreases vs, 1
  {
    hide Net, NextTag, Core, Tabs, Exact, Sound;
    var s := before + PrintValues(vs, tabs) + Tabs(tabs);
    TabsPlain(tabs);
    TabsPlain(tabs + 1);
    if vs == [] {
      assert s == before + Tabs(tabs);
    } else {
      var start := before + Tabs(tabs + 1);
      var rest := "\n" + PrintValues(vs[1..], tabs) + Tabs(tabs);
      ValuesLayout(before, vs, tabs);
      FirstValue(s[..m], vs);
      ValueWhole(start, vs[0], tabs + 1, rest, m);
      var m1 := m - |start + Core(vs[0], tabs + 1)|;
      ValuesWhole("\n", vs[1..], tabs, m1);
      NoneOpensBehind(start + Core(vs[0], tabs + 1), rest, m1);
    }
  }

  lemma FirstValue(c: string, vs: seq<Value>)
    requires vs != [] && ParseValues(c) == Some(vs)
    ensures NextTag(c).Tag? && ParseValue(NextTag(c).name, NextTag(c).xml) == Some(vs[0]) && ParseValues(NextTag(c).rest) == Some(vs[1..])
  {
    hide NextTag, ParseValue;
    var r := NextTag(c);
    var v, more := ParseValue(r.name, r.xml).value, ParseValues(r.rest).value;
    assert ([v] + more)[1..] == more;
  }

  // ----- Printable -----

  lemma {:induction false} ExactIsPrintable(v: Value, k: int)
    requires Sound(v) && Exact(v) && k >= 1 && forall d | 1 <= d < k :: Passes(v, d)
    ensures Printable(v, k)
    decreases v, 0
  {
    match v
    case Dict(es) =>
      forall d | 1 <= d < k + 1 ensures PassesEntries(es, d) {
        if d > 1 {
          assert Passes(v, d - 1);
        }
      }
      EntriesArePrintable(es, k + 1);
    case Arr(vs) =>
      forall d | 1 <= d < k + 1 ensures PassesValues(vs, d) {
        if d > 1 {
          assert Passes(v, d - 1);
        }
      }
      ValuesArePrintable(vs, k + 1);
    case Str(s) =>
      forall d | 1 <= d <= k ensures Net(s, '>', d) == Some(d) {
        if d > 1 {
          assert Passes(v, d - 1);
        }
      }
    case Int(_) =>
    case Bool(_) =>
  }

  lemma {:induction false} EntriesArePrintable(es: seq<Entry>, k: int)
    requires SoundEntries(es) && ExactEntries(es) && k >= 1 && forall d | 1 <= d < k :: PassesEntries(es, d)
    ensures PrintableEntries(es, k)
    decreases es, 0
  {
    hide Net, Sound, Exact, Passes;
    if es != [] {
      var key := es[0].key;
      forall d | 1 <= d < k ensures Passes(es[0].value, d) && PassesEntries(es[1..], d) && Net(key, '>', d + 1) == Some(d + 1) {
        assert PassesEntries(es, d);
      }
      forall d | 1 <= d <= k ensures Net(key, '>', d) == Some(d) {
        if d > 1 {
          assert PassesEntries(es, d - 1);
        }
      }
      ExactIsPrintable(es[0].value, k);
      EntriesArePrintable(es[1..], k);
    }
  }

  lemma {:induction false} ValuesArePrintable(vs: seq<Value>, k: int)
    requires SoundValues(vs) && ExactValues(vs) && k >= 1 && forall d | 1 <= d < k :: PassesValues(vs, d)
    ensures PrintableValues(vs, k)
    decreases vs, 0
  {
    hide Sound, Exact, Passes;
    if vs != [] {
      forall d | 1 <= d < k ensures Passes(vs[0], d) && PassesValues(vs[1..], d) {
        assert PassesValues(vs, d);
      }
      ExactIsPrintable(vs[0], k);
      ValuesArePrintable(vs[1..], k);
    }
  }

  /** A property list comes back if and only if it is printable. */
  lemma ComesBack(es: seq<Entry>)
    ensures ParseRoot(PrintRoot(es)) == Some(es) <==> PrintableEntries(es, 2)
  {
    hide ParseRoot, PrintRoot, PrintableEntries;
    if PrintableEntries(es, 2) {
      RootRoundTrip(es);
    } else if ParseRoot(PrintRoot(es)) == Some(es) {
      OnlyPrintable(es);
    }
  }

  lemma OnlyPrintable(es: seq<Entry>)
    requires ParseRoot(PrintRoot(es)) == Some(es)
    ensures PrintableEntries(es, 2)
  {
    hide NextTag, Core, PrintRoot, ParseEntries, Net;
    var tail := "\n" + PLIST_END;
    var s := Core(Dict(es), 0) + tail;
    DictFound(es);
    assert ("" + Core(Dict(es), 0) + tail)[..|s|] == s;
    ParsedEntriesAreSound(NextTag(s).xml);
    DictWhole("", es, 0, tail, |s|);
    EntriesArePrintable(es, 2);
  }

  /** An empty dictionary inside another one is not read back: the source would follow a pointer that was never set. */
  lemma EmptyDictIsLost(key: string, tabs: nat)
    requires Even(key, 1)
    ensures ParseEntries("\n" + PrintEntries([Entry(key, Dict([]))], tabs) + Tabs(tabs)) == None
    ensures ParseRoot(PrintRoot([Entry(key, Dict([]))])) != Some([Entry(key, Dict([]))])
  {
    hide NextTag, Net, Tabs, ParseRoot, PrintRoot, Element;
    var es := [Entry(key, Dict([]))];
    ComesBack(es);
    assert !Printable(es[0].value, 2);
    EntriesLayout("\n", es, tabs);
    TabsPlain(tabs);
    TabsPlain(tabs + 1);
    var text := "\n" + Tabs(tabs + 1);
    var rest2 := "\n" + PrintEntries(es[1..], tabs) + Tabs(tabs);
    assert Core(Dict([]), tabs + 1) == Element("dict", text) by {
      assert "\n" + "" + Tabs(tabs + 1) == text;
    }
    var rest1 := text + Element("dict", text) + rest2;
    assert Net(key, '>', 1) == Some(1);
    ElementIsNext("\n" + Tabs(tabs) + "\t", "key", key, rest1);
    PlainIsNext(text, "dict", text, rest2);
    NoNextTag(text);
    assert ParseEntries(text) == Some([]);
    assert ParseValue("dict", text) == None;
  }
}
