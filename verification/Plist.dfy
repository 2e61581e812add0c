/** The printer, which grows a text piece by piece, and the parser, which goes through it by pointers. */
module Plist {
  import opened PlistConverse
  import opened PlistTags
  import opened PlistValues
  import opened Wrappers

  // ----- The printer's buffers -----

  /** Lines are printed into a buffer of 4096 characters, tabs into one of 100. */
  const BUFFER := 4096
  const TABS := 100

  /** A line that is printed into the buffer. */
  function Line(s: string): string
    requires |s| < BUFFER
  {
    s
  }

  /** A value at this depth does not overrun the buffers. */
  ghost predicate Fits(v: Value, tabs: nat)
    decreases v, 1
  {
    match v
    case Dict(es) => tabs < TABS && FitEntries(es, tabs)
    case Arr(vs) => tabs < TABS && FitValues(vs, tabs)
    case _ => |PrintValue(v, tabs)| < BUFFER
  }

  ghost predicate FitEntries(es: seq<Entry>, tabs: nat)
    decreases es, 0
  {
    es != [] ==>
      && |KeyLine(es[0].key, tabs)| < BUFFER && Fits(es[0].value, tabs + 1) && FitEntries(es[1..], tabs)
  }

  ghost predicate FitValues(vs: seq<Value>, tabs: nat)
    decreases vs, 0
  {
    vs != [] ==> Fits(vs[0], tabs + 1) && FitValues(vs[1..], tabs)
  }

  function KeyLine(key: string, tabs: nat): string {
    Tabs(tabs) + "\t" + Element("key", key) + "\n"
  }

  lemma {:induction false} TabsLength(n: nat)
    ensures |Tabs(n)| == n
  {
    if n > 0 {
      TabsLength(n - 1);
    }
  }

  lemma {:induction false} EntryFits(es: seq<Entry>, tabs: nat, i: nat)
    requires FitEntries(es, tabs) && i < |es|
    ensures |KeyLine(es[i].key, tabs)| < BUFFER && Fits(es[i].value, tabs + 1)
  {
    if i > 0 {
      EntryFits(es[1..], tabs, i - 1);
    }
  }

  lemma {:induction false} ValueFits(vs: seq<Value>, tabs: nat, i: nat)
    requires FitValues(vs, tabs) && i < |vs|
    ensures Fits(vs[i], tabs + 1)
  {
    if i > 0 {
      ValueFits(vs[1..], tabs, i - 1);
    }
  }

  lemma EntriesFrom(es: seq<Entry>, tabs: nat, i: nat)
    requires i < |es|
    ensures PrintEntries(es[i..], tabs) ==
      KeyLine(es[i].key, tabs) + PrintValue(es[i].value, tabs + 1) + PrintEntries(es[i + 1..], tabs)
  {
    hide PrintValue, Element;
    assert es[i..][1..] == es[i + 1..];
  }

  lemma ValuesFrom(vs: seq<Value>, tabs: nat, i: nat)
    requires i < |vs|
    ensures PrintValues(vs[i..], tabs) == PrintValue(vs[i], tabs + 1) + PrintValues(vs[i + 1..], tabs)
  {
    hide PrintValue;
    assert vs[i..][1..] == vs[i + 1..];
  }

  // ----- Printing -----

  method MakeTabs(tabsCount: nat) returns (tabs: string)
    requires tabsCount < TABS
    ensures tabs == Tabs(tabsCount) && |tabs| == tabsCount
  {
    tabs := "";
    var i := 0;
    while i < tabsCount
      invariant 0 <= i <= tabsCount && tabs == Tabs(i) && |tabs| == i
    {
      tabs := tabs + "\t";
      i := i + 1;
    }
  }

  /** Prints a value inside a dictionary or an array; `tabs` are those of the line it is in. */
  method GetXmlFromValue(v: Value, tabs: string, tabsCount: nat) returns (s: string)
    requires Fits(v, tabsCount + 1) && tabs == Tabs(tabsCount)
    ensures s == PrintValue(v, tabsCount + 1)
    decreases v, 0
  {
    match v
    case Dict(es) =>
      s := GetXmlFromDictionary(es, tabsCount + 1);
    case Str(text) =>
      StringLine(text, tabsCount);
      s := Line(tabs + "\t<string>" + text + "</string>\n");
    case Int(n) =>
      IntegerLine(n, tabsCount);
      s := Line(tabs + "\t<integer>" + IntText(n) + "</integer>\n");
    case Arr(vs) =>
      s := GetXmlFromArrayValue(vs, tabsCount + 1);
    case Bool(b) =>
      BoolLine(b, tabsCount);
      if b {
        s := Line(tabs + "\t<true/>\n");
      } else {
        s := Line(tabs + "\t<false/>\n");
      }
  }

  lemma StringLine(text: string, n: nat)
    ensures Tabs(n) + "\t<string>" + text + "</string>\n" == PrintValue(Str(text), n + 1)
  {}

  lemma IntegerLine(k: int, n: nat)
    ensures Tabs(n) + "\t<integer>" + IntText(k) + "</integer>\n" == PrintValue(Int(k), n + 1)
  {
    hide IntText;
  }

  lemma BoolLine(b: bool, n: nat)
    ensures Tabs(n) + (if b then "\t<true/>\n" else "\t<false/>\n") == PrintValue(Bool(b), n + 1)
  {}

  method GetXmlFromDictionary(es: seq<Entry>, tabsCount: nat) returns (toReturn: string)
    requires tabsCount < TABS && FitEntries(es, tabsCount)
    ensures toReturn == PrintValue(Dict(es), tabsCount)
    decreases es, 1
  {
    hide Element, Close, Open;
    var tabs := MakeTabs(tabsCount);
    toReturn := Line(tabs + "<dict>\n");
    var i := 0;
    assert es[0..] == es;
    while i < |es|
      invariant 0 <= i <= |es|
      invariant toReturn + PrintEntries(es[i..], tabsCount) == tabs + "<dict>\n" + PrintEntries(es, tabsCount)
    {
      EntryFits(es, tabsCount, i);
      EntriesFrom(es, tabsCount, i);
      KeyLineParts(es[i].key, tabsCount);
      toReturn := toReturn + Line(tabs + "\t<key>" + es[i].key + "</key>\n");
      var ret := GetXmlFromValue(es[i].value, tabs, tabsCount);
      toReturn := toReturn + ret;
      i := i + 1;
    }
    assert es[i..] == [];
    toReturn := toReturn + Line(tabs + "</dict>\n");
    DictParts(es, tabsCount);
  }

  lemma KeyLineParts(key: string, n: nat)
    ensures Tabs(n) + "\t<key>" + key + "</key>\n" == KeyLine(key, n)
  {}

  lemma DictParts(es: seq<Entry>, n: nat)
    ensures Tabs(n) + "<dict>\n" + PrintEntries(es, n) + (Tabs(n) + "</dict>\n") == PrintValue(Dict(es), n)
  {
    hide PrintEntries, Tabs;
    assert Open("dict") == "<dict>" && Close("dict") == "</dict>";
  }

  lemma ArrayParts(vs: seq<Value>, n: nat)
    ensures Tabs(n) + "<array>\n" + PrintValues(vs, n) + (Tabs(n) + "</array>\n") == PrintValue(Arr(vs), n)
  {
    hide PrintValues, Tabs;
    assert Open("array") == "<array>" && Close("array") == "</array>";
  }

  method GetXmlFromArrayValue(vs: seq<Value>, tabsCount: nat) returns (toReturn: string)
    requires tabsCount < TABS && FitValues(vs, tabsCount)
    ensures toReturn == PrintValue(Arr(vs), tabsCount)
    decreases vs, 1
  {
    hide Element, Close, Open;
    var tabs := MakeTabs(tabsCount);
    toReturn := Line(tabs + "<array>\n");
    var i := 0;
    assert vs[0..] == vs;
    while i < |vs|
      invariant 0 <= i <= |vs|
      invariant toReturn + PrintValues(vs[i..], tabsCount) == tabs + "<array>\n" + PrintValues(vs, tabsCount)
    {
      ValueFits(vs, tabsCount, i);
      ValuesFrom(vs, tabsCount, i);
      var ret := GetXmlFromValue(vs[i], tabs, tabsCount);
      toReturn := toReturn + ret;
      i := i + 1;
    }
    assert vs[i..] == [];
    toReturn := toReturn + Line(tabs + "</array>\n");
    ArrayParts(vs, tabsCount);
  }

  method GetXmlFromRoot(root: seq<Entry>) returns (toReturn: string)
    requires FitEntries(root, 0)
    ensures toReturn == PrintRoot(root)
  {
    hide XmlLine, DoctypeLine, PlistLine, PrintValue;
    toReturn := XmlLine() + DoctypeLine() + PlistLine();
    var ret := GetXmlFromDictionary(root, 0);
    toReturn := toReturn + ret;
    toReturn := toReturn + Line("</plist>\n");
  }

  // ----- Parsing -----

  /** What a read tag is: its name, its text, and where the reading goes on. */
  datatype TagRead = NoTagRead | BrokenTag | TagAt(name: string, xml: string, next: nat)

  /** The tag that has been read at a place of the text is the next tag of the rest of it. */
  ghost predicate IsNextTag(xml: string, at: nat, r: TagRead)
    requires at <= |xml|
  {
    match r
    case NoTagRead => NextTag(xml[at..]) == NoTag
    case BrokenTag => NextTag(xml[at..]) == Broken
    case TagAt(name, text, next) => at < next <= |xml| && NextTag(xml[at..]) == Tag(name, text, xml[next..])
  }

  /** Reads the next tag from a place on. */
  method GetNextTag(xml: string, at: nat) returns (r: TagRead)
    requires at <= |xml|
    ensures IsNextTag(xml, at, r)
  {
    hide Scan, NextTag, TagText;
    var start := at + Find(xml[at..], '<');
    if start == |xml| {
      NoTagFrom(xml, at);
      return NoTagRead;
    }
    var tagEnd := start + 1 + Find(xml[start + 1..], '>');
    TagParts(xml, at, start, tagEnd);
    if tagEnd == |xml| {
      return BrokenTag;
    }
    var name := xml[start + 1..tagEnd];
    if |name| > 0 {
      if name[|name| - 1] == '/' {
        return TagAt(name, "", tagEnd + 1);
      }
    }
    var curChar := FindClose(xml, tagEnd);
    var text := xml[tagEnd + 1..curChar];
    var last := curChar + Find(xml[curChar..], '>');
    TextParts(xml, tagEnd, name, curChar, last);
    if last == |xml| {
      return BrokenTag;
    }
    r := TagAt(name, text, last + 1);
  }

  /** Goes from the end of an opening tag to its closing tag, or to the end. */
  method FindClose(xml: string, tagEnd: nat) returns (curChar: nat)
    requires 0 < tagEnd < |xml| && xml[tagEnd] == '>' && xml[tagEnd - 1] != '/'
    ensures curChar == tagEnd + 1 + Scan(xml[tagEnd + 1..], '>', 1) <= |xml|
  {
    hide Scan;
    curChar := tagEnd;
    var tagDepth := 1;
    ghost var u := xml[tagEnd + 1..];
    while curChar < |xml|
      invariant tagEnd <= curChar <= |xml|
      invariant curChar == tagEnd ==> tagDepth == 1
      invariant curChar > tagEnd ==>
        Scan(u, '>', 1) == curChar - tagEnd - 1 + Scan(xml[curChar..], xml[curChar - 1], tagDepth)
    {
      assert xml[curChar..][1..] == xml[curChar + 1..];
      ScanStep(xml[curChar..], xml[curChar - 1], tagDepth);
      if xml[curChar] == '<' {
        if curChar + 1 < |xml| && xml[curChar + 1] == '/' {
          tagDepth := tagDepth - 1;
          if tagDepth == 0 {
            return;
          }
        } else {
          tagDepth := tagDepth + 1;
        }
      } else if xml[curChar] == '>' {
        if xml[curChar - 1] == '/' {
          tagDepth := tagDepth - 1;
        }
      }
      curChar := curChar + 1;
    }
    assert xml[|xml|..] == "";
    ScanEnd(xml[curChar - 1], tagDepth);
  }

  lemma NoTagFrom(xml: string, at: nat)
    requires at <= |xml| && at + Find(xml[at..], '<') == |xml|
    ensures NextTag(xml[at..]) == NoTag
  {}

  lemma TagParts(xml: string, at: nat, start: nat, tagEnd: nat)
    requires at <= |xml| && start == at + Find(xml[at..], '<') < |xml| && tagEnd == start + 1 + Find(xml[start + 1..], '>')
    ensures NextTag(xml[at..]) ==
      if tagEnd == |xml| then Broken
      else
        var name := xml[start + 1..tagEnd];
        if name != "" && name[|name| - 1] == '/' then Tag(name, "", xml[tagEnd + 1..]) else TagText(name, xml[tagEnd + 1..])
  {
    hide TagText, Find;
    var s, k := xml[at..], start - at;
    var t := xml[start + 1..];
    assert s[k + 1..] == t;
    if tagEnd < |xml| {
      var m := tagEnd - start - 1;
      assert t[..m] == xml[start + 1..tagEnd];
      assert t[m + 1..] == xml[tagEnd + 1..];
    }
  }

  lemma TextParts(xml: string, tagEnd: nat, name: string, curChar: nat, last: nat)
    requires tagEnd < |xml| && curChar == tagEnd + 1 + Scan(xml[tagEnd + 1..], '>', 1) && last == curChar + Find(xml[curChar..], '>')
    ensures TagText(name, xml[tagEnd + 1..]) ==
      if last == |xml| then Broken else Tag(name, xml[tagEnd + 1..curChar], xml[last + 1..])
  {
    hide Scan;
    var u, k := xml[tagEnd + 1..], curChar - tagEnd - 1;
    assert u[k..] == xml[curChar..] && u[..k] == xml[tagEnd + 1..curChar];
    if last < |xml| {
      assert u[last - tagEnd..] == xml[last + 1..];
    }
  }

  lemma ScanEnd(prev: char, depth: int)
    ensures Scan("", prev, depth) == 0
  {}

  lemma ScanStep(s: string, prev: char, depth: int)
    requires s != ""
    ensures Scan(s, prev, depth) ==
      if s[0] == '<' then
        if |s| > 1 && s[1] == '/' then
          if depth - 1 == 0 then 0 else 1 + Scan(s[1..], s[0], depth - 1)
        else 1 + Scan(s[1..], s[0], depth + 1)
      else if s[0] == '>' && prev == '/' then 1 + Scan(s[1..], s[0], depth - 1)
      else 1 + Scan(s[1..], s[0], depth)
  {}

  /** What has been read, in front of what is still to be read. */
  ghost function Behind<T>(done: seq<T>, rest: Option<seq<T>>): Option<seq<T>> {
    match rest case None => None case Some(ts) => Some(done + ts)
  }

  /** Makes the value that a tag's name and text stand for. */
  method CreateValue(name: string, xml: string) returns (v: Option<Value>)
    ensures v == ParseValue(name, xml)
    decreases |xml|, 1
  {
    hide ParseEntries, ParseValues;
    if name == "dict" {
      var es := CreateDictionary(xml);
      if es.None? || es.value == [] {
        return None;
      }
      v := Some(Dict(es.value));
    } else if name == "string" {
      v := Some(Str(xml));
    } else if name == "integer" {
      var n := ReadInt(xml);
      v := if n.None? then None else Some(Int(n.value));
    } else if name == "array" {
      var vs := CreateArray(xml);
      v := if vs.None? then None else Some(Arr(vs.value));
    } else if name == "true/" {
      v := Some(Bool(true));
    } else if name == "false/" {
      v := Some(Bool(false));
    } else {
      v := None;
    }
  }

  /** Reads the entries of a dictionary; None where the source would go on with what is not set. */
  method CreateDictionary(xml: string) returns (es: Option<seq<Entry>>)
    ensures es == ParseEntries(xml)
    decreases |xml|, 0
  {
    hide NextTag, ParseValue, ParseEntries;
    var at: nat := 0;
    var values: seq<Entry> := [];
    assert xml[0..] == xml;
    BehindNothing(ParseEntries(xml));
    while at < |xml|
      invariant at <= |xml| && ParseEntries(xml) == Behind(values, ParseEntries(xml[at..]))
      decreases |xml| - at
    {
      EntriesStep(xml[at..]);
      var keyTag := GetNextTag(xml, at);
      match keyTag
      case NoTagRead =>
        NothingBehind(values);
        return Some(values);
      case BrokenTag =>
        return None;
      case TagAt(name, key, next) =>
        at := next;
        if name == "key" {
          var valueTag := GetNextTag(xml, at);
          match valueTag
          case NoTagRead =>
            NothingBehind(values);
            return Some(values);
          case BrokenTag =>
            return None;
          case TagAt(kind, text, next) =>
            at := next;
            var v := CreateValue(kind, text);
            if v.None? {
              return None;
            }
            MoreBehind(values, Entry(key, v.value), ParseEntries(xml[at..]));
            values := values + [Entry(key, v.value)];
        }
    }
    assert xml[at..] == "";
    EntriesStep("");
    NoNextTag("");
    NothingBehind(values);
    es := Some(values);
  }

  lemma BehindNothing<T>(rest: Option<seq<T>>)
    ensures Behind([], rest) == rest
  {
    if rest.Some? {
      assert [] + rest.value == rest.value;
    }
  }

  lemma NothingBehind<T>(done: seq<T>)
    ensures Behind(done, Some([])) == Some(done)
  {
    assert done + [] == done;
  }

  lemma MoreBehind<T>(done: seq<T>, t: T, rest: Option<seq<T>>)
    ensures Behind(done, if rest.None? then None else Some([t] + rest.value)) == Behind(done + [t], rest)
  {
    if rest.Some? {
      assert done + ([t] + rest.value) == done + [t] + rest.value;
    }
  }

  lemma EntriesStep(s: string)
    ensures ParseEntries(s) ==
      match NextTag(s)
      case NoTag => Some([])
      case Broken => None
      case Tag(name, key, rest) =>
        if name != "key" then ParseEntries(rest)
        else
          match NextTag(rest)
          case NoTag => Some([])
          case Broken => None
          case Tag(kind, text, rest') =>
            if ParseValue(kind, text).None? then None
            else if ParseEntries(rest').None? then None
            else Some([Entry(key, ParseValue(kind, text).value)] + ParseEntries(rest').value)
  {
    hide NextTag;
  }

  lemma ValuesStep(s: string)
    ensures ParseValues(s) ==
      match NextTag(s)
      case NoTag => Some([])
      case Broken => None
      case Tag(kind, text, rest) =>
        if ParseValue(kind, text).None? then None
        else if ParseValues(rest).None? then None
        else Some([ParseValue(kind, text).value] + ParseValues(rest).value)
  {
    hide NextTag;
  }

  /** Reads the values of an array. */
  method CreateArray(xml: string) returns (vs: Option<seq<Value>>)
    ensures vs == ParseValues(xml)
    decreases |xml|, 0
  {
    hide NextTag, ParseValue, ParseValues;
    var at: nat := 0;
    var values: seq<Value> := [];
    assert xml[0..] == xml;
    BehindNothing(ParseValues(xml));
    while at < |xml|
      invariant at <= |xml| && ParseValues(xml) == Behind(values, ParseValues(xml[at..]))
      decreases |xml| - at
    {
      ValuesStep(xml[at..]);
      var valueTag := GetNextTag(xml, at);
      match valueTag
      case NoTagRead =>
        NothingBehind(values);
        return Some(values);
      case BrokenTag =>
        return None;
      case TagAt(kind, text, next) =>
        at := next;
        var v := CreateValue(kind, text);
        if v.None? {
          return None;
        }
        MoreBehind(values, v.value, ParseValues(xml[at..]));
        values := values + [v.value];
    }
    assert xml[at..] == "";
    ValuesStep("");
    NoNextTag("");
    NothingBehind(values);
    vs := Some(values);
  }

  /** Reads the dictionary that is the root. */
  method CreateRoot(xml: string) returns (root: Option<seq<Entry>>)
    ensures root == ParseRoot(xml)
  {
    hide NextTag, ParseEntries, FindDict;
    var at := FindDict(xml);
    if at == |xml| {
      return None;
    }
    var tag := GetNextTag(xml, at);
    match tag
    case NoTagRead => root := None;
    case BrokenTag => root := None;
    case TagAt(_, text, _) => root := CreateDictionary(text);
  }

  /** A property list that is printed and parsed again is what it was if and only if it is printable. */
  method PrintAndParse(root: seq<Entry>) returns (again: Option<seq<Entry>>)
    requires FitEntries(root, 0)
    ensures again == Some(root) <==> PrintableEntries(root, 2)
  {
    hide PrintableEntries, ParseRoot, PrintRoot;
    var xml := GetXmlFromRoot(root);
    again := CreateRoot(xml);
    ComesBack(root);
  }

  /** Brackets that do not balance are read as something else. */
  lemma BracketsAreLost()
    ensures forall rest :: NextTag("" + Element("string", "<") + rest) != Tag("string", "<", rest)
  {
    assert Net("<", '>', 1) == Some(2) by { assert "<"[1..] == ""; }
    forall rest ensures NextTag("" + Element("string", "<") + rest) != Tag("string", "<", rest) {
      ElementIsNext("", "string", "<", rest);
    }
  }
}
