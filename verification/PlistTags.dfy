/** Finding the next tag of a property list, and what lies between it and its closing tag. */
module PlistTags {
  import opened Wrappers

  /** Broken: the source would follow a null pointer, because a bracket has no counterpart. */
  datatype NextTagResult = NoTag | Broken | Tag(name: string, xml: string, rest: string)

  /** The first place of a character, or the end. */
  function Find(s: string, c: char): (j: nat)
    ensures j <= |s| && (j < |s| ==> s[j] == c) && forall k | 0 <= k < j :: s[k] != c
  {
    if s == "" || s[0] == c then 0 else 1 + Find(s[1..], c)
  }

  /** How far the scan for a closing tag goes behind the character `prev`, with so many tags open. */
  ghost function Scan(s: string, prev: char, depth: int): (j: nat)
    ensures j <= |s|
  {
    if s == "" then 0
    else if s[0] == '<' then
      if |s| > 1 && s[1] == '/' then
        if depth - 1 == 0 then 0 else 1 + Scan(s[1..], s[0], depth - 1)
      else 1 + Scan(s[1..], s[0], depth + 1)
    else if s[0] == '>' && prev == '/' then 1 + Scan(s[1..], s[0], depth - 1)
    else 1 + Scan(s[1..], s[0], depth)
  }

  /** The next tag, the text up to its closing tag, and what follows. A tag that ends with a slash has no text. */
  ghost function NextTag(s: string): (r: NextTagResult)
    ensures r.Tag? ==> |r.xml| < |s| && |r.rest| < |s|
  {
    var start := Find(s, '<');
    if start == |s| then NoTag
    else
      var t := s[start + 1..];
      var end := Find(t, '>');
      if end == |t| then Broken
      else
        var name, u := t[..end], t[end + 1..];
        if name != "" && name[|name| - 1] == '/' then Tag(name, "", u) else TagText(name, u)
  }

  /** The text behind an opening tag. */
  ghost function TagText(name: string, u: string): (r: NextTagResult)
    ensures r.Tag? ==> |r.xml| <= |u| && |r.rest| < |u|
  {
    var close := Scan(u, '>', 1);
    var last := Find(u[close..], '>');
    if close + last == |u| then Broken else Tag(name, u[..close], u[close + last + 1..])
  }

  // ----- What a text does to the number of open tags -----

  /** The number of open tags behind a text that is followed by a bracket; None if the scan stops inside. */
  ghost function Net(c: string, prev: char, depth: int): Option<int> {
    if c == "" then Some(depth)
    else if c[0] == '<' then
      if |c| > 1 && c[1] == '/' then
        if depth - 1 == 0 then None else Net(c[1..], c[0], depth - 1)
      else Net(c[1..], c[0], depth + 1)
    else if c[0] == '>' && prev == '/' then Net(c[1..], c[0], depth - 1)
    else Net(c[1..], c[0], depth)
  }

  lemma {:induction false} ScanOver(c: string, rest: string, prev: char, depth: int)
    requires rest != "" && rest[0] == '<'
    ensures match Net(c, prev, depth)
      case None => Scan(c + rest, prev, depth) < |c|
      case Some(depth') => Scan(c + rest, prev, depth) == |c| + Scan(rest, if c == "" then prev else c[|c| - 1], depth')
  {
    if c == "" {
      assert c + rest == rest;
    } else {
      var s := c + rest;
      assert s[1..] == c[1..] + rest && (|c| == 1 ==> s[1] == '<');
      ScanOver(c[1..], rest, c[0], if c[0] == '<' then (if s[1] == '/' then depth - 1 else depth + 1)
                                   else if c[0] == '>' && prev == '/' then depth - 1 else depth);
    }
  }

  lemma {:induction false} NetAppend(a: string, b: string, prev: char, depth: int)
    requires a != "" && (a[|a| - 1] == '<' && b != "" ==> b[0] != '/')
    ensures Net(a + b, prev, depth) ==
      match Net(a, prev, depth) case None => None case Some(depth') => Net(b, a[|a| - 1], depth')
  {
    assert (a + b)[1..] == a[1..] + b;
    if |a| > 1 {
      var depth1 := if a[0] == '<' then (if a[1] == '/' then depth - 1 else depth + 1)
                    else if a[0] == '>' && prev == '/' then depth - 1 else depth;
      NetAppend(a[1..], b, a[0], depth1);
    }
  }

  ghost predicate NoBrackets(s: string) {
    '<' !in s && '>' !in s
  }

  lemma {:induction false} PlainNet(s: string, prev: char, depth: int)
    requires NoBrackets(s)
    ensures Net(s, prev, depth) == Some(depth)
  {
    if s != "" {
      assert s[0] in s && forall c | c in s[1..] :: c in s;
      PlainNet(s[1..], s[0], depth);
    }
  }

  /** A name that can stand in a tag with a closing tag. */
  ghost predicate IsName(name: string) {
    NoBrackets(name) && name != "" && name[0] != '/' && name[|name| - 1] != '/'
  }

  function Open(name: string): string {
    "<" + name + ">"
  }

  function Close(name: string): string {
    "</" + name + ">"
  }

  function Element(name: string, text: string): string {
    Open(name) + text + Close(name)
  }

  lemma OpenNet(name: string, prev: char, depth: int)
    requires IsName(name)
    ensures Net(Open(name), prev, depth) == Some(depth + 1)
  {
    assert Open(name)[1..] == name + ">";
    PlainNet(name, '<', depth + 1);
    NetAppend(name, ">", '<', depth + 1);
    assert ">"[1..] == "";
  }

  lemma CloseNet(name: string, prev: char, depth: int)
    requires IsName(name) && depth != 1
    ensures Net(Close(name), prev, depth) == Some(depth - 1)
  {
    var rest := "/" + name + ">";
    assert Close(name)[1..] == rest && rest[1..] == name + ">" && ">"[1..] == "";
    PlainNet(name, '/', depth - 1);
    NetAppend(name, ">", '/', depth - 1);
  }

  lemma ElementNet(name: string, text: string, prev: char, depth: int)
    requires IsName(name) && depth >= 1 && Net(text, '>', depth + 1) == Some(depth + 1)
    ensures Net(Element(name, text), prev, depth) == Some(depth)
  {
    hide Net;
    OpenNet(name, prev, depth);
    var tail := text + Close(name);
    assert Element(name, text) == Open(name) + tail;
    NetAppend(Open(name), tail, prev, depth);
    if text == "" {
      assert tail == Close(name);
      CloseNet(name, '>', depth + 1);
    } else {
      NetAppend(text, Close(name), '>', depth + 1);
      CloseNet(name, text[|text| - 1], depth + 1);
    }
  }

  lemma {:induction false} FindBehind(before: string, c: char, rest: string)
    requires c !in before
    ensures Find(before + [c] + rest, c) == |before|
  {
    var s := before + [c] + rest;
    if before != "" {
      assert s[1..] == before[1..] + [c] + rest && before[0] in before;
      FindBehind(before[1..], c, rest);
    }
  }

  /** The text ends at its closing tag if and only if it leaves one tag open and does not close it before. */
  lemma TextEnds(name: string, text: string, rest: string)
    requires IsName(name)
    ensures TagText(name, text + Close(name) + rest) == Tag(name, text, rest) <==> Net(text, '>', 1) == Some(1)
  {
    var u, tail := text + Close(name) + rest, Close(name) + rest;
    assert u == text + tail && tail[0] == '<' && tail[1] == '/';
    ScanOver(text, tail, '>', 1);
    var close := Scan(u, '>', 1);
    if Net(text, '>', 1) == Some(1) {
      assert close == |text| && u[close..] == tail && u[..close] == text;
      assert tail == ("</" + name) + ['>'] + rest;
      FindBehind("</" + name, '>', rest);
      assert u[close + |name| + 3..] == rest;
    } else {
      assert close != |text|;
      assert |u[..close]| != |text|;
    }
  }

  /** What a tag with this name is read as. */
  ghost function Named(name: string, u: string): NextTagResult {
    if name != "" && name[|name| - 1] == '/' then Tag(name, "", u) else TagText(name, u)
  }

  lemma TagAt(s: string, start: nat, t: string, end: nat)
    requires start == Find(s, '<') < |s| && t == s[start + 1..] && end == Find(t, '>') < |t|
    ensures NextTag(s) == Named(t[..end], t[end + 1..])
  {
    hide TagText, Find;
  }

  /** The next tag of a text that begins without brackets. */
  lemma TagHere(before: string, name: string, u: string)
    requires NoBrackets(before) && NoBrackets(name)
    ensures NextTag(before + Open(name) + u) == Named(name, u)
  {
    hide NextTag, Named, Find;
    var s, t := before + Open(name) + u, name + ">" + u;
    assert s == before + ['<'] + t && t == name + ['>'] + u;
    FindBehind(before, '<', t);
    FindBehind(name, '>', u);
    assert s[|before| + 1..] == t && t[..|name|] == name && t[|name| + 1..] == u;
    TagAt(s, |before|, t, |name|);
  }

  /** An element is read as written if and only if its text leaves one tag open and does not close it before. */
  lemma ElementIsNext(before: string, name: string, text: string, rest: string)
    requires NoBrackets(before) && IsName(name)
    ensures NextTag(before + Element(name, text) + rest) == Tag(name, text, rest) <==> Net(text, '>', 1) == Some(1)
  {
    hide NextTag, TagText, Net;
    var u := text + Close(name) + rest;
    assert before + Element(name, text) + rest == before + Open(name) + u;
    TagHere(before, name, u);
    TextEnds(name, text, rest);
  }

  /** A tag that ends with a slash. */
  lemma EmptyElementIsNext(before: string, name: string, rest: string)
    requires NoBrackets(before) && NoBrackets(name)
    ensures NextTag(before + Open(name + "/") + rest) == Tag(name + "/", "", rest)
  {
    hide NextTag, TagText;
    TagHere(before, name + "/", rest);
  }

  lemma EmptyElementNet(name: string, prev: char, depth: int)
    requires IsName(name)
    ensures Net(Open(name + "/"), prev, depth) == Some(depth)
  {
    var body := name + "/>";
    assert Open(name + "/") == "<" + body && Open(name + "/")[1..] == body;
    PlainNet(name, '<', depth + 1);
    NetAppend(name, "/>", '<', depth + 1);
    assert "/>"[1..] == ">" && ">"[1..] == "";
    assert Net(">", '/', depth + 1) == Some(depth);
    assert Net("/>", name[|name| - 1], depth + 1) == Some(depth);
  }

  // ----- Texts that come out even -----

  /** The text leaves as many tags open as there were, whether one or up to k of them are open around it. */
  ghost predicate Even(s: string, k: int) {
    forall d | 1 <= d <= k :: Net(s, '>', d) == Some(d)
  }

  lemma PlainIsEven(s: string, k: int)
    requires NoBrackets(s)
    ensures Even(s, k)
  {
    forall d | 1 <= d <= k ensures Net(s, '>', d) == Some(d) {
      PlainNet(s, '>', d);
    }
  }

  /** Where the scan goes over a text at two depths, it ends as far apart as it began. */
  lemma {:induction false} NetShift(c: string, prev: char, a: int, b: int)
    requires Net(c, prev, a).Some? && Net(c, prev, b).Some?
    ensures Net(c, prev, b).value - Net(c, prev, a).value == b - a
  {
    if c != "" {
      var step := if c[0] == '<' then (if |c| > 1 && c[1] == '/' then -1 else 1) else if c[0] == '>' && prev == '/' then -1 else 0;
      NetShift(c[1..], c[0], a + step, b + step);
    }
  }

  /** So a text that comes out even at one depth comes out even at another, unless the scan stops inside. */
  lemma EvenOrStops(c: string, d: int)
    requires Even(c, 1)
    ensures Net(c, '>', d) == None || Net(c, '>', d) == Some(d)
  {
    assert Net(c, '>', 1) == Some(1);
    if Net(c, '>', d).Some? {
      NetShift(c, '>', 1, d);
    }
  }

  lemma NetFirst(c: char, rest: string, prev: char, depth: int)
    ensures Net([c] + rest, prev, depth) ==
      if c == '<' && rest != "" && rest[0] == '/' then (if depth == 1 then None else Net(rest, c, depth - 1))
      else Net(rest, c, if c == '<' then depth + 1 else if c == '>' && prev == '/' then depth - 1 else depth)
  {
    assert ([c] + rest)[1..] == rest;
  }

  /** A text that comes out even by itself, but not inside another element: there the scan stops at its closing tag. */
  lemma EvenOnceOnly()
    ensures Even("/></<<", 1) && Net("/></<<", '>', 2) == None
  {
    hide Net;
    var a, b, c, d, e := "/></<<", "></<<", "</<<", "/<<", "<<";
    assert a == ['/'] + b && b == ['>'] + c && c == ['<'] + d && d == ['/'] + e && e == ['<'] + "<" && "<" == ['<'] + "";
    NetFirst('/', b, '>', 1);
    NetFirst('>', c, '/', 1);
    NetFirst('<', d, '>', 0);
    NetFirst('/', e, '<', -1);
    NetFirst('<', "<", '/', -1);
    NetFirst('<', "", '<', 0);
    NetNothing('<', 1);
    NetFirst('/', b, '>', 2);
    NetFirst('>', c, '/', 2);
    NetFirst('<', d, '>', 1);
  }

  /** An element's effect is that of its text, unless the closing tag closes all. */
  lemma ElementOver(name: string, text: string, prev: char, depth: int)
    requires IsName(name)
    ensures Net(Element(name, text), prev, depth) ==
      match Net(text, '>', depth + 1)
      case None => None
      case Some(e) => if e == 1 then None else Some(e - 1)
  {
    hide Net;
    OpenNet(name, prev, depth);
    var tail := text + Close(name);
    assert Element(name, text) == Open(name) + tail;
    NetAppend(Open(name), tail, prev, depth);
    if text == "" {
      assert tail == Close(name);
      NetNothing('>', depth + 1);
      CloseOver(name, '>', depth + 1);
    } else {
      NetAppend(text, Close(name), '>', depth + 1);
      var after := Net(text, '>', depth + 1);
      if after.Some? {
        CloseOver(name, text[|text| - 1], after.value);
      }
    }
  }

  lemma NetNothing(prev: char, depth: int)
    ensures Net("", prev, depth) == Some(depth)
  {}

  lemma CloseOver(name: string, prev: char, depth: int)
    requires IsName(name)
    ensures Net(Close(name), prev, depth) == if depth == 1 then None else Some(depth - 1)
  {
    if depth != 1 {
      CloseNet(name, prev, depth);
    }
  }

  /** Where the scan stops before the end, there is a closing tag, and the text before it has come out even. */
  lemma {:induction false} ScanStops(u: string, prev: char, depth: int)
    requires Scan(u, prev, depth) < |u|
    ensures var j := Scan(u, prev, depth); j + 1 < |u| && u[j] == '<' && u[j + 1] == '/' && Net(u[..j], prev, depth) == Some(1)
  {
    var j := Scan(u, prev, depth);
    if j > 0 {
      var step := if u[0] == '<' then (if |u| > 1 && u[1] == '/' then -1 else 1) else if u[0] == '>' && prev == '/' then -1 else 0;
      ScanStops(u[1..], u[0], depth + step);
      assert u[..j][1..] == u[1..][..j - 1];
      assert |u[..j]| > 1 ==> u[..j][1] == u[1];
    }
  }

  /** Whatever is read as the text of a tag comes out even. */
  lemma TextIsEven(s: string)
    requires NextTag(s).Tag?
    ensures Even(NextTag(s).xml, 1)
  {
    var start := Find(s, '<');
    var t := s[start + 1..];
    var end := Find(t, '>');
    var name, u := t[..end], t[end + 1..];
    if name != "" && name[|name| - 1] == '/' {
      NetNothing('>', 1);
    } else {
      if Scan(u, '>', 1) < |u| {
        ScanStops(u, '>', 1);
      }
    }
  }

  // ----- Texts that are cut off -----

  /** The scan stops where it does as long as the closing tag has begun. */
  lemma {:induction false} ScanCut(u: string, q: nat, prev: char, depth: int)
    requires q <= |u|
    ensures Scan(u[..q], prev, depth) == if Scan(u, prev, depth) + 2 <= q then Scan(u, prev, depth) else q
  {
    var c := u[..q];
    if q > 0 {
      assert c[1..] == u[1..][..q - 1] && (q > 1 ==> c[1] == u[1]);
      var step := if u[0] == '<' then (if |c| > 1 && c[1] == '/' then -1 else 1) else if u[0] == '>' && prev == '/' then -1 else 0;
      if u[0] == '<' && |u| > 1 && u[1] == '/' && depth - 1 == 0 {
        if q == 1 {
          assert c[1..] == "";
        }
      } else {
        if q == 1 {
          assert c[1..] == "";
        } else {
          ScanCut(u[1..], q - 1, u[0], depth + step);
        }
      }
    }
  }

  lemma {:induction false} FindCut(s: string, q: nat, c: char)
    requires q <= |s|
    ensures Find(s[..q], c) == if Find(s, c) < q then Find(s, c) else q
  {
    if q > 0 && s[0] != c {
      assert s[..q][1..] == s[1..][..q - 1];
      FindCut(s[1..], q - 1, c);
    }
  }

  /** The tag is not there, or broken, when the text ends inside it. */
  lemma TagCut(before: string, name: string, u: string, m: nat)
    requires NoBrackets(before) && NoBrackets(name) && m <= |before + Open(name) + u|
    ensures NextTag((before + Open(name) + u)[..m]) ==
      if m <= |before| then NoTag
      else if m < |before| + |name| + 2 then Broken
      else Named(name, u[..m - |before| - |name| - 2])
  {
    hide Named, Find;
    var s, t := before + Open(name) + u, name + ">" + u;
    assert s == before + ['<'] + t && t == name + ['>'] + u;
    FindBehind(before, '<', t);
    FindCut(s, m, '<');
    var c := s[..m];
    if m <= |before| {
      assert Find(c, '<') == |c|;
    } else {
      var q := m - |before| - 1;
      var d := t[..q];
      assert c[|before| + 1..] == d;
      FindBehind(name, '>', u);
      FindCut(t, q, '>');
      if |name| < q {
        assert d[..|name|] == name && d[|name| + 1..] == u[..q - |name| - 1];
        TagAt(c, |before|, d, |name|);
      } else {
        BrokenTag(c, |before|, d);
      }
    }
  }

  lemma BrokenTag(s: string, start: nat, t: string)
    requires start == Find(s, '<') < |s| && t == s[start + 1..] && Find(t, '>') == |t|
    ensures NextTag(s) == Broken
  {
    hide Find, TagText;
  }

  /** What is read of a text, its closing tag, and what follows, when all that ends at q. */
  ghost predicate CutAs(r: NextTagResult, name: string, text: string, rest: string, q: int) {
    r.Tag? ==>
      var u, k := text + Close(name) + rest, |text| + |Close(name)|;
      var j := Scan(u, '>', 1);
      && r.name == name && j + 1 < |u| && u[j] == '<' && r.xml == u[..j]
      && (j == |text| ==> k <= q <= k + |rest| && r.rest == rest[..q - k])
  }

  lemma TextCut(name: string, text: string, rest: string, q: nat)
    requires IsName(name) && q <= |text + Close(name) + rest|
    ensures CutAs(TagText(name, (text + Close(name) + rest)[..q]), name, text, rest, q)
  {
    var u := text + Close(name) + rest;
    var c, j := u[..q], Scan(u, '>', 1);
    hide Scan, Find, Net;
    ScanCut(u, q, '>', 1);
    if j + 2 <= q {
      ScanStops(u, '>', 1);
      assert c[..j] == u[..j];
      if j == |text| {
        EndCut(name, text, rest, q);
      }
    } else {
      assert c[q..] == "";
      FindNothing('>');
    }
  }

  lemma FindNothing(c: char)
    ensures Find("", c) == 0
  {}

  /** The end of the closing tag. */
  lemma EndCut(name: string, text: string, rest: string, q: nat)
    requires IsName(name) && |text| <= q <= |text + Close(name) + rest|
    ensures var c, k := (text + Close(name) + rest)[..q], |text| + |Close(name)|;
      var last := |text| + Find(c[|text|..], '>');
      && last <= |c| && (last < |c| <==> k <= q)
      && (k <= q ==> q - k <= |rest| && last + 1 == k && c[last + 1..] == rest[..q - k])
  {
    hide Find;
    var u, tail := text + Close(name) + rest, Close(name) + rest;
    assert u[|text|..] == tail && tail == ("</" + name) + ['>'] + rest && u[..q][|text|..] == tail[..q - |text|];
    FindBehind("</" + name, '>', rest);
    FindCut(tail, q - |text|, '>');
  }

  lemma ElementCut(before: string, name: string, text: string, rest: string, m: nat)
    requires NoBrackets(before) && IsName(name) && m <= |before + Element(name, text) + rest|
    ensures CutAs(NextTag((before + Element(name, text) + rest)[..m]), name, text, rest, m - |before + Open(name)|)
  {
    hide TagText, CutAs, NextTag;
    var u := text + Close(name) + rest;
    assert before + Element(name, text) + rest == before + Open(name) + u;
    TagCut(before, name, u, m);
    NeitherCut(name, text, rest, m - |before + Open(name)|);
    if m >= |before| + |name| + 2 {
      TextCut(name, text, rest, m - |before| - |name| - 2);
    }
  }

  lemma NeitherCut(name: string, text: string, rest: string, q: int)
    ensures CutAs(NoTag, name, text, rest, q) && CutAs(Broken, name, text, rest, q)
  {}

  /** An empty element that is read has not been cut. */
  lemma EmptyElementCut(before: string, name: string, rest: string, m: nat)
    requires NoBrackets(before) && NoBrackets(name) && m <= |before + Open(name + "/") + rest|
    ensures NextTag((before + Open(name + "/") + rest)[..m]).Tag? ==>
      |before + Open(name + "/")| <= m
      && NextTag((before + Open(name + "/") + rest)[..m]) == Tag(name + "/", "", rest[..m - |before + Open(name + "/")|])
  {
    hide NextTag;
    TagCut(before, name + "/", rest, m);
  }
}
