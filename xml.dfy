/**
 * `xml` and `escapeXML` of CRM_Utils_Array: an array written out as an XML
 * fragment, one element per entry, with the text of scalar values escaped.
 */
module ArrayXml {
  import opened PhpValues

  /** The control character U+0001 (^A), CiviCRM's value separator. */
  const CtrlA: char := 1 as char

  /** `str_replace($c, $rep, $s)` for a one-character search string. */
  function ReplaceChar(s: string, c: char, rep: string): string
  {
    if s == "" then "" else (if s[0] == c then rep else [s[0]]) + ReplaceChar(s[1..], c, rep)
  }

  lemma {:induction false} ReplaceCharConcat(a: string, b: string, c: char, rep: string)
    ensures ReplaceChar(a + b, c, rep) == ReplaceChar(a, c, rep) + ReplaceChar(b, c, rep)
  {
    if a == "" {
      assert a + b == b;
    } else {
      assert (a + b)[1..] == a[1..] + b;
      ReplaceCharConcat(a[1..], b, c, rep);
    }
  }

  lemma {:induction false} ReplaceCharAbsent(s: string, c: char, rep: string)
    requires c !in s
    ensures ReplaceChar(s, c, rep) == s
  {
    if s != "" {
      ReplaceCharAbsent(s[1..], c, rep);
    }
  }

  lemma ReplaceCharSingle(x: char, c: char, rep: string)
    ensures ReplaceChar([x], c, rep) == if x == c then rep else [x]
  {
    assert [x][1..] == "";
  }

  /** The four replacements of escapeXML, applied one after the other to
      the whole string, as str_replace with a search list does. */
  function ReplaceAll(s: string): string
  {
    ReplaceChar(ReplaceChar(ReplaceChar(ReplaceChar(s, '&', "&amp;"), '<', "&lt;"), '>', "&gt;"), CtrlA, ",")
  }

  /** `escapeXML($value)`: str_replace with the search list '&', '<', '>',
      ^A and the replacements "&amp;", "&lt;", "&gt;", ",". */
  function EscapeXML(value: string): (r: string)
    ensures r == EscapeEach(value)
    ensures '<' !in r && '>' !in r && CtrlA !in r
    ensures UnescapeXML(r) == ReplaceChar(value, CtrlA, ",")
  {
    EscapeXMLCharwise(value);
    EscapeEachClean(value);
    UnescapeEscape(value);
    ReplaceAll(value)
  }

  /** What escaping turns one character into. */
  function EscapeChar(c: char): string
  {
    if c == '&' then "&amp;"
    else if c == '<' then "&lt;"
    else if c == '>' then "&gt;"
    else if c == CtrlA then ","
    else [c]
  }

  /** Escaping read character by character: the reference definition. */
  function EscapeEach(s: string): string
  {
    if s == "" then "" else EscapeChar(s[0]) + EscapeEach(s[1..])
  }

  lemma ReplaceAllConcat(a: string, b: string)
    ensures ReplaceAll(a + b) == ReplaceAll(a) + ReplaceAll(b)
  {
    var a1, b1 := ReplaceChar(a, '&', "&amp;"), ReplaceChar(b, '&', "&amp;");
    ReplaceCharConcat(a, b, '&', "&amp;");
    var a2, b2 := ReplaceChar(a1, '<', "&lt;"), ReplaceChar(b1, '<', "&lt;");
    ReplaceCharConcat(a1, b1, '<', "&lt;");
    var a3, b3 := ReplaceChar(a2, '>', "&gt;"), ReplaceChar(b2, '>', "&gt;");
    ReplaceCharConcat(a2, b2, '>', "&gt;");
    ReplaceCharConcat(a3, b3, CtrlA, ",");
  }

  lemma ReplaceAllChar(c: char)
    ensures ReplaceAll([c]) == EscapeChar(c)
  {
    ReplaceCharSingle(c, '&', "&amp;");
    if c == '&' {
      ReplaceAllAmp();
    } else {
      ReplaceCharSingle(c, '<', "&lt;");
      if c == '<' {
        ReplaceAllLt();
      } else {
        ReplaceCharSingle(c, '>', "&gt;");
        if c != '>' {
          ReplaceCharSingle(c, CtrlA, ",");
        } else {
          ReplaceCharAbsent("&gt;", CtrlA, ",");
        }
      }
    }
  }

  /** The replacements after the first leave alone a text without the
      characters they search for. */
  lemma LaterReplacementsKeep(s: string)
    requires '<' !in s && '>' !in s && CtrlA !in s
    ensures ReplaceChar(ReplaceChar(ReplaceChar(s, '<', "&lt;"), '>', "&gt;"), CtrlA, ",") == s
  {
    ReplaceCharAbsent(s, '<', "&lt;");
    ReplaceCharAbsent(s, '>', "&gt;");
    ReplaceCharAbsent(s, CtrlA, ",");
  }

  lemma ReplaceAllAmp()
    ensures ReplaceChar(ReplaceChar(ReplaceChar("&amp;", '<', "&lt;"), '>', "&gt;"), CtrlA, ",") == "&amp;"
  {
    var amp := "&amp;";
    assert forall i :: 0 <= i < |amp| ==> amp[i] in {'&', 'a', 'm', 'p', ';'};
    LaterReplacementsKeep(amp);
  }

  lemma ReplaceAllLt()
    ensures ReplaceChar(ReplaceChar("&lt;", '>', "&gt;"), CtrlA, ",") == "&lt;"
  {
    var lt := "&lt;";
    assert forall i :: 0 <= i < |lt| ==> lt[i] in {'&', 'l', 't', ';'};
    LaterReplacementsKeep(lt);
  }

  /** The four successive replacements act on each character separately,
      because no replacement text contains a character searched for later. */
  lemma {:induction false} EscapeXMLCharwise(s: string)
    ensures ReplaceAll(s) == EscapeEach(s)
  {
    if s == "" {
      assert ReplaceAll(s) == "";
    } else {
      assert s == [s[0]] + s[1..];
      ReplaceAllConcat([s[0]], s[1..]);
      ReplaceAllChar(s[0]);
      EscapeXMLCharwise(s[1..]);
    }
  }

  lemma {:induction false} EscapeEachClean(s: string)
    ensures '<' !in EscapeEach(s) && '>' !in EscapeEach(s) && CtrlA !in EscapeEach(s)
  {
    if s != "" {
      EscapeEachClean(s[1..]);
    }
  }

  /** Decoding of the three entities that escaping writes. */
  function UnescapeXML(s: string): string
    decreases |s|
  {
    if s == "" then ""
    else if |s| >= 5 && s[..5] == "&amp;" then "&" + UnescapeXML(s[5..])
    else if |s| >= 4 && s[..4] == "&lt;" then "<" + UnescapeXML(s[4..])
    else if |s| >= 4 && s[..4] == "&gt;" then ">" + UnescapeXML(s[4..])
    else [s[0]] + UnescapeXML(s[1..])
  }

  /** Decoding undoes escaping except that ^A comes back as a comma. */
  lemma {:induction false} UnescapeEscape(s: string)
    ensures UnescapeXML(EscapeEach(s)) == ReplaceChar(s, CtrlA, ",")
  {
    if s != "" {
      UnescapeEscape(s[1..]);
      UnescapeStep(s[0], EscapeEach(s[1..]));
    }
  }

  /** Decoding the escape of one character gives the character back, ^A
      as a comma. */
  lemma UnescapeStep(c: char, rest: string)
    ensures UnescapeXML(EscapeChar(c) + rest) == (if c == CtrlA then "," else [c]) + UnescapeXML(rest)
  {
    if c == '&' {
      UnescapeAmp(rest);
    } else if c == '<' {
      UnescapeLt(rest);
    } else if c == '>' {
      UnescapeGt(rest);
    } else {
      var x := if c == CtrlA then ',' else c;
      assert EscapeChar(c) == [x];
      UnescapePlain(x, rest);
    }
  }

  lemma UnescapePlain(x: char, rest: string)
    requires x != '&'
    ensures UnescapeXML([x] + rest) == [x] + UnescapeXML(rest)
  {
    var e := [x] + rest;
    assert e[0] == x && e[1..] == rest;
  }

  lemma UnescapeAmp(rest: string)
    ensures UnescapeXML("&amp;" + rest) == "&" + UnescapeXML(rest)
  {
    var e := "&amp;" + rest;
    assert e[..5] == "&amp;" && e[5..] == rest;
  }

  lemma UnescapeLt(rest: string)
    ensures UnescapeXML("&lt;" + rest) == "<" + UnescapeXML(rest)
  {
    var e := "&lt;" + rest;
    assert e[1] == 'l' && e[..4] == "&lt;" && e[4..] == rest;
  }

  lemma UnescapeGt(rest: string)
    ensures UnescapeXML("&gt;" + rest) == ">" + UnescapeXML(rest)
  {
    var e := "&gt;" + rest;
    assert e[1] == 'g' && e[..4] == "&gt;" && e[4..] == rest;
  }

  /** `str_repeat(' ', $depth * 4)`. */
  function Indent(depth: nat): string
  {
    seq(depth * 4, _ => ' ')
  }

  /** The text `xml` writes for a list of entries at a given depth. */
  function XmlOf(list: Entries, depth: nat, sep: string): string
    decreases ESize(list), 0
  {
    if list == [] then ""
    else
      ESizeSplit(list);
      XmlElement(list[0].0, list[0].1, depth, sep) + XmlOf(list[1..], depth, sep)
  }

  function Open(tag: string): string
  {
    "<" + tag + ">"
  }

  function Close(tag: string): string
  {
    "</" + tag + ">"
  }

  /** The text `xml` writes for one entry: a nested element for an array,
      otherwise the escaped string form of the value. */
  function XmlElement(name: Key, value: Mixed, depth: nat, sep: string): string
    decreases Size(value), 1
  {
    var tag := KeyToString(name);
    if value.Arr? then
      Indent(depth) + Open(tag) + sep + XmlOf(value.entries, depth + 1, sep) + Indent(depth) + Close(tag) + sep
    else
      Indent(depth) + Open(tag) + EscapeXML(ToStr(value)) + Close(tag) + sep
  }

  /** `xml($list, $depth, $seperator)`. */
  method Xml(list: Entries, depth: nat, sep: string) returns (xml: string)
    decreases ESize(list)
    ensures xml == XmlOf(list, depth, sep)
  {
    xml := "";
    for i := 0 to |list|
      invariant xml + XmlOf(list[i..], depth, sep) == XmlOf(list, depth, sep)
    {
      var name, value := list[i].0, list[i].1;
      var tag := KeyToString(name);
      var piece := Indent(depth);
      if value.Arr? {
        ESizeElement(list, i);
        var inner := Xml(value.entries, depth + 1, sep);
        piece := piece + Open(tag) + sep;
        piece := piece + inner;
        piece := piece + Indent(depth);
        piece := piece + Close(tag) + sep;
      } else {
        var escaped := EscapeXML(ToStr(value));
        piece := piece + Open(tag) + escaped + Close(tag) + sep;
      }
      assert piece == XmlElement(name, value, depth, sep);
      XmlOfStep(list, i, depth, sep);
      Associative(xml, piece, XmlOf(list[i + 1..], depth, sep));
      xml := xml + piece;
    }
    assert list[|list|..] == [];
  }

  /** The text of the entries from i on: entry i's element, then the rest. */
  lemma XmlOfStep(list: Entries, i: nat, depth: nat, sep: string)
    requires i < |list|
    ensures XmlOf(list[i..], depth, sep) == XmlElement(list[i].0, list[i].1, depth, sep) + XmlOf(list[i + 1..], depth, sep)
  {
    assert list[i..][0] == list[i] && list[i..][1..] == list[i + 1..];
  }

  /** Number of elements `xml` writes: one per entry, nested ones included. */
  ghost function ElementCount(list: Entries): nat
    decreases ESize(list)
  {
    if list == [] then 0
    else
      ESizeSplit(list);
      1 + (if list[0].1.Arr? then ElementCount(list[0].1.entries) else 0) + ElementCount(list[1..])
  }

  /** No key of list or of its nested arrays contains c. */
  ghost predicate NamesWithout(list: Entries, c: char)
    decreases ESize(list)
  {
    if list == [] then true
    else
      ESizeSplit(list);
      c !in KeyToString(list[0].0) &&
      (list[0].1.Arr? ==> NamesWithout(list[0].1.entries, c)) &&
      NamesWithout(list[1..], c)
  }

  /** A character that marks up a tag. */
  predicate TagChar(c: char)
  {
    c == '<' || c == '>'
  }

  /** Escaping keeps markup out of values: when neither the keys nor the
      separator contain '<' or '>', the fragment holds exactly one '<' and
      one '>' per tag, two of each per element. */
  lemma {:induction false} XmlTagCount(list: Entries, depth: nat, sep: string, c: char)
    requires TagChar(c) && c !in sep && NamesWithout(list, c)
    ensures Occurrences(XmlOf(list, depth, sep), c) == 2 * ElementCount(list)
    decreases ESize(list), 0
  {
    if list != [] {
      ESizeSplit(list);
      var (name, value) := list[0];
      assert c !in KeyToString(name) && (value.Arr? ==> NamesWithout(value.entries, c)) && NamesWithout(list[1..], c);
      XmlTagCount(list[1..], depth, sep, c);
      XmlElementTagCount(name, value, depth, sep, c);
      var head, tail := XmlElement(name, value, depth, sep), XmlOf(list[1..], depth, sep);
      assert XmlOf(list, depth, sep) == head + tail;
      assert ElementCount(list) == 1 + (if value.Arr? then ElementCount(value.entries) else 0) + ElementCount(list[1..]);
      CountConcat(head, tail, c);
    } else {
      assert XmlOf(list, depth, sep) == "";
    }
  }

  /** How many times c occurs in s. */
  function Occurrences(s: string, c: char): nat
  {
    if s == "" then 0 else (if s[0] == c then 1 else 0) + Occurrences(s[1..], c)
  }

  lemma {:induction false} CountConcat(a: string, b: string, c: char)
    ensures Occurrences(a + b, c) == Occurrences(a, c) + Occurrences(b, c)
  {
    if a != "" {
      assert (a + b)[1..] == a[1..] + b;
      CountConcat(a[1..], b, c);
    } else {
      assert a + b == b;
    }
  }

  lemma {:induction false} CountAbsent(s: string, c: char)
    requires c !in s
    ensures Occurrences(s, c) == 0
  {
    if s != "" {
      CountAbsent(s[1..], c);
    }
  }

  lemma TagMarks(tag: string, c: char)
    requires TagChar(c) && c !in tag
    ensures Occurrences(Open(tag), c) == 1 && Occurrences(Close(tag), c) == 1
  {
    CountAbsent(tag, c);
    CountConcat(['<'] + tag, ['>'], c);
    CountConcat(['<'], tag, c);
    CountConcat(['<', '/'] + tag, ['>'], c);
    CountConcat(['<', '/'], tag, c);
    assert Open(tag) == ['<'] + tag + ['>'];
    assert Close(tag) == ['<', '/'] + tag + ['>'];
  }

  lemma IndentBlank(depth: nat, c: char)
    requires TagChar(c)
    ensures Occurrences(Indent(depth), c) == 0
  {
    CountAbsent(Indent(depth), c);
  }

  /** Each element is its indentation, its opening tag, a body, its closing
      tag and the separator. */
  function ElementBody(value: Mixed, depth: nat, sep: string): string
    decreases Size(value), 0
  {
    if value.Arr? then sep + XmlOf(value.entries, depth + 1, sep) + Indent(depth)
    else EscapeXML(ToStr(value))
  }

  lemma ElementShape(name: Key, value: Mixed, depth: nat, sep: string)
    ensures XmlElement(name, value, depth, sep) ==
            Indent(depth) + Open(KeyToString(name)) + ElementBody(value, depth, sep) + Close(KeyToString(name)) + sep
  {
  }

  /** The body of an element holds two marks of each kind per nested
      element, and none for a scalar. */
  lemma {:induction false} BodyTagCount(value: Mixed, depth: nat, sep: string, c: char)
    requires TagChar(c) && c !in sep
    requires value.Arr? ==> NamesWithout(value.entries, c)
    ensures Occurrences(ElementBody(value, depth, sep), c) == 2 * (if value.Arr? then ElementCount(value.entries) else 0)
    decreases Size(value), 1
  {
    if value.Arr? {
      assert ESize(value.entries) == Size(value);
      XmlTagCount(value.entries, depth + 1, sep, c);
      IndentBlank(depth, c);
      var x := XmlOf(value.entries, depth + 1, sep);
      CountConcat(sep, x, c);
      CountConcat(sep + x, Indent(depth), c);
      CountAbsent(sep, c);
    } else {
      CountAbsent(EscapeXML(ToStr(value)), c);
    }
  }

  lemma {:induction false} XmlElementTagCount(name: Key, value: Mixed, depth: nat, sep: string, c: char)
    requires TagChar(c) && c !in sep && c !in KeyToString(name)
    requires value.Arr? ==> NamesWithout(value.entries, c)
    ensures Occurrences(XmlElement(name, value, depth, sep), c) ==
            2 * (1 + if value.Arr? then ElementCount(value.entries) else 0)
    decreases Size(value), 2
  {
    var tag := KeyToString(name);
    IndentBlank(depth, c);
    TagMarks(tag, c);
    BodyTagCount(value, depth, sep, c);
    var body := ElementBody(value, depth, sep);
    var a := Indent(depth) + Open(tag);
    CountConcat(Indent(depth), Open(tag), c);
    var b := a + body;
    CountConcat(a, body, c);
    var d := b + Close(tag);
    CountConcat(b, Close(tag), c);
    CountConcat(d, sep, c);
    CountAbsent(sep, c);
    ElementShape(name, value, depth, sep);
  }
}
