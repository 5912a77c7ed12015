/** The loops of the TinyXML text routines and parser, each against its function. */
module XmlReader {
  import opened XmlText
  import opened XmlCharRef
  import opened XmlParser

  method SkipBlanks(p: Ptr) returns (r: Ptr)
    ensures r == SkipWhiteSpace(p)
  {
    if !More(p) {
      return Null;
    }
    var s := p.s;
    while s != "" && IsWhiteSpace(s[0])
      invariant DropWhite(s) == DropWhite(p.s)
      decreases |s|
    {
      s := s[1..];
    }
    return At(s);
  }

  method TakeName(p: Ptr) returns (name: string, r: Ptr)
    ensures (name, r) == ReadName(p)
  {
    name := "";
    if More(p) && NameStart(p.s[0]) {
      var i := 0;
      assert p.s[0..] == p.s;
      while i < |p.s| && NameChar(p.s[i])
        invariant i <= |p.s| && i + NameLength(p.s[i..]) == NameLength(p.s)
      {
        assert p.s[i..][1..] == p.s[i + 1..];
        i := i + 1;
      }
      if i > 0 {
        name := p.s[..i];
      }
      return name, At(p.s[i..]);
    }
    return name, Null;
  }

  /** strchr */
  method FindChar(s: string, c: char) returns (k: nat)
    ensures k == Find(s, c)
  {
    k := 0;
    assert s[0..] == s;
    while k < |s| && s[k] != c
      invariant k <= |s| && k + Find(s[k..], c) == Find(s, c)
    {
      assert s[k..][1..] == s[k + 1..];
      k := k + 1;
    }
  }

  /** The backward scan over a hexadecimal reference's digits; `first` is just after the `x`. */
  method ScanHex(s: string) returns (v: Number)
    ensures v == HexBack(s, 1, 0)
  {
    var q, mult: nat, sum: nat := |s|, 1, 0;
    assert s[..q] == s;
    while q > 0 && s[q - 1] != 'x'
      invariant q <= |s| && HexBack(s[..q], mult, sum) == HexBack(s, 1, 0)
    {
      var d := HexDigit(s[q - 1]);
      assert s[..q][..q - 1] == s[..q - 1];
      if d.Bad? {
        return Bad;
      }
      mult, sum := (mult * 16) % WORD, (sum + mult * d.n) % WORD;
      q := q - 1;
    }
    return Good(sum);
  }

  method ScanDecimal(s: string) returns (v: Number)
    ensures v == DecBack(s, 1, 0)
  {
    var q, mult: nat, sum: nat := |s|, 1, 0;
    assert s[..q] == s;
    while q > 0 && s[q - 1] != '#'
      invariant q <= |s| && DecBack(s[..q], mult, sum) == DecBack(s, 1, 0)
    {
      assert s[..q][..q - 1] == s[..q - 1];
      if !('0' <= s[q - 1] <= '9') {
        return Bad;
      }
      mult, sum := (mult * 10) % WORD, (sum + mult * (s[q - 1] - '0') as int) % WORD;
      q := q - 1;
    }
    return Good(sum);
  }

  const ENTITIES: seq<(string, char)> :=
    [("&amp;", '&'), ("&lt;", '<'), ("&gt;", '>'), ("&quot;", '"'), ("&apos;", '\'')]

  /** At an ampersand; a character reference is the number its digits stand for. */
  method TakeEntity(s: string) returns (c: string, r: Ptr)
    requires s != ""
    ensures (c, r) == GetEntity(s)
    ensures "&#" < s && |s| > 2 ==>
              var k := Find(s[2..], ';');
              (c, r) == if k == |s| - 2 then ("", Null) else Referred(s[2..2 + k], s[3 + k..])
  {
    hide HexBack, DecBack, Find, Referred;
    if "&#" < s && |s| > 2 { ReferenceAt(s); }
    if |s| > 2 && s[1] == '#' {
      var first := if s[2] == 'x' then 3 else 2;
      if |s| == first {
        return "", Null;
      }
      var len := FindChar(s[first..], ';');
      if first + len >= |s| {
        return "", Null;
      }
      var v: Number;
      if s[2] == 'x' {
        v := ScanHex(s[first..first + len]);
      } else {
        v := ScanDecimal(s[first..first + len]);
      }
      if v.Bad? {
        return "", Null;
      }
      return [(v.n % 256) as char], At(s[first + len + 1..]);
    }
    var i := 0;
    while i < |ENTITIES|
      invariant i <= 5
      invariant forall j :: 0 <= j < i ==> !(ENTITIES[j].0 <= s)
    {
      if ENTITIES[i].0 <= s {
        return [ENTITIES[i].1], At(s[|ENTITIES[i].0|..]);
      }
      i := i + 1;
    }
    assert !(ENTITIES[0].0 <= s) && !(ENTITIES[1].0 <= s) && !(ENTITIES[2].0 <= s);
    assert !(ENTITIES[3].0 <= s) && !(ENTITIES[4].0 <= s);
    return "", At(s[1..]);
  }

  method TakeChar(s: string) returns (c: string, r: Ptr)
    requires s != ""
    ensures (c, r) == GetChar(s)
  {
    if s[0] == '&' {
      c, r := TakeEntity(s);
    } else {
      c, r := [s[0]], At(s[1..]);
    }
  }

  /** ReadText's first loop: white space kept. */
  method TakeKept(start: Ptr, endTag: string) returns (text: string, p: Ptr)
    ensures (text, p) == KeepText(start, endTag)
  {
    hide GetChar;
    text, p := "", start;
    while More(p) && !StringEqual(p, endTag)
      invariant KeepText(start, endTag).0 == text + KeepText(p, endTag).0
      invariant KeepText(start, endTag).1 == KeepText(p, endTag).1
      decreases Left(p)
    {
      var c, q := TakeChar(p.s);
      assert KeepText(p, endTag).0 == c + KeepText(q, endTag).0;
      text, p := text + c, q;
    }
    assert KeepText(p, endTag) == ("", p) && text + "" == text;
  }

  /** ReadText's second loop: white space condensed, any leading white space already skipped. */
  method TakeCondensed(start: Ptr, endTag: string) returns (text: string, p: Ptr)
    ensures (text, p) == CondenseText(start, endTag, false)
  {
    hide GetChar, CondenseText;
    var white := false;
    text, p := "", start;
    while More(p) && !StringEqual(p, endTag)
      invariant CondenseText(start, endTag, false).0 == text + CondenseText(p, endTag, white).0
      invariant CondenseText(start, endTag, false).1 == CondenseText(p, endTag, white).1
      decreases Left(p)
    {
      CondenseRound(p, endTag, white);
      if p.s[0] == '\r' || p.s[0] == '\n' {
        white := true;
        p := At(p.s[1..]);
      } else if IsWhiteSpace(p.s[0]) {
        white := true;
        p := At(p.s[1..]);
      } else {
        if white {
          text := text + " ";
          white := false;
        }
        var c, q := TakeChar(p.s);
        text, p := text + c, q;
      }
    }
    CondenseEnd(p, endTag, white);
    assert text + "" == text;
  }

  lemma CondenseEnd(p: Ptr, endTag: string, white: bool)
    requires !More(p) || endTag <= p.s
    ensures CondenseText(p, endTag, white) == ("", p)
  {}

  method TakeText(start: Ptr, trim: bool, endTag: string) returns (text: string, p: Ptr)
    ensures (text, p) == ReadText(start, trim, endTag)
  {
    hide KeepText, CondenseText;
    if !trim {
      text, p := TakeKept(start, endTag);
    } else {
      p := SkipBlanks(start);
      text, p := TakeCondensed(p, endTag);
    }
    if More(p) {
      p := At(p.s[|endTag|..]);
    }
    p := if More(p) then p else Null;
  }

  /** The inner loop of EncodeString: copy from i up to the next semicolon, and never the last
      character. */
  method CopyReference(str: string, first: nat, start: string) returns (out: string, i: nat)
    requires first <= |str| - 3
    ensures i == first + PassLength(str[first..]) && out == start + str[first..i]
  {
    out, i := start, first;
    assert str[first..first] == "";
    while i < |str| - 1
      invariant first <= i <= |str| - 1 && out == start + str[first..i]
      invariant i - first + PassLength(str[i..]) == PassLength(str[first..])
    {
      assert str[first..i] + [str[i]] == str[first..i + 1];
      assert str[i..][1..] == str[i + 1..];
      out := out + [str[i]];
      i := i + 1;
      if str[i] == ';' {
        return;
      }
    }
  }

  /** EncodeString, appending to what `out` already holds. */
  method EncodeString(str: string, start: string) returns (out: string)
    ensures out == start + Encode(str)
  {
    hide EncodeChar, PassLength, Encode;
    EncodeMore("", start);
    out := start;
    var i := 0;
    assert str[0..] == str;
    while i < |str|
      invariant i <= |str| && out + Encode(str[i..]) == start + Encode(str)
    {
      var c := str[i];
      ghost var rest, before := str[i..], out;
      RefAhead(str, i);
      if c == '&' && i < |str| - 2 && str[i + 1] == '#' && str[i + 2] == 'x' {
        var next;
        out, next := CopyReference(str, i, out);
        assert rest[..next - i] == str[i..next] && rest[next - i..] == str[next..];
        EncodeMore(rest, before);
        PassIsPositive(rest);
        i := next;
      } else {
        assert rest[1..] == str[i + 1..];
        EncodeMore(rest, before);
        out := out + EncodeChar(c);
        i := i + 1;
      }
    }
    assert str[i..] == "";
    EncodeMore("", out);
  }

  lemma EncodeMore(rest: string, before: string)
    ensures rest == "" ==> before + Encode(rest) == before
    ensures "&#x" <= rest ==>
              before + Encode(rest) == (before + rest[..PassLength(rest)]) + Encode(rest[PassLength(rest)..])
    ensures rest != "" && !("&#x" <= rest) ==>
              before + Encode(rest) == (before + EncodeChar(rest[0])) + Encode(rest[1..])
  {
    hide EncodeChar, PassLength;
  }

  lemma PassIsPositive(s: string)
    requires |s| >= 2
    ensures PassLength(s) >= 1
  {}

  lemma RefAhead(str: string, i: nat)
    requires i < |str|
    ensures "&#x" <= str[i..] <==> str[i] == '&' && i < |str| - 2 && str[i + 1] == '#' && str[i + 2] == 'x'
  {
    var rest := str[i..];
    if i < |str| - 2 {
      assert rest[0] == str[i] && rest[1] == str[i + 1] && rest[2] == str[i + 2];
      assert rest[..3] == [rest[0], rest[1], rest[2]];
    }
  }

  method TakeUpTo(s: string, tag: string) returns (value: string, rest: string)
    ensures (value, rest) == UpTo(s, tag)
  {
    hide UpTo;
    value, rest := "", s;
    while rest != "" && !(tag <= rest)
      invariant UpTo(s, tag).0 == value + UpTo(rest, tag).0 && UpTo(s, tag).1 == UpTo(rest, tag).1
      decreases |rest|
    {
      UpToStep(rest, tag, value);
      value, rest := value + [rest[0]], rest[1..];
    }
    UpToStep(rest, tag, value);
  }

  lemma UpToStep(rest: string, tag: string, value: string)
    ensures rest == "" || tag <= rest ==> value + UpTo(rest, tag).0 == value && UpTo(rest, tag).1 == rest
    ensures rest != "" && !(tag <= rest) ==>
              && value + UpTo(rest, tag).0 == (value + [rest[0]]) + UpTo(rest[1..], tag).0
              && UpTo(rest, tag).1 == UpTo(rest[1..], tag).1
  {}

  method TakeBareValue(s: string) returns (value: string, r: Ptr)
    ensures (value, r) == BareValue(s)
  {
    var rest := s;
    value := "";
    while rest != "" && !IsWhiteSpace(rest[0]) && rest[0] != '/' && rest[0] != '>'
      invariant BareValue(s).0 == value + BareValue(rest).0 && BareValue(s).1 == BareValue(rest).1
      decreases |rest|
    {
      if rest[0] == '\'' || rest[0] == '"' {
        assert value + "" == value;
        return value, Null;
      }
      assert BareValue(rest).0 == [rest[0]] + BareValue(rest[1..]).0;
      value, rest := value + [rest[0]], rest[1..];
    }
    assert value + "" == value;
    return value, At(rest);
  }

  method TakeAttribute(start: Ptr) returns (a: Attr, p: Ptr)
    ensures (a, p) == ParseAttribute(start)
  {
    hide ReadText, ReadName, DropWhite, BareValue;
    p := SkipBlanks(start);
    if !More(p) {
      return Attr("", ""), Null;
    }
    var name;
    name, p := TakeName(p);
    if !More(p) {
      return Attr(name, ""), Null;
    }
    p := SkipBlanks(p);
    if !More(p) || p.s[0] != '=' {
      return Attr(name, ""), Null;
    }
    p := SkipBlanks(At(p.s[1..]));
    if !More(p) {
      return Attr(name, ""), Null;
    }
    var value;
    if p.s[0] == '\'' || p.s[0] == '"' {
      value, p := TakeText(At(p.s[1..]), false, [p.s[0]]);
    } else {
      value, p := TakeBareValue(p.s);
    }
    return Attr(name, value), p;
  }

  method TakeDeclaration(start: Ptr) returns (f: Fields, p: Ptr)
    ensures (f, p) == ParseDeclaration(start)
  {
    hide ParseAttribute, DropWhite, StringEqualNoCase;
    f := Fields("", "", "");
    p := SkipBlanks(start);
    if !StringEqualNoCase(p, "<?xml") {
      return f, Null;
    }
    HeaderIsShort(p, "<?xml");
    p := At(p.s[5..]);
    ghost var goal := DeclarationFields(p, f);
    while More(p)
      invariant DeclarationFields(p, f) == goal
      decreases Left(p), if More(p) && p.s[0] != '>' then 1 else 0
    {
      if p.s[0] == '>' {
        return f, At(p.s[1..]);
      }
      var q := SkipBlanks(p);
      var a;
      if StringEqualNoCase(q, "version") {
        a, p := TakeAttribute(q);
        f := f.(version := a.value);
      } else if StringEqualNoCase(q, "encoding") {
        a, p := TakeAttribute(q);
        f := f.(encoding := a.value);
      } else if StringEqualNoCase(q, "standalone") {
        a, p := TakeAttribute(q);
        f := f.(standalone := a.value);
      } else if More(q) && q.s[0] == '>' {
        return f, At(q.s[1..]);
      } else {
        var rest := q.s;
        while rest != "" && rest[0] != '>' && !IsWhiteSpace(rest[0])
          invariant SkipWord(rest) == SkipWord(q.s)
          decreases |rest|
        {
          rest := rest[1..];
        }
        p := At(rest);
      }
    }
    return f, Null;
  }

  lemma HeaderIsShort(p: Ptr, tag: string)
    requires StringEqualNoCase(p, tag)
    ensures More(p) && |tag| <= |p.s|
  {}

  method TakeNode(p: Ptr) returns (n: Node, r: Ptr)
    requires More(p) && p.s[0] == '<'
    ensures (n, r) == ParseNode(p)
    decreases Left(p), 3
  {
    hide UpTo, ParseElement, ReadText, DropWhite, DeclarationFields;
    match Identify(p) {
      case IsDeclaration =>
        var f;
        f, r := TakeDeclaration(p);
        n := Declaration(f.version, f.encoding, f.standalone);
      case IsComment =>
        var q := SkipBlanks(p);
        if !StringEqual(q, "<!--") {
          return Comment(""), Null;
        }
        var value, rest := TakeUpTo(q.s[4..], "-->");
        n, r := Comment(value), At(if rest == "" then "" else rest[3..]);
      case IsCData =>
        var value, rest := TakeUpTo(p.s[9..], "]]>");
        var dummy;
        dummy, r := TakeText(At(rest), false, "]]>");
        n := Text(value, true);
      case IsUnknown =>
        var q := SkipBlanks(p);
        if !More(q) || q.s[0] != '<' {
          return Unknown(""), Null;
        }
        var value, rest := TakeUpTo(q.s[1..], ">");
        n, r := Unknown(value), At(if rest == "" then "" else rest[1..]);
      case IsElement =>
        n, r := TakeElement(p);
    }
  }

  /** TiXmlElement::Parse */
  method TakeElement(start: Ptr) returns (n: Node, p: Ptr)
    ensures (n, p) == ParseElement(start)
    decreases Left(start), 2
  {
    hide ReadName, DropWhite, ParseAttribute, ReadValue, EndTag, Named;
    p := SkipBlanks(start);
    if !More(p) || p.s[0] != '<' {
      return Element("", [], []), Null;
    }
    p := SkipBlanks(At(p.s[1..]));
    var name;
    name, p := TakeName(p);
    if !More(p) {
      return Element(name, [], []), Null;
    }
    var attrs: seq<Attr> := [];
    ghost var goal := ParseAttributes(name, attrs, p);
    while true
      invariant ParseAttributes(name, attrs, p) == goal && Left(p) < Left(start)
      decreases Left(p)
    {
      p := SkipBlanks(p);
      if !More(p) {
        return Element(name, attrs, []), Null;
      }
      if p.s[0] == '/' {
        return Element(name, attrs, []), if |p.s| > 1 && p.s[1] == '>' then At(p.s[2..]) else Null;
      } else if p.s[0] == '>' {
        var children;
        children, p := TakeValue(At(p.s[1..]));
        p := TakeEndTag(name, p);
        return Element(name, attrs, children), p;
      } else {
        var a;
        a, p := TakeAttribute(p);
        if !More(p) || Named(attrs, a.name) {
          return Element(name, attrs, []), Null;
        }
        attrs := attrs + [a];
      }
    }
  }

  method TakeEndTag(name: string, p: Ptr) returns (r: Ptr)
    ensures r == EndTag(name, p)
  {
    if !StringEqual(p, "</" + name) {
      return Null;
    }
    var q := SkipBlanks(At(p.s[|"</" + name|..]));
    if More(q) && q.s[0] == '>' {
      return At(q.s[1..]);
    }
    return Null;
  }

  lemma TextRound(p: Ptr)
    requires More(p) && !IsWhiteSpace(p.s[0]) && p.s[0] != '<'
    ensures var t, u := ReadText(p, true, "<"), ParseText(p);
            && u == (t.0, if More(t.1) then At("<" + t.1.s) else Null)
            && Left(SkipWhiteSpace(u.1)) < Left(p)
            && ReadNodes(p) == ((if Blank(t.0) then [] else [Text(t.0, false)])
                                + ReadNodes(SkipWhiteSpace(u.1)).0, ReadNodes(SkipWhiteSpace(u.1)).1)
  {
    hide ReadText, DropWhite;
    TextShrinks(p);
  }

  lemma TagRound(p: Ptr)
    requires More(p) && p.s[0] == '<' && !StringEqual(p, "</")
    ensures var n := ParseNode(p);
            && Left(SkipWhiteSpace(n.1)) < Left(p)
            && ReadNodes(p) == ([n.0] + ReadNodes(SkipWhiteSpace(n.1)).0, ReadNodes(SkipWhiteSpace(n.1)).1)
  {
    hide ParseNode, DropWhite;
  }

  lemma EndRound(p: Ptr)
    requires More(p) ==> StringEqual(p, "</") && !IsWhiteSpace(p.s[0])
    ensures ReadNodes(p) == ([], p)
  {
    if More(p) { assert p.s[0] == '<'; }
  }

  /** TiXmlElement::ReadValue */
  method TakeValue(start: Ptr) returns (children: seq<Node>, p: Ptr)
    ensures (children, p) == ReadValue(start)
    decreases Left(start), 5
  {
    hide ReadText, DropWhite, ParseNode, ReadNodes;
    children := [];
    p := SkipBlanks(start);
    ghost var goal := ReadNodes(p);
    while More(p)
      invariant More(p) ==> !IsWhiteSpace(p.s[0])
      invariant goal.0 == children + ReadNodes(p).0 && goal.1 == ReadNodes(p).1
      invariant Left(p) <= Left(start)
      decreases Left(p)
    {
      if p.s[0] != '<' {
        TextRound(p);
        var value, q := TakeText(p, true, "<");
        if More(q) {
          q := At("<" + q.s);
        }
        if !Blank(value) {
          children := children + [Text(value, false)];
        }
        p := SkipBlanks(q);
      } else {
        if StringEqual(p, "</") {
          EndRound(p);
          assert children + [] == children;
          return;
        }
        TagRound(p);
        var n, q := TakeNode(p);
        children := children + [n];
        p := SkipBlanks(q);
      }
    }
    EndRound(p);
    assert children + [] == children;
  }
}
