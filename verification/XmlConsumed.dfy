/** What the parser consumes: it only moves on through the text, and an element it accepts ends in
    `/>` or in the end tag of its own name (tinyxml/tinyxmlparser.cpp:818-1247). */
module XmlConsumed {
  import opened XmlText
  import opened XmlParser

  predicate Suffix(t: string, s: string) {
    |t| <= |s| && s[|s| - |t|..] == t
  }

  /** Where the parser stands afterwards, unless it failed, is further on in the same text. */
  predicate Onward(p: Ptr, q: Ptr) {
    q.At? ==> p.At? && Suffix(q.s, p.s)
  }

  lemma Further(p: Ptr, q: Ptr, r: Ptr)
    requires Onward(p, q) && Onward(q, r)
    ensures Onward(p, r)
  {
    if r.At? {
      assert q.s[|q.s| - |r.s|..] == p.s[|p.s| - |q.s|..][|q.s| - |r.s|..];
    }
  }

  lemma Cut(s: string, k: nat)
    requires k <= |s|
    ensures Onward(At(s), At(s[k..]))
  {}

  lemma {:induction false} WhiteDropped(s: string)
    ensures Suffix(DropWhite(s), s) && AllWhite(s[..|s| - |DropWhite(s)|])
  {
    if s == "" || !IsWhiteSpace(s[0]) {
    } else {
      WhiteDropped(s[1..]);
      var k := |s| - |DropWhite(s)|;
      assert s[..k] == [s[0]] + s[1..][..k - 1];
    }
  }

  lemma WhiteSkipped(p: Ptr)
    ensures Onward(p, SkipWhiteSpace(p))
  {
    if More(p) { WhiteDropped(p.s); }
  }

  lemma CharTaken(s: string)
    requires s != ""
    ensures Onward(At(s), GetChar(s).1)
  {
    hide HexBack, DecBack, Find;
  }

  lemma {:induction false} TextKept(p: Ptr, endTag: string)
    ensures Onward(p, KeepText(p, endTag).1)
    decreases Left(p)
  {
    hide GetChar;
    if !More(p) || endTag <= p.s {
    } else {
      var c := GetChar(p.s);
      CharTaken(p.s);
      TextKept(c.1, endTag);
      Further(p, c.1, KeepText(c.1, endTag).1);
    }
  }

  lemma {:induction false} TextCondensed(p: Ptr, endTag: string, white: bool)
    ensures Onward(p, CondenseText(p, endTag, white).1)
    decreases Left(p)
  {
    hide GetChar;
    if !More(p) || endTag <= p.s {
    } else if IsWhiteSpace(p.s[0]) {
      TextCondensed(At(p.s[1..]), endTag, true);
      Further(p, At(p.s[1..]), CondenseText(p, endTag, white).1);
    } else {
      var c := GetChar(p.s);
      CharTaken(p.s);
      TextCondensed(c.1, endTag, false);
      Further(p, c.1, CondenseText(c.1, endTag, false).1);
    }
  }

  lemma TagPassed(p: Ptr, endTag: string)
    requires More(p) ==> endTag <= p.s
    ensures Onward(p, PastTag(p, endTag))
  {}

  lemma TextRead(p: Ptr, trim: bool, endTag: string)
    ensures Onward(p, ReadText(p, trim, endTag).1)
  {
    hide CondenseText, KeepText, PastTag, Suffix;
    var q := if trim then SkipWhiteSpace(p) else p;
    var t := if trim then CondenseText(q, endTag, false) else KeepText(q, endTag);
    assert Onward(p, q) by { if trim { WhiteSkipped(p); } else { Same(p); } }
    if trim { TextCondensed(q, endTag, false); } else { TextKept(q, endTag); }
    Further(p, q, t.1);
    TagPassed(t.1, endTag);
    Further(p, t.1, PastTag(t.1, endTag));
  }

  lemma Same(p: Ptr)
    ensures Onward(p, p)
  {}

  lemma {:induction false} BareTaken(s: string)
    ensures Onward(At(s), BareValue(s).1)
  {
    if s == "" || IsWhiteSpace(s[0]) || s[0] == '/' || s[0] == '>' || s[0] == '\'' || s[0] == '"' {
    } else {
      BareTaken(s[1..]);
      Further(At(s), At(s[1..]), BareValue(s[1..]).1);
    }
  }

  lemma NameRead(p: Ptr)
    ensures Onward(p, ReadName(p).1)
    ensures ReadName(p).1.At? ==> p.s == ReadName(p).0 + ReadName(p).1.s
  {}

  lemma AttributeParsed(p: Ptr)
    ensures Onward(p, ParseAttribute(p).1)
  {
    hide ReadName, ReadText, BareValue, DropWhite, Suffix;
    var p1 := SkipWhiteSpace(p);
    WhiteSkipped(p);
    if More(p1) {
      var n := ReadName(p1);
      NameRead(p1);
      Further(p, p1, n.1);
      if More(n.1) {
        var p2 := SkipWhiteSpace(n.1);
        WhiteSkipped(n.1);
        Further(p, n.1, p2);
        if More(p2) && p2.s[0] == '=' {
          ValueParsed(p2);
          Further(p, p2, ParseAttribute(p).1);
        }
      }
    }
  }

  lemma ValueParsed(p: Ptr)
    requires More(p) && p.s[0] == '='
    ensures var p3 := SkipWhiteSpace(At(p.s[1..]));
            More(p3) ==> Onward(p, BareValue(p3.s).1) && Onward(p, ReadText(At(p3.s[1..]), false, [p3.s[0]]).1)
  {
    hide ReadText, BareValue, DropWhite, Suffix;
    var p3 := SkipWhiteSpace(At(p.s[1..]));
    Cut(p.s, 1);
    WhiteSkipped(At(p.s[1..]));
    Further(p, At(p.s[1..]), p3);
    if More(p3) {
      BareTaken(p3.s);
      Further(p, p3, BareValue(p3.s).1);
      Cut(p3.s, 1);
      Further(p, p3, At(p3.s[1..]));
      TextRead(At(p3.s[1..]), false, [p3.s[0]]);
      Further(p, At(p3.s[1..]), ReadText(At(p3.s[1..]), false, [p3.s[0]]).1);
    }
  }

  // ----- attributes -----

  predicate EndsBare(c: char) {
    IsWhiteSpace(c) || c in "/>'\""
  }

  /** A value without quotes goes up to white space, a slash or `>`; a quote before that is an error. */
  lemma {:induction false} BareValueIs(s: string, k: nat)
    requires k <= |s| && (forall i :: 0 <= i < k ==> !EndsBare(s[i])) && (k < |s| ==> EndsBare(s[k]))
    ensures BareValue(s) == (s[..k], if k < |s| && s[k] in "'\"" then Null else At(s[k..]))
  {
    if k == 0 {
      assert s[..0] == "" && s[0..] == s;
    } else {
      BareValueIs(s[1..], k - 1);
      assert !EndsBare(s[0]) && s[..k] == [s[0]] + s[1..][..k - 1] && s[k..] == s[1..][k - 1..];
    }
  }

  lemma {:induction false} BareTo(s: string)
    ensures var k := |BareValue(s).0|;
            k <= |s| && (forall i :: 0 <= i < k ==> !EndsBare(s[i])) && (k < |s| ==> EndsBare(s[k]))
  {
    if s == "" || EndsBare(s[0]) {
    } else {
      BareTo(s[1..]);
      assert forall i :: 1 <= i < |s| ==> s[i] == s[1..][i - 1];
    }
  }

  /** An attribute's value as it stands in the text: between two quotes of a kind, or without. */
  ghost predicate ValueText(v: string, value: string) {
    || (|v| >= 2 && v[0] in "'\"" && v[|v| - 1] == v[0])
    || (v == value && forall i :: 0 <= i < |v| ==> !EndsBare(v[i]))
  }

  /** An attribute the parser accepts is, in the text, a name, an equals sign and a value, with white
      space before each of them. */
  lemma AttributeShape(p: Ptr) returns (w0: string, w1: string, w2: string, v: string)
    requires ParseAttribute(p).1.At?
    ensures p.At? && AllWhite(w0) && AllWhite(w1) && AllWhite(w2)
    ensures var (a, r) := ParseAttribute(p);
            a.name != "" && ValueText(v, a.value) && p.s == w0 + a.name + w1 + "=" + w2 + v + r.s
  {
    hide ReadName, ReadText, BareValue, DropWhite, ValueText, Onward;
    var p1 := SkipWhiteSpace(p);
    w0 := Skipped(p);
    var n := ReadName(p1);
    NameRead(p1);
    var p2 := SkipWhiteSpace(n.1);
    w1 := Skipped(n.1);
    var p3 := SkipWhiteSpace(At(p2.s[1..]));
    w2 := Skipped(At(p2.s[1..]));
    var r := ParseAttribute(p).1;
    if p3.s[0] == '\'' || p3.s[0] == '"' {
      v := QuotedText(p3, r);
    } else {
      v := BareText(p3, r);
    }
    Pieces(p.s, w0, p1.s, n.0, n.1.s, w1, p2.s, w2, p3.s, v, r.s);
  }

  lemma Skipped(p: Ptr) returns (w: string)
    requires SkipWhiteSpace(p).At?
    ensures p.At? && AllWhite(w) && p.s == w + SkipWhiteSpace(p).s
  {
    hide DropWhite;
    WhiteDropped(p.s);
    w := p.s[..|p.s| - |DropWhite(p.s)|];
  }

  lemma Pieces(s: string, w0: string, s1: string, name: string, t: string, w1: string, s2: string, w2: string,
               s3: string, v: string, r: string)
    requires s == w0 + s1 && s1 == name + t && t == w1 + s2 && s2 != "" && s2[0] == '=' && s2[1..] == w2 + s3
    requires s3 == v + r
    ensures s == w0 + name + w1 + "=" + w2 + v + r
  {
    assert s2 == "=" + s2[1..];
  }

  lemma QuotedText(p: Ptr, r: Ptr) returns (v: string)
    requires More(p) && p.s[0] in "'\"" && ReadText(At(p.s[1..]), false, [p.s[0]]).1 == r && r.At?
    ensures p.s == v + r.s && forall value: string :: ValueText(v, value)
  {
    hide KeepText, Onward;
    var q := p.s[0];
    var t := KeepText(At(p.s[1..]), [q]).1;
    TextKept(At(p.s[1..]), [q]);
    assert t.s == [q] + r.s;
    RawOf(p.s[1..], t.s);
    var raw := p.s[1..][..|p.s| - 1 - |t.s|];
    v := [q] + raw + [q];
    assert p.s == [q] + p.s[1..];
  }

  lemma RawOf(s: string, t: string)
    requires Onward(At(s), At(t))
    ensures |t| <= |s| && s == s[..|s| - |t|] + t
  {}

  lemma BareText(p: Ptr, r: Ptr) returns (v: string)
    requires More(p) && BareValue(p.s).1 == r && r.At?
    ensures p.s == v + r.s && ValueText(v, BareValue(p.s).0)
  {
    hide BareValue;
    BareTo(p.s);
    v := p.s[..|BareValue(p.s).0|];
    BareValueIs(p.s, |v|);
  }

  lemma UpToTaken(s: string, k: nat, tag: string)
    requires k <= |s|
    ensures var u := UpTo(s[k..], tag).1; Onward(At(s), At(u))
    ensures var u := UpTo(s[k..], tag).1; u != "" ==> |tag| <= |u| && Onward(At(s), At(u[|tag|..]))
    ensures Onward(At(s), At(""))
  {
    var u := UpTo(s[k..], tag);
    assert s == s[..k] + u.0 + u.1;
    if u.1 != "" { Cut(u.1, |tag|); Further(At(s), At(u.1), At(u.1[|tag|..])); }
  }

  lemma CommentTaken(p: Ptr)
    ensures Onward(p, ParseComment(p).1)
  {
    hide DropWhite, UpTo, Suffix;
    var p1 := SkipWhiteSpace(p);
    WhiteSkipped(p);
    if StringEqual(p1, "<!--") {
      UpToTaken(p1.s, 4, "-->");
      Further(p, p1, ParseComment(p).1);
    }
  }

  lemma CDataTaken(p: Ptr)
    ensures Onward(p, ParseCData(p).1)
  {
    hide ReadText, UpTo, Suffix;
    if StringEqual(p, "<![CDATA[") {
      UpToTaken(p.s, 9, "]]>");
      var u := UpTo(p.s[9..], "]]>");
      TextRead(At(u.1), false, "]]>");
      Further(p, At(u.1), ParseCData(p).1);
    }
  }

  lemma UnknownTaken(p: Ptr)
    ensures Onward(p, ParseUnknown(p).1)
  {
    hide DropWhite, UpTo, Suffix;
    var p1 := SkipWhiteSpace(p);
    WhiteSkipped(p);
    if More(p1) && p1.s[0] == '<' {
      UpToTaken(p1.s, 1, ">");
      Further(p, p1, ParseUnknown(p).1);
    }
  }

  lemma TextTaken(p: Ptr)
    requires More(p) && !IsWhiteSpace(p.s[0]) && p.s[0] != '<'
    ensures Onward(p, ParseText(p).1)
  {
    hide CondenseText, Suffix;
    TextCondensed(p, "<", false);
    assert SkipWhiteSpace(p) == p;
    var t := CondenseText(p, "<", false).1;
    if More(t) { assert "<" + t.s[1..] == t.s; }
  }

  lemma {:induction false} WordSkipped(s: string)
    ensures Onward(At(s), At(SkipWord(s)))
  {
    if s != "" && s[0] != '>' && !IsWhiteSpace(s[0]) {
      WordSkipped(s[1..]);
      Further(At(s), At(s[1..]), At(SkipWord(s)));
    } else {
      Same(At(s));
    }
  }

  lemma {:induction false} FieldsTaken(p: Ptr, f: Fields)
    ensures Onward(p, DeclarationFields(p, f).1)
    decreases Left(p), if More(p) && IsWhiteSpace(p.s[0]) then 1 else 0
  {
    hide ParseAttribute, DropWhite, SkipWord, Suffix;
    if !More(p) {
    } else if p.s[0] == '>' {
      Cut(p.s, 1);
    } else {
      var q := SkipWhiteSpace(p);
      WhiteSkipped(p);
      if StringEqualNoCase(q, "version") || StringEqualNoCase(q, "encoding") || StringEqualNoCase(q, "standalone") {
        var a := ParseAttribute(q);
        AttributeParsed(q);
        Further(p, q, a.1);
        var g := if StringEqualNoCase(q, "version") then f.(version := a.0.value)
                 else if StringEqualNoCase(q, "encoding") then f.(encoding := a.0.value)
                 else f.(standalone := a.0.value);
        FieldsTaken(a.1, g);
        Further(p, a.1, DeclarationFields(a.1, g).1);
      } else if More(q) && q.s[0] == '>' {
        Cut(q.s, 1);
        Further(p, q, At(q.s[1..]));
      } else if More(q) {
        WordSkipped(q.s);
        Further(p, q, At(SkipWord(q.s)));
        FieldsTaken(At(SkipWord(q.s)), f);
        Further(p, At(SkipWord(q.s)), DeclarationFields(p, f).1);
      }
    }
  }

  lemma DeclarationTaken(p: Ptr)
    ensures Onward(p, ParseDeclaration(p).1)
  {
    hide DropWhite, DeclarationFields, Suffix;
    var p1 := SkipWhiteSpace(p);
    WhiteSkipped(p);
    if StringEqualNoCase(p1, "<?xml") {
      Cut(p1.s, 5);
      Further(p, p1, At(p1.s[5..]));
      FieldsTaken(At(p1.s[5..]), Fields("", "", ""));
      Further(p, At(p1.s[5..]), ParseDeclaration(p).1);
    }
  }

  // ----- end tags -----

  /** `</`, the name, white space, `>`. */
  predicate IsEndTag(tag: string, name: string) {
    && |tag| >= |name| + 3 && "</" + name <= tag && tag[|tag| - 1] == '>'
    && AllWhite(tag[|name| + 2..|tag| - 1])
  }

  lemma {:induction false} WhiteBefore(w: string, s: string)
    requires AllWhite(w) && s != "" && !IsWhiteSpace(s[0])
    ensures DropWhite(w + s) == s
  {
    if w == "" {
      assert w + s == s;
    } else {
      assert (w + s)[1..] == w[1..] + s;
      WhiteBefore(w[1..], s);
    }
  }

  /** From the text: the parser gets past an end tag exactly where one of that name stands. */
  lemma EndTagIff(name: string, p: Ptr, after: string)
    ensures EndTag(name, p) == At(after)
            <==> p.At? && |after| <= |p.s| && p.s[|p.s| - |after|..] == after
                 && IsEndTag(p.s[..|p.s| - |after|], name)
  {
    hide DropWhite;
    if p.At? && Suffix(after, p.s) && IsEndTag(p.s[..|p.s| - |after|], name) {
      var tag := p.s[..|p.s| - |after|];
      var w := tag[|name| + 2..|tag| - 1];
      assert p.s == tag + after;
      assert ("</" + name)[..] == tag[..|name| + 2];
      assert "</" + name <= p.s;
      assert p.s[2 + |name|..] == w + (">" + after);
      WhiteBefore(w, ">" + after);
    }
    if EndTag(name, p) == At(after) {
      EndTagRead(name, p, after);
    }
  }

  lemma EndTagRead(name: string, p: Ptr, after: string)
    requires EndTag(name, p) == At(after)
    ensures p.At? && Suffix(after, p.s) && IsEndTag(p.s[..|p.s| - |after|], name)
  {
    hide DropWhite, Suffix, IsEndTag;
    var rest := p.s[2 + |name|..];
    var w := Skipped(At(rest));
    var q := SkipWhiteSpace(At(rest));
    assert q.s == ">" + after && p.s == "</" + name + rest;
    EndTagOf(name, w, after);
    assert p.s == "</" + name + w + ">" + after;
  }

  lemma EndTagOf(name: string, w: string, after: string)
    requires AllWhite(w)
    ensures var s := "</" + name + w + ">" + after; Suffix(after, s) && IsEndTag(s[..|s| - |after|], name)
  {
    var tag := "</" + name + w + ">";
    var s := tag + after;
    assert s[..|s| - |after|] == tag && s[|s| - |after|..] == after;
    assert tag[|name| + 2..|tag| - 1] == w;
    assert "</" + name <= tag;
  }

  /** So an element opened by `>` is accepted exactly if its content is followed by its own end
      tag, whatever the text. */
  lemma OpenElementIff(name: string, attrs: seq<Attr>, p: Ptr, after: string)
    requires var q := SkipWhiteSpace(p); More(q) && q.s[0] == '>'
    ensures var q := SkipWhiteSpace(p);
            var content := ReadValue(At(q.s[1..]));
            && ParseAttributes(name, attrs, p).0 == Element(name, attrs, content.0)
            && (ParseAttributes(name, attrs, p).1 == At(after)
                <==> && content.1.At? && |after| <= |content.1.s|
                     && content.1.s[|content.1.s| - |after|..] == after
                     && IsEndTag(content.1.s[..|content.1.s| - |after|], name))
  {
    hide ReadValue, EndTag, DropWhite, IsEndTag;
    var q := SkipWhiteSpace(p);
    EndTagIff(name, ReadValue(At(q.s[1..])).1, after);
  }

  // ----- whole nodes -----

  /** What stands between where an element was opened and where it was left ends it. */
  predicate Ended(n: Node, p: Ptr, q: Ptr)
    requires Onward(p, q)
  {
    n.Element? &&
    (q.At? ==>
       var text := p.s[..|p.s| - |q.s|];
       || (n.children == [] && |text| >= 2 && text[|text| - 2..] == "/>")
       || exists k :: 0 <= k <= |text| && IsEndTag(text[k..], n.name))
  }

  lemma {:induction false} NodeTaken(p: Ptr)
    requires More(p) && p.s[0] == '<'
    ensures Onward(p, ParseNode(p).1)
    decreases Left(p), 3
  {
    hide ParseComment, ParseCData, ParseUnknown, ParseDeclaration, ParseElement, Suffix;
    match Identify(p)
    case IsDeclaration => DeclarationTaken(p);
    case IsComment => CommentTaken(p);
    case IsCData => CDataTaken(p);
    case IsUnknown => UnknownTaken(p);
    case IsElement => ElementTaken(p);
  }

  /** Every element the parser accepts ends in `/>`, without content, or in its own end tag. */
  lemma {:induction false} ElementTaken(p: Ptr)
    ensures Onward(p, ParseElement(p).1) && Ended(ParseElement(p).0, p, ParseElement(p).1)
    decreases Left(p), 2
  {
    hide ReadName, DropWhite, ParseAttributes, Suffix, Ended;
    var p1 := SkipWhiteSpace(p);
    WhiteSkipped(p);
    NotEnded(p, ParseElement(p).0);
    if More(p1) && p1.s[0] == '<' {
      var p2 := SkipWhiteSpace(At(p1.s[1..]));
      Cut(p1.s, 1);
      WhiteSkipped(At(p1.s[1..]));
      Further(p, p1, At(p1.s[1..]));
      Further(p, At(p1.s[1..]), p2);
      var n := ReadName(p2);
      NameRead(p2);
      Further(p, p2, n.1);
      if More(n.1) {
        AttributesTaken(n.0, [], n.1);
        Further(p, n.1, ParseAttributes(n.0, [], n.1).1);
        EndedFurther(ParseAttributes(n.0, [], n.1).0, p, n.1, ParseAttributes(n.0, [], n.1).1);
      }
    }
  }

  lemma NotEnded(p: Ptr, n: Node)
    ensures Onward(p, Null) && (n.Element? ==> Ended(n, p, Null))
  {}

  lemma EndedFurther(n: Node, p: Ptr, q: Ptr, r: Ptr)
    requires Onward(p, q) && Onward(q, r) && Ended(n, q, r)
    ensures Onward(p, r) && Ended(n, p, r)
  {
    hide IsEndTag;
    Further(p, q, r);
    if r.At? {
      var text, more := q.s[..|q.s| - |r.s|], p.s[..|p.s| - |r.s|];
      var d := |p.s| - |q.s|;
      assert more[d..] == text;
      if k :| 0 <= k <= |text| && IsEndTag(text[k..], n.name) {
        assert more[d + k..] == text[k..];
      }
    }
  }

  lemma {:induction false} AttributesTaken(name: string, attrs: seq<Attr>, p: Ptr)
    ensures var r := ParseAttributes(name, attrs, p); Onward(p, r.1) && Ended(r.0, p, r.1) && r.0.name == name
    decreases Left(p), 1
  {
    hide ParseAttribute, ReadValue, EndTag, Named, DropWhite, Suffix, Ended;
    var q := SkipWhiteSpace(p);
    WhiteSkipped(p);
    NotEnded(p, ParseAttributes(name, attrs, p).0);
    if !More(q) {
    } else if q.s[0] == '/' {
      if |q.s| > 1 && q.s[1] == '>' {
        EmptyEnded(Element(name, attrs, []), q);
        EndedFurther(Element(name, attrs, []), p, q, At(q.s[2..]));
      }
    } else if q.s[0] == '>' {
      ValueTaken(At(q.s[1..]));
      Cut(q.s, 1);
      Further(p, q, At(q.s[1..]));
      var v := ReadValue(At(q.s[1..]));
      Further(p, At(q.s[1..]), v.1);
      ClosedEnded(Element(name, attrs, v.0), v.1);
      EndedFurther(Element(name, attrs, v.0), p, v.1, EndTag(name, v.1));
    } else {
      var a := ParseAttribute(q);
      AttributeParsed(q);
      Further(p, q, a.1);
      if More(a.1) && !Named(attrs, a.0.name) {
        AttributesTaken(name, attrs + [a.0], a.1);
        var r := ParseAttributes(name, attrs + [a.0], a.1);
        EndedFurther(r.0, p, a.1, r.1);
      }
    }
  }

  lemma EmptyEnded(n: Node, q: Ptr)
    requires n.Element? && n.children == [] && q.At? && |q.s| > 1 && q.s[0] == '/' && q.s[1] == '>'
    ensures Onward(q, At(q.s[2..])) && Ended(n, q, At(q.s[2..]))
  {
    var text := q.s[..2];
    assert text[|text| - 2..] == "/>";
  }

  lemma ClosedEnded(n: Node, p: Ptr)
    requires n.Element?
    ensures Onward(p, EndTag(n.name, p)) && Ended(n, p, EndTag(n.name, p))
  {
    hide EndTag, IsEndTag;
    var r := EndTag(n.name, p);
    if r.At? {
      EndTagRead(n.name, p, r.s);
      var text := p.s[..|p.s| - |r.s|];
      WholeOf(text);
      assert IsEndTag(text[0..], n.name);
    }
  }

  lemma WholeOf(s: string)
    ensures s[0..] == s
  {}

  lemma {:induction false} ValueTaken(p: Ptr)
    ensures Onward(p, ReadValue(p).1)
    decreases Left(p), 5
  {
    hide ReadNodes, DropWhite, Suffix;
    WhiteSkipped(p);
    NodesTaken(SkipWhiteSpace(p));
    Further(p, SkipWhiteSpace(p), ReadValue(p).1);
  }

  lemma {:induction false} NodesTaken(p: Ptr)
    requires More(p) ==> !IsWhiteSpace(p.s[0])
    ensures Onward(p, ReadNodes(p).1)
    decreases Left(p), 4
  {
    hide ParseNode, ParseText, DropWhite, Suffix;
    if !More(p) {
      Same(p);
    } else if p.s[0] != '<' {
      var t := ParseText(p);
      TextTaken(p);
      WhiteSkipped(t.1);
      Further(p, t.1, SkipWhiteSpace(t.1));
      NodesTaken(SkipWhiteSpace(t.1));
      Further(p, SkipWhiteSpace(t.1), ReadNodes(p).1);
    } else if StringEqual(p, "</") {
      Same(p);
    } else {
      var n := ParseNode(p);
      NodeTaken(p);
      WhiteSkipped(n.1);
      Further(p, n.1, SkipWhiteSpace(n.1));
      NodesTaken(SkipWhiteSpace(n.1));
      Further(p, SkipWhiteSpace(n.1), ReadNodes(p).1);
    }
  }
}
