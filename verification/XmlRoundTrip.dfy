/** Parsing what the printer emits gives back the tree, for trees in normal form and any layout
    whose indentation and line break are white space: both printing modes are instances. */
module XmlRoundTrip {
  import opened XmlText
  import opened XmlTextProof
  import opened XmlParser
  import opened XmlPrinter
  import opened XmlReader
  import opened XmlConsumed

  ghost predicate ValidName(name: string) {
    name != "" && NameStart(name[0]) && forall i :: 0 <= i < |name| ==> NameChar(name[i])
  }

  ghost predicate Without(s: string, tag: string) {
    forall i :: 0 <= i < |s| ==> !(tag <= s[i..])
  }

  ghost predicate NormalAttrs(attrs: seq<Attr>) {
    && (forall i :: 0 <= i < |attrs| ==> ValidName(attrs[i].name) && NoHexRef(attrs[i].value))
    && (forall i, j :: 0 <= i < j < |attrs| ==> attrs[i].name != attrs[j].name)
  }

  ghost predicate PlainText(n: Node) {
    n.Text? && !n.cdata
  }

  /** Plain text that survives: not blank, space-normal, free of hexadecimal references. */
  ghost predicate NormalText(value: string) {
    !Blank(value) && SpaceNormal(value) && NoHexRef(value)
  }

  /** What is neither an element, a comment, CDATA, a declaration nor an end tag, up to its `>`. */
  ghost predicate NormalUnknown(value: string) {
    && '>' !in value && !("!--" <= value) && !("![CDATA[" <= value) && !StringEqualNoCase(At("<" + value), "<?xml")
    && (value != "" ==> value[0] != '/' && !NameStart(value[0]))
  }

  /** The fields of a declaration are printed as they are. */
  ghost predicate NormalField(value: string) {
    NulFree(value) && '"' !in value && '&' !in value
  }

  ghost predicate Normal(n: Node)
    decreases n, 0
  {
    match n
    case Element(name, attrs, children) =>
      ValidName(name) && NormalAttrs(attrs) && NormalNodes(children)
    case Text(value, cdata) => if cdata then NulFree(value) && Without(value, "]]>") else NormalText(value)
    case Comment(value) => NulFree(value) && Without(value, "-->")
    case Unknown(value) => NulFree(value) && NormalUnknown(value)
    case Declaration(version, encoding, standalone) =>
      NormalField(version) && NormalField(encoding) && NormalField(standalone)
  }

  /** Normal children, no plain text next to plain text. */
  ghost predicate NormalNodes(ns: seq<Node>)
    decreases ns, 1
  {
    && (forall i :: 0 <= i < |ns| ==> Normal(ns[i]))
    && (forall i :: 0 <= i < |ns| - 1 ==> !(PlainText(ns[i]) && PlainText(ns[i + 1])))
  }

  ghost predicate WhiteLayout(l: Layout) {
    AllWhite(l.indent) && AllWhite(l.lineBreak)
  }

  // ----- names and attributes -----

  lemma {:induction false} NameLengthStops(name: string, x: string)
    requires forall i :: 0 <= i < |name| ==> NameChar(name[i])
    requires x != "" && !NameChar(x[0])
    ensures NameLength(name + x) == |name|
  {
    if name == "" {
      assert name + x == x;
    } else {
      assert (name + x)[1..] == name[1..] + x;
      NameLengthStops(name[1..], x);
    }
  }

  lemma NameReads(name: string, x: string)
    requires ValidName(name) && x != "" && !NameChar(x[0])
    ensures ReadName(At(name + x)) == (name, At(x))
  {
    NameLengthStops(name, x);
    assert (name + x)[..|name|] == name && (name + x)[|name|..] == x;
  }

  lemma {:induction false} NameNeedsNoEncoding(name: string)
    requires forall i :: 0 <= i < |name| ==> NameChar(name[i])
    ensures Encode(name) == name
  {
    if name == "" {
    } else {
      NameNeedsNoEncoding(name[1..]);
      assert EncodeChar(name[0]) == [name[0]];
      assert !("&#x" <= name) by { assert name[0] != '&'; }
    }
  }

  lemma {:induction false} AllReached(attrs: seq<Attr>)
    requires forall i :: 0 <= i < |attrs| ==> attrs[i].name != ""
    ensures Reached(attrs) == attrs
  {
    if |attrs| <= 1 {
    } else {
      AllReached(attrs[1..]);
    }
  }

  lemma QuotedValueReads(value: string, quote: char, y: string)
    requires NoHexRef(value) && y != "" && (quote == '"' || quote == '\'')
    ensures ReadText(At(Encode(value) + [quote] + y), false, [quote]) == (value, At(y))
  {
    hide Encode, NoHexRef;
    KeepUndoesEncode(value, [quote], y);
    assert ([quote] + y)[1..] == y;
  }

  lemma AttributeReads(a: Attr, y: string)
    requires ValidName(a.name) && NoHexRef(a.value) && y != ""
    ensures ParseAttribute(At(AttrText(a) + y)) == (a, At(y))
  {
    hide Encode, NoHexRef, ReadText, ReadName, DropWhite;
    NameNeedsNoEncoding(a.name);
    var quote := if '"' in CStr(a.value) then '\'' else '"';
    var z := Encode(a.value) + [quote] + y;
    assert AttrText(a) + y == a.name + (['=', quote] + z);
    NameReads(a.name, ['=', quote] + z);
    DropNone(a.name + (['=', quote] + z));
    DropNone(['=', quote] + z);
    assert (['=', quote] + z)[1..] == [quote] + z;
    DropNone([quote] + z);
    assert ([quote] + z)[1..] == z;
    QuotedValueReads(a.value, quote, y);
  }

  lemma DropNone(s: string)
    requires s != "" && !IsWhiteSpace(s[0])
    ensures DropWhite(s) == s
  {}

  lemma {:induction false} AttributesRead(name: string, done: seq<Attr>, todo: seq<Attr>, x: string)
    requires NormalAttrs(done + todo) && x != ""
    ensures ParseAttributes(name, done, At(AttrsText(todo) + x))
            == ParseAttributes(name, done + todo, At(x))
    decreases |todo|
  {
    hide AttrText, ParseAttribute, DropWhite;
    if todo == [] {
      assert done + todo == done && AttrsText(todo) + x == x;
    } else {
      var a, y := todo[0], AttrsText(todo[1..]) + x;
      assert a == (done + todo)[|done|];
      var s := AttrText(a) + y;
      assert AttrsText(todo) + x == " " + s;
      AttrTextStart(a);
      assert s[0] == AttrText(a)[0];
      DropNone(s);
      DropWhiteRun(" ", s);
      AttributeReads(a, y);
      assert !Named(done, a.name) by {
        forall i | 0 <= i < |done| ensures done[i].name != a.name {
          assert (done + todo)[i] == done[i];
        }
      }
      assert done + [a] + todo[1..] == done + todo;
      AttributesRead(name, done + [a], todo[1..], x);
    }
  }

  lemma AttrTextStart(a: Attr)
    requires ValidName(a.name)
    ensures AttrText(a) != "" && NameStart(AttrText(a)[0]) && !IsWhiteSpace(AttrText(a)[0])
    ensures AttrText(a)[0] != '/' && AttrText(a)[0] != '>'
  {
    hide Encode;
    NameNeedsNoEncoding(a.name);
    assert AttrText(a)[0] == a.name[0];
  }

  lemma EndTagReads(name: string, tail: string)
    ensures EndTag(name, At("</" + name + ">" + tail)) == At(tail)
  {
    var s := "</" + name + ">" + tail;
    assert s == ("</" + name) + (">" + tail);
    assert s[2 + |name|..] == ">" + tail;
    assert (">" + tail)[1..] == tail;
  }

  // ----- text, comments, CDATA -----

  lemma {:induction false} UpToReads(value: string, tag: string, tail: string)
    requires tag == "]]>" || tag == "-->"
    requires Without(value, tag)
    ensures UpTo(value + tag + tail, tag) == (value, tag + tail)
  {
    hide Without;
    var s := value + tag + tail;
    if value == "" {
      assert s == tag + tail;
    } else {
      assert s[0] == value[0] && s[1..] == value[1..] + tag + tail;
      WithoutTail(value, tag);
      UpToReads(value[1..], tag, tail);
      NoEarlyTag(value, tag, tail);
      assert [value[0]] + value[1..] == value;
    }
  }

  lemma WithoutTail(s: string, tag: string)
    requires s != "" && Without(s, tag)
    ensures Without(s[1..], tag)
  {
    forall i | 0 <= i < |s[1..]| ensures !(tag <= s[1..][i..]) {
      assert s[1..][i..] == s[i + 1..];
    }
  }

  /** The terminators cannot start inside the value and end in the real terminator: their last
      character is unlike the others. */
  lemma NoEarlyTag(value: string, tag: string, tail: string)
    requires tag == "]]>" || tag == "-->"
    requires value != "" && Without(value, tag)
    ensures !(tag <= value + tag + tail)
  {
    assert value[0..] == value;
    var s := value + tag + tail;
    assert s[|value|] == tag[0] && s[|value| + 1] == tag[1];
    assert |value| >= 3 ==> s[..3] == value[..3];
  }

  lemma CommentReads(value: string, tail: string)
    requires Without(value, "-->")
    ensures ParseNode(At("<!--" + value + "-->" + tail)) == (Comment(value), At(tail))
  {
    hide UpTo;
    var s := "<!--" + value + "-->" + tail;
    assert s == "<!--" + (value + "-->" + tail);
    assert s[1] == '!';
    assert s[4..] == value + "-->" + tail;
    UpToReads(value, "-->", tail);
    assert ("-->" + tail)[3..] == tail;
    DropNone(s);
  }

  /** What a comment, a CDATA section or an unknown tag without its end comes to: the first and the
      last run to the end of the text and are no error; a CDATA section is. */
  lemma UnendedNodes(value: string)
    ensures Without(value, "-->") ==> ParseNode(At("<!--" + value)) == (Comment(value), At(""))
    ensures Without(value, "]]>") ==> ParseNode(At("<![CDATA[" + value)) == (Text(value, true), Null)
    ensures NormalUnknown(value) ==> ParseNode(At("<" + value)) == (Unknown(value), At(""))
  {
    hide UpTo, Without;
    var c, d, u := "<!--" + value, "<![CDATA[" + value, "<" + value;
    assert c[1] == '!' && c[4..] == value && d[1] == '!' && d[2] == '[' && d[9..] == value && u[1..] == value;
    DropNone(c);
    DropNone(u);
    if Without(value, "-->") { NeverUpTo(value, "-->"); }
    if Without(value, "]]>") { NeverUpTo(value, "]]>"); }
    if NormalUnknown(value) { NeverUpToChar(value, '>'); }
    UnendedIdentified(value);
  }

  lemma UnendedIdentified(value: string)
    ensures NormalUnknown(value) ==> Identify(At("<" + value)) == IsUnknown
    ensures Identify(At("<!--" + value)) == IsComment && Identify(At("<![CDATA[" + value)) == IsCData
  {
    hide StringEqualNoCase;
    var c, d := "<!--" + value, "<![CDATA[" + value;
    assert c[1] == '!' && d[1] == '!' && d[2] == '[';
    NotDeclared(c);
    NotDeclared(d);
    WithinTag(value, "!--");
    WithinTag(value, "![CDATA[");
    assert "<" + "!--" == "<!--" && "<" + "![CDATA[" == "<![CDATA[";
  }

  lemma NotDeclared(s: string)
    requires |s| > 1 && s[1] == '!'
    ensures !StringEqualNoCase(At(s), "<?xml")
  {
    assert ToLower("<?xml"[1]) == '?' && ToLower('!') == '!';
  }

  lemma WithinTag(value: string, tag: string)
    ensures "<" + tag <= "<" + value ==> tag <= value
  {
    var t, s := "<" + tag, "<" + value;
    if t <= s {
      assert forall i :: 0 <= i < |tag| ==> tag[i] == t[i + 1] == s[i + 1] == value[i];
    }
  }

  lemma {:induction false} NeverUpTo(value: string, tag: string)
    requires Without(value, tag)
    ensures UpTo(value, tag) == (value, "")
  {
    if value == "" {
    } else {
      assert value[0..] == value;
      WithoutTail(value, tag);
      NeverUpTo(value[1..], tag);
      assert [value[0]] + value[1..] == value;
    }
  }

  lemma {:induction false} NeverUpToChar(value: string, c: char)
    requires c !in value
    ensures UpTo(value, [c]) == (value, "")
  {
    if value == "" {
    } else {
      assert value[0] in value;
      NeverUpToChar(value[1..], c);
      assert [value[0]] + value[1..] == value;
    }
  }

  lemma CDataReads(value: string, tail: string)
    requires Without(value, "]]>") && tail != ""
    ensures ParseNode(At("<![CDATA[" + value + "]]>" + tail)) == (Text(value, true), At(tail))
  {
    hide UpTo;
    var s := "<![CDATA[" + value + "]]>" + tail;
    assert s == "<![CDATA[" + (value + "]]>" + tail);
    assert s[1] == '!' && s[2] == '[';
    assert s[9..] == value + "]]>" + tail;
    UpToReads(value, "]]>", tail);
    assert ("]]>" + tail)[3..] == tail;
  }

  // ----- values without quotes -----

  lemma BareAttributeReads(name: string, value: string, y: string)
    requires ValidName(name) && y != "" && EndsBare(y[0]) && y[0] !in "'\"" && (value == "" ==> y[0] in "/>")
    requires forall i :: 0 <= i < |value| ==> !EndsBare(value[i])
    ensures ParseAttribute(At(name + "=" + value + y)) == (Attr(name, value), At(y))
  {
    hide ReadName, DropWhite, BareValue;
    var z := value + y;
    assert name + "=" + value + y == name + ("=" + z);
    NameReads(name, "=" + z);
    DropNone(name + ("=" + z));
    DropNone("=" + z);
    assert ("=" + z)[1..] == z;
    assert z[0] == if value == "" then y[0] else value[0];
    DropNone(z);
    BareValueIs(z, |value|);
    assert z[..|value|] == value && z[|value|..] == y;
  }

  // ----- unknown tags and declarations -----

  lemma {:induction false} UpToFirst(value: string, c: char, tail: string)
    requires c !in value
    ensures UpTo(value + [c] + tail, [c]) == (value, [c] + tail)
  {
    if value == "" {
      assert value + [c] + tail == [c] + tail;
    } else {
      var s := value + [c] + tail;
      assert s[0] == value[0] && s[0] in value && s[1..] == value[1..] + [c] + tail;
      UpToFirst(value[1..], c, tail);
      assert [value[0]] + value[1..] == value;
    }
  }

  lemma UnknownReads(value: string, tail: string)
    requires NormalUnknown(value)
    ensures ParseNode(At("<" + value + ">" + tail)) == (Unknown(value), At(tail))
  {
    hide UpTo;
    var s := "<" + value + ">" + tail;
    UnknownIdentified(value, tail);
    assert s[1..] == value + [s[1 + |value|]] + tail;
    UpToFirst(value, '>', tail);
    assert (">" + tail)[1..] == tail;
    DropNone(s);
  }

  lemma UnknownIdentified(value: string, tail: string)
    requires NormalUnknown(value)
    ensures Identify(At("<" + value + ">" + tail)) == IsUnknown
  {
    hide StringEqualNoCase;
    var s := "<" + value + ">" + tail;
    TagInside(value, "!--", tail);
    TagInside(value, "![CDATA[", tail);
    NoCaseInside(value, tail);
    assert s[1] == if value == "" then '>' else value[0];
  }

  /** A tag without `>` that starts the printed text lies within the value. */
  lemma TagInside(value: string, tag: string, tail: string)
    requires '>' !in tag
    ensures "<" + tag <= "<" + value + ">" + tail ==> tag <= value
  {
    var t, s := "<" + tag, "<" + value + ">" + tail;
    assert s[|value| + 1] == '>' && (|tag| > |value| ==> t[|value| + 1] in tag);
    if t <= s && |tag| <= |value| {
      assert forall i :: 0 <= i < |tag| ==> tag[i] == t[i + 1] == s[i + 1] == value[i];
    }
  }

  lemma NoCaseInside(value: string, tail: string)
    ensures StringEqualNoCase(At("<" + value + ">" + tail), "<?xml") ==> StringEqualNoCase(At("<" + value), "<?xml")
  {
    var t, s, v := "<?xml", "<" + value + ">" + tail, "<" + value;
    if StringEqualNoCase(At(s), t) {
      if |value| < 4 {
        assert s[|value| + 1] == '>' && ToLower(t[|value| + 1]) == ToLower('>');
        XmlHasNoEnd(|value| + 1);
      } else {
        assert forall i :: 0 <= i < 5 ==> v[i] == s[i];
      }
    }
  }

  lemma XmlHasNoEnd(i: nat)
    requires i < 5
    ensures ToLower("<?xml"[i]) != ToLower('>')
  {}

  lemma {:induction false} RawValueKept(value: string, y: string)
    requires '"' !in value && '&' !in value
    ensures KeepText(At(value + "\"" + y), "\"") == (value, At("\"" + y))
  {
    hide GetEntity;
    var s := value + "\"" + y;
    if value == "" {
      assert s == "\"" + y;
    } else {
      assert s[0] == value[0] && s[1..] == value[1..] + "\"" + y;
      assert s[0] in value;
      RawValueKept(value[1..], y);
      assert [value[0]] + value[1..] == value;
    }
  }

  lemma FieldReads(name: string, value: string, y: string)
    requires ValidName(name) && NormalField(value) && y != ""
    ensures ParseAttribute(At(name + "=\"" + value + "\"" + y)) == (Attr(name, value), At(y))
  {
    hide KeepText, ReadName, DropWhite;
    var z := value + "\"" + y;
    assert name + "=\"" + value + "\"" + y == name + ("=\"" + z);
    NameReads(name, "=\"" + z);
    DropNone(name + ("=\"" + z));
    DropNone("=\"" + z);
    assert ("=\"" + z)[1..] == "\"" + z;
    DropNone("\"" + z);
    assert ("\"" + z)[1..] == z;
    RawValueKept(value, y);
    assert ("\"" + y)[1..] == y;
  }

  lemma SpaceBeforeField(z: string, f: Fields)
    requires z != "" && !IsWhiteSpace(z[0])
    ensures DeclarationFields(At(" " + z), f) == DeclarationFields(At(z), f)
  {
    hide ParseAttribute, SkipWord, DropWhite;
    DropWhiteRun(" ", z);
    DropNone(z);
  }

  /** One printed field, if it is not empty. */
  function WithField(f: Fields, name: string, value: string): Fields {
    if value == "" then f
    else if name == "version" then f.(version := value)
    else if name == "encoding" then f.(encoding := value)
    else f.(standalone := value)
  }

  lemma FieldTaken(name: string, value: string, z: string, f: Fields)
    requires name == "version" || name == "encoding" || name == "standalone"
    requires NormalField(value) && z != "" && !IsWhiteSpace(z[0])
    ensures DeclarationFields(At(FieldText(name, value) + z), f) == DeclarationFields(At(z), WithField(f, name, value))
    ensures FieldText(name, value) + z != "" && !IsWhiteSpace((FieldText(name, value) + z)[0])
  {
    hide ParseAttribute, SkipWord, DropWhite;
    if value == "" {
      assert FieldText(name, value) + z == z;
    } else {
      var y := " " + z;
      var s := FieldText(name, value) + z;
      assert s == name + "=\"" + value + "\"" + y;
      FieldReads(name, value, y);
      DropNone(s);
      FieldNamed(name, s);
      SpaceBeforeField(z, WithField(f, name, value));
    }
  }

  lemma FieldNamed(name: string, s: string)
    requires (name == "version" || name == "encoding" || name == "standalone") && name <= s
    ensures StringEqualNoCase(At(s), name) && s[0] != '>' && !IsWhiteSpace(s[0])
    ensures name != "version" ==> !StringEqualNoCase(At(s), "version")
    ensures name == "standalone" ==> !StringEqualNoCase(At(s), "encoding")
  {
    assert s[0] == name[0] && forall i :: 0 <= i < |name| ==> s[i] == name[i];
    assert ToLower("version"[0]) == 'v' && ToLower("encoding"[0]) == 'e';
  }

  lemma DeclarationReads(version: string, encoding: string, standalone: string, depth: nat, l: Layout, tail: string)
    requires NormalField(version) && NormalField(encoding) && NormalField(standalone)
    ensures var n := Declaration(version, encoding, standalone);
            ParseNode(At(Core(n, depth, l) + tail)) == (n, At(tail))
  {
    hide DeclarationFields, FieldText;
    var f0 := Fields("", "", "");
    var z3 := "?>" + tail;
    var z2 := FieldText("standalone", standalone) + z3;
    var z1 := FieldText("encoding", encoding) + z2;
    var z0 := FieldText("version", version) + z1;
    var f1 := WithField(f0, "version", version);
    var f2 := WithField(f1, "encoding", encoding);
    var f3 := WithField(f2, "standalone", standalone);
    var s := "<?xml" + (" " + z0);
    assert Core(Declaration(version, encoding, standalone), depth, l) + tail == s;
    FieldTaken("standalone", standalone, z3, f2);
    FieldTaken("encoding", encoding, z2, f1);
    FieldTaken("version", version, z1, f0);
    SpaceBeforeField(z0, f0);
    DeclarationEnds(tail, f3);
    DropNone(s);
    assert s[5..] == " " + z0;
    assert StringEqualNoCase(At(s), "<?xml");
  }

  lemma DeclarationEnds(tail: string, f: Fields)
    ensures DeclarationFields(At("?>" + tail), f) == (f, At(tail))
  {
    hide ParseAttribute;
    var s := "?>" + tail;
    DropNone(s);
    assert s[0] == '?' && s[1] == '>' && s[1..] == ">" + tail && (">" + tail)[1..] == tail;
    assert ToLower(s[0]) == '?';
    assert ToLower("version"[0]) == 'v' && ToLower("encoding"[0]) == 'e' && ToLower("standalone"[0]) == 's';
    assert SkipWord(s[1..]) == s[1..];
  }

  lemma EncodedStart(value: string)
    requires NormalText(value)
    ensures Encode(value) != "" && Encode(value)[0] != '<' && !IsWhiteSpace(Encode(value)[0])
  {
    hide Encode, EncodeChar;
    assert value != "";
    EncodeStep(value);
    EncodeCharStart(value[0]);
  }

  /** Plain text, then white space, then a tag: the text is read whole and the tag is next. */
  lemma TextReads(value: string, w: string, k: string)
    requires NormalText(value) && AllWhite(w) && k != ""
    ensures var s := Encode(value) + w + "<" + k;
            && s != "" && s[0] != '<' && !IsWhiteSpace(s[0])
            && ParseText(At(s)) == (value, At("<" + k))
  {
    hide Encode, CondenseText, DropWhite, Collapse;
    var s := Encode(value) + w + "<" + k;
    EncodedStart(value);
    assert s[0] == Encode(value)[0];
    DropNone(s);
    CondenseUndoesEncode(value, w, k, false);
    CollapseOfNormal(value, false);
    assert Collapse(value, false) == value;
    var stop := "<" + k;
    assert stop[1..] == k && |stop| > 1;
    assert PastTag(At(stop), "<") == At(k);
  }

  lemma {:induction false} CollapseKeepsInk(s: string, white: bool)
    ensures AllWhite(Collapse(s, white)) <==> AllWhite(s)
  {
    if s == "" {
    } else if s[0] == ' ' {
      CollapseKeepsInk(s[1..], true);
      assert s == [s[0]] + s[1..];
    } else {
      CollapseKeepsInk(s[1..], false);
      assert s == [s[0]] + s[1..];
      var head := (if white then " " else "") + [s[0]];
      assert forall i :: 0 <= i < |Collapse(s[1..], false)| ==>
                           (head + Collapse(s[1..], false))[|head| + i] == Collapse(s[1..], false)[i];
      assert (head + Collapse(s[1..], false))[|head| - 1] == s[0];
    }
  }

  /** A text is dropped exactly if it is all white space, be it encoded. */
  lemma TextDroppedIff(s: string, tail: string)
    requires NoHexRef(s) && s != "" && s[0] != ' '
    ensures ReadNodes(At(Encode(s) + "<" + ("/" + tail))).1 == At("</" + tail)
    ensures ReadNodes(At(Encode(s) + "<" + ("/" + tail))).0 == [] <==> AllWhite(s)
  {
    hide CondenseText, DropWhite, Encode, Collapse, NoHexRef, ReadText;
    var text, stop := Encode(s) + "<" + ("/" + tail), "</" + tail;
    EncodeStep(s);
    EncodeCharStart(s[0]);
    assert text[0] == EncodeChar(s[0])[0];
    CondensedTextIsNormalized(s, "/" + tail);
    CollapseKeepsInk(s, false);
    assert DropSpaces(s) == s;
    assert "<" + ("/" + tail) == stop;
    DropNone(stop);
    assert ReadNodes(At(stop)) == ([], At(stop));
    TextRound(At(text));
  }

  // ----- trees -----

  lemma {:induction false} IndentIsWhite(l: Layout, depth: nat)
    requires WhiteLayout(l)
    ensures AllWhite(Indent(l, depth))
  {
    if depth == 0 {
    } else {
      IndentIsWhite(l, depth - 1);
    }
  }

  /** Every node but plain text starts with a tag, and not with an end tag. */
  lemma CoreStart(n: Node, depth: nat, l: Layout)
    requires Normal(n)
    ensures var c := Core(n, depth, l);
            && |c| > 1 - (if PlainText(n) then 1 else 0) && !IsWhiteSpace(c[0])
            && (c[0] == '<' <==> !PlainText(n)) && (!PlainText(n) ==> c[1] != '/')
  {
    hide Encode, Inner, AttrsText, Reached, NormalText;
    match n
    case Element(name, attrs, children) =>
      assert Core(n, depth, l)[1] == name[0];
    case Text(value, cdata) =>
      if !cdata { EncodedStart(value); }
    case Comment(value) =>
      assert Core(n, depth, l)[1] == '!';
    case Unknown(value) =>
      assert Core(n, depth, l)[1] == if value == "" then '>' else value[0];
    case Declaration(version, encoding, standalone) =>
      assert Core(n, depth, l)[1] == '?';
  }

  /** What is printed from the end of one node to the parent's end tag. */
  function Rest(ns: seq<Node>, depth: nat, l: Layout, w: string, tail: string): string {
    PrintNodes(ns, depth, l) + w + "</" + tail
  }

  lemma RestStep(ns: seq<Node>, depth: nat, l: Layout, w: string, tail: string)
    requires ns != []
    ensures Rest(ns, depth, l, w, tail)
            == Indent(l, depth) + (Core(ns[0], depth, l) + (l.lineBreak + Rest(ns[1..], depth, l, w, tail)))
  {
    hide Indent, Core;
    assert Print(ns[0], depth, l) == Indent(l, depth) + Core(ns[0], depth, l) + l.lineBreak;
  }

  /** After plain text comes white space and then a tag. */
  lemma NextIsTag(ns: seq<Node>, depth: nat, l: Layout, w: string, tail: string) returns (v: string, k: string)
    requires NormalNodes(ns) && WhiteLayout(l) && AllWhite(w)
    requires ns != [] ==> !PlainText(ns[0])
    ensures AllWhite(v) && k != "" && l.lineBreak + Rest(ns, depth, l, w, tail) == v + "<" + k
  {
    hide Core, Indent, Normal;
    if ns == [] {
      v, k := l.lineBreak + w, "/" + tail;
      assert PrintNodes(ns, depth, l) == "";
      assert "</" + tail == "<" + ("/" + tail);
      assert l.lineBreak + ("" + w + "</" + tail) == v + ("</" + tail);
    } else {
      RestStep(ns, depth, l, w, tail);
      IndentIsWhite(l, depth);
      CoreStart(ns[0], depth, l);
      var core, after := Core(ns[0], depth, l), l.lineBreak + Rest(ns[1..], depth, l, w, tail);
      v, k := l.lineBreak + Indent(l, depth), core[1..] + after;
      assert core == "<" + core[1..];
      assert core + after == "<" + k;
      assert l.lineBreak + (Indent(l, depth) + (core + after)) == v + (core + after);
    }
  }

  /** Reading children up to the parent's end tag gives back exactly the children printed. */
  lemma {:induction false} NodesParse(ns: seq<Node>, depth: nat, l: Layout, u: string, w: string, tail: string)
    requires NormalNodes(ns) && WhiteLayout(l) && AllWhite(u) && AllWhite(w)
    ensures ReadNodes(SkipWhiteSpace(At(u + Rest(ns, depth, l, w, tail)))) == (ns, At("</" + tail))
    decreases ns, 1
  {
    hide Core, Indent, DropWhite, ParseNode, ParseText, Normal, NormalText, Rest, PrintNodes;
    if ns == [] {
      NothingLeft(depth, l, w, tail);
      DropWhiteRun(u + w, "</" + tail);
      DropNone("</" + tail);
      assert u + (w + ("</" + tail)) == (u + w) + ("</" + tail);
    } else {
      var n, core := ns[0], Core(ns[0], depth, l);
      var after := Rest(ns[1..], depth, l, w, tail);
      RestStep(ns, depth, l, w, tail);
      IndentIsWhite(l, depth);
      CoreStart(n, depth, l);
      var s := core + (l.lineBreak + after);
      assert u + (Indent(l, depth) + s) == (u + Indent(l, depth)) + s;
      DropWhiteRun(u + Indent(l, depth), s);
      assert s[0] == core[0];
      DropNone(s);
      NodesParse(ns[1..], depth, l, l.lineBreak, w, tail);
      if PlainText(n) {
        var v, k := NextIsTag(ns[1..], depth, l, w, tail);
        TextNode(n, depth, l);
        assert s == Encode(n.value) + v + "<" + k;
        TextStep(n, v, k);
      } else {
        assert s[1] == core[1];
        RestNonempty(ns[1..], depth, l, w, tail);
        NodeParses(n, depth, l, l.lineBreak + after);
        TagStep(n, s, l.lineBreak + after);
      }
      assert [n] + ns[1..] == ns;
    }
  }

  /** One round of the reading loop on plain text. */
  lemma TextStep(n: Node, v: string, k: string)
    requires n.Text? && !n.cdata && NormalText(n.value) && AllWhite(v) && k != ""
    ensures var r := ReadNodes(SkipWhiteSpace(At(v + "<" + k)));
            ReadNodes(At(Encode(n.value) + v + "<" + k)) == ([n] + r.0, r.1)
  {
    hide Encode, ParseText, DropWhite;
    TextReads(n.value, v, k);
    DropWhiteRun(v, "<" + k);
    DropNone("<" + k);
    assert v + "<" + k == v + ("<" + k);
  }

  /** One round of the reading loop on a tag. */
  lemma TagStep(n: Node, s: string, rest: string)
    requires |s| > 1 && s[0] == '<' && s[1] != '/' && ParseNode(At(s)) == (n, At(rest))
    ensures var r := ReadNodes(SkipWhiteSpace(At(rest)));
            ReadNodes(At(s)) == ([n] + r.0, r.1)
  {
    hide ParseNode, DropWhite;
  }

  lemma NothingLeft(depth: nat, l: Layout, w: string, tail: string)
    ensures Rest([], depth, l, w, tail) == w + ("</" + tail)
  {
    assert "" + w + "</" + tail == w + ("</" + tail);
  }

  lemma RestNonempty(ns: seq<Node>, depth: nat, l: Layout, w: string, tail: string)
    ensures Rest(ns, depth, l, w, tail) != ""
  {}

  lemma TextNode(n: Node, depth: nat, l: Layout)
    requires Normal(n) && PlainText(n)
    ensures NormalText(n.value) && !Blank(n.value) && Core(n, depth, l) == Encode(n.value)
    ensures n == Text(n.value, false)
  {}

  /** A tag, comment or CDATA section parses back to its node, whatever follows. */
  lemma {:induction false} NodeParses(n: Node, depth: nat, l: Layout, tail: string)
    requires Normal(n) && !PlainText(n) && WhiteLayout(l) && tail != ""
    ensures ParseNode(At(Core(n, depth, l) + tail)) == (n, At(tail))
    decreases n, 3
  {
    match n
    case Element(name, attrs, children) =>
      ElementParses(n, depth, l, tail);
      ElementIdentified(n, depth, l, tail);
    case Text(value, cdata) => CDataReads(value, tail);
    case Comment(value) => CommentReads(value, tail);
    case Unknown(value) => UnknownReads(value, tail);
    case Declaration(version, encoding, standalone) =>
      DeclarationReads(version, encoding, standalone, depth, l, tail);
  }

  lemma ElementIdentified(n: Node, depth: nat, l: Layout, tail: string)
    requires Normal(n) && n.Element?
    ensures var p := At(Core(n, depth, l) + tail); Identify(p) == IsElement && ParseNode(p) == ParseElement(p)
  {
    hide Inner, AttrsText, Reached, NormalNodes, NormalAttrs, ParseElement;
    var s := Core(n, depth, l) + tail;
    assert s[0] == '<' && s[1] == n.name[0];
    assert s[1] != '!' && s[1] != '?';
    assert "<?xml"[1] == '?';
  }

  /** An element parses back, whatever follows it. */
  lemma {:induction false} ElementParses(n: Node, depth: nat, l: Layout, tail: string)
    requires Normal(n) && n.Element? && WhiteLayout(l)
    ensures ParseElement(At(Core(n, depth, l) + tail)) == (n, At(tail))
    decreases n, 2
  {
    hide DropWhite, ReadName, AttrsText, ParseAttributes, Inner, NormalNodes, Core;
    var attrs := n.attrs;
    var x := if n.children == [] then " />" + tail
             else ">" + (Inner(n, depth, l) + ("</" + n.name + ">" + tail));
    var y := AttrsText(attrs) + x;
    var s := "<" + (n.name + y);
    ElementText(n, depth, l, tail);
    DropNone(s);
    assert s[1..] == n.name + y;
    DropNone(n.name + y);
    AttrsTextStart(attrs, x);
    NameReads(n.name, y);
    assert [] + attrs == attrs;
    AttributesRead(n.name, [], attrs, x);
    if n.children == [] {
      EmptyElementEnds(n.name, attrs, tail);
    } else {
      StartTagEnds(n.name, attrs, Inner(n, depth, l) + ("</" + n.name + ">" + tail));
      InnerParses(n, depth, l, n.name + ">" + tail);
      assert "</" + n.name + ">" + tail == "</" + (n.name + ">" + tail);
      EndTagReads(n.name, tail);
    }
  }

  lemma ElementText(n: Node, depth: nat, l: Layout, tail: string)
    requires Normal(n) && n.Element?
    ensures Core(n, depth, l) + tail
            == "<" + (n.name + (AttrsText(n.attrs)
                                + if n.children == [] then " />" + tail
                                  else ">" + (Inner(n, depth, l) + ("</" + n.name + ">" + tail))))
  {
    hide AttrsText, Inner, NormalNodes, Reached;
    AllReached(n.attrs);
  }

  lemma AttrsTextStart(attrs: seq<Attr>, x: string)
    requires x != "" && !NameChar(x[0])
    ensures AttrsText(attrs) + x != "" && !NameChar((AttrsText(attrs) + x)[0])
  {
    hide AttrText;
    if attrs == [] {
      assert AttrsText(attrs) + x == x;
    } else {
      assert AttrsText(attrs)[0] == ' ';
    }
  }

  lemma EmptyElementEnds(name: string, attrs: seq<Attr>, tail: string)
    ensures ParseAttributes(name, attrs, At(" />" + tail)) == (Element(name, attrs, []), At(tail))
  {
    assert " />" + tail == " " + ("/>" + tail);
    DropWhiteRun(" ", "/>" + tail);
    DropNone("/>" + tail);
    assert ("/>" + tail)[2..] == tail;
  }

  lemma StartTagEnds(name: string, attrs: seq<Attr>, y: string)
    ensures var v := ReadValue(At(y));
            ParseAttributes(name, attrs, At(">" + y)) == (Element(name, attrs, v.0), EndTag(name, v.1))
  {
    hide ReadValue, EndTag;
    DropNone(">" + y);
    assert (">" + y)[1..] == y;
  }

  /** The inside of an element, up to its end tag. */
  lemma {:induction false} InnerParses(n: Node, depth: nat, l: Layout, tail: string)
    requires Normal(n) && n.Element? && n.children != [] && WhiteLayout(l)
    ensures ReadValue(At(Inner(n, depth, l) + ("</" + tail))) == (n.children, At("</" + tail))
    decreases n, 1
  {
    hide Encode, NormalText, DropWhite, Indent, PrintNodes, Inner, ReadNodes, Rest;
    if SimpleText(n.children) {
      SimpleTextParses(n.children[0], tail);
      InnerOfText(n, depth, l);
    } else {
      IndentIsWhite(l, depth);
      NodesParse(n.children, depth + 1, l, l.lineBreak, Indent(l, depth), tail);
      InnerOfNodes(n, depth, l, tail);
    }
  }

  lemma InnerOfText(n: Node, depth: nat, l: Layout)
    requires n.Element? && SimpleText(n.children)
    ensures Inner(n, depth, l) == Encode(n.children[0].value) && n.children == [n.children[0]]
  {
    hide Encode;
  }

  lemma InnerOfNodes(n: Node, depth: nat, l: Layout, tail: string)
    requires n.Element? && !SimpleText(n.children)
    ensures Inner(n, depth, l) + ("</" + tail)
            == l.lineBreak + Rest(n.children, depth + 1, l, Indent(l, depth), tail)
  {
    hide Indent, PrintNodes;
  }

  lemma SimpleTextParses(n: Node, tail: string)
    requires Normal(n) && PlainText(n)
    ensures ReadValue(At(Encode(n.value) + ("</" + tail))) == ([n], At("</" + tail))
  {
    hide Encode, ParseText, DropWhite, NormalText;
    TextNode(n, 0, Layout("", ""));
    var s := Encode(n.value) + ("</" + tail);
    TextReads(n.value, "", "/" + tail);
    assert "</" + tail == "<" + ("/" + tail);
    assert Encode(n.value) + "" + "<" + ("/" + tail) == s;
    DropNone(s);
    DropNone("</" + tail);
    TextStep(n, "", "/" + tail);
    var stop := "</" + tail;
    assert "" + "<" + ("/" + tail) == stop;
    assert "</" <= stop && stop[0] == '<';
    assert ReadNodes(At(stop)) == ([], At(stop));
    assert [n] + [] == [n];
    assert SkipWhiteSpace(At(s)) == At(s);
  }

  /** Parse undoes print: an element in normal form, printed at any depth in any white layout,
      parses back to itself and leaves the parser right after it. */
  lemma ParseUndoesPrint(n: Node, depth: nat, l: Layout, tail: string)
    requires Normal(n) && n.Element? && WhiteLayout(l)
    ensures ParseElement(At(Print(n, depth, l) + tail)) == (n, At(l.lineBreak + tail))
  {
    hide DropWhite, Core, ParseElement, Normal;
    IndentIsWhite(l, depth);
    var s := Core(n, depth, l) + (l.lineBreak + tail);
    assert Print(n, depth, l) + tail == Indent(l, depth) + s;
    CoreStart(n, depth, l);
    assert s[0] == Core(n, depth, l)[0];
    LeadingWhite(Indent(l, depth), s);
    ElementParses(n, depth, l, l.lineBreak + tail);
  }

  lemma LeadingWhite(w: string, s: string)
    requires AllWhite(w) && s != "" && !IsWhiteSpace(s[0])
    ensures ParseElement(At(w + s)) == ParseElement(At(s))
  {
    hide ParseAttributes, ReadName;
    DropWhiteRun(w, s);
    DropNone(s);
  }

  const STREAM: Layout := Layout("", "")
  const PRETTY: Layout := Layout("    ", "\n")

  /** Both of the printer's own modes, on a whole text with nothing after it. */
  lemma BothModesRoundTrip(n: Node)
    requires Normal(n) && n.Element?
    ensures ParseElement(At(Print(n, 0, STREAM))).0 == n
    ensures ParseElement(At(Print(n, 0, PRETTY))).0 == n
  {
    hide Print, ParseElement, Normal;
    ParseUndoesPrint(n, 0, STREAM, "");
    ParseUndoesPrint(n, 0, PRETTY, "");
    assert Print(n, 0, STREAM) + "" == Print(n, 0, STREAM);
    assert Print(n, 0, PRETTY) + "" == Print(n, 0, PRETTY);
  }

  /** The printer run on a tree and the parser run on its buffer, end to end. */
  method PrintAndParse(n: Node, stream: bool) returns (text: string, back: Node)
    requires Normal(n) && n.Element?
    ensures text == Print(n, 0, if stream then STREAM else PRETTY)
    ensures back == n
  {
    hide Print, ParseElement, Normal;
    var printer := new TiXmlPrinter();
    if stream {
      printer.SetStreamPrinting();
    }
    printer.Accept(n);
    text := printer.buffer;
    var p;
    back, p := TakeElement(At(text));
    BothModesRoundTrip(n);
  }

  // ----- the printed text is a C string -----

  lemma {:induction false} EncodeIsNulFree(s: string)
    requires NoHexRef(s)
    ensures NulFree(Encode(s))
  {
    hide EncodeChar, Encode, NoHexRef;
    if s == "" {
      EncodeNothing();
    } else {
      EncodeStep(s);
      EncodeIsNulFree(s[1..]);
      CharIsNulFree(s[0]);
    }
  }

  lemma CharIsNulFree(c: char)
    ensures NulFree(EncodeChar(c))
  {}

  lemma {:induction false} AttrsAreNulFree(attrs: seq<Attr>)
    requires forall i :: 0 <= i < |attrs| ==> ValidName(attrs[i].name) && NoHexRef(attrs[i].value)
    ensures NulFree(AttrsText(attrs))
  {
    hide Encode, NoHexRef;
    if attrs == [] {
    } else {
      EncodeIsNulFree(attrs[0].value);
      NameNeedsNoEncoding(attrs[0].name);
      AttrsAreNulFree(attrs[1..]);
    }
  }

  lemma {:induction false} NodesAreNulFree(ns: seq<Node>, depth: nat, l: Layout)
    requires NormalNodes(ns) && WhiteLayout(l)
    ensures NulFree(PrintNodes(ns, depth, l))
    decreases ns, 1
  {
    hide Core, Normal, Indent;
    if ns == [] {
    } else {
      CoreIsNulFree(ns[0], depth, l);
      IndentIsWhite(l, depth);
      NodesAreNulFree(ns[1..], depth, l);
    }
  }

  /** Nothing printed for a normal node contains a NUL, so the parser sees all of it. */
  lemma {:induction false} CoreIsNulFree(n: Node, depth: nat, l: Layout)
    requires Normal(n) && WhiteLayout(l)
    ensures NulFree(Core(n, depth, l))
    decreases n, 0
  {
    hide AttrsText, Reached, Encode, NoHexRef, FieldText, NormalUnknown;
    match n
    case Element(name, attrs, children) =>
      AllReached(attrs);
      AttrsAreNulFree(attrs);
      IndentIsWhite(l, depth);
      if SimpleText(children) {
        assert Normal(children[0]);
        EncodeIsNulFree(children[0].value);
      } else {
        NodesAreNulFree(children, depth + 1, l);
      }
    case Text(value, cdata) =>
      if !cdata { EncodeIsNulFree(value); }
    case Declaration(version, encoding, standalone) => DeclarationIsNulFree(n, depth, l);
    case _ =>
  }

  lemma DeclarationIsNulFree(n: Node, depth: nat, l: Layout)
    requires Normal(n) && n.Declaration?
    ensures NulFree(Core(n, depth, l))
  {
    hide FieldText;
    FieldIsNulFree("version", n.version);
    FieldIsNulFree("encoding", n.encoding);
    FieldIsNulFree("standalone", n.standalone);
  }

  lemma FieldIsNulFree(name: string, value: string)
    requires NulFree(name) && NulFree(value)
    ensures NulFree(FieldText(name, value))
  {}
}
