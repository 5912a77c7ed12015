/** The TinyXML parser as functions from the text that is left to what was read and where the
    parser then stands; a null pointer is the program's failure return. White space is
    condensed, as by default, and the encoding is not UTF-8. */
module XmlParser {
  import opened XmlText

  datatype Attr = Attr(name: string, value: string)

  datatype Node =
    | Element(name: string, attrs: seq<Attr>, children: seq<Node>)
    | Text(value: string, cdata: bool)
    | Comment(value: string)
    | Unknown(value: string)
    | Declaration(version: string, encoding: string, standalone: string)

  predicate Blank(value: string) {
    AllWhite(value)
  }

  /** Attribute::Parse: name, value, and the next character after the closing quote. */
  function ParseAttribute(p: Ptr): (r: (Attr, Ptr))
    ensures Left(r.1) <= Left(p)
    ensures r.1.At? ==> Left(r.1) < Left(p)
  {
    var p1 := SkipWhiteSpace(p);
    if !More(p1) then (Attr("", ""), Null)
    else
      var n := ReadName(p1);
      if !More(n.1) then (Attr(n.0, ""), Null)
      else
        var p2 := SkipWhiteSpace(n.1);
        if !More(p2) || p2.s[0] != '=' then (Attr(n.0, ""), Null)
        else
          var p3 := SkipWhiteSpace(At(p2.s[1..]));
          if !More(p3) then (Attr(n.0, ""), Null)
          else if p3.s[0] == '\'' || p3.s[0] == '"' then
            var v := ReadText(At(p3.s[1..]), false, [p3.s[0]]);
            (Attr(n.0, v.0), v.1)
          else
            var v := BareValue(p3.s);
            (Attr(n.0, v.0), v.1)
  }

  /** An unquoted value; a quote inside it is an error. */
  function BareValue(s: string): (r: (string, Ptr))
    ensures Left(r.1) <= |s|
  {
    if s == "" || IsWhiteSpace(s[0]) || s[0] == '/' || s[0] == '>' then ("", At(s))
    else if s[0] == '\'' || s[0] == '"' then ("", Null)
    else
      var r := BareValue(s[1..]);
      ([s[0]] + r.0, r.1)
  }

  /** Everything up to a terminator or the end of the text. */
  function UpTo(s: string, tag: string): (r: (string, string))
    ensures r.0 + r.1 == s
    ensures r.1 != "" ==> tag <= r.1
  {
    if s == "" || tag <= s then ("", s)
    else
      var r := UpTo(s[1..], tag);
      ([s[0]] + r.0, r.1)
  }

  /** Comment::Parse. An unterminated comment runs to the end of the text and is no error. */
  function ParseComment(p: Ptr): (r: (string, Ptr))
    ensures r.1.At? ==> Left(r.1) < Left(p)
  {
    var p1 := SkipWhiteSpace(p);
    if !StringEqual(p1, "<!--") then ("", Null)
    else
      var u := UpTo(p1.s[4..], "-->");
      (u.0, At(if u.1 == "" then "" else u.1[3..]))
  }

  /** Text::Parse of a CDATA section. */
  function ParseCData(p: Ptr): (r: (string, Ptr))
    ensures r.1.At? ==> Left(r.1) < Left(p)
  {
    if !StringEqual(p, "<![CDATA[") then ("", Null)
    else
      var u := UpTo(p.s[9..], "]]>");
      (u.0, ReadText(At(u.1), false, "]]>").1)
  }

  /** Text::Parse of plain text: it stops in front of the next `<`. */
  function ParseText(p: Ptr): (r: (string, Ptr))
    requires More(p) && !IsWhiteSpace(p.s[0]) && p.s[0] != '<'
    ensures r.1.At? ==> Left(r.1) < Left(p) && More(r.1)
  {
    TextShrinks(p);
    var t := ReadText(p, true, "<");
    (t.0, if More(t.1) then At("<" + t.1.s) else Null)
  }

  lemma TextShrinks(p: Ptr)
    requires More(p) && !IsWhiteSpace(p.s[0]) && p.s[0] != '<'
    ensures ReadText(p, true, "<").1.At? ==> Left(ReadText(p, true, "<").1) + 1 < Left(p)
  {
    assert SkipWhiteSpace(p) == p;
    assert !("<" <= p.s);
    var c := GetChar(p.s);
    var t := CondenseText(c.1, "<", false);
    assert CondenseText(p, "<", false).1 == t.1;
    if More(t.1) { assert Left(t.1) <= Left(c.1) < Left(p); }
  }

  function ParseUnknown(p: Ptr): (r: (string, Ptr))
    ensures r.1.At? ==> Left(r.1) < Left(p)
  {
    var p1 := SkipWhiteSpace(p);
    if !More(p1) || p1.s[0] != '<' then ("", Null)
    else
      var u := UpTo(p1.s[1..], ">");
      (u.0, At(if u.1 == "" then "" else u.1[1..]))
  }

  datatype Fields = Fields(version: string, encoding: string, standalone: string)

  function SkipWord(s: string): (r: string)
    ensures |r| <= |s|
    ensures s != "" && !IsWhiteSpace(s[0]) && s[0] != '>' ==> |r| < |s|
  {
    if s != "" && s[0] != '>' && !IsWhiteSpace(s[0]) then SkipWord(s[1..]) else s
  }

  /** Declaration::Parse after its header. */
  function DeclarationFields(p: Ptr, f: Fields): (r: (Fields, Ptr))
    ensures r.1.At? ==> Left(r.1) < Left(p)
    decreases Left(p), if More(p) && IsWhiteSpace(p.s[0]) then 1 else 0
  {
    if !More(p) then (f, Null)
    else if p.s[0] == '>' then (f, At(p.s[1..]))
    else
      var q := SkipWhiteSpace(p);
      if StringEqualNoCase(q, "version") then
        var a := ParseAttribute(q);
        DeclarationFields(a.1, f.(version := a.0.value))
      else if StringEqualNoCase(q, "encoding") then
        var a := ParseAttribute(q);
        DeclarationFields(a.1, f.(encoding := a.0.value))
      else if StringEqualNoCase(q, "standalone") then
        var a := ParseAttribute(q);
        DeclarationFields(a.1, f.(standalone := a.0.value))
      else if More(q) && q.s[0] == '>' then (f, At(q.s[1..]))
      else DeclarationFields(At(SkipWord(q.s)), f)
  }

  function ParseDeclaration(p: Ptr): (r: (Fields, Ptr))
    ensures r.1.At? ==> Left(r.1) < Left(p)
  {
    var p1 := SkipWhiteSpace(p);
    if !StringEqualNoCase(p1, "<?xml") then (Fields("", "", ""), Null)
    else DeclarationFields(At(p1.s[5..]), Fields("", "", ""))
  }

  datatype Kind = IsDeclaration | IsComment | IsCData | IsUnknown | IsElement

  /** Identify, standing at a `<`. */
  function Identify(p: Ptr): Kind
    requires More(p) && p.s[0] == '<'
  {
    if StringEqualNoCase(p, "<?xml") then IsDeclaration
    else if StringEqual(p, "<!--") then IsComment
    else if StringEqual(p, "<![CDATA[") then IsCData
    else if StringEqual(p, "<!") then IsUnknown
    else if |p.s| > 1 && NameStart(p.s[1]) then IsElement
    else IsUnknown
  }

  /** Identify, and the Parse of what was identified. */
  function ParseNode(p: Ptr): (r: (Node, Ptr))
    requires More(p) && p.s[0] == '<'
    ensures r.1.At? ==> Left(r.1) < Left(p)
    decreases Left(p), 3
  {
    match Identify(p)
    case IsDeclaration =>
      var d := ParseDeclaration(p);
      (Declaration(d.0.version, d.0.encoding, d.0.standalone), d.1)
    case IsComment => var c := ParseComment(p); (Comment(c.0), c.1)
    case IsCData => var c := ParseCData(p); (Text(c.0, true), c.1)
    case IsUnknown => var u := ParseUnknown(p); (Unknown(u.0), u.1)
    case IsElement => ParseElement(p)
  }

  function ParseElement(p: Ptr): (r: (Node, Ptr))
    ensures r.1.At? ==> Left(r.1) < Left(p)
    decreases Left(p), 2
  {
    var p1 := SkipWhiteSpace(p);
    if !More(p1) || p1.s[0] != '<' then (Element("", [], []), Null)
    else
      var n := ReadName(SkipWhiteSpace(At(p1.s[1..])));
      if !More(n.1) then (Element(n.0, [], []), Null)
      else ParseAttributes(n.0, [], n.1)
  }

  ghost predicate HasName(attrs: seq<Attr>, name: string) {
    exists i :: 0 <= i < |attrs| && attrs[i].name == name
  }

  /** Set::Find by name. */
  function Named(attrs: seq<Attr>, name: string): (r: bool)
    ensures r <==> HasName(attrs, name)
  {
    if attrs == [] then false
    else if attrs[0].name == name then assert HasName(attrs, name); true
    else
      var r := Named(attrs[1..], name);
      assert forall i :: 1 <= i < |attrs| ==> attrs[i] == attrs[1..][i - 1];
      r
  }

  /** The attribute loop of Element::Parse, and what follows the start tag. */
  function ParseAttributes(name: string, attrs: seq<Attr>, p: Ptr): (r: (Node, Ptr))
    ensures r.1.At? ==> Left(r.1) < Left(p)
    decreases Left(p), 1
  {
    var q := SkipWhiteSpace(p);
    if !More(q) then (Element(name, attrs, []), Null)
    else if q.s[0] == '/' then
      (Element(name, attrs, []), if |q.s| > 1 && q.s[1] == '>' then At(q.s[2..]) else Null)
    else if q.s[0] == '>' then
      var v := ReadValue(At(q.s[1..]));
      (Element(name, attrs, v.0), EndTag(name, v.1))
    else
      var a := ParseAttribute(q);
      if !More(a.1) || Named(attrs, a.0.name) then (Element(name, attrs, []), Null)
      else ParseAttributes(name, attrs + [a.0], a.1)
  }

  /** The end tag `</name>`, with white space allowed before its `>`. */
  function EndTag(name: string, p: Ptr): (r: Ptr)
    ensures r.At? ==> Left(r) < Left(p)
  {
    if !StringEqual(p, "</" + name) then Null
    else
      var q := SkipWhiteSpace(At(p.s[2 + |name|..]));
      if More(q) && q.s[0] == '>' then At(q.s[1..]) else Null
  }

  /** Element::ReadValue. */
  function ReadValue(p: Ptr): (r: (seq<Node>, Ptr))
    ensures Left(r.1) <= Left(p)
    decreases Left(p), 5
  {
    ReadNodes(SkipWhiteSpace(p))
  }

  /** The loop of ReadValue, white space already skipped. */
  function ReadNodes(p: Ptr): (r: (seq<Node>, Ptr))
    requires More(p) ==> !IsWhiteSpace(p.s[0])
    ensures Left(r.1) <= Left(p)
    decreases Left(p), 4
  {
    if !More(p) then ([], p)
    else if p.s[0] != '<' then
      var t := ParseText(p);
      var r := ReadNodes(SkipWhiteSpace(t.1));
      ((if Blank(t.0) then [] else [Text(t.0, false)]) + r.0, r.1)
    else if StringEqual(p, "</") then ([], p)
    else
      var n := ParseNode(p);
      var r := ReadNodes(SkipWhiteSpace(n.1));
      ([n.0] + r.0, r.1)
  }
}
