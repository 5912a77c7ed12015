/** Every element the parser produces has attributes with distinct non-empty names, so that First
    and Next run through all of them (tinyxml/tinyxmlparser.cpp:1043-1247, 1392-1463). */
module XmlParsed {
  import opened XmlText
  import opened XmlChars
  import opened XmlParser
  import opened XmlPrinter
  import opened XmlAttributes

  lemma NamesAreNulFree(p: Ptr)
    ensures NulFree(ReadName(p).0)
  {
    if More(p) { LongestName(p.s); }
  }

  lemma AttributeNamed(p: Ptr)
    ensures NulFree(ParseAttribute(p).0.name)
    ensures ParseAttribute(p).1.At? ==> ParseAttribute(p).0.name != ""
  {
    hide ReadName, ReadText, BareValue, DropWhite;
    var p1 := SkipWhiteSpace(p);
    NamesAreNulFree(p1);
  }

  lemma AttributeRound(name: string, attrs: seq<Attr>, p: Ptr)
    ensures var q, r := SkipWhiteSpace(p), ParseAttributes(name, attrs, p);
            if !More(q) then r == (Element(name, attrs, []), Null)
            else if q.s[0] == '/' then
              r == (Element(name, attrs, []), if |q.s| > 1 && q.s[1] == '>' then At(q.s[2..]) else Null)
            else if q.s[0] == '>' then
              r == (Element(name, attrs, ReadValue(At(q.s[1..])).0), EndTag(name, ReadValue(At(q.s[1..])).1))
            else
              var a := ParseAttribute(q);
              r == if !More(a.1) || Named(attrs, a.0.name) then (Element(name, attrs, []), Null)
                   else ParseAttributes(name, attrs + [a.0], a.1)
  {
    hide DropWhite, ParseAttribute, ReadValue, EndTag, Named;
  }

  lemma NothingProper()
    ensures ProperNames([])
  {}

  lemma NamesAreC(attrs: seq<Attr>)
    requires ProperNames(attrs)
    ensures forall i :: 0 <= i < |attrs| ==> NulFree(attrs[i].name)
  {}

  lemma OneMoreProper(attrs: seq<Attr>, a: Attr)
    ensures ProperNames(attrs) && NulFree(a.name) && a.name != "" && !Named(attrs, a.name)
            ==> ProperNames(attrs + [a])
    ensures NulFree(a.name) ==> CStr(a.name) == a.name
  {
    hide NulFree;
  }

  /** The attribute loop keeps names distinct and non-empty. */
  lemma {:induction false} ParsedAttributesProper(name: string, attrs: seq<Attr>, p: Ptr)
    requires ProperNames(attrs)
    ensures var n := ParseAttributes(name, attrs, p).0; n.Element? && ProperNames(n.attrs)
    decreases Left(p)
  {
    hide ParseAttributes, ParseAttribute, ReadValue, EndTag, Named, DropWhite, ProperNames;
    AttributeRound(name, attrs, p);
    var q := SkipWhiteSpace(p);
    if !More(q) || q.s[0] == '/' || q.s[0] == '>' {
    } else {
      var a := ParseAttribute(q);
      AttributeNamed(q);
      OneMoreProper(attrs, a.0);
      if More(a.1) && !Named(attrs, a.0.name) {
        ParsedAttributesProper(name, attrs + [a.0], a.1);
      }
    }
  }

  /** An element and all below it have such attributes. */
  ghost predicate AllProper(n: Node)
    decreases n
  {
    n.Element? ==>
      && ProperNames(n.attrs) && Reached(n.attrs) == n.attrs
      && forall i :: 0 <= i < |n.children| ==> AllProper(n.children[i])
  }

  /** Whatever the text, and also where parsing fails half-way. */
  lemma {:induction false} ParsedNodeProper(p: Ptr)
    requires More(p) && p.s[0] == '<'
    ensures AllProper(ParseNode(p).0)
    decreases Left(p), 3
  {
    hide ParseElement, UpTo, ReadText, DropWhite, DeclarationFields;
    if Identify(p) == IsElement {
      ParsedElementProper(p);
    }
  }

  lemma {:induction false} ParsedElementProper(p: Ptr)
    ensures AllProper(ParseElement(p).0)
    decreases Left(p), 2
  {
    hide ParseAttributes, ReadName, DropWhite, ProperNames, AllProper, Reached;
    NothingProper();
    BareProper("", []);
    var p1 := SkipWhiteSpace(p);
    if More(p1) && p1.s[0] == '<' {
      var n := ReadName(SkipWhiteSpace(At(p1.s[1..])));
      BareProper(n.0, []);
      if More(n.1) {
        ParsedContentProper(n.0, [], n.1);
      }
    }
  }

  lemma BareProper(name: string, attrs: seq<Attr>)
    requires ProperNames(attrs)
    ensures AllProper(Element(name, attrs, []))
  {
    AllReachedIff(attrs);
  }

  lemma {:induction false} ParsedContentProper(name: string, attrs: seq<Attr>, p: Ptr)
    requires ProperNames(attrs)
    ensures AllProper(ParseAttributes(name, attrs, p).0)
    decreases Left(p), 1
  {
    hide ParseAttributes, ParseAttribute, ReadValue, EndTag, Named, DropWhite, ProperNames, AllProper;
    AttributeRound(name, attrs, p);
    BareProper(name, attrs);
    var q := SkipWhiteSpace(p);
    if !More(q) || q.s[0] == '/' {
    } else if q.s[0] == '>' {
      ParsedChildrenProper(At(q.s[1..]));
      WholeProper(name, attrs, ReadValue(At(q.s[1..])).0);
    } else {
      var a := ParseAttribute(q);
      AttributeNamed(q);
      OneMoreProper(attrs, a.0);
      if More(a.1) && !Named(attrs, a.0.name) {
        ParsedContentProper(name, attrs + [a.0], a.1);
      }
    }
  }

  lemma WholeProper(name: string, attrs: seq<Attr>, children: seq<Node>)
    requires ProperNames(attrs) && forall i :: 0 <= i < |children| ==> AllProper(children[i])
    ensures AllProper(Element(name, attrs, children))
  {
    AllReachedIff(attrs);
  }

  lemma {:induction false} ParsedChildrenProper(p: Ptr)
    ensures forall i :: 0 <= i < |ReadValue(p).0| ==> AllProper(ReadValue(p).0[i])
    decreases Left(p), 5
  {
    hide ReadNodes, DropWhite, AllProper;
    ReadNodesProper(SkipWhiteSpace(p));
  }

  lemma {:induction false} ReadNodesProper(p: Ptr)
    requires More(p) ==> !IsWhiteSpace(p.s[0])
    ensures forall i :: 0 <= i < |ReadNodes(p).0| ==> AllProper(ReadNodes(p).0[i])
    decreases Left(p), 4
  {
    hide ParseNode, ReadText, DropWhite, ProperNames, Reached;
    if !More(p) {
    } else if p.s[0] != '<' {
      TextShrinks(p);
      var t := ParseText(p);
      ReadNodesProper(SkipWhiteSpace(t.1));
    } else if StringEqual(p, "</") {
    } else {
      ParsedNodeProper(p);
      ReadNodesProper(SkipWhiteSpace(ParseNode(p).1));
    }
  }
}
