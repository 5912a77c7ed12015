/** The parser building linked nodes: its Parse methods on the heap, each leaving a described tree
    that stands for what the parser functions say (tinyxml/tinyxmlparser.cpp:1043-1247). */
module XmlLoad {
  import opened XmlText
  import opened XmlParser
  import opened XmlReader
  import opened XmlAttributes
  import opened XmlAttributeSet
  import opened XmlDom
  import opened XmlParsed
  import XmlRoundTrip

  /** A set of nodes holds one whole tree, on its own, with this root. */
  ghost predicate Tree(root: DomNode, made: set<DomNode>)
    reads made, set n <- made :: n.attributes, set n <- made :: n.attributes.sentinel,
          set n <- made, i | 0 <= i < |n.attributes.members| :: n.attributes.members[i]
  {
    root in made && Described(made) && root.parent == null && !root.kind.DocumentNode?
  }

  /** A new node without children or attributes. */
  method NewLeaf(kind: NodeKind, value: string) returns (node: DomNode, ghost made: set<DomNode>)
    requires !kind.DocumentNode?
    ensures Tree(node, made) && fresh(Footprint(made)) && fresh(made) && made == {node}
    ensures node.kind == kind && node.value == value && node.children == []
    ensures node.attributes.members == [] && node.tree == node.Own()
  {
    node := new DomNode(kind, value);
    node.tree := node.Own();
    made := {node};
    OwnFootprint(node);
  }

  lemma TreesSnoc(nodes: seq<DomNode>, node: DomNode)
    ensures Trees(nodes + [node]) == Trees(nodes) + [node.tree]
  {}

  /** Identify, Parse and the node it was called on. */
  method LoadNode(p: Ptr) returns (node: DomNode, r: Ptr, ghost made: set<DomNode>)
    requires More(p) && p.s[0] == '<'
    ensures (node.tree, r) == ParseNode(p)
    ensures Tree(node, made) && fresh(Footprint(made)) && fresh(made) && node in made
    decreases Left(p), 3
  {
    hide UpTo, ParseElement, ReadText, DropWhite, DeclarationFields, Footprint;
    if Identify(p) == IsElement {
      node, r, made := LoadElement(p);
    } else {
      var n;
      n, r := TakeNode(p);
      node, made := LoadOther(n);
    }
  }

  /** A node that holds no other: its fields say it all. */
  method LoadOther(n: Node) returns (node: DomNode, ghost made: set<DomNode>)
    requires !n.Element?
    ensures node.tree == n && Tree(node, made) && fresh(Footprint(made)) && fresh(made)
  {
    match n {
      case Text(value, cdata) => node, made := NewLeaf(TextNode(cdata), value);
      case Comment(value) => node, made := NewLeaf(CommentNode, value);
      case Unknown(value) => node, made := NewLeaf(UnknownNode, value);
      case Declaration(version, encoding, standalone) =>
        node, made := NewLeaf(DeclarationNode(version, encoding, standalone), "");
    }
  }

  /** For C strings the heap's search by name is the parser's. */
  lemma {:induction false} SameSearch(attrs: seq<Attr>, name: string)
    requires forall i :: 0 <= i < |attrs| ==> NulFree(attrs[i].name)
    ensures Named(attrs, name) <==> IndexOf(attrs, name) < |attrs|
  {
    hide CStr;
    if attrs == [] {
    } else {
      SameSearch(attrs[1..], name);
    }
  }

  /** The attribute loop of TiXmlElement::Parse, up to the end of the start tag. `open` says that
      content follows; otherwise p is what Parse returns. */
  method LoadAttributes(attributes: AttributeSet, ghost name: string, start: Ptr) returns (p: Ptr, open: bool)
    requires attributes.Linked() && attributes.members == []
    modifies attributes`members, attributes.sentinel`next, attributes.sentinel`prev
    ensures attributes.Linked() && ProperNames(attributes.Contents())
    ensures fresh(set i | 0 <= i < |attributes.members| :: attributes.members[i])
    ensures ParseAttributes(name, [], start)
            == if open then (Element(name, attributes.Contents(), ReadValue(p).0), EndTag(name, ReadValue(p).1))
               else (Element(name, attributes.Contents(), []), p)
    ensures open ==> Left(p) < Left(start)
  {
    hide DropWhite, ParseAttribute, ReadValue, EndTag, Named, AttributeSet.Linked, IndexOf, Pairs, ParseAttributes,
         AttributeSet.Contents, ProperNames, NulFree;
    NoContents(attributes);
    NothingProper();
    p := start;
    while true
      invariant attributes.Linked() && ProperNames(attributes.Contents())
      invariant forall i :: 0 <= i < |attributes.members| ==> fresh(attributes.members[i])
      invariant ParseAttributes(name, attributes.Contents(), p) == ParseAttributes(name, [], start)
      invariant Left(p) <= Left(start)
      decreases Left(p)
    {
      AttributeRound(name, attributes.Contents(), p);
      p := SkipBlanks(p);
      if !More(p) {
        return Null, false;
      }
      if p.s[0] == '/' {
        return if |p.s| > 1 && p.s[1] == '>' then At(p.s[2..]) else Null, false;
      } else if p.s[0] == '>' {
        return At(p.s[1..]), true;
      }
      ghost var q := p;
      var attrib := new Attribute();
      var a;
      a, p := TakeAttribute(p);
      attrib.name, attrib.value := a.name, a.value;
      if !More(p) {
        return Null, false;
      }
      AttributeNamed(q);
      NamesAreC(attributes.Contents());
      SameSearch(attributes.Contents(), a.name);
      OneMoreProper(attributes.Contents(), a);
      var double := attributes.AddParsed(attrib);
      if double {
        return Null, false;
      }
    }
  }

  /** Naming the tree of a root once its children are in place. */
  ghost method Seal(c: DomNode, made: set<DomNode>)
    requires c in made && DescribedBut(made, c) && Within(c, made) && c.ListOk() && c.attributes.Linked()
    requires c.kind.ElementNode? && c.parent == null
    requires NoDocuments(c)
    modifies c`tree
    ensures Tree(c, made) && c.tree == Element(c.value, c.attributes.Contents(), Trees(c.children))
  {
    hide AttributeSet.Linked, AttributeSet.Contents, DomNode.ListOk, DomNode.SelfOk, Trees;
    forall n | n in made ensures forall i :: 0 <= i < |n.children| ==> n.children[i] != c {
      NotAChild(n, c);
    }
    ghost var trees := Trees(c.children);
    c.tree := Element(c.value, c.attributes.Contents(), Trees(c.children));
    assert Trees(c.children) == trees;
    ElementOk(c);
    DescribedWith(made, c);
  }

  lemma NotAChild(n: DomNode, c: DomNode)
    requires n.ListOk() && c.parent == null
    ensures forall i :: 0 <= i < |n.children| ==> n.children[i] != c
  {}

  lemma ElementOk(c: DomNode)
    requires c.attributes.Linked() && c.kind.ElementNode?
    requires c.tree == Element(c.value, c.attributes.Contents(), Trees(c.children))
    requires NoDocuments(c)
    ensures c.SelfOk()
  {}

  /** The name in a start tag and what follows it; nothing left stands for failure. */
  function StartName(p: Ptr): (string, Ptr) {
    var p1 := SkipWhiteSpace(p);
    if !More(p1) || p1.s[0] != '<' then ("", Null)
    else ReadName(SkipWhiteSpace(At(p1.s[1..])))
  }

  method TakeStart(start: Ptr) returns (name: string, p: Ptr)
    ensures (name, p) == StartName(start) && (p.At? ==> Left(p) < Left(start))
    ensures ParseElement(start) == if More(p) then ParseAttributes(name, [], p) else (Element(name, [], []), Null)
  {
    hide ReadName, DropWhite, ParseAttributes;
    p := SkipBlanks(start);
    if !More(p) || p.s[0] != '<' {
      return "", Null;
    }
    p := SkipBlanks(At(p.s[1..]));
    name, p := TakeName(p);
  }

  /** TiXmlElement::Parse */
  method LoadElement(start: Ptr) returns (c: DomNode, p: Ptr, ghost made: set<DomNode>)
    ensures (c.tree, p) == ParseElement(start)
    ensures Tree(c, made) && fresh(Footprint(made)) && fresh(made)
    decreases Left(start), 2
  {
    hide ParseElement, StartName, ParseAttributes, Tree, Footprint, DomNode.ListOk, Described, DescribedBut,
         AttributeSet.Linked, AttributeSet.Contents, Pairs, Trees, Within, NoDocuments, DomNode.SelfOk, More;
    var name;
    name, p := TakeStart(start);
    c := new DomNode(ElementNode, "");
    c.value := name;
    Alone(c);
    p, made := LoadContent(c, p);
    Seal(c, made);
    RootFootprint(c, made);
  }

  lemma RootFootprint(c: DomNode, made: set<DomNode>)
    requires c in made
    ensures made <= Footprint(made)
    ensures Footprint(made) == Footprint(made - {c}) + {c, c.attributes, c.attributes.sentinel}
                               + set i | 0 <= i < |c.attributes.members| :: c.attributes.members[i]
  {
    hide Footprint;
    assert (made - {c}) + {c} == made;
    FootprintOf(made - {c}, {c});
    OwnFootprint(c);
  }

  lemma Alone(c: DomNode)
    ensures DescribedBut({c}, c) && Footprint({c} - {c}) == {}
    ensures c.children == [] ==> Within(c, {c}) && Trees(c.children) == []
    ensures c.attributes.members == [] ==> c.attributes.Contents() == []
  {
    NothingBut(c);
  }

  /** What TiXmlElement::Parse does past the name, if anything is left there. */
  method LoadContent(c: DomNode, start: Ptr) returns (p: Ptr, ghost made: set<DomNode>)
    requires c.ListOk() && c.children == [] && c.parent == null
    requires c.attributes.Linked() && c.attributes.members == []
    modifies c`children, c`firstChild, c`lastChild
    modifies c.attributes`members, c.attributes.sentinel`next, c.attributes.sentinel`prev
    ensures (Element(c.value, c.attributes.Contents(), Trees(c.children)), p)
            == if More(start) then ParseAttributes(c.value, [], start) else (Element(c.value, [], []), Null)
    ensures c in made && c.ListOk() && Within(c, made) && DescribedBut(made, c)
    ensures fresh(Footprint(made - {c})) && fresh(made - {c})
    ensures NoDocuments(c)
    ensures c.attributes.Linked()
    ensures fresh(set i | 0 <= i < |c.attributes.members| :: c.attributes.members[i])
    decreases Left(start), 1
  {
    hide ReadValue, ParseAttributes, EndTag, Footprint, DomNode.ListOk, Described, DescribedBut,
         AttributeSet.Linked, AttributeSet.Contents, Pairs, Trees, Within;
    Alone(c);
    if !More(start) {
      return Null, {c};
    }
    var open;
    p, open := LoadAttributes(c.attributes, c.value, start);
    if open {
      p, made := LoadChildren(c, p);
      p := TakeEndTag(c.value, p);
    } else {
      made := {c};
      Alone(c);
    }
  }

  lemma NoContents(attributes: AttributeSet)
    ensures attributes.members == [] ==> attributes.Contents() == []
  {}

  /** The tree a round of the loop adds, if any. */
  ghost function Piece(node: DomNode?): seq<Node>
    reads node
  {
    if node == null then [] else [node.tree]
  }

  lemma Regrouped(done: seq<Node>, node: DomNode?, rest: seq<Node>)
    ensures done + (Piece(node) + rest) == (if node == null then done else done + [node.tree]) + rest
  {}

  /** One round of the loop in ReadValue: a text, unless it is blank, or another node. */
  method LoadPiece(p: Ptr) returns (node: DomNode?, q: Ptr, ghost made: set<DomNode>)
    requires More(p) && !IsWhiteSpace(p.s[0]) && !StringEqual(p, "</")
    ensures ReadNodes(p) == (Piece(node) + ReadNodes(SkipWhiteSpace(q)).0, ReadNodes(SkipWhiteSpace(q)).1)
    ensures Left(SkipWhiteSpace(q)) < Left(p)
    ensures node != null ==> Tree(node, made) && fresh(Footprint(made)) && fresh(made) && node in made
    decreases Left(p), 4
  {
    hide ReadText, DropWhite, ParseNode, ReadNodes, Footprint, Blank, ParseText, Tree;
    if p.s[0] != '<' {
      TextRound(p);
      var value;
      value, q := TakeText(p, true, "<");
      if More(q) {
        q := At("<" + q.s);
      }
      if Blank(value) {
        node, made := null, {};
      } else {
        node, made := NewLeaf(TextNode(false), value);
      }
    } else {
      TagRound(p);
      node, q, made := LoadNode(p);
    }
  }

  /** What is read from p after some nodes is what is read from r after more of them. */
  predicate Continues(before: seq<Node>, p: Ptr, after: seq<Node>, r: Ptr) {
    && (More(p) ==> !IsWhiteSpace(p.s[0])) && (More(r) ==> !IsWhiteSpace(r.s[0]))
    && before + ReadNodes(p).0 == after + ReadNodes(r).0 && ReadNodes(p).1 == ReadNodes(r).1
  }

  /** One round, with its node linked and white space skipped. */
  method LoadOne(c: DomNode, p: Ptr, ghost made: set<DomNode>) returns (r: Ptr, ghost all: set<DomNode>)
    requires More(p) && !IsWhiteSpace(p.s[0]) && !StringEqual(p, "</")
    requires c.ListOk() && Within(c, made) && DescribedBut(made, c) && c in made && NoDocuments(c)
    modifies c`children, c`firstChild, c`lastChild, c.children`next
    ensures Continues(old(Trees(c.children)), p, Trees(c.children), r) && Left(r) < Left(p)
    ensures made <= all && c.ListOk() && Within(c, all) && DescribedBut(all, c)
    ensures forall n <- all :: n in made || fresh(n)
    ensures forall o <- Footprint(all - {c}) :: o in old(Footprint(made - {c})) || fresh(o)
    ensures old(c.children) <= c.children && NoDocuments(c)
    ensures fresh(set i | |old(c.children)| <= i < |c.children| :: c.children[i])
    decreases Left(p), 5
  {
    hide ReadNodes, Footprint, DomNode.ListOk, Described, DescribedBut, Trees, Within, Piece, DropWhite;
    all := made;
    var node, q;
    ghost var kids;
    node, q, kids := LoadPiece(p);
    Regrouped(Trees(c.children), node, ReadNodes(SkipWhiteSpace(q)).0);
    if node != null {
      all := LinkLoaded(c, node, made, kids);
    }
    r := SkipBlanks(q);
  }

  /** TiXmlElement::ReadValue */
  method LoadChildren(c: DomNode, start: Ptr) returns (p: Ptr, ghost made: set<DomNode>)
    requires c.ListOk() && c.children == [] && c.parent == null
    modifies c`children, c`firstChild, c`lastChild
    ensures (Trees(c.children), p) == ReadValue(start)
    ensures c in made && c.ListOk() && Within(c, made) && DescribedBut(made, c)
    ensures fresh(Footprint(made - {c})) && fresh(made - {c})
    ensures NoDocuments(c)
    decreases Left(start), 6
  {
    hide ReadText, DropWhite, ParseNode, ReadNodes, Footprint, DomNode.ListOk, Described, DescribedBut, Trees,
         Within, Piece;
    made := {c};
    Alone(c);
    p := SkipBlanks(start);
    ghost var goal := ReadNodes(p);
    while More(p) && !StringEqual(p, "</")
      invariant More(p) ==> !IsWhiteSpace(p.s[0])
      invariant goal.0 == Trees(c.children) + ReadNodes(p).0 && goal.1 == ReadNodes(p).1
      invariant Left(p) <= Left(start)
      invariant c in made && c.ListOk() && Within(c, made) && DescribedBut(made, c)
      invariant fresh(Footprint(made - {c})) && fresh(made - {c})
      invariant NoDocuments(c) && forall i :: 0 <= i < |c.children| ==> fresh(c.children[i])
      decreases Left(p)
    {
      p, made := LoadOne(c, p, made);
    }
    EndRound(p);
    assert Trees(c.children) + [] == Trees(c.children);
  }

  /** A loaded tree becomes the last child. */
  method LinkLoaded(c: DomNode, node: DomNode, ghost made: set<DomNode>, ghost kids: set<DomNode>)
    returns (ghost all: set<DomNode>)
    requires c.ListOk() && Within(c, made) && DescribedBut(made, c) && c in made
    requires Tree(node, kids) && made !! kids
    modifies c`children, c`firstChild, c`lastChild, c.children`next, node`parent, node`prev, node`next
    ensures all == made + kids && c.ListOk() && Within(c, all) && DescribedBut(all, c)
    ensures c.children == old(c.children) + [node] && Trees(c.children) == old(Trees(c.children)) + [node.tree]
    ensures Footprint(all - {c}) == old(Footprint(made - {c}) + Footprint(kids))
  {
    hide Footprint, DomNode.ListOk, Described, DescribedBut, Trees, Within;
    FootprintOf(made - {c}, kids);
    c.LinkTree(node, made, kids);
    TreesSnoc(old(c.children), node);
    all := made + kids;
    assert all - {c} == (made - {c}) + kids;
  }

  /** A tree in normal form, printed and loaded again: linked nodes that stand for that tree. */
  method PrintAndLoad(n: Node, stream: bool) returns (root: DomNode, ghost made: set<DomNode>)
    requires XmlRoundTrip.Normal(n) && n.Element?
    ensures root.tree == n && Tree(root, made) && fresh(Footprint(made))
  {
    hide XmlRoundTrip.Normal, XmlPrinter.Print, ParseElement, Tree, Footprint;
    var printer := new XmlPrinter.TiXmlPrinter();
    if stream {
      printer.SetStreamPrinting();
    }
    printer.Accept(n);
    assert printer.buffer
           == XmlPrinter.Print(n, 0, if stream then XmlRoundTrip.STREAM else XmlRoundTrip.PRETTY);
    var p;
    root, p, made := LoadElement(At(printer.buffer));
    XmlRoundTrip.BothModesRoundTrip(n);
  }
}
