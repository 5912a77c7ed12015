/** What TiXmlPrinter puts in its buffer, and the class that puts it there
    (tinyxml/tinyxml.cpp:1766-1885, tinyxml/tinyxml.h:1737-1798). */
module XmlPrinter {
  import opened XmlText
  import opened XmlParser
  import opened XmlReader

  /** Attributes reached by First and Next: Next takes an attribute with neither name nor value
      for the end of the list. */
  function Reached(attrs: seq<Attr>): (r: seq<Attr>)
    ensures r <= attrs
  {
    if |attrs| <= 1 || attrs[1] == Attr("", "") then (if attrs == [] then [] else attrs[..1])
    else [attrs[0]] + Reached(attrs[1..])
  }

  function AttrText(a: Attr): string {
    if '"' in CStr(a.value) then Encode(a.name) + "='" + Encode(a.value) + "'"
    else Encode(a.name) + "=\"" + Encode(a.value) + "\""
  }

  function AttrsText(attrs: seq<Attr>): string {
    if attrs == [] then "" else " " + AttrText(attrs[0]) + AttrsText(attrs[1..])
  }

  function FieldText(name: string, value: string): string {
    if value == "" then "" else name + "=\"" + value + "\" "
  }

  datatype Layout = Layout(indent: string, lineBreak: string)

  function Indent(l: Layout, depth: nat): string {
    if depth == 0 then "" else Indent(l, depth - 1) + l.indent
  }

  /** The element's only child is plain text: it goes on the line of its tags. */
  predicate SimpleText(children: seq<Node>) {
    |children| == 1 && children[0].Text? && !children[0].cdata
  }

  /** A node without the indentation before it and the line break after it. */
  function Core(n: Node, depth: nat, l: Layout): string
    decreases n, 1
  {
    match n
    case Element(name, attrs, children) =>
      "<" + CStr(name) + AttrsText(Reached(attrs))
      + (if children == [] then " />"
         else ">" + Inner(n, depth, l) + "</" + CStr(name) + ">")
    case Text(value, cdata) => if cdata then "<![CDATA[" + CStr(value) + "]]>" else Encode(value)
    case Comment(value) => "<!--" + CStr(value) + "-->"
    case Unknown(value) => "<" + CStr(value) + ">"
    case Declaration(version, encoding, standalone) =>
      "<?xml " + FieldText("version", version) + FieldText("encoding", encoding)
      + FieldText("standalone", standalone) + "?>"
  }

  /** Between the start tag and the end tag. */
  function Inner(n: Node, depth: nat, l: Layout): string
    requires n.Element?
    decreases n, 0
  {
    if SimpleText(n.children) then Encode(n.children[0].value)
    else l.lineBreak + PrintNodes(n.children, depth + 1, l) + Indent(l, depth)
  }

  function Print(n: Node, depth: nat, l: Layout): string
    decreases n, 2
  {
    Indent(l, depth) + Core(n, depth, l) + l.lineBreak
  }

  function PrintNodes(ns: seq<Node>, depth: nat, l: Layout): string
    decreases ns
  {
    if ns == [] then "" else Print(ns[0], depth, l) + PrintNodes(ns[1..], depth, l)
  }

  lemma TextPrinted(before: string, n: Node, depth: nat, l: Layout)
    requires n.Text?
    ensures before + Print(n, depth, l)
            == (if n.cdata then before + Indent(l, depth) + "<![CDATA[" + CStr(n.value) + "]]>"
                else before + Indent(l, depth) + Encode(n.value)) + l.lineBreak
  {
    hide Encode, Indent, CStr;
  }

  lemma PrintNone(depth: nat, l: Layout)
    ensures PrintNodes([], depth, l) == ""
  {}

  lemma Regroup(before: string, text: string, rest: string)
    ensures before + (" " + text + rest) == ((before + " ") + text) + rest
  {}

  lemma ReachedStep(attrs: seq<Attr>)
    ensures attrs == [] ==> AttrsText(Reached(attrs)) == ""
    ensures attrs != [] ==>
              AttrsText(Reached(attrs))
              == " " + AttrText(attrs[0])
                 + (if |attrs| == 1 || attrs[1] == Attr("", "") then "" else AttrsText(Reached(attrs[1..])))
  {
    hide AttrText;
    if attrs != [] {
      if |attrs| == 1 || attrs[1] == Attr("", "") {
        assert AttrsText([attrs[0]]) == " " + AttrText(attrs[0]) + AttrsText([]);
        assert attrs[..1] == [attrs[0]];
      } else {
        assert ([attrs[0]] + Reached(attrs[1..]))[1..] == Reached(attrs[1..]);
      }
    }
  }

  /** What entering an element emits, and what leaving it emits. */
  function Entered(n: Node, depth: nat, l: Layout): string
    requires n.Element?
  {
    Indent(l, depth) + "<" + CStr(n.name) + AttrsText(Reached(n.attrs))
    + (if n.children == [] then " />" + l.lineBreak
       else ">" + if SimpleText(n.children) then "" else l.lineBreak)
  }

  function Exited(n: Node, depth: nat, l: Layout): string
    requires n.Element?
  {
    if n.children == [] then ""
    else (if SimpleText(n.children) then "" else Indent(l, depth)) + "</" + CStr(n.name) + ">" + l.lineBreak
  }

  /** An element's printed form is those two with its children's between them. */
  lemma ElementPrinted(n: Node, depth: nat, l: Layout)
    requires n.Element?
    ensures Print(n, depth, l)
         == Entered(n, depth, l)
            + (if SimpleText(n.children) then Encode(n.children[0].value)
               else PrintNodes(n.children, depth + 1, l))
            + Exited(n, depth, l)
  {
    hide Indent, AttrsText, Reached, Encode, CStr, PrintNodes;
    var ind, name, attrs := Indent(l, depth), CStr(n.name), AttrsText(Reached(n.attrs));
    var head := "<" + name + attrs;
    if n.children == [] {
      assert PrintNodes(n.children, depth + 1, l) == "" by { PrintNone(depth + 1, l); }
      assert Print(n, depth, l) == ind + (head + " />") + l.lineBreak;
      assert ind + "<" + name + attrs == ind + head;
      assert ind + (head + " />") + l.lineBreak == ind + head + (" />" + l.lineBreak) + "" + "";
    } else {
      var inner := Inner(n, depth, l);
      assert Print(n, depth, l) == ind + (head + (">" + inner + "</" + name + ">")) + l.lineBreak;
      assert ind + "<" + name + attrs == ind + head;
      if SimpleText(n.children) {
        assert ind + (head + (">" + inner + "</" + name + ">")) + l.lineBreak
            == ind + head + (">" + "") + inner + ("" + "</" + name + ">" + l.lineBreak);
      } else {
        var kids := PrintNodes(n.children, depth + 1, l);
        assert ind + (head + (">" + (l.lineBreak + kids + ind) + "</" + name + ">")) + l.lineBreak
            == ind + head + (">" + l.lineBreak) + kids + (ind + "</" + name + ">" + l.lineBreak);
      }
    }
  }

  lemma {:induction false} PrintSnoc(ns: seq<Node>, n: Node, depth: nat, l: Layout)
    ensures PrintNodes(ns + [n], depth, l) == PrintNodes(ns, depth, l) + Print(n, depth, l)
  {
    hide Print;
    if ns == [] {
      assert ns + [n] == [n] && [n][1..] == [];
    } else {
      assert (ns + [n])[1..] == ns[1..] + [n] && (ns + [n])[0] == ns[0];
      PrintSnoc(ns[1..], n, depth, l);
    }
  }

  /** The visitor: its fields change as the nodes go by. */
  class TiXmlPrinter {
    var depth: nat
    var simpleTextPrint: bool
    var buffer: string
    var indent: string
    var lineBreak: string

    constructor ()
      ensures depth == 0 && !simpleTextPrint && buffer == "" && indent == "    " && lineBreak == "\n"
    {
      depth, simpleTextPrint, buffer, indent, lineBreak := 0, false, "", "    ", "\n";
    }

    function Mode(): Layout
      reads this
    {
      Layout(indent, lineBreak)
    }

    method SetStreamPrinting()
      modifies this`indent, this`lineBreak
      ensures Mode() == Layout("", "")
    {
      indent, lineBreak := "", "";
    }

    method DoIndent()
      modifies this`buffer
      ensures buffer == old(buffer) + Indent(Mode(), depth)
    {
      for i := 0 to depth
        invariant buffer == old(buffer) + Indent(Mode(), i)
      {
        buffer := buffer + indent;
      }
    }

    method DoLineBreak()
      modifies this`buffer
      ensures buffer == old(buffer) + lineBreak
    {
      buffer := buffer + lineBreak;
    }

    /** TiXmlAttribute::Print */
    method PrintAttribute(a: Attr)
      modifies this`buffer
      ensures buffer == old(buffer) + AttrText(a)
    {
      hide Encode;
      var n := EncodeString(a.name, "");
      var v := EncodeString(a.value, "");
      assert n == Encode(a.name) && v == Encode(a.value);
      if '"' !in CStr(a.value) {
        buffer := buffer + n;
        buffer := buffer + "=\"";
        buffer := buffer + v;
        buffer := buffer + "\"";
      } else {
        buffer := buffer + n;
        buffer := buffer + "='";
        buffer := buffer + v;
        buffer := buffer + "'";
      }
    }

    /** The attribute loop: from First along Next, which stops at an attribute with neither name
        nor value. */
    method PrintAttributes(attrs: seq<Attr>)
      modifies this`buffer
      ensures buffer == old(buffer) + AttrsText(Reached(attrs))
    {
      hide AttrText, AttrsText, Reached;
      var i := 0;
      assert attrs[0..] == attrs;
      ReachedStep(attrs);
      var more := attrs != [];
      while more
        invariant i <= |attrs| && (more ==> i < |attrs|)
        invariant old(buffer) + AttrsText(Reached(attrs))
               == buffer + if more then AttrsText(Reached(attrs[i..])) else ""
        decreases more, |attrs| - i
      {
        ghost var rest := attrs[i..];
        ReachedStep(rest);
        assert rest[1..] == attrs[i + 1..];
        Regroup(buffer, AttrText(attrs[i]),
                if |rest| == 1 || rest[1] == Attr("", "") then "" else AttrsText(Reached(rest[1..])));
        buffer := buffer + " ";
        PrintAttribute(attrs[i]);
        i := i + 1;
        if i == |attrs| || (attrs[i].value == "" && attrs[i].name == "") {
          more := false;
        }
      }
    }

    method VisitEnter(n: Node)
      requires n.Element? && !simpleTextPrint
      modifies this`buffer, this`depth, this`simpleTextPrint
      ensures buffer == old(buffer) + Entered(n, old(depth), Mode())
      ensures depth == old(depth) + 1 && simpleTextPrint == SimpleText(n.children)
    {
      hide Indent, AttrsText, Reached, CStr;
      DoIndent();
      buffer := buffer + "<";
      buffer := buffer + CStr(n.name);
      PrintAttributes(n.attrs);
      if n.children == [] {
        buffer := buffer + " />";
        DoLineBreak();
      } else {
        buffer := buffer + ">";
        if n.children[0].Text? && |n.children| == 1 && !n.children[0].cdata {
          simpleTextPrint := true;
        } else {
          DoLineBreak();
        }
      }
      depth := depth + 1;
    }

    method VisitExit(n: Node)
      requires n.Element? && depth > 0 && simpleTextPrint == SimpleText(n.children)
      modifies this`buffer, this`depth, this`simpleTextPrint
      ensures depth == old(depth) - 1 && !simpleTextPrint
      ensures buffer == old(buffer) + Exited(n, depth, Mode())
    {
      depth := depth - 1;
      if n.children == [] {
      } else {
        if simpleTextPrint {
          simpleTextPrint := false;
        } else {
          DoIndent();
        }
        buffer := buffer + "</";
        buffer := buffer + CStr(n.name);
        buffer := buffer + ">";
        DoLineBreak();
      }
    }

    method VisitText(n: Node)
      requires n.Text? && (simpleTextPrint ==> !n.cdata)
      modifies this`buffer
      ensures buffer == old(buffer)
                        + if simpleTextPrint then Encode(n.value) else Print(n, depth, Mode())
    {
      hide Encode, Indent, CStr, Print;
      TextPrinted(buffer, n, depth, Mode());
      if n.cdata {
        DoIndent();
        buffer := buffer + "<![CDATA[";
        buffer := buffer + CStr(n.value);
        buffer := buffer + "]]>";
        DoLineBreak();
      } else if simpleTextPrint {
        var str := EncodeString(n.value, "");
        assert str == Encode(n.value);
        buffer := buffer + str;
      } else {
        DoIndent();
        var str := EncodeString(n.value, "");
        assert str == Encode(n.value);
        buffer := buffer + str;
        DoLineBreak();
      }
    }

    method VisitComment(n: Node)
      requires n.Comment?
      modifies this`buffer
      ensures buffer == old(buffer) + Print(n, depth, Mode())
    {
      hide Indent;
      DoIndent();
      buffer := buffer + "<!--";
      buffer := buffer + CStr(n.value);
      buffer := buffer + "-->";
      DoLineBreak();
    }

    method VisitUnknown(n: Node)
      requires n.Unknown?
      modifies this`buffer
      ensures buffer == old(buffer) + Print(n, depth, Mode())
    {
      hide Indent;
      DoIndent();
      buffer := buffer + "<";
      buffer := buffer + CStr(n.value);
      buffer := buffer + ">";
      DoLineBreak();
    }

    method VisitDeclaration(n: Node)
      requires n.Declaration?
      modifies this`buffer
      ensures buffer == old(buffer) + Print(n, depth, Mode())
    {
      hide Indent, FieldText;
      DoIndent();
      buffer := buffer + "<?xml ";
      buffer := buffer + FieldText("version", n.version);
      buffer := buffer + FieldText("encoding", n.encoding);
      buffer := buffer + FieldText("standalone", n.standalone);
      buffer := buffer + "?>";
      DoLineBreak();
    }

    /** TiXmlNode::Accept with this visitor: the buffer grows by the node's printed form, and
        depth and flag are as before. */
    method Accept(n: Node)
      requires simpleTextPrint ==> n.Text? && !n.cdata
      modifies this`buffer, this`depth, this`simpleTextPrint
      ensures depth == old(depth) && simpleTextPrint == old(simpleTextPrint)
      ensures buffer == old(buffer)
                        + if old(simpleTextPrint) then Encode(n.value) else Print(n, depth, Mode())
      decreases n, 1
    {
      hide Encode, AttrsText, Reached, Indent, Print, CStr, Entered, Exited;
      match n {
        case Text(_, _) => VisitText(n);
        case Comment(_) => VisitComment(n);
        case Unknown(_) => VisitUnknown(n);
        case Declaration(_, _, _) => VisitDeclaration(n);
        case Element(_, _, children) =>
          VisitEnter(n);
          AcceptChildren(n);
          VisitExit(n);
          ElementPrinted(n, depth, Mode());
      }
    }

    /** The loop of TiXmlElement::Accept. */
    method AcceptChildren(n: Node)
      requires n.Element? && simpleTextPrint == SimpleText(n.children)
      modifies this`buffer, this`depth, this`simpleTextPrint
      ensures depth == old(depth) && simpleTextPrint == old(simpleTextPrint)
      ensures buffer == old(buffer)
                        + if SimpleText(n.children) then Encode(n.children[0].value)
                          else PrintNodes(n.children, depth, Mode())
      decreases n, 0
    {
      hide Encode, Print, PrintNodes;
      ghost var simple := SimpleText(n.children);
      PrintNone(depth, Mode());
      for i := 0 to |n.children|
        invariant depth == old(depth) && simpleTextPrint == simple
        invariant buffer == old(buffer)
                            + if simple then (if i == 0 then "" else Encode(n.children[0].value))
                              else PrintNodes(n.children[..i], depth, Mode())
      {
        Accept(n.children[i]);
        if !simple {
          PrintSnoc(n.children[..i], n.children[i], depth, Mode());
          assert n.children[..i] + [n.children[i]] == n.children[..i + 1];
        }
      }
      assert n.children[..|n.children|] == n.children;
    }
  }
}
