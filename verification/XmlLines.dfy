/** What is printed, line by line, whatever the layout (tinyxml/tinyxml.cpp:1766-1874). */
module XmlLines {
  import opened XmlText
  import opened XmlParser
  import opened XmlPrinter

  /** A line, and how deep it is indented. */
  datatype Line = Line(depth: nat, text: string)

  /** An element without children is one line; so is one whose only child is plain text. Else its
      tags have a line each, at its own depth, and its children's lines are one deeper. */
  function Lines(n: Node, depth: nat): seq<Line>
    decreases n, 1
  {
    match n
    case Element(name, attrs, children) =>
      var start, end := "<" + CStr(name) + AttrsText(Reached(attrs)), "</" + CStr(name) + ">";
      if |children| == 0 then [Line(depth, start + " />")]
      else if |children| == 1 && children[0].Text? && !children[0].cdata then
        [Line(depth, start + ">" + Encode(children[0].value) + end)]
      else [Line(depth, start + ">")] + LinesOf(children, depth + 1) + [Line(depth, end)]
    case Text(value, cdata) =>
      [Line(depth, if cdata then "<![CDATA[" + CStr(value) + "]]>" else Encode(value))]
    case Comment(value) => [Line(depth, "<!--" + CStr(value) + "-->")]
    case Unknown(value) => [Line(depth, "<" + CStr(value) + ">")]
    case Declaration(version, encoding, standalone) =>
      [Line(depth, "<?xml " + (if version == "" then "" else "version=\"" + version + "\" ")
                   + (if encoding == "" then "" else "encoding=\"" + encoding + "\" ")
                   + (if standalone == "" then "" else "standalone=\"" + standalone + "\" ") + "?>")]
  }

  function LinesOf(ns: seq<Node>, depth: nat): seq<Line>
    decreases ns, 0
  {
    if ns == [] then [] else Lines(ns[0], depth) + LinesOf(ns[1..], depth)
  }

  function Copies(s: string, n: nat): string {
    if n == 0 then "" else s + Copies(s, n - 1)
  }

  /** The lines with their indentation and a line break after each. */
  function Laid(lines: seq<Line>, l: Layout): string {
    if lines == [] then ""
    else Copies(l.indent, lines[0].depth) + lines[0].text + l.lineBreak + Laid(lines[1..], l)
  }

  lemma {:induction false} LaidJoins(a: seq<Line>, b: seq<Line>, l: Layout)
    ensures Laid(a + b, l) == Laid(a, l) + Laid(b, l)
  {
    if a == [] {
      assert a + b == b;
    } else {
      assert (a + b)[1..] == a[1..] + b;
      LaidJoins(a[1..], b, l);
      var head := Copies(l.indent, a[0].depth) + a[0].text + l.lineBreak;
      assert head + (Laid(a[1..], l) + Laid(b, l)) == (head + Laid(a[1..], l)) + Laid(b, l);
    }
  }

  lemma {:induction false} CopiesSnoc(s: string, n: nat)
    ensures Copies(s, n) + s == s + Copies(s, n)
  {
    if n == 0 {
    } else {
      CopiesSnoc(s, n - 1);
      assert s + (Copies(s, n - 1) + s) == (s + Copies(s, n - 1)) + s;
    }
  }

  /** The indentation of a level is that many indents. */
  lemma {:induction false} IndentIs(l: Layout, depth: nat)
    ensures Indent(l, depth) == Copies(l.indent, depth)
  {
    if depth == 0 {
    } else {
      IndentIs(l, depth - 1);
      CopiesSnoc(l.indent, depth - 1);
    }
  }

  lemma OneLine(line: Line, l: Layout)
    ensures Laid([line], l) == Indent(l, line.depth) + line.text + l.lineBreak
  {
    hide Copies, Indent;
    IndentIs(l, line.depth);
    assert [line][1..] == [] && Laid([], l) == "";
  }

  lemma FieldIs(value: string)
    ensures FieldText("version", value) == if value == "" then "" else "version=\"" + value + "\" "
    ensures FieldText("encoding", value) == if value == "" then "" else "encoding=\"" + value + "\" "
    ensures FieldText("standalone", value) == if value == "" then "" else "standalone=\"" + value + "\" "
  {
    assert "version" + "=\"" == "version=\"" && "encoding" + "=\"" == "encoding=\"";
    assert "standalone" + "=\"" == "standalone=\"";
  }

  predicate OnOneLine(n: Node) {
    n.Element? ==> n.children == [] || SimpleText(n.children)
  }

  lemma CoreIsLine(n: Node, depth: nat, l: Layout)
    requires OnOneLine(n)
    ensures Lines(n, depth) == [Line(depth, Core(n, depth, l))]
  {
    hide Indent, Encode, CStr, Reached, AttrsText, LinesOf, PrintNodes, FieldText;
    match n
    case Element(name, attrs, children) => ElementIsLine(n, depth, l);
    case Declaration(version, encoding, standalone) =>
      FieldIs(version);
      FieldIs(encoding);
      FieldIs(standalone);
    case _ =>
  }

  lemma ElementIsLine(n: Node, depth: nat, l: Layout)
    requires n.Element? && OnOneLine(n)
    ensures Lines(n, depth) == [Line(depth, Core(n, depth, l))]
  {
    hide Indent, Encode, CStr, Reached, AttrsText, LinesOf, PrintNodes;
    var start, name := "<" + CStr(n.name) + AttrsText(Reached(n.attrs)), CStr(n.name);
    if n.children != [] {
      var text := Encode(n.children[0].value);
      assert start + ">" + text + ("</" + name + ">") == start + (">" + text + "</" + name + ">");
    }
  }

  lemma Regrouped(ind: string, start: string, lineBreak: string, kids: string, name: string)
    ensures ind + (start + (">" + (lineBreak + kids + ind) + "</" + name + ">")) + lineBreak
         == (ind + (start + ">") + lineBreak) + (kids + (ind + ("</" + name + ">") + lineBreak))
  {}

  /** A node's printed form is its lines, laid out; the layout decides nothing else. */
  lemma {:induction false} PrintIsLines(n: Node, depth: nat, l: Layout)
    ensures Print(n, depth, l) == Laid(Lines(n, depth), l)
    decreases n, 1
  {
    hide Indent, Laid, Core, Lines;
    if OnOneLine(n) {
      CoreIsLine(n, depth, l);
      OneLine(Line(depth, Core(n, depth, l)), l);
    } else {
      NodesAreLines(n.children, depth + 1, l);
      ManyLines(n, depth, l);
    }
  }

  lemma ManyLines(n: Node, depth: nat, l: Layout)
    requires n.Element? && !OnOneLine(n)
    requires PrintNodes(n.children, depth + 1, l) == Laid(LinesOf(n.children, depth + 1), l)
    ensures Print(n, depth, l) == Laid(Lines(n, depth), l)
  {
    hide Indent, Laid, Encode, CStr, Reached, AttrsText, LinesOf, PrintNodes;
    var start, name := "<" + CStr(n.name) + AttrsText(Reached(n.attrs)), CStr(n.name);
    var first, last := Line(depth, start + ">"), Line(depth, "</" + name + ">");
    var kids := LinesOf(n.children, depth + 1);
    OneLine(first, l);
    OneLine(last, l);
    LaidJoins(kids, [last], l);
    LaidJoins([first], kids + [last], l);
    assert [first] + kids + [last] == [first] + (kids + [last]);
    assert Lines(n, depth) == [first] + kids + [last];
    var ind, inner := Indent(l, depth), PrintNodes(n.children, depth + 1, l);
    assert Inner(n, depth, l) == l.lineBreak + inner + ind;
    assert Core(n, depth, l) == start + (">" + (l.lineBreak + inner + ind) + "</" + name + ">");
    Regrouped(ind, start, l.lineBreak, inner, name);
  }

  lemma {:induction false} NodesAreLines(ns: seq<Node>, depth: nat, l: Layout)
    ensures PrintNodes(ns, depth, l) == Laid(LinesOf(ns, depth), l)
    decreases ns
  {
    hide Print, Lines, Laid;
    if ns == [] {
      NothingLaid(l);
    } else {
      PrintIsLines(ns[0], depth, l);
      NodesAreLines(ns[1..], depth, l);
      LaidJoins(Lines(ns[0], depth), LinesOf(ns[1..], depth), l);
    }
  }

  lemma NothingLaid(l: Layout)
    ensures Laid([], l) == ""
  {}
}
