/** What an element's attribute set holds, as a sequence in insertion order, and what copying
    a node through its accessors makes of it. */
module XmlAttributes {
  import opened XmlText
  import opened XmlParser
  import opened XmlPrinter

  /** The first attribute whose name compares equal as a C string, or |attrs|. */
  function IndexOf(attrs: seq<Attr>, name: string): (k: nat)
    ensures k <= |attrs|
    ensures k < |attrs| ==> CStr(attrs[k].name) == name
    ensures forall i :: 0 <= i < k ==> CStr(attrs[i].name) != name
  {
    if attrs == [] || CStr(attrs[0].name) == name then 0 else 1 + IndexOf(attrs[1..], name)
  }

  /** SetAttribute, and FindOrCreate with the value an attribute starts with. */
  function SetIn(attrs: seq<Attr>, name: string, value: string): seq<Attr> {
    var k := IndexOf(attrs, name);
    if k < |attrs| then attrs[k := attrs[k].(value := value)] else attrs + [Attr(name, value)]
  }

  function Without<T>(s: seq<T>, k: nat): (r: seq<T>)
    requires k < |s|
    ensures |r| == |s| - 1
    ensures forall i :: 0 <= i < |r| ==> r[i] == s[if i < k then i else i + 1]
  {
    s[..k] + s[k + 1..]
  }

  /** The first attribute of that name is the one at k. */
  ghost predicate FirstNamed(attrs: seq<Attr>, name: string, k: int) {
    && 0 <= k < |attrs| && CStr(attrs[k].name) == name
    && forall i :: 0 <= i < k ==> CStr(attrs[i].name) != name
  }

  ghost predicate Absent(attrs: seq<Attr>, name: string) {
    forall i :: 0 <= i < |attrs| ==> CStr(attrs[i].name) != name
  }

  /** Setting changes the value of the first attribute of that name and nothing else, or, if there
      is none, adds one at the end. */
  ghost predicate SetTo(was: seq<Attr>, now: seq<Attr>, name: string, value: string) {
    if Absent(was, name) then now == was + [Attr(name, value)]
    else
      && |now| == |was|
      && forall k :: 0 <= k < |was| ==>
           now[k] == if FirstNamed(was, name, k) then Attr(was[k].name, value) else was[k]
  }

  lemma SetInIs(was: seq<Attr>, name: string, value: string)
    ensures SetTo(was, SetIn(was, name, value), name, value)
  {
    hide CStr;
    var k := IndexOf(was, name);
    if k < |was| {
      assert FirstNamed(was, name, k);
      forall i | 0 <= i < |was| && FirstNamed(was, name, i) ensures i == k {}
    }
  }

  /** What was set is what is then found, as long as the name is a C string. */
  lemma SetIsFound(was: seq<Attr>, now: seq<Attr>, name: string, value: string)
    requires SetTo(was, now, name, value) && NulFree(name)
    ensures exists k :: FirstNamed(now, name, k) && now[k].value == value
    ensures |now| == |was| + if Absent(was, name) then 1 else 0
  {
    hide CStr, NulFree;
    if Absent(was, name) {
      assert FirstNamed(now, name, |was|);
    } else {
      var k := IndexOf(was, name);
      assert FirstNamed(was, name, k);
      assert FirstNamed(now, name, k);
    }
  }

  /** The names parsing and setting are meant to produce: distinct, non-empty C strings. */
  ghost predicate ProperNames(attrs: seq<Attr>) {
    && (forall i :: 0 <= i < |attrs| ==> NulFree(attrs[i].name) && attrs[i].name != "")
    && (forall i, j :: 0 <= i < j < |attrs| ==> attrs[i].name != attrs[j].name)
  }

  lemma SetKeepsNames(attrs: seq<Attr>, name: string, value: string)
    requires ProperNames(attrs) && NulFree(name) && name != ""
    ensures ProperNames(SetIn(attrs, name, value))
  {
    hide IndexOf, CStr, NulFree;
  }

  lemma RemoveKeepsNames(attrs: seq<Attr>, k: nat)
    requires ProperNames(attrs) && k < |attrs|
    ensures ProperNames(Without(attrs, k))
  {
    hide NulFree;
  }

  /** First and Next run through all of a set exactly when no attribute but the first has both an
      empty name and an empty value; so always, under proper names. */
  lemma {:induction false} AllReachedIff(attrs: seq<Attr>)
    ensures Reached(attrs) == attrs <==> forall i :: 1 <= i < |attrs| ==> attrs[i] != Attr("", "")
    ensures ProperNames(attrs) ==> Reached(attrs) == attrs
  {
    if |attrs| <= 1 {
    } else {
      AllReachedIff(attrs[1..]);
      if attrs[1] != Attr("", "") {
        assert [attrs[0]] + attrs[1..] == attrs;
        assert forall i :: 1 <= i < |attrs| ==> attrs[i] == attrs[1..][i - 1];
      }
    }
  }

  /** What First and Next run through: everything up to an attribute, after the first, with an
      empty name and an empty value. */
  lemma {:induction false} ReachedIs(attrs: seq<Attr>)
    ensures var n := |Reached(attrs)|;
            && n <= |attrs| && Reached(attrs) == attrs[..n] && (attrs != [] ==> n >= 1)
            && (forall i :: 1 <= i < n ==> attrs[i] != Attr("", ""))
            && (n < |attrs| ==> attrs[n] == Attr("", ""))
  {
    if |attrs| <= 1 {
    } else {
      ReachedIs(attrs[1..]);
      assert attrs == [attrs[0]] + attrs[1..];
      assert forall i :: 1 <= i < |attrs| ==> attrs[i] == attrs[1..][i - 1];
    }
  }

  // ----- copying -----

  /** The attribute loop of CopyTo: each reached attribute is set, through C strings. */
  function CopiedAttrs(into: seq<Attr>, from: seq<Attr>): seq<Attr>
    decreases from
  {
    if from == [] then into
    else CopiedAttrs(SetIn(into, CStr(from[0].name), CStr(from[0].value)), from[1..])
  }

  /** What Clone makes of a node. */
  function Cloned(n: Node): Node
    decreases n
  {
    match n
    case Element(name, attrs, children) =>
      Element(CStr(name), CopiedAttrs([], Reached(attrs)), ClonedAll(children))
    case Text(value, cdata) => Text(CStr(value), cdata)
    case Comment(value) => Comment(CStr(value))
    case Unknown(value) => Unknown(CStr(value))
    case Declaration(version, encoding, standalone) => n
  }

  function ClonedAll(ns: seq<Node>): (r: seq<Node>)
    ensures |r| == |ns|
    decreases ns
  {
    if ns == [] then [] else [Cloned(ns[0])] + ClonedAll(ns[1..])
  }

  /** Attribute names and values are C strings, names are distinct, and all are reached. */
  ghost predicate CopyableAttrs(attrs: seq<Attr>) {
    && (forall i :: 0 <= i < |attrs| ==> NulFree(attrs[i].name) && NulFree(attrs[i].value))
    && (forall i, j :: 0 <= i < j < |attrs| ==> attrs[i].name != attrs[j].name)
    && (forall i :: 1 <= i < |attrs| ==> attrs[i] != Attr("", ""))
  }

  ghost predicate Copyable(n: Node)
    decreases n
  {
    match n
    case Element(name, attrs, children) =>
      NulFree(name) && CopyableAttrs(attrs) && forall i :: 0 <= i < |children| ==> Copyable(children[i])
    case Text(value, cdata) => NulFree(value)
    case Comment(value) => NulFree(value)
    case Unknown(value) => NulFree(value)
    case Declaration(version, encoding, standalone) => true
  }

  lemma CStrIff(s: string)
    ensures CStr(s) == s <==> NulFree(s)
  {}

  /** No attribute ever gets more than one entry, and none is invented. */
  lemma {:induction false} CopyShape(into: seq<Attr>, from: seq<Attr>)
    requires forall i, j :: 0 <= i < j < |into| ==> into[i].name != into[j].name
    requires forall i :: 0 <= i < |into| ==> NulFree(into[i].name) && NulFree(into[i].value)
    ensures var r := CopiedAttrs(into, from);
            && |r| <= |into| + |from|
            && (forall i, j :: 0 <= i < j < |r| ==> r[i].name != r[j].name)
            && (forall i :: 0 <= i < |r| ==> NulFree(r[i].name) && NulFree(r[i].value))
    decreases from
  {
    hide IndexOf, CStr, NulFree;
    if from == [] {
    } else {
      CopyShape(SetIn(into, CStr(from[0].name), CStr(from[0].value)), from[1..]);
    }
  }

  lemma {:induction false} CopyAppends(into: seq<Attr>, from: seq<Attr>)
    requires forall i, j :: 0 <= i < j < |into + from| ==> (into + from)[i].name != (into + from)[j].name
    requires forall i :: 0 <= i < |into + from| ==> NulFree((into + from)[i].name) && NulFree((into + from)[i].value)
    ensures CopiedAttrs(into, from) == into + from
    decreases from
  {
    hide CStr, NulFree;
    if from == [] {
      assert into + from == into;
    } else {
      assert (into + from)[|into|] == from[0];
      assert forall i :: 0 <= i < |into| ==> (into + from)[i] == into[i];
      assert IndexOf(into, from[0].name) == |into|;
      assert into + [from[0]] + from[1..] == into + from;
      CopyAppends(into + [from[0]], from[1..]);
    }
  }

  lemma {:induction false} CopiedAttrsIff(attrs: seq<Attr>)
    ensures CopiedAttrs([], Reached(attrs)) == attrs <==> CopyableAttrs(attrs)
  {
    hide Reached, CopiedAttrs, NulFree;
    AllReachedIff(attrs);
    CopyShape([], Reached(attrs));
    if CopyableAttrs(attrs) {
      assert [] + attrs == attrs;
      CopyAppends([], attrs);
    }
    if CopiedAttrs([], Reached(attrs)) == attrs {
      assert Reached(attrs) <= attrs && |Reached(attrs)| == |attrs|;
      assert Reached(attrs) == attrs;
    }
  }

  /** A clone equals the original, attribute order and children included, exactly for the nodes
      whose strings hold no NUL and whose attributes are distinct and all reached. */
  lemma {:induction false} ClonedIff(n: Node)
    ensures Cloned(n) == n <==> Copyable(n)
    decreases n, 0
  {
    hide CStr, NulFree, CopyableAttrs, Reached, CopiedAttrs;
    match n
    case Element(name, attrs, children) =>
      CStrIff(name);
      CopiedAttrsIff(attrs);
      ClonedAllIff(children);
    case Text(value, cdata) => CStrIff(value);
    case Comment(value) => CStrIff(value);
    case Unknown(value) => CStrIff(value);
    case Declaration(version, encoding, standalone) =>
  }

  lemma {:induction false} ClonedAllIff(ns: seq<Node>)
    ensures ClonedAll(ns) == ns <==> forall i :: 0 <= i < |ns| ==> Copyable(ns[i])
    decreases ns, 1
  {
    hide Cloned, Copyable;
    if ns == [] {
    } else {
      ClonedIff(ns[0]);
      ClonedAllIff(ns[1..]);
      assert ns == [ns[0]] + ns[1..];
      assert forall i :: 1 <= i < |ns| ==> ns[i] == ns[1..][i - 1];
    }
  }
}
