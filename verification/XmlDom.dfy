/** The linked tree of TinyXML nodes: the child list (tinyxml/tinyxml.cpp:136-382) and copying
    (853-897, 1308-1330, 1353-1377, 1440-1497). */
module XmlDom {
  import opened XmlText
  import opened XmlParser
  import opened XmlPrinter
  import opened XmlAttributes
  import opened XmlAttributeSet

  datatype NodeKind = DocumentNode | ElementNode | TextNode(cdata: bool) | CommentNode | UnknownNode
                | DeclarationNode(version: string, encoding: string, standalone: string)

  /** The k-th node of a list, or null past either end. */
  function Nth(nodes: seq<DomNode>, k: int): DomNode? {
    if 0 <= k < |nodes| then nodes[k] else null
  }

  ghost predicate Distinct(nodes: seq<DomNode>) {
    forall i, j :: 0 <= i < j < |nodes| ==> nodes[i] != nodes[j]
  }

  function Inserted(nodes: seq<DomNode>, k: nat, node: DomNode): seq<DomNode>
    requires k <= |nodes|
  {
    nodes[..k] + [node] + nodes[k..]
  }

  lemma NthInserted(nodes: seq<DomNode>, k: nat, node: DomNode, i: int)
    requires k <= |nodes|
    ensures Nth(Inserted(nodes, k, node), i)
            == if i < k then Nth(nodes, i) else if i == k then node else Nth(nodes, i - 1)
    ensures |Inserted(nodes, k, node)| == |nodes| + 1
  {}

  lemma InsertedDistinct(nodes: seq<DomNode>, k: nat, node: DomNode)
    requires k <= |nodes| && Distinct(nodes) && node !in nodes
    ensures Distinct(Inserted(nodes, k, node))
  {}

  lemma NthEnds(nodes: seq<DomNode>)
    ensures Nth(nodes, -1) == null && Nth(nodes, |nodes|) == null
  {}

  lemma NthIndex(nodes: seq<DomNode>, k: int)
    ensures 0 <= k < |nodes| ==> Nth(nodes, k) == nodes[k]
  {}

  lemma InsertedAtEnd(nodes: seq<DomNode>, node: DomNode)
    ensures Inserted(nodes, |nodes|, node) == nodes + [node]
  {}

  lemma NthWithout(nodes: seq<DomNode>, k: nat, i: int)
    requires k < |nodes|
    ensures Nth(Without(nodes, k), i) == if i < k then Nth(nodes, i) else Nth(nodes, i + 1)
    ensures |Without(nodes, k)| == |nodes| - 1
  {}

  lemma WithoutDistinct(nodes: seq<DomNode>, k: nat)
    requires k < |nodes| && Distinct(nodes)
    ensures Distinct(Without(nodes, k))
  {}

  lemma NthUpdated(nodes: seq<DomNode>, k: nat, node: DomNode, i: int)
    requires k < |nodes|
    ensures Nth(nodes[k := node], i) == if i == k then node else Nth(nodes, i)
  {}

  lemma UpdatedDistinct(nodes: seq<DomNode>, k: nat, node: DomNode)
    requires k < |nodes| && Distinct(nodes) && node !in nodes
    ensures Distinct(nodes[k := node])
  {}

  ghost function PlaceOf(nodes: seq<DomNode>, node: DomNode): (k: nat)
    requires node in nodes
    ensures k < |nodes| && nodes[k] == node
  {
    var k :| 0 <= k < |nodes| && nodes[k] == node;
    k
  }

  /** The children's trees, in order. */
  ghost function Trees(nodes: seq<DomNode>): (t: seq<Node>)
    reads nodes`tree
    ensures |t| == |nodes| && forall i :: 0 <= i < |t| ==> t[i] == nodes[i].tree
  {
    if nodes == [] then [] else [nodes[0].tree] + Trees(nodes[1..])
  }

  /** All the objects a set of nodes is made of. */
  ghost function Footprint(dom: set<DomNode>): set<object>
    reads set n <- dom :: n.attributes
  {
    dom + (set n <- dom :: n.attributes) + (set n <- dom :: n.attributes.sentinel)
    + (set n <- dom, i | 0 <= i < |n.attributes.members| :: n.attributes.members[i])
  }

  /** Every node of the set is what its tree says, and its children belong to the set. */
  ghost predicate Described(dom: set<DomNode>)
    reads dom, set n <- dom :: n.attributes, set n <- dom :: n.attributes.sentinel,
          set n <- dom, i | 0 <= i < |n.attributes.members| :: n.attributes.members[i]
  {
    forall n <- dom :: Within(n, dom) && n.ListOk() && n.SelfOk()
  }

  ghost predicate Within(n: DomNode, dom: set<DomNode>)
    reads n`children
  {
    forall i :: 0 <= i < |n.children| ==> n.children[i] in dom
  }

  /** The same for all but one node. */
  ghost predicate DescribedBut(dom: set<DomNode>, but: DomNode)
    reads dom, set n <- dom :: n.attributes, set n <- dom :: n.attributes.sentinel,
          set n <- dom, i | 0 <= i < |n.attributes.members| :: n.attributes.members[i]
  {
    forall n <- dom | n != but :: Within(n, dom) && n.ListOk() && n.SelfOk()
  }

  /** A node of a described set, apart perhaps from its own tree, and a described tree outside it
      whose root has no parent. */
  ghost predicate Joins(c: DomNode, dom: set<DomNode>, node: DomNode, kids: set<DomNode>)
    reads *
  {
    && c in dom && DescribedBut(dom, c) && Within(c, dom) && c.ListOk() && NoDocuments(c)
    && Described(kids) && node in kids && dom !! kids && node.parent == null && !node.kind.DocumentNode?
  }

  /** No document is a child. */
  ghost predicate NoDocuments(c: DomNode)
    reads c`children, c.children`kind
  {
    forall i :: 0 <= i < |c.children| ==> !c.children[i].kind.DocumentNode?
  }

  ghost predicate NotAmong(n: DomNode, node: DomNode, others: seq<DomNode>)
    reads n`children
  {
    forall i :: 0 <= i < |n.children| ==> n.children[i] != node && n.children[i] !in others
  }

  lemma ParentsDiffer(c: DomNode, n: DomNode, node: DomNode)
    requires c.ListOk() && n.ListOk() && n != c && node.parent == null
    ensures NotAmong(n, node, c.children)
  {}

  ghost predicate NoneAmong(n: DomNode, others: seq<DomNode>)
    reads n`children
  {
    forall i :: 0 <= i < |n.children| ==> n.children[i] !in others
  }

  lemma ChildrenDiffer(c: DomNode, n: DomNode)
    requires c.ListOk() && n.ListOk() && n != c
    ensures NoneAmong(n, c.children)
  {}

  lemma OwnNoDocuments(n: DomNode)
    requires n.SelfOk()
    ensures NoDocuments(n)
  {}

  lemma InsertedAmong(c: DomNode, was: seq<DomNode>, k: nat, node: DomNode, all: set<DomNode>)
    requires k <= |was| && c.children == Inserted(was, k, node)
    requires node in all && !node.kind.DocumentNode?
    requires forall i :: 0 <= i < |was| ==> was[i] in all && !was[i].kind.DocumentNode?
    ensures Within(c, all) && NoDocuments(c)
  {}

  lemma DescribedAt(dom: set<DomNode>, n: DomNode)
    requires Described(dom) && n in dom
    ensures Within(n, dom) && n.ListOk() && n.SelfOk() && n.attributes.Linked()
  {}

  lemma FirstOf(dom: set<DomNode>, n: DomNode)
    requires Described(dom) && n in dom
    ensures n.firstChild == Nth(n.children, 0)
  {}

  lemma NothingBut(n: DomNode)
    ensures DescribedBut({n}, n) && Footprint({n} - {n}) == {}
  {
    assert {n} - {n} == {};
  }

  lemma OwnFootprint(n: DomNode)
    ensures Footprint({n}) == {n, n.attributes, n.attributes.sentinel}
                              + set i | 0 <= i < |n.attributes.members| :: n.attributes.members[i]
  {}

  lemma DescribedWith(dom: set<DomNode>, n: DomNode)
    requires n in dom && DescribedBut(dom, n) && Within(n, dom) && n.ListOk() && n.SelfOk()
    ensures Described(dom)
  {}

  lemma {:induction false} ClonedAllAt(ns: seq<Node>, i: nat)
    requires i < |ns|
    ensures ClonedAll(ns)[i] == Cloned(ns[i])
  {
    hide Cloned;
    if i == 0 {
    } else {
      ClonedAllAt(ns[1..], i - 1);
    }
  }

  /** What copying a node's fields and cloning its children arrives at. */
  ghost predicate Copies(n: DomNode, c: DomNode)
    reads n, n.children, n.attributes, n.attributes.members, c, c.children, c.attributes, c.attributes.members
  {
    && c.kind == n.kind && c.value == CStr(n.value)
    && (n.kind.ElementNode? ==>
          c.attributes.Contents() == CopiedAttrs([], Reached(n.attributes.Contents())))
    && |c.children| == |n.children|
    && forall i :: 0 <= i < |n.children| ==>
         c.children[i].tree == Cloned(n.children[i].tree) && !c.children[i].kind.DocumentNode?
  }

  lemma LeafCopies(n: DomNode, c: DomNode)
    requires n.SelfOk() && !n.kind.ElementNode? && !n.kind.DocumentNode?
    requires c.kind == n.kind && c.value == CStr(n.value) && c.children == []
    ensures Copies(n, c) && forall dom: set<DomNode> :: Within(c, dom)
  {}

  /** A node that shares nothing with those of a set. */
  ghost predicate Outside(c: DomNode, dom: set<DomNode>)
    reads set n <- dom :: n.attributes
  {
    forall n <- dom ::
      && n != c && n.attributes != c.attributes && n.attributes.sentinel != c.attributes.sentinel
      && forall i :: 0 <= i < |n.attributes.members| ==> n.attributes.members[i] != c.attributes.sentinel
  }

  /** A node whose fields are copied, and whose children stand for the clones of the children,
      stands for the clone. */
  lemma ClonedIsOwn(n: DomNode, c: DomNode)
    requires n.SelfOk() && !n.kind.DocumentNode? && c.attributes.Linked() && Copies(n, c) && c.tree == Cloned(n.tree)
    ensures c.SelfOk()
  {
    hide CStr, CopiedAttrs, Reached, AttributeSet.Linked, AttributeSet.Contents, Trees;
    var ours, theirs := Trees(c.children), ClonedAll(Trees(n.children));
    forall i | 0 <= i < |ours| ensures ours[i] == theirs[i] {
      ClonedAllAt(Trees(n.children), i);
    }
    assert ours == theirs;
  }

  /** A clone of a described node can join a described set, and any list. */
  lemma JoinsClone(c: DomNode, dom: set<DomNode>, r: DomNode, copy: set<DomNode>)
    requires Described(dom) && Described(copy) && r in copy && r.parent == null && !r.kind.DocumentNode?
    ensures r in Footprint(copy) && copy <= Footprint(copy)
    ensures c in dom && dom !! copy ==> Joins(c, dom, r, copy)
  {}

  lemma FootprintOf(a: set<DomNode>, b: set<DomNode>)
    ensures Footprint(a + b) == Footprint(a) + Footprint(b) && a <= Footprint(a) && b <= Footprint(b)
  {}

  class DomNode {
    var kind: NodeKind
    var value: string
    const attributes: AttributeSet
    var parent: DomNode?
    var prev: DomNode?
    var next: DomNode?
    var firstChild: DomNode?
    var lastChild: DomNode?

    /** The child list, in order. */
    ghost var children: seq<DomNode>

    /** What the subtree stands for. */
    ghost var tree: Node

    constructor (kind: NodeKind, value: string)
      ensures this.kind == kind && this.value == value && children == [] && ListOk()
      ensures parent == null && prev == null && next == null
      ensures fresh(attributes) && fresh(attributes.sentinel)
      ensures attributes.Linked() && attributes.members == []
    {
      this.kind, this.value := kind, value;
      parent, prev, next, firstChild, lastChild := null, null, null, null, null;
      children := [];
      attributes := new AttributeSet();
    }

    /** The chain from firstChild along next is the child list, the chain from lastChild along
        prev is its reverse, and every child knows its parent. */
    ghost predicate ListIs(nodes: seq<DomNode>)
      reads this`firstChild, this`lastChild, nodes`parent, nodes`prev, nodes`next
    {
      && firstChild == Nth(nodes, 0) && lastChild == Nth(nodes, |nodes| - 1)
      && Distinct(nodes)
      && forall i :: 0 <= i < |nodes| ==>
           && nodes[i].parent == this
           && nodes[i].prev == Nth(nodes, i - 1) && nodes[i].next == Nth(nodes, i + 1)
    }

    ghost predicate ListOk()
      reads this`children, this`firstChild, this`lastChild, children`parent, children`prev, children`next
    {
      ListIs(children)
    }

    /** Links as an insertion leaves them: the old list, opened at position k around the node. */
    ghost predicate OpenedAt(nodes: seq<DomNode>, k: nat, node: DomNode)
      requires k <= |nodes|
      reads this`firstChild, this`lastChild, nodes`parent, nodes`prev, nodes`next, node`parent, node`prev, node`next
    {
      && node.parent == this && node.prev == Nth(nodes, k - 1) && node.next == Nth(nodes, k)
      && firstChild == (if k == 0 then node else Nth(nodes, 0))
      && lastChild == (if k == |nodes| then node else Nth(nodes, |nodes| - 1))
      && forall i :: 0 <= i < |nodes| ==>
           && nodes[i].parent == this
           && nodes[i].prev == (if i == k then node else Nth(nodes, i - 1))
           && nodes[i].next == (if i == k - 1 then node else Nth(nodes, i + 1))
    }

    lemma OpenedIsLinked(nodes: seq<DomNode>, k: nat, node: DomNode)
      requires k <= |nodes| && Distinct(nodes) && node !in nodes && OpenedAt(nodes, k, node)
      requires children == Inserted(nodes, k, node)
      ensures ListOk()
    {
      hide Nth, Distinct, Inserted;
      InsertedDistinct(nodes, k, node);
      NthInserted(nodes, k, node, 0);
      NthInserted(nodes, k, node, |nodes|);
      NthEnds(nodes);
      forall i | 0 <= i < |children|
        ensures children[i].parent == this
        ensures children[i].prev == Nth(children, i - 1) && children[i].next == Nth(children, i + 1)
      {
        NthInserted(nodes, k, node, i - 1);
        NthInserted(nodes, k, node, i);
        NthInserted(nodes, k, node, i + 1);
        NthIndex(children, i);
        NthIndex(nodes, i);
        NthIndex(nodes, i - 1);
      }
    }

    /** Links as a replacement leaves them. */
    ghost predicate SwappedAt(nodes: seq<DomNode>, k: nat, node: DomNode)
      requires k < |nodes|
      reads this`firstChild, this`lastChild, nodes`parent, nodes`prev, nodes`next, node`parent, node`prev, node`next
    {
      && node.parent == this && node.prev == Nth(nodes, k - 1) && node.next == Nth(nodes, k + 1)
      && firstChild == (if k == 0 then node else Nth(nodes, 0))
      && lastChild == (if k == |nodes| - 1 then node else Nth(nodes, |nodes| - 1))
      && forall i :: 0 <= i < |nodes| && i != k ==>
           && nodes[i].parent == this
           && nodes[i].prev == (if i == k + 1 then node else Nth(nodes, i - 1))
           && nodes[i].next == (if i == k - 1 then node else Nth(nodes, i + 1))
    }

    lemma SwappedIsLinked(nodes: seq<DomNode>, k: nat, node: DomNode)
      requires k < |nodes| && Distinct(nodes) && node !in nodes && SwappedAt(nodes, k, node)
      requires children == nodes[k := node]
      ensures ListOk()
    {
      hide Nth, Distinct;
      UpdatedDistinct(nodes, k, node);
      NthUpdated(nodes, k, node, 0);
      NthUpdated(nodes, k, node, |nodes| - 1);
      forall i | 0 <= i < |children|
        ensures children[i].parent == this
        ensures children[i].prev == Nth(children, i - 1) && children[i].next == Nth(children, i + 1)
      {
        NthUpdated(nodes, k, node, i - 1);
        NthUpdated(nodes, k, node, i + 1);
      }
    }

    /** Links as a removal leaves them: the old list, closed over position k. */
    ghost predicate ClosedAt(nodes: seq<DomNode>, k: nat)
      requires k < |nodes|
      reads this`firstChild, this`lastChild, nodes`parent, nodes`prev, nodes`next
    {
      && firstChild == (if k == 0 then Nth(nodes, 1) else Nth(nodes, 0))
      && lastChild == (if k == |nodes| - 1 then Nth(nodes, k - 1) else Nth(nodes, |nodes| - 1))
      && forall i :: 0 <= i < |nodes| && i != k ==>
           && nodes[i].parent == this
           && nodes[i].prev == (if i == k + 1 then Nth(nodes, k - 1) else Nth(nodes, i - 1))
           && nodes[i].next == (if i == k - 1 then Nth(nodes, k + 1) else Nth(nodes, i + 1))
    }

    lemma ClosedIsLinked(nodes: seq<DomNode>, k: nat)
      requires k < |nodes| && Distinct(nodes) && ClosedAt(nodes, k)
      requires children == Without(nodes, k)
      ensures ListOk()
    {
      hide Nth, Distinct, Without;
      WithoutDistinct(nodes, k);
      NthEnds(nodes);
      NthWithout(nodes, k, 0);
      NthWithout(nodes, k, |nodes| - 2);
      forall i | 0 <= i < |children|
        ensures children[i].parent == this
        ensures children[i].prev == Nth(children, i - 1) && children[i].next == Nth(children, i + 1)
      {
        NthWithout(nodes, k, i - 1);
        NthWithout(nodes, k, i);
        NthWithout(nodes, k, i + 1);
        NthIndex(children, i);
        NthIndex(nodes, i);
        NthIndex(nodes, i + 1);
      }
    }

    /** Linking a member of the list once more leaves links that are no list: followed back from
        the last child, they come to that child again. */
    lemma RelinkedIsNoList(was: seq<DomNode>, k: nat, cs: seq<DomNode>)
      requires k < |was| && lastChild == was[k] && Distinct(was)
      requires was[k].next == (if k == |was| - 1 then was[k] else null)
      requires was[k].prev == was[|was| - 1]
      requires forall i :: 0 <= i < |was| && i != k ==> was[i].prev == Nth(was, i - 1)
      ensures !ListIs(cs)
    {
      hide Nth;
      NthEnds(cs);
      NthIndex(cs, |cs| - 1);
      NthIndex(cs, |cs| - 2);
      if ListIs(cs) && k < |was| - 1 {
        SameBackwards(was, k, cs, k + 1);
        NthIndex(was, k);
        NthIndex(cs, |cs| - 2 - (|was| - 1 - k));
      }
    }

    lemma {:induction false} SameBackwards(was: seq<DomNode>, k: nat, cs: seq<DomNode>, i: nat)
      requires k < i < |was| && ListIs(cs) && |cs| >= 2 && cs[|cs| - 2] == was[|was| - 1]
      requires forall i :: 0 <= i < |was| && i != k ==> was[i].prev == Nth(was, i - 1)
      ensures var at := |cs| - 2 - (|was| - 1 - i); 0 <= at && cs[at] == was[i] && Nth(cs, at - 1) == Nth(was, i - 1)
      decreases |was| - i
    {
      hide Nth;
      if i == |was| - 1 {
      } else {
        SameBackwards(was, k, cs, i + 1);
        NthIndex(was, i);
        NthIndex(cs, |cs| - 2 - (|was| - 1 - i));
        NthEnds(cs);
      }
    }

    /** A document cannot be a child. The code asserts that the node is free or has this parent
        already, as Identify leaves it; the list survives exactly if the node is not yet in it. */
    method LinkEndChild(node: DomNode) returns (r: DomNode?)
      requires ListOk() && (node.parent == null || node.parent == this)
      modifies this`children, this`firstChild, this`lastChild, children`next, node`parent, node`prev, node`next
      ensures node.kind.DocumentNode? ==> r == null && ListOk() && children == old(children)
      ensures !node.kind.DocumentNode? && node !in old(children) ==>
                r == node && ListOk() && children == old(children) + [node]
      ensures !node.kind.DocumentNode? && node in old(children) ==>
                r == node && forall cs: seq<DomNode> :: !ListIs(cs)
    {
      hide Nth, Inserted;
      if node.kind.DocumentNode? {
        return null;
      }
      NthEnds(children);
      NthIndex(children, |children| - 1);
      node.parent := this;
      node.prev := lastChild;
      node.next := null;
      if lastChild != null {
        lastChild.next := node;
      } else {
        firstChild := node;
      }
      lastChild := node;
      ghost var was := children;
      if node in was {
        ghost var k := PlaceOf(was, node);
        forall cs: seq<DomNode> ensures !ListIs(cs) {
          RelinkedIsNoList(was, k, cs);
        }
      } else {
        children := Inserted(was, |was|, node);
        OpenedIsLinked(was, |was|, node);
        InsertedAtEnd(was, node);
      }
      return node;
    }

    /** The linking part of InsertBeforeChild. */
    method LinkBefore(beforeThis: DomNode, node: DomNode, ghost k: nat)
      requires ListOk() && node !in children && k < |children| && beforeThis == children[k]
      modifies this`children, this`firstChild, children`next, children`prev, node`parent, node`prev, node`next
      ensures ListOk() && children == Inserted(old(children), k, node)
    {
      hide Nth, Inserted;
      NthEnds(children);
      NthIndex(children, k - 1);
      NthIndex(children, k);
      NthIndex(children, 0);
      node.parent := this;
      node.next := beforeThis;
      node.prev := beforeThis.prev;
      if beforeThis.prev != null {
        beforeThis.prev.next := node;
      } else {
        assert firstChild == beforeThis;
        firstChild := node;
      }
      beforeThis.prev := node;
      ghost var was := children;
      children := Inserted(was, k, node);
      OpenedIsLinked(was, k, node);
    }

    /** The linking part of InsertAfterChild. */
    method LinkAfter(afterThis: DomNode, node: DomNode, ghost k: nat)
      requires ListOk() && node !in children && k < |children| && afterThis == children[k]
      modifies this`children, this`lastChild, children`next, children`prev, node`parent, node`prev, node`next
      ensures ListOk() && children == Inserted(old(children), k + 1, node)
    {
      hide Nth, Inserted;
      NthEnds(children);
      NthIndex(children, k);
      NthIndex(children, k + 1);
      NthIndex(children, |children| - 1);
      node.parent := this;
      node.prev := afterThis;
      node.next := afterThis.next;
      if afterThis.next != null {
        afterThis.next.prev := node;
      } else {
        assert lastChild == afterThis;
        lastChild := node;
      }
      afterThis.next := node;
      ghost var was := children;
      children := Inserted(was, k + 1, node);
      OpenedIsLinked(was, k + 1, node);
    }

    /** The linking part of ReplaceChild. */
    method LinkInPlace(replaceThis: DomNode, node: DomNode, ghost k: nat)
      requires ListOk() && node !in children && k < |children| && replaceThis == children[k]
      modifies this`children, this`firstChild, this`lastChild, children`next, children`prev,
               node`parent, node`prev, node`next
      ensures ListOk() && children == old(children)[k := node]
    {
      hide Nth;
      NthEnds(children);
      NthIndex(children, k - 1);
      NthIndex(children, k + 1);
      NthIndex(children, 0);
      NthIndex(children, |children| - 1);
      node.next := replaceThis.next;
      node.prev := replaceThis.prev;
      if replaceThis.next != null {
        replaceThis.next.prev := node;
      } else {
        lastChild := node;
      }
      if replaceThis.prev != null {
        replaceThis.prev.next := node;
      } else {
        firstChild := node;
      }
      node.parent := this;
      ghost var was := children;
      children := was[k := node];
      SwappedIsLinked(was, k, node);
    }

    /** The linking part of RemoveChild. */
    method UnlinkChild(removeThis: DomNode?) returns (removed: bool)
      requires ListOk() && (removeThis != null && removeThis.parent == this ==> removeThis in children)
      modifies this`children, this`firstChild, this`lastChild, children`next, children`prev
      ensures ListOk() && (removed <==> removeThis != null && old(removeThis.parent) == this)
      ensures !removed ==> children == old(children)
      ensures removed ==>
                exists k :: 0 <= k < |old(children)| && old(children)[k] == removeThis
                            && children == Without(old(children), k)
    {
      hide Nth, Without;
      if removeThis == null {
        return false;
      }
      if removeThis.parent != this {
        return false;
      }
      ghost var was := children;
      ghost var k: int := PlaceOf(children, removeThis);
      NthEnds(children);
      NthIndex(children, k - 1);
      NthIndex(children, k);
      NthIndex(children, k + 1);
      if removeThis.next != null {
        removeThis.next.prev := removeThis.prev;
      } else {
        lastChild := removeThis.prev;
      }
      if removeThis.prev != null {
        removeThis.prev.next := removeThis.next;
      } else {
        firstChild := removeThis.next;
      }
      children := Without(was, k);
      ClosedIsLinked(was, k);
      return true;
    }

    /** What the fields of this node alone stand for, given the trees of its children. */
    ghost function Own(): Node
      reads this`kind, this`value, this`children, attributes`members, attributes.members`name,
            attributes.members`value, children`tree
    {
      match kind
      case ElementNode => Element(value, attributes.Contents(), Trees(children))
      case TextNode(cdata) => Text(value, cdata)
      case CommentNode => Comment(value)
      case UnknownNode => Unknown(value)
      case DeclarationNode(version, encoding, standalone) => Declaration(version, encoding, standalone)
      case DocumentNode => Element("", [], Trees(children))
    }

    ghost predicate SelfOk()
      reads this`kind, this`value, this`children, this`tree, children`tree, children`kind,
            attributes`members, attributes.sentinel, attributes.members
    {
      && attributes.Linked() && tree == Own()
      && (kind.ElementNode? || kind.DocumentNode? || children == [])
      && NoDocuments(this)
    }

    /** Linking the root of one described tree at the end of another's root. */
    method LinkTree(kid: DomNode, ghost copy: set<DomNode>, ghost kids: set<DomNode>)
      requires ListOk() && Within(this, copy) && DescribedBut(copy, this) && this in copy
      requires Described(kids) && kid in kids && copy !! kids && kid.parent == null && !kid.kind.DocumentNode?
      modifies this`children, this`firstChild, this`lastChild, children`next, kid`parent, kid`prev, kid`next
      ensures ListOk() && Within(this, copy + kids) && DescribedBut(copy + kids, this)
      ensures children == old(children) + [kid]
    {
      hide Nth, Distinct;
      ghost var was := children;
      var r := LinkEndChild(kid);
      forall n | n in copy + kids && n != this
        ensures Within(n, copy + kids) && n.ListOk() && n.SelfOk()
      {
        assert old(n.ListOk() && n.SelfOk());
        forall i | 0 <= i < |n.children| ensures n.children[i] != kid && n.children[i] !in was {
          assert old(n.children[i].parent) == n;
        }
        assert n.SelfOk();
      }
    }

    /** LinkBefore, on a described set: every other node is as described as before. */
    method SpliceBefore(beforeThis: DomNode, node: DomNode, ghost k: nat, ghost dom: set<DomNode>, ghost kids: set<DomNode>)
      requires ListOk() && node !in children && k < |children| && beforeThis == children[k]
      modifies this`children, this`firstChild, children`next, children`prev, node`parent, node`prev, node`next
      ensures ListOk() && children == Inserted(old(children), k, node)
      ensures old(Joins(this, dom, node, kids)) ==>
                DescribedBut(dom + kids, this) && Within(this, dom + kids) && NoDocuments(this)
    {
      hide Nth, Distinct, Inserted, ListOk, SelfOk;
      ghost var was, ready := children, Joins(this, dom, node, kids);
      if ready {
        forall n | n in dom + kids && n != this ensures NotAmong(n, node, was) {
          ParentsDiffer(this, n, node);
        }
      }
      LinkBefore(beforeThis, node, k);
      if ready {
        InsertedAmong(this, was, k, node, dom + kids);
        assert forall n | n in dom + kids && n != this :: Within(n, dom + kids) && n.ListOk() && n.SelfOk();
      }
    }

    /** LinkAfter, on a described set: every other node is as described as before. */
    method SpliceAfter(afterThis: DomNode, node: DomNode, ghost k: nat, ghost dom: set<DomNode>, ghost kids: set<DomNode>)
      requires ListOk() && node !in children && k < |children| && afterThis == children[k]
      modifies this`children, this`lastChild, children`next, children`prev, node`parent, node`prev, node`next
      ensures ListOk() && children == Inserted(old(children), k + 1, node)
      ensures old(Joins(this, dom, node, kids)) ==>
                DescribedBut(dom + kids, this) && Within(this, dom + kids) && NoDocuments(this)
    {
      hide Nth, Distinct, Inserted, ListOk, SelfOk;
      ghost var was, ready := children, Joins(this, dom, node, kids);
      if ready {
        forall n | n in dom + kids && n != this ensures NotAmong(n, node, was) {
          ParentsDiffer(this, n, node);
        }
      }
      LinkAfter(afterThis, node, k);
      if ready {
        InsertedAmong(this, was, k + 1, node, dom + kids);
        assert forall n | n in dom + kids && n != this :: Within(n, dom + kids) && n.ListOk() && n.SelfOk();
      }
    }

    /** LinkInPlace, on a described set: every other node is as described as before. */
    method SpliceInPlace(replaceThis: DomNode, node: DomNode, ghost k: nat, ghost dom: set<DomNode>, ghost kids: set<DomNode>)
      requires ListOk() && node !in children && k < |children| && replaceThis == children[k]
      modifies this`children, this`firstChild, this`lastChild, children`next, children`prev, node`parent, node`prev, node`next
      ensures ListOk() && children == old(children)[k := node]
      ensures old(Joins(this, dom, node, kids)) ==>
                DescribedBut(dom + kids, this) && Within(this, dom + kids) && NoDocuments(this)
    {
      hide Nth, Distinct, ListOk, SelfOk;
      ghost var was, ready := children, Joins(this, dom, node, kids);
      if ready {
        forall n | n in dom + kids && n != this ensures NotAmong(n, node, was) {
          ParentsDiffer(this, n, node);
        }
      }
      LinkInPlace(replaceThis, node, k);
      if ready {
        assert forall n | n in dom + kids && n != this :: Within(n, dom + kids) && n.ListOk() && n.SelfOk();
      }
    }

    /** LinkEndChild, on a described set. */
    method SpliceEnd(node: DomNode, ghost dom: set<DomNode>, ghost kids: set<DomNode>)
      requires ListOk() && node !in children && node.parent == null && !node.kind.DocumentNode?
      modifies this`children, this`firstChild, this`lastChild, children`next, node`parent, node`prev, node`next
      ensures ListOk() && children == old(children) + [node]
      ensures old(Joins(this, dom, node, kids)) ==>
                DescribedBut(dom + kids, this) && Within(this, dom + kids) && NoDocuments(this)
    {
      hide Nth, Distinct, Inserted, ListOk, SelfOk;
      ghost var was, ready := children, Joins(this, dom, node, kids);
      if ready {
        forall n | n in dom + kids && n != this ensures NotAmong(n, node, was) {
          ParentsDiffer(this, n, node);
        }
      }
      var r := LinkEndChild(node);
      if ready {
        InsertedAtEnd(was, node);
        InsertedAmong(this, was, |was|, node, dom + kids);
        assert forall n | n in dom + kids && n != this :: Within(n, dom + kids) && n.ListOk() && n.SelfOk();
      }
    }

    /** The node is unlinked; the code then deletes it. A node with another parent is refused. If
        the receiver belongs to a described set, the set stays described but for its own tree. */
    method RemoveChild(removeThis: DomNode?, ghost dom: set<DomNode>) returns (removed: bool)
      requires ListOk() && (removeThis != null && removeThis.parent == this ==> removeThis in children)
      modifies this`children, this`firstChild, this`lastChild, children`next, children`prev
      ensures ListOk() && (removed <==> removeThis != null && old(removeThis.parent) == this)
      ensures !removed ==> children == old(children)
      ensures removed ==>
                exists k :: 0 <= k < |old(children)| && old(children)[k] == removeThis
                            && children == Without(old(children), k)
      ensures this in dom && old(Described(dom)) ==>
                DescribedBut(dom, this) && Within(this, dom) && NoDocuments(this)
    {
      hide Nth, Distinct, ListOk, SelfOk;
      ghost var was, ready := children, this in dom && Described(dom);
      if ready {
        DescribedAt(dom, this);
        OwnNoDocuments(this);
        forall n | n in dom && n != this ensures NoneAmong(n, was) {
          ChildrenDiffer(this, n);
        }
      }
      removed := UnlinkChild(removeThis);
      if ready {
        assert forall n | n in dom && n != this :: Within(n, dom) && n.ListOk() && n.SelfOk();
      }
    }

    lemma ChildFacts(dom: set<DomNode>, k: nat)
      requires Described(dom) && this in dom && kind.ElementNode? && k < |children|
      ensures Nth(children, k) == children[k] && children[k] in dom && !children[k].kind.DocumentNode?
      ensures children[k].next == Nth(children, k + 1)
      ensures children[k].tree < tree
    {
      assert Within(this, dom);
      assert tree.children[k] == children[k].tree;
    }

    /** A copy, on its own, of this node and everything below it. Nothing that existed changes. */
    method Clone(ghost dom: set<DomNode>) returns (c: DomNode, ghost copy: set<DomNode>)
      requires Described(dom) && this in dom && !kind.DocumentNode?
      ensures c in copy && Described(copy) && fresh(Footprint(copy))
      ensures c.parent == null && c.prev == null && c.next == null && c.kind == kind
      ensures c.tree == Cloned(tree)
      decreases tree
    {
      hide Described, DescribedBut, ListOk, SelfOk, Footprint, AttributeSet.Linked, AttributeSet.Contents, Cloned,
           Trees, Copies, Within;
      ghost var goal := Cloned(tree);
      c := new DomNode(kind, CStr(value));
      c.tree := goal;
      NothingBut(c);
      if kind.ElementNode? {
        copy := CopyTo(c, dom);
      } else {
        copy := {c};
        assert (copy - {c}) + {c} == copy;
        DescribedAt(dom, this);
        LeafCopies(this, c);
      }
      FootprintOf(copy - {c}, {c});
      OwnFootprint(c);
      ClonedIsOwn(this, c);
      DescribedWith(copy, c);
    }

    /** TiXmlElement::CopyTo, to a new node. */
    method CopyTo(c: DomNode, ghost dom: set<DomNode>) returns (ghost copy: set<DomNode>)
      requires Described(dom) && this in dom && kind.ElementNode?
      requires c.ListOk() && c.children == [] && c.parent == null && c.kind == kind
      requires c.attributes.Linked() && c.attributes.members == [] && Outside(c, dom)
      modifies c`value, c`children, c`firstChild, c`lastChild
      modifies c.attributes`members, c.attributes.sentinel`next, c.attributes.sentinel`prev
      ensures c in copy && c.ListOk() && Within(c, copy) && DescribedBut(copy, c) && fresh(Footprint(copy - {c}))
      ensures (copy - {c}) + {c} == copy
      ensures fresh(set i | 0 <= i < |c.attributes.members| :: c.attributes.members[i])
      ensures c.attributes.Linked() && Copies(this, c) && SelfOk()
      decreases tree, 1
    {
      hide Described, DescribedBut, ListOk, SelfOk, Footprint, AttributeSet.Linked, AttributeSet.Contents, Cloned,
           Within, CStr, Trees, CopiedAttrs;
      DescribedAt(dom, this);
      c.value := CStr(value);
      attributes.CopyTo(c.attributes);
      copy := CloneChildren(c, dom);
      DescribedAt(dom, this);
      assert (copy - {c}) + {c} == copy;
    }

    /** The child loop of CopyTo. */
    method CloneChildren(c: DomNode, ghost dom: set<DomNode>) returns (ghost copy: set<DomNode>)
      requires Described(dom) && this in dom && kind.ElementNode?
      requires c !in dom && c.ListOk() && c.children == [] && c.parent == null
      modifies c`children, c`firstChild, c`lastChild
      ensures c in copy && c.ListOk() && Within(c, copy) && DescribedBut(copy, c) && fresh(Footprint(copy - {c}))
      ensures |c.children| == |children|
      ensures forall i :: 0 <= i < |children| ==> c.children[i].tree == Cloned(children[i].tree)
      ensures forall i :: 0 <= i < |c.children| ==> !c.children[i].kind.DocumentNode?
      ensures Described(dom)
      decreases tree, 0
    {
      hide Described, DescribedBut, ListOk, SelfOk, Footprint, Cloned, Nth;
      copy := {c};
      NothingBut(c);
      FirstOf(dom, this);
      var node := firstChild;
      ghost var k := 0;
      while node != null
        invariant k <= |children| && node == Nth(children, k)
        invariant c in copy && c.ListOk() && Within(c, copy) && DescribedBut(copy, c) && fresh(Footprint(copy - {c}))
        invariant Described(dom) && copy !! dom
        invariant |c.children| == k
        invariant forall i :: 0 <= i < k ==> c.children[i].tree == Cloned(children[i].tree)
        invariant forall i :: 0 <= i < k ==> !c.children[i].kind.DocumentNode? && fresh(c.children[i])
        decreases |children| - k
      {
        NthIndex(children, k);
        NthEnds(children);
        ChildFacts(dom, k);
        var kid;
        ghost var kids;
        kid, kids := node.Clone(dom);
        FootprintOf(copy - {c}, kids);
        c.LinkTree(kid, copy, kids);
        assert (copy + kids) - {c} == (copy - {c}) + kids;
        copy := copy + kids;
        node := node.next;
        k := k + 1;
      }
      NthIndex(children, k);
    }

    /** A clone goes to the end of the list. If the receiver belongs to the described set, the set
        with the clone is described but for the receiver's own tree; Reseal puts that right. */
    method InsertEndChild(addThis: DomNode, ghost dom: set<DomNode>) returns (r: DomNode?, ghost all: set<DomNode>)
      requires ListOk() && Described(dom) && addThis in dom
      modifies this`children, this`firstChild, this`lastChild, children`next
      ensures ListOk() && (r == null <==> old(addThis.kind.DocumentNode?))
      ensures r == null ==> children == old(children) && all == dom
      ensures r != null ==>
                && fresh(r) && r.tree == Cloned(old(addThis.tree)) && children == old(children) + [r]
                && dom <= all && fresh(all - dom)
                && (this in dom ==> DescribedBut(all, this) && Within(this, all) && NoDocuments(this))
    {
      hide ListOk, SelfOk, Described, DescribedBut, Cloned, Footprint, Within, NoDocuments;
      if addThis.kind.DocumentNode? {
        return null, dom;
      }
      ghost var copy;
      r, copy := addThis.Clone(dom);
      all := dom + copy;
      JoinsClone(this, dom, r, copy);
      SpliceEnd(r, dom, copy);
    }

    /** A clone goes into the list just before a child of this node. */
    method InsertBeforeChild(beforeThis: DomNode?, addThis: DomNode, ghost dom: set<DomNode>)
      returns (r: DomNode?, ghost all: set<DomNode>)
      requires ListOk() && Described(dom) && addThis in dom
      requires beforeThis != null && beforeThis.parent == this ==> beforeThis in children
      modifies this`children, this`firstChild, children`next, children`prev
      ensures ListOk()
      ensures r == null <==> beforeThis == null || old(beforeThis.parent) != this || old(addThis.kind.DocumentNode?)
      ensures r == null ==> children == old(children) && all == dom
      ensures r != null ==>
                && fresh(r) && r.tree == Cloned(old(addThis.tree)) && beforeThis in old(children)
                && children == Inserted(old(children), PlaceOf(old(children), beforeThis), r)
                && dom <= all && fresh(all - dom)
                && (this in dom ==> DescribedBut(all, this) && Within(this, all) && NoDocuments(this))
    {
      hide ListOk, SelfOk, Described, DescribedBut, Cloned, Footprint, Within, NoDocuments, Inserted;
      if beforeThis == null || beforeThis.parent != this {
        return null, dom;
      }
      if addThis.kind.DocumentNode? {
        return null, dom;
      }
      ghost var k := PlaceOf(children, beforeThis);
      ghost var copy;
      r, copy := addThis.Clone(dom);
      all := dom + copy;
      JoinsClone(this, dom, r, copy);
      SpliceBefore(beforeThis, r, k, dom, copy);
    }

    /** A clone goes into the list just after a child of this node. */
    method InsertAfterChild(afterThis: DomNode?, addThis: DomNode, ghost dom: set<DomNode>)
      returns (r: DomNode?, ghost all: set<DomNode>)
      requires ListOk() && Described(dom) && addThis in dom
      requires afterThis != null && afterThis.parent == this ==> afterThis in children
      modifies this`children, this`lastChild, children`next, children`prev
      ensures ListOk()
      ensures r == null <==> afterThis == null || old(afterThis.parent) != this || old(addThis.kind.DocumentNode?)
      ensures r == null ==> children == old(children) && all == dom
      ensures r != null ==>
                && fresh(r) && r.tree == Cloned(old(addThis.tree)) && afterThis in old(children)
                && children == Inserted(old(children), PlaceOf(old(children), afterThis) + 1, r)
                && dom <= all && fresh(all - dom)
                && (this in dom ==> DescribedBut(all, this) && Within(this, all) && NoDocuments(this))
    {
      hide ListOk, SelfOk, Described, DescribedBut, Cloned, Footprint, Within, NoDocuments, Inserted;
      if afterThis == null || afterThis.parent != this {
        return null, dom;
      }
      if addThis.kind.DocumentNode? {
        return null, dom;
      }
      ghost var k := PlaceOf(children, afterThis);
      ghost var copy;
      r, copy := addThis.Clone(dom);
      all := dom + copy;
      JoinsClone(this, dom, r, copy);
      SpliceAfter(afterThis, r, k, dom, copy);
    }

    /** A clone takes the place of a child of this node; the code then deletes the child. */
    method ReplaceChild(replaceThis: DomNode?, addThis: DomNode, ghost dom: set<DomNode>)
      returns (r: DomNode?, ghost all: set<DomNode>)
      requires ListOk() && Described(dom) && addThis in dom
      requires replaceThis != null && replaceThis.parent == this ==> replaceThis in children
      modifies this`children, this`firstChild, this`lastChild, children`next, children`prev
      ensures ListOk()
      ensures r == null <==> replaceThis == null || old(replaceThis.parent) != this || old(addThis.kind.DocumentNode?)
      ensures r == null ==> children == old(children) && all == dom
      ensures r != null ==>
                && fresh(r) && r.tree == Cloned(old(addThis.tree)) && replaceThis in old(children)
                && children == old(children)[PlaceOf(old(children), replaceThis) := r]
                && dom <= all && fresh(all - dom)
                && (this in dom ==> DescribedBut(all, this) && Within(this, all) && NoDocuments(this))
    {
      hide ListOk, SelfOk, Described, DescribedBut, Cloned, Footprint, Within, NoDocuments, Inserted;
      if replaceThis == null || replaceThis.parent != this {
        return null, dom;
      }
      if addThis.kind.DocumentNode? {
        return null, dom;
      }
      ghost var k := PlaceOf(children, replaceThis);
      ghost var copy;
      r, copy := addThis.Clone(dom);
      all := dom + copy;
      JoinsClone(this, dom, r, copy);
      SpliceInPlace(replaceThis, r, k, dom, copy);
    }

    /** The first child of that value. */
    method FirstChildNamed(name: string) returns (node: DomNode?)
      requires ListOk()
      ensures node == null ==> forall i :: 0 <= i < |children| ==> CStr(children[i].value) != name
      ensures node != null ==>
                exists k :: 0 <= k < |children| && node == children[k] && CStr(node.value) == name
                            && forall i :: 0 <= i < k ==> CStr(children[i].value) != name
    {
      node := firstChild;
      ghost var k := 0;
      while node != null
        invariant k <= |children| && node == Nth(children, k)
        invariant forall i :: 0 <= i < k ==> CStr(children[i].value) != name
        decreases |children| - k
      {
        if CStr(node.value) == name {
          return;
        }
        node := node.next;
        k := k + 1;
      }
    }

    /** The last child of that value, found from the other end. */
    method LastChildNamed(name: string) returns (node: DomNode?)
      requires ListOk()
      ensures node == null ==> forall i :: 0 <= i < |children| ==> CStr(children[i].value) != name
      ensures node != null ==>
                exists k :: 0 <= k < |children| && node == children[k] && CStr(node.value) == name
                            && forall i :: k < i < |children| ==> CStr(children[i].value) != name
    {
      node := lastChild;
      ghost var k := |children|;
      while node != null
        invariant 0 <= k <= |children| && node == Nth(children, k - 1)
        invariant forall i :: k <= i < |children| ==> CStr(children[i].value) != name
        decreases k
      {
        k := k - 1;
        if CStr(node.value) == name {
          return;
        }
        node := node.prev;
      }
    }
  }

  /** A node, its parent, and so on up to a root. */
  ghost predicate UpToRoot(path: seq<DomNode>, dom: set<DomNode>)
    reads dom
  {
    && path != []
    && (forall i :: 0 <= i < |path| ==> path[i] in dom)
    && (forall i :: 0 <= i < |path| - 1 ==> path[i] in path[i + 1].children)
    && forall n <- dom :: path[|path| - 1] !in n.children
  }

  lemma NotOwnChild(n: DomNode)
    requires n.SelfOk()
    ensures forall i :: 0 <= i < |n.children| ==> n.children[i] != n
    ensures n.children != [] ==> n.kind.ElementNode? || n.kind.DocumentNode?
    ensures NoDocuments(n) && n.attributes.Linked()
  {
    hide AttributeSet.Linked, AttributeSet.Contents;
    forall i | 0 <= i < |n.children| ensures n.children[i] != n {
      assert Trees(n.children)[i] == n.children[i].tree;
      assert n.tree.children[i] < n.tree;
    }
  }

  lemma SealedSelf(n: DomNode)
    requires n.tree == n.Own() && n.attributes.Linked() && NoDocuments(n)
    requires n.kind.ElementNode? || n.kind.DocumentNode?
    ensures n.SelfOk()
  {}

  lemma OnlyParent(n: DomNode, parent: DomNode, c: DomNode)
    requires n.ListOk() && parent.ListOk() && c in parent.children && n != parent
    ensures forall i :: 0 <= i < |n.children| ==> n.children[i] != c
  {}

  /** After an edit of a node's children, its tree and its ancestors' are named again: the set is
      described, and ready for the next edit. */
  ghost method Reseal(path: seq<DomNode>, dom: set<DomNode>)
    requires UpToRoot(path, dom) && DescribedBut(dom, path[0])
    requires var c := path[0];
             && Within(c, dom) && c.ListOk() && NoDocuments(c) && c.attributes.Linked() && c !in c.children
             && (c.kind.ElementNode? || c.kind.DocumentNode?)
    modifies path`tree
    ensures Described(dom)
    decreases |path|
  {
    hide DomNode.ListOk, DomNode.SelfOk, AttributeSet.Linked, AttributeSet.Contents, Trees, NoDocuments;
    var c := path[0];
    if |path| > 1 {
      NotOwnChild(path[1]);
    }
    forall n | n in dom && n != c && (|path| == 1 || n != path[1])
      ensures forall i :: 0 <= i < |n.children| ==> n.children[i] != c
    {
      if |path| > 1 { OnlyParent(n, path[1], c); }
    }
    c.tree := c.Own();
    SealedSelf(c);
    assert forall n | n in dom && (|path| == 1 || n != path[1]) :: Within(n, dom) && n.ListOk() && n.SelfOk();
    if |path| == 1 {
    } else {
      Reseal(path[1..], dom);
    }
  }

  lemma RootIsNoChild(root: DomNode, dom: set<DomNode>)
    requires root.parent == null && forall n <- dom :: n.ListOk()
    ensures forall n <- dom :: root !in n.children
  {}

  /** InsertEndChild on a node at any depth of a document, which is then described again. */
  method Append(c: DomNode, addThis: DomNode, ghost path: seq<DomNode>, ghost dom: set<DomNode>)
    returns (r: DomNode, ghost all: set<DomNode>)
    requires Described(dom) && UpToRoot(path, dom) && path[0] == c && path[|path| - 1].parent == null
    requires addThis in dom && !addThis.kind.DocumentNode? && (c.kind.ElementNode? || c.kind.DocumentNode?)
    modifies c`children, c`firstChild, c`lastChild, c.children`next, path`tree
    ensures Described(all) && dom <= all && fresh(all - dom) && fresh(r)
    ensures UpToRoot(path, all) && c.children == old(c.children) + [r]
  {
    hide DomNode.ListOk, DomNode.SelfOk, AttributeSet.Linked, AttributeSet.Contents, Trees, NoDocuments, Cloned;
    DescribedAt(dom, c);
    NotOwnChild(c);
    var added;
    added, all := c.InsertEndChild(addThis, dom);
    r := added;
    RootIsNoChild(path[|path| - 1], all);
    Reseal(path, all);
  }

  /** RemoveChild likewise. */
  method Unlink(c: DomNode, removeThis: DomNode, ghost path: seq<DomNode>, ghost dom: set<DomNode>)
    requires Described(dom) && UpToRoot(path, dom) && path[0] == c && path[|path| - 1].parent == null
    requires removeThis in c.children && (c.kind.ElementNode? || c.kind.DocumentNode?)
    modifies c`children, c`firstChild, c`lastChild, c.children`next, c.children`prev, path`tree
    ensures Described(dom) && UpToRoot(path, dom)
    ensures exists k :: 0 <= k < |old(c.children)| && old(c.children)[k] == removeThis
                        && c.children == Without(old(c.children), k)
  {
    hide DomNode.ListOk, DomNode.SelfOk, AttributeSet.Linked, AttributeSet.Contents, Trees, NoDocuments;
    ghost var was := c.children;
    DescribedAt(dom, c);
    NotOwnChild(c);
    KnowsItsParent(c, removeThis);
    forall j | 1 <= j < |path| ensures path[j] != c { TreesGrow(path, dom, j); }
    var removed := c.RemoveChild(removeThis, dom);
    assert exists k :: 0 <= k < |was| && was[k] == removeThis && c.children == Without(was, k);
    RootIsNoChild(path[|path| - 1], dom);
    Reseal(path, dom);
  }

  /** Two edits of one document, the second undoing the first. */
  method AppendAndUnlink(c: DomNode, addThis: DomNode, ghost path: seq<DomNode>, ghost dom: set<DomNode>)
    returns (ghost all: set<DomNode>)
    requires Described(dom) && UpToRoot(path, dom) && path[0] == c && path[|path| - 1].parent == null
    requires addThis in dom && !addThis.kind.DocumentNode? && (c.kind.ElementNode? || c.kind.DocumentNode?)
    modifies c`children, c`firstChild, c`lastChild, c.children`next, c.children`prev, path`tree
    ensures dom <= all && fresh(all - dom) && Described(all) && c.children == old(c.children)
  {
    hide Described, UpToRoot;
    ghost var was := c.children;
    WithinDom(dom, path);
    var r;
    r, all := Append(c, addThis, path, dom);
    Unlink(c, r, path, all);
    LastTakenOut(was, r, c.children);
  }

  /** No node is above itself. */
  lemma {:induction false} TreesGrow(path: seq<DomNode>, dom: set<DomNode>, j: nat)
    requires Described(dom) && UpToRoot(path, dom) && 1 <= j < |path|
    ensures path[0].tree < path[j].tree
  {
    hide DomNode.ListOk, AttributeSet.Linked, AttributeSet.Contents;
    var parent := path[j];
    DescribedAt(dom, parent);
    var i :| 0 <= i < |parent.children| && parent.children[i] == path[j - 1];
    assert Trees(parent.children)[i] == path[j - 1].tree;
    assert parent.tree.children[i] < parent.tree;
    if j > 1 { TreesGrow(path, dom, j - 1); }
  }

  lemma WithinDom(dom: set<DomNode>, path: seq<DomNode>)
    requires Described(dom) && UpToRoot(path, dom)
    ensures path != [] && Within(path[0], dom)
  {}

  lemma KnowsItsParent(c: DomNode, r: DomNode)
    requires c.ListOk() && r in c.children
    ensures r.parent == c
  {}

  lemma LastTakenOut(was: seq<DomNode>, r: DomNode, now: seq<DomNode>)
    requires r !in was
    requires exists k :: 0 <= k < |was + [r]| && (was + [r])[k] == r && now == Without(was + [r], k)
    ensures now == was
  {}
}
