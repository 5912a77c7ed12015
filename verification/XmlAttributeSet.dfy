/** The circular attribute list with a sentinel (tinyxml/tinyxml.cpp:1170-1207, 1500-1592,
    437-450, 780-786). */
module XmlAttributeSet {
  import opened XmlText
  import opened XmlParser
  import opened XmlPrinter
  import opened XmlAttributes

  class Attribute {
    var name: string
    var value: string
    var prev: Attribute?
    var next: Attribute?

    constructor ()
      ensures name == value == "" && prev == null && next == null
    {
      name, value, prev, next := "", "", null, null;
    }

    function Pair(): Attr
      reads this`name, this`value
    {
      Attr(name, value)
    }

    /** The next attribute; the sentinel is known by having neither name nor value. */
    method Next() returns (a: Attribute?)
      requires next != null
      ensures a == if next.Pair() == Attr("", "") then null else next
    {
      if next.value == "" && next.name == "" {
        return null;
      }
      return next;
    }
  }

  /** The k-th attribute of the ring: the sentinel stands before the first and after the last. */
  function RingAt(sentinel: Attribute, members: seq<Attribute>, k: nat): Attribute {
    if 1 <= k <= |members| then members[k - 1] else sentinel
  }

  /** Names and values in list order. */
  ghost function Pairs(members: seq<Attribute>): (s: seq<Attr>)
    reads members`name, members`value
    ensures |s| == |members|
    ensures forall i :: 0 <= i < |s| ==> s[i] == members[i].Pair()
  {
    if members == [] then [] else [members[0].Pair()] + Pairs(members[1..])
  }

  class AttributeSet {
    const sentinel: Attribute
    ghost var members: seq<Attribute>

    /** next and prev are each other's inverse all round the ring. */
    ghost predicate Ring()
      reads this`members, sentinel`next, sentinel`prev, members`next, members`prev
    {
      forall k :: 0 <= k <= |members| ==>
        && RingAt(sentinel, members, k).next == RingAt(sentinel, members, k + 1)
        && RingAt(sentinel, members, k + 1).prev == RingAt(sentinel, members, k)
    }

    /** The ring visits every member once, and the sentinel, itself nameless and without a value. */
    ghost predicate Linked()
      reads this`members, sentinel, members`next, members`prev
    {
      && sentinel.Pair() == Attr("", "")
      && sentinel !in members
      && (forall i, j :: 0 <= i < j < |members| ==> members[i] != members[j])
      && Ring()
    }

    ghost function Contents(): (s: seq<Attr>)
      reads this`members, members`name, members`value
      ensures |s| == |members|
    {
      Pairs(members)
    }

    constructor ()
      ensures Linked() && members == [] && fresh(sentinel)
    {
      sentinel := new Attribute();
      members := [];
      new;
      sentinel.next, sentinel.prev := sentinel, sentinel;
    }

    method First() returns (a: Attribute?)
      requires Linked()
      ensures a == if members == [] then null else members[0]
    {
      assert RingAt(sentinel, members, 0) == sentinel;
      assert RingAt(sentinel, members, 1) in members || members == [];
      if sentinel.next == sentinel {
        return null;
      }
      return sentinel.next;
    }

    /** Link an attribute at the end. `unique` is what the assertion in the code tests first. */
    method Add(addMe: Attribute) returns (unique: bool)
      requires Linked() && addMe !in members && addMe != sentinel
      modifies this`members, sentinel`next, sentinel`prev, members`next, addMe`next, addMe`prev
      ensures Linked() && members == old(members) + [addMe]
      ensures unique <==> IndexOf(old(Contents()), CStr(addMe.name)) == |old(members)|
    {
      hide IndexOf, Pairs;
      var found := Find(CStr(addMe.name));
      unique := found == null;
      var last := sentinel.prev;
      ghost var n := |members|;
      assert last == RingAt(sentinel, members, n) by { assert RingAt(sentinel, members, n + 1) == sentinel; }
      addMe.next := sentinel;
      addMe.prev := last;
      last.next := addMe;
      sentinel.prev := addMe;
      members := members + [addMe];
      forall k | 0 <= k <= n + 1
        ensures RingAt(sentinel, members, k).next == RingAt(sentinel, members, k + 1)
        ensures RingAt(sentinel, members, k + 1).prev == RingAt(sentinel, members, k)
      {
        var was := old(members);
        assert k <= n ==> RingAt(sentinel, members, k) == RingAt(sentinel, was, k);
        assert k < n ==> RingAt(sentinel, members, k + 1) == RingAt(sentinel, was, k + 1);
        assert old(RingAt(sentinel, was, k + 1).prev) == RingAt(sentinel, was, k) || k > n;
        assert old(RingAt(sentinel, was, k).next) == RingAt(sentinel, was, k + 1) || k > n;
      }
    }

    /** Unlink an attribute. Nothing happens to one that is not in the set, where the code asserts. */
    method Remove(removeMe: Attribute) returns (linked: bool)
      requires Linked()
      modifies this`members, sentinel`next, sentinel`prev, members`next, members`prev
      ensures Linked() && (linked <==> removeMe in old(members))
      ensures !linked ==> members == old(members)
      ensures linked ==>
                && removeMe.next == null && removeMe.prev == null
                && exists k :: 0 <= k < |old(members)| && old(members)[k] == removeMe
                               && members == Without(old(members), k)
    {
      var node := sentinel.next;
      ghost var k := 1;
      assert RingAt(sentinel, members, 0) == sentinel;
      while node != sentinel
        invariant 1 <= k <= |members| + 1 && node == RingAt(sentinel, members, k)
        invariant forall i :: 0 <= i < k - 1 ==> members[i] != removeMe
        decreases |members| + 1 - k
      {
        if node == removeMe {
          Unlink(node, k);
          return true;
        }
        node := node.next;
        k := k + 1;
      }
      return false;
    }

    method Unlink(node: Attribute, ghost k: nat)
      requires Linked() && 1 <= k <= |members| && node == members[k - 1]
      modifies this`members, sentinel`next, sentinel`prev, members`next, members`prev
      ensures Linked() && members == Without(old(members), k - 1) && node.next == null && node.prev == null
    {
      ghost var was := members;
      assert RingAt(sentinel, members, k) == node;
      assert node.prev == RingAt(sentinel, members, k - 1) && node.next == RingAt(sentinel, members, k + 1);
      node.prev.next := node.next;
      node.next.prev := node.prev;
      node.next := null;
      node.prev := null;
      members := Without(members, k - 1);
      forall j | 0 <= j <= |members|
        ensures RingAt(sentinel, members, j).next == RingAt(sentinel, members, j + 1)
        ensures RingAt(sentinel, members, j + 1).prev == RingAt(sentinel, members, j)
      {
        var from, to := if j < k then j else j + 1, if j + 1 < k then j + 1 else j + 2;
        assert RingAt(sentinel, members, j) == RingAt(sentinel, was, from);
        assert RingAt(sentinel, members, j + 1) == RingAt(sentinel, was, to);
        assert old(RingAt(sentinel, was, from).next) == RingAt(sentinel, was, from + 1);
        assert old(RingAt(sentinel, was, to).prev) == RingAt(sentinel, was, to - 1);
      }
    }

    /** The first attribute of that name. */
    method Find(name: string) returns (node: Attribute?)
      requires Linked()
      ensures var k := IndexOf(Contents(), name);
              node == if k == |members| then null else members[k]
    {
      node := sentinel.next;
      ghost var k := 1;
      assert RingAt(sentinel, members, 0) == sentinel;
      while node != sentinel
        invariant 1 <= k <= |members| + 1 && node == RingAt(sentinel, members, k)
        invariant forall i :: 0 <= i < k - 1 ==> CStr(members[i].name) != name
        decreases |members| + 1 - k
      {
        if CStr(node.name) == name {
          return;
        }
        node := node.next;
        k := k + 1;
      }
      return null;
    }

    /** The attribute of that name, or a new one with an empty value. `unique` is the assertion
        in Add, which looks for the new attribute's name while that is still empty. */
    method FindOrCreate(name: string) returns (attrib: Attribute, unique: bool)
      requires Linked()
      modifies this`members, sentinel`next, sentinel`prev, members`next
      ensures Linked() && attrib in members
      ensures var k := IndexOf(old(Contents()), name);
              if k < |old(members)| then
                members == old(members) && attrib == members[k] && Contents() == old(Contents())
              else
                && members == old(members) + [attrib] && fresh(attrib)
                && Contents() == old(Contents()) + [Attr(name, "")]
      ensures unique <==> || IndexOf(old(Contents()), name) < |old(members)|
                          || IndexOf(old(Contents()), "") == |old(members)|
    {
      hide Ring, IndexOf, Pairs;
      var found := Find(name);
      if found != null {
        assert IndexOf(Contents(), name) < |members|;
        return found, true;
      }
      attrib := new Attribute();
      unique := Add(attrib);
      attrib.name := name;
      assert Contents() == old(Contents()) + [Attr(name, "")];
    }

    /** TiXmlElement::SetAttribute */
    method SetAttribute(name: string, value: string)
      requires Linked()
      modifies this`members, sentinel`next, sentinel`prev, members`next, members`value
      ensures Linked() && Contents() == SetIn(old(Contents()), name, value)
      ensures SetTo(old(Contents()), Contents(), name, value)
      ensures NulFree(name) ==>
                && (exists k :: FirstNamed(Contents(), name, k) && Contents()[k].value == value)
                && |members| == |old(members)| + if Absent(old(Contents()), name) then 1 else 0
      ensures old(members) <= members && fresh(set i | |old(members)| <= i < |members| :: members[i])
    {
      hide Ring, IndexOf, Pairs;
      ghost var k := IndexOf(Contents(), name);
      var attrib, unique := FindOrCreate(name);
      ghost var before := Contents();
      attrib.value := value;
      assert Contents() == before[k := before[k].(value := value)];
      assert Contents() == SetIn(old(Contents()), name, value);
      SetInIs(old(Contents()), name, value);
      if NulFree(name) { SetIsFound(old(Contents()), Contents(), name, value); }
    }

    /** TiXmlElement::RemoveAttribute */
    method RemoveAttribute(name: string)
      requires Linked()
      modifies this`members, sentinel`next, sentinel`prev, members`next, members`prev
      ensures Linked()
      ensures var k := IndexOf(old(Contents()), name);
              Contents() == if k < |old(members)| then Without(old(Contents()), k) else old(Contents())
      ensures if Absent(old(Contents()), name) then Contents() == old(Contents())
              else exists k :: FirstNamed(old(Contents()), name, k) && Contents() == Without(old(Contents()), k)
    {
      hide Ring, IndexOf, Pairs;
      ghost var was, k := Contents(), IndexOf(Contents(), name);
      var node := Find(name);
      if node != null {
        var linked := Remove(node);
        assert members == Without(old(members), k);
        assert Contents() == Without(was, k);
      }
    }

    /** The end of the attribute loop in TiXmlElement::Parse: a second attribute of one name is an
        error. */
    method AddParsed(attrib: Attribute) returns (double: bool)
      requires Linked() && attrib !in members && attrib != sentinel
      modifies this`members, sentinel`next, sentinel`prev, members`next, attrib`next, attrib`prev
      ensures Linked() && (double <==> IndexOf(old(Contents()), CStr(attrib.name)) < |old(members)|)
      ensures members == if double then old(members) else old(members) + [attrib]
      ensures Contents() == if double then old(Contents()) else old(Contents()) + [attrib.Pair()]
    {
      hide Ring, IndexOf, Pairs;
      var node := Find(CStr(attrib.name));
      if node != null {
        return true;
      }
      var unique := Add(attrib);
      assert Contents() == old(Contents()) + [attrib.Pair()];
      return false;
    }

    /** The loop over First and Next that CopyTo and the printing methods share. */
    method Listed() returns (out: seq<Attr>)
      requires Linked()
      ensures out == Reached(Contents())
    {
      hide Ring, Linked, Contents, Reached, Pairs;
      hide Joined;
      out := [];
      ghost var k := 0;
      ghost var goal := Reached(Contents());
      NothingToCopy([]);
      assert Contents()[0..] == Contents();
      JoinOne([], Attr("", ""), goal);
      var node := First();
      while node != null
        invariant node != null ==>
                    k < |members| && node == members[k] && Joined(out, Reached(Contents()[k..])) == goal
        invariant node == null ==> out == goal
        decreases if node == null then 0 else |members| - k
      {
        NextStep(k);
        JoinOne(out, node.Pair(), if node.next.Pair() == Attr("", "") then [] else Reached(Contents()[k + 1..]));
        out := out + [node.Pair()];
        node := node.Next();
        k := k + 1;
      }
    }

    /** Where Next leads from the k-th member, and what is then still to be reached. */
    lemma NextStep(k: nat)
      requires Linked() && k < |members|
      ensures members[k].Pair() == Contents()[k]
      ensures members[k].next == if k + 1 < |members| then members[k + 1] else sentinel
      ensures members[k].next.Pair() == Attr("", "") <==>
              k + 1 == |members| || Contents()[k + 1] == Attr("", "")
      ensures Reached(Contents()[k..])
              == [Contents()[k]] + if members[k].next.Pair() == Attr("", "") then [] else Reached(Contents()[k + 1..])
    {
      hide IndexOf;
      assert RingAt(sentinel, members, k + 1) == members[k];
      assert RingAt(sentinel, members, k + 2) == if k + 1 < |members| then members[k + 1] else sentinel;
      var rest := Contents()[k..];
      assert rest[1..] == Contents()[k + 1..] && rest[..1] == [Contents()[k]];
    }

    /** No attribute, and no sentinel, belongs to both sets. */
    ghost predicate Apart(target: AttributeSet)
      reads this`members, target`members
    {
      && target.sentinel != sentinel && sentinel !in target.members && target.sentinel !in members
      && forall i, j :: 0 <= i < |members| && 0 <= j < |target.members| ==> members[i] != target.members[j]
    }

    method CopyStep(target: AttributeSet, node: Attribute, ghost k: nat)
      requires Linked() && target.Linked() && target != this && Apart(target)
      requires k < |members| && node == members[k]
      modifies target`members, target.sentinel`next, target.sentinel`prev, target.members`next, target.members`value
      ensures Linked() && target.Linked() && Apart(target) && Contents() == old(Contents())
      ensures target.Contents() == SetIn(old(target.Contents()), CStr(old(node.name)), CStr(old(node.value)))
      ensures old(target.members) <= target.members
      ensures fresh(set i | |old(target.members)| <= i < |target.members| :: target.members[i])
      ensures node.next == old(node.next) != null && node.next.Pair() == old(node.next.Pair())
    {
      hide Pairs, IndexOf, SetIn;
      NextStep(k);
      target.SetAttribute(CStr(node.name), CStr(node.value));
      assert Contents() == old(Contents());
      forall i, j | 0 <= i < |members| && 0 <= j < |target.members| ensures members[i] != target.members[j] {
        assert target.members[j] in target.members;
      }
    }

    /** The attribute loop of TiXmlElement::CopyTo. */
    method CopyTo(target: AttributeSet)
      requires Linked() && target.Linked() && target != this && Apart(target)
      modifies target`members, target.sentinel`next, target.sentinel`prev, target.members`next, target.members`value
      ensures Linked() && target.Linked() && members == old(members) && Contents() == old(Contents())
      ensures target.Contents() == CopiedAttrs(old(target.Contents()), Reached(Contents()))
      ensures old(target.members) <= target.members
      ensures fresh(set i | |old(target.members)| <= i < |target.members| :: target.members[i])
    {
      hide Ring, Linked, Apart, Contents, Reached, Pairs, CopiedAttrs, IndexOf, SetIn;
      ghost var goal := CopiedAttrs(target.Contents(), Reached(Contents()));
      ghost var k := 0;
      NothingToCopy(target.Contents());
      assert Contents()[0..] == Contents();
      var node := First();
      while node != null
        invariant Linked() && target.Linked() && Apart(target) && Contents() == old(Contents())
        invariant old(target.members) <= target.members
        invariant forall i :: |old(target.members)| <= i < |target.members| ==> fresh(target.members[i])
        invariant node != null ==>
                    && k < |members| && node == members[k]
                    && CopiedAttrs(target.Contents(), Reached(Contents()[k..])) == goal
        invariant node == null ==> target.Contents() == goal
        decreases if node == null then 0 else |members| - k
      {
        NextStep(k);
        CopyOne(target.Contents(), Contents()[k].name, Contents()[k].value,
                if node.next.Pair() == Attr("", "") then [] else Reached(Contents()[k + 1..]));
        CopyStep(target, node, k);
        assert Contents() == old(Contents());
        node := node.Next();
        k := k + 1;
      }
    }
  }

  function Joined(out: seq<Attr>, rest: seq<Attr>): seq<Attr> {
    out + rest
  }

  lemma JoinOne(out: seq<Attr>, a: Attr, rest: seq<Attr>)
    ensures Joined(out, [a] + rest) == Joined(out + [a], rest)
    ensures Joined(out + [a], []) == out + [a] && Joined([], rest) == rest
  {
    assert out + ([a] + rest) == (out + [a]) + rest;
  }

  lemma NothingToCopy(into: seq<Attr>)
    ensures CopiedAttrs(into, Reached([])) == into && Reached([]) == []
  {}

  lemma CopyOne(into: seq<Attr>, name: string, value: string, rest: seq<Attr>)
    ensures CopiedAttrs(into, [Attr(name, value)] + rest) == CopiedAttrs(SetIn(into, CStr(name), CStr(value)), rest)
    ensures var r := SetIn(into, CStr(name), CStr(value)); CopiedAttrs(r, []) == r
  {
    assert ([Attr(name, value)] + rest)[1..] == rest;
  }
}
