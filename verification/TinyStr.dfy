/** TinyXML's growing string buffer (tinyxml/tinystr.h, tinyxml/tinystr.cpp). */
module TinyStr {
  import opened Word32

  const NUL: char := '\0'

  /** Size and capacity, and the characters with room for a terminator. */
  class Rep {
    var size: nat
    const capacity: nat
    const str: array<char>

    ghost predicate Valid()
      reads this, str
    {
      size <= capacity && str.Length == capacity + 1 && str[size] == NUL
    }

    ghost function Text(): seq<char>
      requires Valid()
      reads this, str
    {
      str[..size]
    }

    /** A representation of a size not yet filled in, but terminated. */
    constructor (sz: nat, cap: nat)
      requires sz <= cap
      ensures Valid() && size == sz && capacity == cap && fresh(str)
    {
      size, capacity := sz, cap;
      str := new char[cap + 1](i => NUL);
    }

    method SetSize(sz: nat)
      requires str.Length == capacity + 1 && sz <= capacity
      modifies this`size, str
      ensures Valid() && size == sz && str[..sz] == old(str[..sz])
    {
      size := sz;
      str[sz] := NUL;
    }

    /** memmove or memcpy of text into the buffer at position `at`. */
    method Put(at: nat, text: seq<char>)
      requires at + |text| <= str.Length
      modifies str
      ensures str[..at] == old(str[..at]) && str[at..at + |text|] == text
      ensures str[at + |text|..] == old(str[at + |text|..])
    {
      var i := 0;
      while i < |text|
        invariant i <= |text|
        invariant str[..at] == old(str[..at]) && str[at..at + i] == text[..i]
        invariant str[at + i..] == old(str[at + i..])
      {
        ghost var was := str[at..at + i];
        str[at + i] := text[i];
        assert str[at..at + i + 1] == was + [text[i]];
        i := i + 1;
      }
    }
  }

  /** What the growth of a string costs: `moved` counts the characters its reallocations have
      copied, `grown` the reallocations. */
  datatype Cost = Cost(length: nat, capacity: nat, moved: nat, grown: nat)

  function Reserved(c: Cost, cap: nat): Cost {
    if cap > c.capacity then c.(capacity := cap, moved := c.moved + c.length, grown := c.grown + 1) else c
  }

  function Appended(c: Cost, n: nat): Cost {
    var size := c.length + n;
    (if size > c.capacity then Reserved(c, size + c.capacity) else c).(length := size)
  }

  function AppendedAll(c: Cost, pieces: seq<seq<char>>): Cost
    decreases pieces
  {
    if pieces == [] then c else AppendedAll(Appended(c, |pieces[0]|), pieces[1..])
  }

  function Concat(pieces: seq<seq<char>>): (s: seq<char>)
    ensures pieces == [] ==> s == []
  {
    if pieces == [] then [] else pieces[0] + Concat(pieces[1..])
  }

  const EMPTY: Cost := Cost(0, 0, 0, 0)

  /** What growth by appending keeps: at most twice the room needed, and all the copying so far
      is paid for by the present capacity, which at least doubles each time it changes. */
  predicate Paid(c: Cost) {
    && c.length <= c.capacity <= 2 * c.length
    && c.moved <= c.capacity
    && (c.grown > 0 ==> Pow2(c.grown - 1) <= c.capacity)
  }

  lemma AppendStaysPaid(c: Cost, n: nat)
    requires Paid(c)
    ensures Paid(Appended(c, n)) && Appended(c, n).length == c.length + n
  {
    if c.length + n > c.capacity && c.grown > 0 {
      assert Pow2(c.grown) == 2 * Pow2(c.grown - 1);
    }
  }

  lemma {:induction false} AppendsStayPaid(c: Cost, pieces: seq<seq<char>>)
    requires Paid(c)
    ensures Paid(AppendedAll(c, pieces)) && AppendedAll(c, pieces).length == c.length + |Concat(pieces)|
    decreases pieces
  {
    hide Paid, Appended;
    if pieces == [] {
    } else {
      AppendStaysPaid(c, |pieces[0]|);
      AppendsStayPaid(Appended(c, |pieces[0]|), pieces[1..]);
    }
  }

  /** Any sequence of appends to an empty string: at most double the room, no more characters
      moved than the final capacity, and logarithmically many reallocations. */
  lemma AppendsAreLinear(pieces: seq<seq<char>>)
    ensures var c := AppendedAll(EMPTY, pieces);
            && c.length == |Concat(pieces)| && c.moved <= c.capacity <= 2 * |Concat(pieces)|
            && (c.grown > 0 ==> Pow2(c.grown - 1) <= 2 * |Concat(pieces)|)
  {
    AppendsStayPaid(EMPTY, pieces);
  }

  class TiXmlString {
    var rep: Rep
    const nullRep: Rep
    ghost var moved: nat
    ghost var grown: nat

    /** The null representation is shared by all empty strings; it stays empty. */
    ghost predicate Valid()
      reads this, rep, rep.str, nullRep, nullRep.str
    {
      && rep.Valid() && nullRep.Valid() && nullRep.capacity == 0
      && (rep != nullRep ==> rep.str != nullRep.str)
    }

    ghost function Text(): (t: seq<char>)
      requires Valid()
      reads this, rep, rep.str, nullRep, nullRep.str
      ensures |t| == rep.size
    {
      rep.Text()
    }

    ghost function Spent(): Cost
      reads this, rep
    {
      Cost(rep.size, rep.capacity, moved, grown)
    }

    constructor (nullRep: Rep)
      requires nullRep.Valid() && nullRep.capacity == 0
      ensures Valid() && this.nullRep == nullRep && rep == nullRep
      ensures Text() == [] && Spent() == EMPTY
    {
      this.nullRep, rep, moved, grown := nullRep, nullRep, 0, 0;
    }

    /** init: a capacity of zero means the null representation. */
    method Init(sz: nat, cap: nat) returns (r: Rep)
      requires sz <= cap && nullRep.Valid() && nullRep.capacity == 0
      ensures r.Valid() && r.size == sz && r.capacity == cap
      ensures if cap == 0 then r == nullRep else fresh(r) && fresh(r.str)
    {
      if cap != 0 {
        r := new Rep(sz, cap);
      } else {
        r := nullRep;
      }
    }

    method Reserve(cap: nat)
      requires Valid()
      modifies this
      ensures Valid() && Text() == old(Text()) && Spent() == Reserved(old(Spent()), cap)
      ensures rep == old(rep) || (fresh(rep) && fresh(rep.str))
    {
      if cap > rep.capacity {
        var tmp := Init(rep.size, cap);
        tmp.Put(0, rep.str[..rep.size]);
        moved, grown := moved + rep.size, grown + 1;
        rep := tmp;
      }
    }

    /** The text may lie in this string's own buffer. A buffer much too large is given up. */
    method Assign(str: array<char>, from: nat, len: nat)
      requires Valid() && from + len <= str.Length
      modifies this, rep, rep.str, nullRep.str
      ensures Valid() && Text() == old(str[from..from + len])
      ensures var cap := old(rep.capacity);
              rep.capacity == if len > cap || cap > 3 * (len + 8) then len else cap
      ensures rep.capacity <= 3 * (|Text()| + 8)
    {
      var text := str[from..from + len];
      var cap := rep.capacity;
      if len > cap || cap > 3 * (len + 8) {
        var tmp := Init(len, len);
        tmp.Put(0, text);
        rep := tmp;
      } else {
        rep.Put(0, text);
        rep.SetSize(len);
      }
    }

    /** The suffix may lie in this string's own buffer as long as the string need not grow: the
        code frees the old buffer before it copies. */
    method Append(str: array<char>, from: nat, len: nat)
      requires Valid() && from + len <= str.Length
      requires str == rep.str && rep != nullRep ==> rep.size + len <= rep.capacity
      modifies this, rep, rep.str
      ensures Valid() && Text() == old(Text()) + old(str[from..from + len])
      ensures Spent() == Appended(old(Spent()), len)
      ensures rep == old(rep) || (fresh(rep) && fresh(rep.str))
    {
      ghost var was, suffix := Text(), str[from..from + len];
      var newSize := rep.size + len;
      if newSize > rep.capacity {
        Reserve(newSize + rep.capacity);
      }
      var at := rep.size;
      rep.Put(at, str[from..from + len]);
      assert rep.str[..at] == was;
      assert rep.str[..newSize] == was + suffix;
      rep.SetSize(newSize);
    }

    /** The first occurrence from an offset on, before any NUL; or nothing. */
    method Find(lookup: char, offset: nat) returns (found: bool, at: nat)
      requires Valid()
      ensures found ==>
                && offset <= at < |Text()| && Text()[at] == lookup != NUL
                && forall i :: offset <= i < at ==> Text()[i] != lookup && Text()[i] != NUL
      ensures !found ==>
                forall i :: offset <= i < |Text()| && Text()[i] == lookup ==>
                  exists j :: offset <= j <= i && Text()[j] == NUL
    {
      if offset >= rep.size {
        return false, 0;
      }
      var p := offset;
      while rep.str[p] != NUL
        invariant offset <= p <= rep.size
        invariant forall i :: offset <= i < p ==> rep.str[i] != lookup && rep.str[i] != NUL
        decreases rep.size - p
      {
        if rep.str[p] == lookup {
          return true, p;
        }
        p := p + 1;
      }
      if p < rep.size {
        assert Text()[p] == NUL;
      }
      return false, 0;
    }
  }

  ghost function Texts(pieces: seq<array<char>>): (t: seq<seq<char>>)
    reads pieces
    ensures |t| == |pieces|
  {
    if pieces == [] then [] else [pieces[0][..]] + Texts(pieces[1..])
  }

  lemma {:induction false} TextsAt(pieces: seq<array<char>>, i: nat)
    requires i < |pieces|
    ensures Texts(pieces)[i] == pieces[i][..]
  {
    if i == 0 {
    } else {
      TextsAt(pieces[1..], i - 1);
    }
  }

  /** A string put together piece by piece: its text is all of them, and what it cost is bounded
      as AppendsAreLinear says. */
  method Build(nullRep: Rep, pieces: seq<array<char>>) returns (s: TiXmlString)
    requires nullRep.Valid() && nullRep.capacity == 0
    requires forall i :: 0 <= i < |pieces| ==> pieces[i] != nullRep.str
    modifies nullRep, nullRep.str
    ensures fresh(s) && s.Valid() && s.Text() == Concat(old(Texts(pieces)))
    ensures Paid(s.Spent()) && s.Spent() == AppendedAll(EMPTY, old(Texts(pieces)))
  {
    hide Paid, Appended, Concat, AppendedAll;
    ghost var texts := Texts(pieces);
    s := new TiXmlString(nullRep);
    EmptyIsPaid();
    AppendsStayPaid(EMPTY, texts);
    assert texts[0..] == texts;
    var i := 0;
    while i < |pieces|
      invariant i <= |pieces| && s.Valid() && s.nullRep == nullRep
      invariant s.rep == nullRep || (fresh(s.rep) && fresh(s.rep.str))
      invariant Texts(pieces) == texts
      invariant s.Text() + Concat(texts[i..]) == Concat(texts)
      invariant AppendedAll(s.Spent(), texts[i..]) == AppendedAll(EMPTY, texts)
    {
      TextsAt(pieces, i);
      StepOf(s.Spent(), texts, i);
      ghost var before := s.Text();
      assert pieces[i][0..pieces[i].Length] == texts[i];
      s.Append(pieces[i], 0, pieces[i].Length);
      OnePiece(before, texts, i);
      i := i + 1;
    }
    assert texts[i..] == [];
    NoPieces(s.Spent());
  }

  lemma OnePiece(before: seq<char>, texts: seq<seq<char>>, i: nat)
    requires i < |texts|
    ensures before + Concat(texts[i..]) == (before + texts[i]) + Concat(texts[i + 1..])
  {
    assert texts[i..][0] == texts[i] && texts[i..][1..] == texts[i + 1..];
  }

  lemma StepOf(c: Cost, texts: seq<seq<char>>, i: nat)
    requires i < |texts|
    ensures AppendedAll(c, texts[i..]) == AppendedAll(Appended(c, |texts[i]|), texts[i + 1..])
  {
    hide Appended;
    assert texts[i..][0] == texts[i] && texts[i..][1..] == texts[i + 1..];
  }

  lemma NoPieces(c: Cost)
    ensures Concat([]) == [] && AppendedAll(c, []) == c
  {}

  lemma EmptyIsPaid()
    ensures Paid(EMPTY)
  {}
}
