/** Row and column in UTF-8 mode, for text in the encoding of section 3 of RFC 3629
    (tinyxml/tinyxmlparser.cpp:196-311). */
module XmlUtf8 {
  import opened Word32
  import opened XmlStamp

  type CodePoint = n: int | 0 <= n < 0x11_0000

  function Tail(n: nat): Byte {
    0x80 + n % 64
  }

  function Encoded(c: CodePoint): (e: seq<Byte>)
    ensures 1 <= |e| <= 4
  {
    if c < 0x80 then [c]
    else if c < 0x800 then [0xc0 + c / 64, Tail(c)]
    else if c < 0x1_0000 then [0xe0 + c / 4096, Tail(c / 64), Tail(c)]
    else [0xf0 + c / 262144, Tail(c / 4096), Tail(c / 64), Tail(c)]
  }

  function EncodedAll(cs: seq<CodePoint>): seq<Byte> {
    if cs == [] then [] else Encoded(cs[0]) + EncodedAll(cs[1..])
  }

  /** The table of lengths: a first byte tells how many bytes its character has; one that starts no
      character stands alone. */
  lemma LengthFromFirstByte(b: Byte)
    ensures forall c: CodePoint :: Encoded(c)[0] == b ==> Utf8Bytes(b) == |Encoded(c)|
    ensures (forall c: CodePoint :: Encoded(c)[0] != b) ==> Utf8Bytes(b) == 1
  {
    var n: int := b;
    if 0xc2 <= n <= 0xdf {
      assert Encoded((n - 0xc0) * 64)[0] == b;
    } else if 0xe0 <= n <= 0xef {
      assert Encoded(if n == 0xe0 then 0x800 else (n - 0xe0) * 4096)[0] == b;
    } else if 0xf0 <= n <= 0xf4 {
      assert Encoded(if n == 0xf0 then 0x1_0000 else (n - 0xf0) * 262144)[0] == b;
    }
  }

  /** The byte order mark and the two code points that are no characters take no column. */
  predicate NoWidth(c: CodePoint) {
    c == 0xfeff || c == 0xfffe || c == 0xffff
  }

  predicate IsLineBreak(c: CodePoint) {
    c == 13 || c == 10
  }

  /** Row and column after some characters: a line break, of one character or of the two together
      in either order, a tab up to the next tab stop, and one column for any other character. */
  function RowCol(cs: seq<CodePoint>, row: int, col: int, tab: int): (int, int)
    requires tab >= 1
    decreases |cs|
  {
    if cs == [] then (row, col)
    else if IsLineBreak(cs[0]) then
      RowCol(cs[if |cs| > 1 && IsLineBreak(cs[1]) && cs[1] != cs[0] then 2 else 1..], row + 1, 0, tab)
    else if cs[0] == 9 then RowCol(cs[1..], row, (CDiv(col, tab) + 1) * tab, tab)
    else RowCol(cs[1..], row, if NoWidth(cs[0]) then col else col + 1, tab)
  }

  /** From here on the text is the encoding of these characters and a terminator. */
  predicate Stands(text: seq<Byte>, p: nat, cs: seq<CodePoint>) {
    p < |text| && text[p..] == EncodedAll(cs) + [0]
  }

  lemma StandsOn(text: seq<Byte>, p: nat, cs: seq<CodePoint>)
    requires Stands(text, p, cs) && cs != []
    ensures p + |Encoded(cs[0])| < |text| && Stands(text, p + |Encoded(cs[0])|, cs[1..])
    ensures var e := Encoded(cs[0]);
            && text[p] == e[0] && (|e| > 1 ==> text[p + 1] == e[1]) && (|e| > 2 ==> text[p + 2] == e[2])
  {
    hide Encoded;
    var e, rest := Encoded(cs[0]), EncodedAll(cs[1..]) + [0];
    assert text[p..] == e + rest;
    assert text[p + |e|..] == text[p..][|e|..];
    assert text[p] == text[p..][0];
    assert (|e| > 1 ==> text[p + 1] == text[p..][1]) && (|e| > 2 ==> text[p + 2] == text[p..][2]);
  }

  /** The first byte of a text that stands for these characters. */
  lemma FirstByte(text: seq<Byte>, p: nat, cs: seq<CodePoint>)
    requires Stands(text, p, cs)
    ensures cs == [] ==> text[p] == 0 && p == |text| - 1
    ensures cs != [] ==> text[p] == Encoded(cs[0])[0] && p < |text| - 1
  {
    hide Encoded;
    if cs == [] {
      assert EncodedAll(cs) + [0] == [0];
      assert text[p] == text[p..][0];
    } else {
      StandsOn(text, p, cs);
    }
  }

  /** One round takes one character that is no line break, however many bytes it has. */
  lemma OneCharacter(text: seq<Byte>, c: Cursor, cs: seq<CodePoint>, m: Mode)
    requires m.utf8 && m.tabSize >= 1 && Stands(text, c.stamp, cs) && cs != [] && !IsLineBreak(cs[0]) && cs[0] != 0
    ensures text[c.stamp] != 0 && !Stuck(text, c.stamp, m)
    ensures var ch := cs[0];
            Round(text, c, m)
            == Cursor(c.row,
                      if ch == 9 then (CDiv(c.col, m.tabSize) + 1) * m.tabSize
                      else if NoWidth(ch) then c.col else c.col + 1,
                      c.stamp + |Encoded(ch)|)
  {
    hide EncodedAll, CDiv;
    StandsOn(text, c.stamp, cs);
  }

  /** One round takes one line break. */
  lemma OneBreak(text: seq<Byte>, c: Cursor, cs: seq<CodePoint>, m: Mode)
    requires m.utf8 && m.tabSize >= 1 && Stands(text, c.stamp, cs) && cs != [] && IsLineBreak(cs[0])
    ensures text[c.stamp] != 0 && !Stuck(text, c.stamp, m)
    ensures var k := if |cs| > 1 && IsLineBreak(cs[1]) && cs[1] != cs[0] then 2 else 1;
            Round(text, c, m) == Cursor(c.row + 1, 0, c.stamp + k) && Stands(text, c.stamp + k, cs[k..])
  {
    hide EncodedAll;
    StandsOn(text, c.stamp, cs);
    FirstByte(text, c.stamp + 1, cs[1..]);
    if |cs| > 1 {
      StandsOn(text, c.stamp + 1, cs[1..]);
      assert cs[1..][1..] == cs[2..];
    }
  }

  lemma WalkOne(text: seq<Byte>, now: nat, c: Cursor, m: Mode)
    requires now < |text| && m.tabSize >= 1 && c.stamp < now && text[c.stamp] != 0 && !Stuck(text, c.stamp, m)
    ensures Walk(text, now, c, m) == Walk(text, now, Round(text, c, m), m)
  {}

  /** In UTF-8 mode, from any place in a well-formed text to its end: row and column count
      characters, not bytes. */
  lemma {:induction false} Utf8RowAndColumn(text: seq<Byte>, c: Cursor, cs: seq<CodePoint>, m: Mode)
    requires m.utf8 && m.tabSize >= 1 && Stands(text, c.stamp, cs) && 0 !in cs
    ensures var (row, col) := RowCol(cs, c.row, c.col, m.tabSize);
            Walk(text, |text| - 1, c, m) == Done(Cursor(row, col, |text| - 1))
    decreases |cs|
  {
    hide Round, Walk, Stuck, CDiv, Encoded;
    var now := |text| - 1;
    FirstByte(text, c.stamp, cs);
    if cs == [] {
      WalkDone(text, now, c, m);
    } else if IsLineBreak(cs[0]) {
      OneBreak(text, c, cs, m);
      WalkOne(text, now, c, m);
      var k := if |cs| > 1 && IsLineBreak(cs[1]) && cs[1] != cs[0] then 2 else 1;
      Utf8RowAndColumn(text, Round(text, c, m), cs[k..], m);
    } else {
      assert cs[0] in cs;
      OneCharacter(text, c, cs, m);
      StandsOn(text, c.stamp, cs);
      WalkOne(text, now, c, m);
      Utf8RowAndColumn(text, Round(text, c, m), cs[1..], m);
    }
  }

  lemma WalkDone(text: seq<Byte>, now: nat, c: Cursor, m: Mode)
    requires now < |text| && m.tabSize >= 1 && c.stamp == now
    ensures Walk(text, now, c, m) == Done(c)
  {}
}
