/** Row and column tracking (tinyxml/tinyxmlparser.cpp:62-85, 171-311). */
module XmlStamp {
  import opened Word32

  const CR: Byte := 13
  const LF: Byte := 10
  const TAB: Byte := 9
  const LEAD_0: Byte := 0xef
  const LEAD_1: Byte := 0xbb
  const LEAD_2: Byte := 0xbf

  /** The place up to which positions have been counted, and the count there. */
  datatype Cursor = Cursor(row: int, col: int, stamp: nat)

  datatype Mode = Mode(tabSize: int, utf8: bool)

  /** utf8ByteTable: the length of a character, from its first byte. */
  function Utf8Bytes(b: Byte): nat {
    if 0xc2 <= b <= 0xdf then 2
    else if 0xe0 <= b <= 0xef then 3
    else if 0xf0 <= b <= 0xf4 then 4
    else 1
  }

  /** Division as in C, toward zero. */
  function CDiv(a: int, b: int): int
    requires b > 0
  {
    if a >= 0 then a / b else -(-a / b)
  }

  lemma CDivTruncates(a: int, b: int)
    requires b > 0
    ensures var r := a - CDiv(a, b) * b; -b < r < b && (a >= 0 ==> r >= 0) && (a <= 0 ==> r <= 0)
  {
    var q := -a / b;
    assert a < 0 ==> CDiv(a, b) * b == -(q * b);
  }

  /** A terminated text: the last byte is a NUL. */
  predicate Terminated(text: seq<Byte>) {
    |text| > 0 && text[|text| - 1] == 0
  }

  predicate NotNul(text: seq<Byte>, i: nat) {
    i < |text| && text[i] != 0
  }

  /** In UTF-8 mode a first byte 0xEF without two more bytes after it is not consumed at all. */
  predicate Stuck(text: seq<Byte>, p: nat, m: Mode)
    requires p < |text|
  {
    m.utf8 && text[p] == LEAD_0 && !(NotNul(text, p + 1) && NotNul(text, p + 2))
  }

  predicate ZeroWidth(text: seq<Byte>, p: nat) {
    && p + 2 < |text|
    && ((text[p + 1] == LEAD_1 && text[p + 2] == LEAD_2) || (text[p + 1] == 0xbf && text[p + 2] == 0xbe)
        || (text[p + 1] == 0xbf && text[p + 2] == 0xbf))
  }

  /** One round of the loop, at a byte that is not NUL. */
  function Round(text: seq<Byte>, c: Cursor, m: Mode): (r: Cursor)
    requires c.stamp < |text| && m.tabSize >= 1
    ensures r == c <==> Stuck(text, c.stamp, m)
    ensures r != c ==> r.stamp > c.stamp
  {
    var p, b := c.stamp, text[c.stamp];
    if b == CR then
      Cursor(c.row + 1, 0, if p + 1 < |text| && text[p + 1] == LF then p + 2 else p + 1)
    else if b == LF then
      Cursor(c.row + 1, 0, if p + 1 < |text| && text[p + 1] == CR then p + 2 else p + 1)
    else if b == TAB then
      Cursor(c.row, (CDiv(c.col, m.tabSize) + 1) * m.tabSize, p + 1)
    else if b == LEAD_0 && m.utf8 then
      if Stuck(text, p, m) then c
      else if ZeroWidth(text, p) then c.(stamp := p + 3)
      else Cursor(c.row, c.col + 1, p + 3)
    else if m.utf8 then
      Cursor(c.row, c.col + 1, p + Utf8Bytes(b))
    else
      Cursor(c.row, c.col + 1, p + 1)
  }

  datatype Outcome =
    | Done(cursor: Cursor)   // the loop reached `now`
    | AtNul                  // it met the end of the text first
    | Forever(at: nat)       // it stays at this position

  /** What a call of Stamp comes to. */
  function Walk(text: seq<Byte>, now: nat, c: Cursor, m: Mode): (r: Outcome)
    requires now < |text| && m.tabSize >= 1
    ensures r.Done? ==> r.cursor.stamp >= now && r.cursor.stamp >= c.stamp
    decreases now - c.stamp
  {
    if c.stamp >= now then Done(c)
    else if text[c.stamp] == 0 then AtNul
    else if Stuck(text, c.stamp, m) then Forever(c.stamp)
    else Walk(text, now, Round(text, c, m), m)
  }

  /** The cursor after a call that returns. */
  function Stamped(text: seq<Byte>, now: nat, c: Cursor, m: Mode): Cursor
    requires now < |text|
  {
    if m.tabSize < 1 then c
    else
      var r := Walk(text, now, c, m);
      if r.Done? then r.cursor else c
  }

  class ParsingData {
    var cursor: Cursor
    const tabSize: int

    constructor (start: nat, tabSize: int, row: int, col: int)
      ensures cursor == Cursor(row, col, start) && this.tabSize == tabSize
    {
      cursor, this.tabSize := Cursor(row, col, start), tabSize;
    }

    method Stamp(text: seq<Byte>, now: nat, utf8: bool)
      requires Terminated(text) && now < |text|
      requires tabSize >= 1 ==> !Walk(text, now, cursor, Mode(tabSize, utf8)).Forever?
      modifies this
      ensures cursor == Stamped(text, now, old(cursor), Mode(tabSize, utf8))
      ensures old(cursor).row >= -1 && old(cursor).col >= -1 ==> cursor.row >= -1 && cursor.col >= -1
    {
      if tabSize < 1 {
        return;
      }
      ghost var m := Mode(tabSize, utf8);
      ghost var goal := Walk(text, now, cursor, m);
      var row, col, p := cursor.row, cursor.col, cursor.stamp;
      while p < now
        invariant Walk(text, now, Cursor(row, col, p), m) == goal
        invariant cursor == old(cursor)
        invariant old(cursor).row >= -1 && old(cursor).col >= -1 ==> row >= -1 && col >= -1
        decreases now - p
      {
        var b := text[p];
        if b == 0 {
          return;
        }
        TabStop(col, tabSize);
        if b == CR {
          row, col, p := row + 1, 0, p + 1;
          if text[p] == LF {
            p := p + 1;
          }
        } else if b == LF {
          row, col, p := row + 1, 0, p + 1;
          if text[p] == CR {
            p := p + 1;
          }
        } else if b == TAB {
          p := p + 1;
          col := (CDiv(col, tabSize) + 1) * tabSize;
        } else if b == LEAD_0 && utf8 {
          if NotNul(text, p + 1) && NotNul(text, p + 2) {
            if ZeroWidth(text, p) {
              p := p + 3;
            } else {
              p, col := p + 3, col + 1;
            }
          }
        } else if utf8 {
          p, col := p + Utf8Bytes(b), col + 1;
        } else {
          p, col := p + 1, col + 1;
        }
      }
      cursor := Cursor(row, col, p);
    }
  }

  lemma TabStop(col: int, tab: int)
    requires tab >= 1
    ensures col >= -1 ==> (CDiv(col, tab) + 1) * tab >= 0
  {
    if col == -1 {
      assert 1 / tab <= 1;
    } else if col >= 0 {
      assert col / tab >= 0;
    }
  }

  // ----- incremental and one-shot tracking -----

  /** Stopping on the way makes no difference. */
  lemma {:induction false} WalkOn(text: seq<Byte>, first: nat, now: nat, c: Cursor, m: Mode)
    requires first <= now < |text| && m.tabSize >= 1 && Walk(text, first, c, m).Done?
    ensures Walk(text, now, Walk(text, first, c, m).cursor, m) == Walk(text, now, c, m)
    decreases first - c.stamp
  {
    hide Stuck, Round;
    if c.stamp >= first {
    } else {
      WalkOn(text, first, now, Round(text, c, m), m);
    }
  }

  /** A walk over a text without NUL before `now` is done unless it gets stuck, and if it does not
      get stuck on the way to `now`, neither does it on the way to any earlier position. */
  lemma {:induction false} WalkShorter(text: seq<Byte>, first: nat, now: nat, c: Cursor, m: Mode)
    requires first <= now < |text| && m.tabSize >= 1 && !Walk(text, now, c, m).Forever?
    requires forall i :: 0 <= i < now ==> text[i] != 0
    ensures Walk(text, first, c, m).Done?
    decreases first - c.stamp
  {
    hide Stuck, Round;
    if c.stamp >= first {
    } else {
      WalkShorter(text, first, now, Round(text, c, m), m);
    }
  }

  function StampedAll(text: seq<Byte>, calls: seq<nat>, c: Cursor, m: Mode): Cursor
    requires forall i :: 0 <= i < |calls| ==> calls[i] < |text|
    decreases calls
  {
    if calls == [] then c else StampedAll(text, calls[1..], Stamped(text, calls[0], c, m), m)
  }

  /** Any calls at non-decreasing positions of a text without NUL leave the row, the column and
      the stamp of a single call at the last of them. */
  lemma {:induction false} IncrementalIsOneShot(text: seq<Byte>, calls: seq<nat>, c: Cursor, m: Mode)
    requires calls != [] && forall i, j :: 0 <= i <= j < |calls| ==> calls[i] <= calls[j] < |text|
    requires forall i :: 0 <= i < calls[|calls| - 1] ==> text[i] != 0
    requires m.tabSize >= 1 ==> !Walk(text, calls[|calls| - 1], c, m).Forever?
    ensures StampedAll(text, calls, c, m) == Stamped(text, calls[|calls| - 1], c, m)
    decreases calls
  {
    hide Walk;
    var last, rest, c' := calls[|calls| - 1], calls[1..], Stamped(text, calls[0], c, m);
    if m.tabSize >= 1 {
      WalkShorter(text, calls[0], last, c, m);
      WalkShorter(text, last, last, c, m);
      WalkOn(text, calls[0], last, c, m);
    }
    if rest != [] {
      assert rest[|rest| - 1] == last;
      IncrementalIsOneShot(text, rest, c', m);
    } else {
      assert StampedAll(text, rest, c', m) == c';
    }
  }

  // ----- termination -----

  lemma {:induction false} ForeverMeansStuck(text: seq<Byte>, now: nat, c: Cursor, m: Mode)
    requires now < |text| && m.tabSize >= 1 && Walk(text, now, c, m).Forever?
    ensures var p := Walk(text, now, c, m).at; p < now && text[p] != 0 && Stuck(text, p, m)
    decreases now - c.stamp
  {
    hide Stuck, Round;
    if Stuck(text, c.stamp, m) {
    } else {
      ForeverMeansStuck(text, now, Round(text, c, m), m);
    }
  }

  /** Stamp returns from every position of a text exactly when, in UTF-8 mode, neither of the last
      two bytes before the terminator is a 0xEF that lies before `now`; in byte mode, always. */
  lemma ReturnsEverywhereIff(text: seq<Byte>, now: nat, m: Mode)
    requires Terminated(text) && now < |text| && m.tabSize >= 1
    requires forall i :: 0 <= i < |text| - 1 ==> text[i] != 0
    ensures (forall c: Cursor :: !Walk(text, now, c, m).Forever?)
            <==> !m.utf8 || forall i :: |text| - 3 <= i < now && i >= 0 ==> text[i] != LEAD_0
  {
    hide Walk;
    var end := |text| - 1;
    if !m.utf8 || forall i :: end - 2 <= i < now && i >= 0 ==> text[i] != LEAD_0 {
      forall c: Cursor ensures !Walk(text, now, c, m).Forever? {
        if Walk(text, now, c, m).Forever? { ForeverMeansStuck(text, now, c, m); }
      }
    } else {
      var i :| end - 2 <= i < now && i >= 0 && text[i] == LEAD_0;
      StuckAtOnce(text, now, Cursor(0, 0, i), m);
    }
  }

  lemma StuckAtOnce(text: seq<Byte>, now: nat, c: Cursor, m: Mode)
    requires c.stamp < now < |text| && m.tabSize >= 1 && text[c.stamp] != 0 && Stuck(text, c.stamp, m)
    ensures Walk(text, now, c, m) == Forever(c.stamp) && Round(text, c, m) == c
  {}

  // ----- what is counted -----

  predicate IsBreak(b: Byte) {
    b == CR || b == LF
  }

  /** How many bytes the line break at the head of a text takes: CR LF and LF CR are one break. */
  function BreakLength(text: seq<Byte>): (n: nat)
    requires text != []
    ensures 1 <= n <= 2 && n <= |text|
  {
    if |text| > 1 && IsBreak(text[0]) && IsBreak(text[1]) && text[0] != text[1] then 2 else 1
  }

  /** The lines of a text, at least one; the last may be empty. */
  function Lines(text: seq<Byte>): (lines: seq<seq<Byte>>)
    ensures |lines| >= 1
    decreases |text|
  {
    if text == [] then [[]]
    else if IsBreak(text[0]) then [[]] + Lines(text[BreakLength(text)..])
    else
      var rest := Lines(text[1..]);
      [[text[0]] + rest[0]] + rest[1..]
  }

  /** The column after a line that starts in column col: each byte takes one, a tab goes on to the
      next tab stop. */
  function Width(line: seq<Byte>, col: int, tab: int): int
    requires tab >= 1
  {
    if line == [] then col
    else Width(line[1..], if line[0] == TAB then (CDiv(col, tab) + 1) * tab else col + 1, tab)
  }

  lemma WalkStep(text: seq<Byte>, now: nat, c: Cursor, m: Mode)
    requires now < |text| && m.tabSize >= 1 && !m.utf8
    ensures c.stamp >= now ==> Walk(text, now, c, m) == Done(c)
    ensures c.stamp < now && text[c.stamp] != 0 ==>
              Walk(text, now, c, m) == Walk(text, now, Round(text, c, m), m)
  {
    hide Round;
  }

  /** A round in byte mode goes on by one line break, tab or other byte. */
  lemma RoundStep(text: seq<Byte>, now: nat, c: Cursor, m: Mode)
    requires c.stamp < now < |text| && m.tabSize >= 1 && !m.utf8
    ensures var r, here := Round(text, c, m), text[c.stamp..now];
            if IsBreak(here[0]) then
              && r.row == c.row + 1 && r.col == 0
              && if r.stamp <= now then r.stamp == c.stamp + BreakLength(here)
                 else r.stamp == now + 1 && |here| == BreakLength(here)
            else
              && r.row == c.row && r.stamp == c.stamp + 1
              && r.col == if here[0] == TAB then (CDiv(c.col, m.tabSize) + 1) * m.tabSize else c.col + 1
  {
    hide CDiv;
  }

  lemma NoLines(col: int, tab: int)
    requires tab >= 1
    ensures Lines([]) == [[]] && Width([], col, tab) == col
  {}

  lemma LinesStep(text: seq<Byte>, col: int, tab: int)
    requires text != [] && tab >= 1
    ensures var lines := Lines(text);
            if IsBreak(text[0]) then
              var rest := Lines(text[BreakLength(text)..]);
              |lines| == |rest| + 1 && lines[|lines| - 1] == rest[|rest| - 1]
            else
              var rest := Lines(text[1..]);
              && |lines| == |rest|
              && (|rest| > 1 ==> lines[|lines| - 1] == rest[|rest| - 1])
              && (|rest| == 1 ==>
                    Width(lines[0], col, tab)
                    == Width(rest[0], if text[0] == TAB then (CDiv(col, tab) + 1) * tab else col + 1, tab))
  {
    hide CDiv;
    if !IsBreak(text[0]) {
      assert ([text[0]] + Lines(text[1..])[0])[1..] == Lines(text[1..])[0];
    }
  }

  /** In byte mode: the row counts the lines of the text gone through, and the column is the width
      of the last of them, which is where the call began if there is only one. A break of two
      bytes may lead one byte past `now`. */
  lemma {:induction false} RowAndColumn(text: seq<Byte>, now: nat, c: Cursor, m: Mode)
    requires c.stamp <= now < |text| && m.tabSize >= 1 && !m.utf8
    requires forall i :: c.stamp <= i < now ==> text[i] != 0
    ensures Walk(text, now, c, m) == Done(Stamped(text, now, c, m))
    ensures var r, lines := Stamped(text, now, c, m), Lines(text[c.stamp..now]);
            && now <= r.stamp <= now + 1
            && r.row == c.row + |lines| - 1
            && r.col == Width(lines[|lines| - 1], if |lines| == 1 then c.col else 0, m.tabSize)
    decreases now - c.stamp
  {
    hide CDiv, Lines, Width, Walk, Round, BreakLength;
    var here := text[c.stamp..now];
    WalkStep(text, now, c, m);
    NoLines(c.col, m.tabSize);
    if c.stamp == now {
      assert here == [];
    } else {
      var r := Round(text, c, m);
      RoundStep(text, now, c, m);
      LinesStep(here, c.col, m.tabSize);
      if r.stamp > now {
        WalkStep(text, now, r, m);
        assert here[BreakLength(here)..] == [];
        NoLines(0, m.tabSize);
      } else {
        RowAndColumn(text, now, r, m);
        assert here[r.stamp - c.stamp..] == text[r.stamp..now];
      }
    }
  }
}
