/** Which character a reference stands for (tinyxml/tinyxmlparser.cpp:438-531), beside sections 4.1
    and 4.6 of XML 1.0. */
module XmlCharRef {
  import opened XmlText

  const DIGITS: string := "0123456789abcdef"
  const CAPITALS: string := "0123456789ABCDEF"

  /** What a digit is worth: its place among the digits, small or capital. */
  function Worth(c: char): nat {
    if c in DIGITS then Find(DIGITS, c) else Find(CAPITALS, c)
  }

  lemma WorthIs(c: char)
    ensures Worth(c) < 16 <==> c in DIGITS || c in CAPITALS
    ensures Worth(c) < 16 ==> DIGITS[Worth(c)] == c || CAPITALS[Worth(c)] == c
  {}

  predicate IsDigit(c: char, base: nat) {
    Worth(c) < base
  }

  /** The code's ranges of characters are those digits, with those values. */
  lemma HexDigitIs(c: char)
    ensures HexDigit(c) == if IsDigit(c, 16) then Good(Worth(c)) else Bad
    ensures IsDigit(c, 10) <==> '0' <= c <= '9'
    ensures IsDigit(c, 10) ==> Worth(c) == (c - '0') as int
  {
    hide Find, Worth;
    TheDigits();
    WorthIs(c);
    if '0' <= c <= '9' {
      assert DIGITS[(c - '0') as int] == c;
    } else if 'a' <= c <= 'f' {
      assert DIGITS[(c - 'a') as int + 10] == c;
    } else if 'A' <= c <= 'F' {
      assert CAPITALS[(c - 'A') as int + 10] == c;
    }
  }

  lemma TheDigits()
    ensures forall i :: 0 <= i < 10 ==> DIGITS[i] == CAPITALS[i] == '0' + i as char
    ensures forall i :: 10 <= i < 16 ==> DIGITS[i] == 'a' + (i - 10) as char && CAPITALS[i] == 'A' + (i - 10) as char
  {}

  predicate AllDigits(d: string, base: nat) {
    forall i :: 0 <= i < |d| ==> IsDigit(d[i], base)
  }

  /** The number a numeral stands for, read from the left; acc is what came before it. */
  function Numeral(d: string, base: nat, acc: nat): nat
    requires AllDigits(d, base)
  {
    if d == "" then acc else Numeral(d[1..], base, acc * base + Worth(d[0]))
  }

  /** What follows the last c, or everything. */
  function AfterLast(s: string, c: char): (t: string)
    ensures c !in s ==> t == s
    ensures |t| <= |s|
  {
    if s == "" || s[|s| - 1] == c then "" else AfterLast(s[..|s| - 1], c) + [s[|s| - 1]]
  }

  lemma {:induction false} NumeralSnoc(d: string, c: char, base: nat, acc: nat)
    requires AllDigits(d + [c], base)
    ensures AllDigits(d, base) && IsDigit(c, base)
    ensures Numeral(d + [c], base, acc) == Numeral(d, base, acc) * base + Worth(c)
  {
    hide Worth, IsDigit;
    assert forall i :: 0 <= i < |d| ==> d[i] == (d + [c])[i];
    assert (d + [c])[|d|] == c;
    if d == "" {
      assert d + [c] == [c] && [c][1..] == "";
    } else {
      assert (d + [c])[1..] == d[1..] + [c];
      NumeralSnoc(d[1..], c, base, acc * base + Worth(d[0]));
    }
  }

  lemma DigitsSnoc(d: string, c: char, base: nat)
    ensures AllDigits(d + [c], base) <==> AllDigits(d, base) && IsDigit(c, base)
  {
    hide IsDigit;
    assert (d + [c])[|d|] == c;
    assert forall i :: 0 <= i < |d| ==> d[i] == (d + [c])[i];
  }

  /** Cutting a sum and a factor to 32 bits on the way makes no difference in the end. */
  lemma CutOnTheWay(sum: nat, mult: nat, factor: nat, low: nat, high: nat)
    ensures ((sum + mult * low) % WORD + (mult * factor) % WORD * high) % WORD
            == (sum + mult * (high * factor + low)) % WORD
  {
    var a, b := sum + mult * low, mult * factor;
    var p, q := a / WORD, b / WORD;
    assert a == WORD * p + a % WORD && b == WORD * q + b % WORD;
    assert b * high == WORD * (q * high) + b % WORD * high;
    assert sum + mult * (high * factor + low) == a + b * high;
    SameRemainder(a % WORD + b % WORD * high, a + b * high, p + q * high);
  }

  lemma SameRemainder(x: int, y: int, k: int)
    requires y == x + WORD * k
    ensures y % WORD == x % WORD
  {}

  /** The backward scan: an error unless only digits follow the last marker, and else what they
      stand for, modulo 2^32. */
  lemma {:induction false} HexBackIs(s: string, mult: nat, sum: nat)
    requires sum < WORD
    ensures var d := AfterLast(s, 'x');
            HexBack(s, mult, sum)
            == if AllDigits(d, 16) then Good((sum + mult * Numeral(d, 16, 0)) % WORD) else Bad
  {
    hide HexDigit, Worth, IsDigit, AllDigits, Numeral;
    Empty(16);
    if s == "" || s[|s| - 1] == 'x' {
    } else {
      var c, rest := s[|s| - 1], s[..|s| - 1];
      var d := AfterLast(rest, 'x');
      DigitsSnoc(d, c, 16);
      HexDigitIs(c);
      if IsDigit(c, 16) {
        var n := Worth(c);
        HexBackIs(rest, (mult * 16) % WORD, (sum + mult * n) % WORD);
        if AllDigits(d, 16) {
          NumeralSnoc(d, c, 16, 0);
          CutOnTheWay(sum, mult, 16, n, Numeral(d, 16, 0));
        }
      }
    }
  }

  lemma {:induction false} DecBackIs(s: string, mult: nat, sum: nat)
    requires sum < WORD
    ensures var d := AfterLast(s, '#');
            DecBack(s, mult, sum)
            == if AllDigits(d, 10) then Good((sum + mult * Numeral(d, 10, 0)) % WORD) else Bad
  {
    hide HexDigit, Worth, IsDigit, AllDigits, Numeral;
    Empty(10);
    if s == "" || s[|s| - 1] == '#' {
    } else {
      var c, rest := s[|s| - 1], s[..|s| - 1];
      var d := AfterLast(rest, '#');
      DigitsSnoc(d, c, 10);
      HexDigitIs(c);
      if IsDigit(c, 10) {
        var n := Worth(c);
        DecBackIs(rest, (mult * 10) % WORD, (sum + mult * n) % WORD);
        if AllDigits(d, 10) {
          NumeralSnoc(d, c, 10, 0);
          CutOnTheWay(sum, mult, 10, n, Numeral(d, 10, 0));
        }
      }
    }
  }

  lemma Empty(base: nat)
    ensures AllDigits("", base) && Numeral("", base, 0) == 0
  {}

  // ----- references -----

  /** The digits the code goes by, of what stands between `&#` and the semicolon, and their base. */
  function Base(body: string): nat {
    if body != "" && body[0] == 'x' then 16 else 10
  }

  function Digits(body: string): string {
    if body != "" && body[0] == 'x' then AfterLast(body[1..], 'x') else AfterLast(body, '#')
  }

  /** What a reference with a semicolon yields, t being what follows that: a character exactly if
      the digits are digits, the one with the low eight bits of their value. */
  function Referred(body: string, t: string): (string, Ptr) {
    if AllDigits(Digits(body), Base(body)) then
      ([(Numeral(Digits(body), Base(body), 0) % 256) as char], At(t))
    else ("", Null)
  }

  lemma ReferenceIs(body: string, t: string)
    requires ';' !in body
    ensures GetEntity("&#" + body + ";" + t) == Referred(body, t)
  {
    hide HexBack, DecBack, Find, AllDigits, Numeral, AfterLast;
    var s := "&#" + body + ";" + t;
    var first := if Base(body) == 16 then 3 else 2;
    var inner := body[first - 2..];
    assert s[first..] == inner + ";" + t;
    FindFirst(s[first..], ';', |inner|);
    var k := first + Find(s[first..], ';');
    assert k == 2 + |body| && s[first..k] == inner && s[k + 1..] == t;
    assert s[2] == (body + ";")[0];
    HexBackIs(inner, 1, 0);
    DecBackIs(inner, 1, 0);
    if AllDigits(Digits(body), Base(body)) {
      LowByte(Numeral(Digits(body), Base(body), 0));
    }
  }

  lemma LowByte(v: nat)
    ensures (v % WORD) % 256 == v % 256
  {}

  /** Without a semicolon the text ends in an error. */
  lemma UnendedReference(body: string)
    requires ';' !in body && body != ""
    ensures GetEntity("&#" + body) == ("", Null)
  {
    hide HexBack, DecBack, Find;
    var s := "&#" + body;
    var first := if Base(body) == 16 then 3 else 2;
    assert s[first..] == body[first - 2..];
  }

  /** CharRef of section 4.1: decimal digits, or an x and hexadecimal digits; at least one. */
  predicate CharRef(body: string) {
    || (body != "" && AllDigits(body, 10))
    || (|body| > 1 && body[0] == 'x' && AllDigits(body[1..], 16))
  }

  /** Every reference of that form yields a character, and its own exactly below 256: higher
      codes lose their high bits. */
  lemma CharRefYields(body: string, t: string)
    requires CharRef(body)
    ensures ';' !in body && AllDigits(Digits(body), Base(body))
    ensures Digits(body) == if body[0] == 'x' then body[1..] else body
    ensures var v := Numeral(Digits(body), Base(body), 0);
            var r := GetEntity("&#" + body + ";" + t);
            r == ([(v % 256) as char], At(t)) && (r.0[0] as int == v <==> v < 256)
  {
    hide Numeral, AfterLast, GetEntity, AllDigits;
    if body != "" && AllDigits(body, 10) {
      NoMarkers(body, 10);
      assert body[0] in body;
    } else {
      NoMarkers(body[1..], 16);
      assert body == ['x'] + body[1..];
    }
    ReferenceIs(body, t);
  }

  lemma NoMarkers(d: string, base: nat)
    requires AllDigits(d, base) && base <= 16
    ensures ';' !in d && 'x' !in d && '#' !in d
  {
    hide Worth;
    HexDigitIs(';');
    HexDigitIs('x');
    HexDigitIs('#');
  }

  /** The character of any code below 256 is what its two hexadecimal digits refer to, small or
      capital. */
  lemma CodeReferenced(n: nat, a: char, b: char, t: string)
    requires n < 256 && (a == DIGITS[n / 16] || a == CAPITALS[n / 16]) && (b == DIGITS[n % 16] || b == CAPITALS[n % 16])
    ensures GetEntity("&#x" + [a, b] + ";" + t) == ([n as char], At(t))
  {
    hide GetEntity, Worth, Numeral, AllDigits, AfterLast;
    TwoDigits(n, a, b);
    var body := "x" + [a, b];
    assert body[1..] == [a, b];
    CharRefYields(body, t);
    assert "&#x" + [a, b] + ";" + t == "&#" + body + ";" + t;
  }

  lemma TwoDigits(n: nat, a: char, b: char)
    requires n < 256 && (a == DIGITS[n / 16] || a == CAPITALS[n / 16]) && (b == DIGITS[n % 16] || b == CAPITALS[n % 16])
    ensures AllDigits([a, b], 16) && Numeral([a, b], 16, 0) == n
  {
    hide Worth, Numeral, AllDigits;
    WorthOf(n / 16);
    WorthOf(n % 16);
    NumeralOfTwo(a, b);
  }

  lemma WorthOf(k: nat)
    requires k < 16
    ensures Worth(DIGITS[k]) == k && Worth(CAPITALS[k]) == k
  {
    hide Find, Worth;
    TheDigits();
    WorthIs(DIGITS[k]);
    WorthIs(CAPITALS[k]);
  }

  lemma NumeralOfTwo(a: char, b: char)
    requires IsDigit(a, 16) && IsDigit(b, 16)
    ensures AllDigits([a, b], 16) && Numeral([a, b], 16, 0) == 16 * Worth(a) + Worth(b)
  {
    hide Worth;
    assert "" + [a] == [a] && [a] + [b] == [a, b];
    NumeralSnoc("", a, 16, 0);
    NumeralSnoc([a], b, 16, 0);
  }

  /** The code accepts more: exactly the bodies without digits, or with something it ignores
      before a second marker. */
  lemma AcceptedOutsideTheGrammarIff(body: string, t: string)
    requires ';' !in body
    ensures var inner := if Base(body) == 16 then body[1..] else body;
            GetEntity("&#" + body + ";" + t).1.At? && !CharRef(body)
            <==> AllDigits(Digits(body), Base(body)) && (Digits(body) == "" || Digits(body) != inner)
  {
    hide Numeral, GetEntity, AllDigits, AfterLast;
    ReferenceIs(body, t);
    if Base(body) == 16 {
      AfterLastSplits(body[1..], 'x');
      if AllDigits(body[1..], 16) { NoMarkers(body[1..], 16); }
      if AllDigits(body, 10) { NoMarkers(body, 10); assert body[0] in body; }
      EmptyOf(body[1..], 'x');
    } else {
      AfterLastSplits(body, '#');
      if AllDigits(body, 10) { NoMarkers(body, 10); }
      EmptyOf(body, '#');
    }
  }

  lemma EmptyOf(s: string, c: char)
    ensures s == "" ==> AfterLast(s, c) == ""
  {}

  lemma {:induction false} AfterLastSplits(s: string, c: char)
    ensures AfterLast(s, c) == s <==> c !in s
  {
    if s == "" || s[|s| - 1] == c {
    } else {
      assert s == s[..|s| - 1] + [s[|s| - 1]];
      AfterLastSplits(s[..|s| - 1], c);
    }
  }

  /** Without digits it is a NUL character. */
  lemma NoDigitsGiveNul(t: string)
    ensures GetEntity("&#" + "" + ";" + t) == (['\0'], At(t)) && !CharRef("")
    ensures GetEntity("&#" + "x" + ";" + t) == (['\0'], At(t)) && !CharRef("x")
  {
    hide GetEntity, Worth, IsDigit;
    ReferenceIs("", t);
    ReferenceIs("x", t);
    HexDigitIs('x');
  }

  /** What stands before the last marker makes no difference. */
  lemma IgnoredBeforeMarker(junk: string, d: string, t: string)
    requires ';' !in junk && ';' !in d
    ensures 'x' !in d ==> GetEntity("&#" + ("x" + junk + "x" + d) + ";" + t) == GetEntity("&#" + ("x" + d) + ";" + t)
    ensures '#' !in d && !("x" <= junk) && !("x" <= d) ==>
              GetEntity("&#" + (junk + "#" + d) + ";" + t) == GetEntity("&#" + d + ";" + t)
  {
    hide GetEntity, Referred, Digits, Base;
    ReferenceIs("x" + junk + "x" + d, t);
    ReferenceIs("x" + d, t);
    ReferenceIs(junk + "#" + d, t);
    ReferenceIs(d, t);
    if 'x' !in d { SameHexDigits(junk, d, t); }
    if '#' !in d && !("x" <= junk) && !("x" <= d) { SameDecimalDigits(junk, d, t); }
  }

  lemma SameHexDigits(junk: string, d: string, t: string)
    requires 'x' !in d
    ensures Referred("x" + junk + "x" + d, t) == Referred("x" + d, t)
  {
    hide Numeral, AllDigits, AfterLast;
    assert ("x" + junk + "x" + d)[1..] == junk + "x" + d && ("x" + d)[1..] == d;
    AfterLastOf(junk, 'x', d);
  }

  lemma SameDecimalDigits(junk: string, d: string, t: string)
    requires '#' !in d && !("x" <= junk) && !("x" <= d)
    ensures Referred(junk + "#" + d, t) == Referred(d, t)
  {
    hide Numeral, AllDigits, AfterLast;
    AfterLastOf(junk, '#', d);
  }

  lemma {:induction false} AfterLastOf(junk: string, c: char, d: string)
    requires c !in d
    ensures AfterLast(junk + [c] + d, c) == d
  {
    if d == "" {
      assert junk + [c] + d == junk + [c];
    } else {
      var rest := d[..|d| - 1];
      assert (junk + [c] + d)[..|junk| + |d|] == junk + [c] + rest && d == rest + [d[|d| - 1]];
      AfterLastOf(junk, c, rest);
    }
  }

  /** At `&#` and at least one more character: what stands up to the first semicolon decides. */
  lemma ReferenceAt(s: string)
    requires |s| > 2 && s[0] == '&' && s[1] == '#'
    ensures var k := Find(s[2..], ';');
            GetEntity(s) == if k == |s| - 2 then ("", Null) else Referred(s[2..2 + k], s[3 + k..])
  {
    hide GetEntity, Referred, Find;
    var k := Find(s[2..], ';');
    var body := s[2..2 + k];
    assert forall i :: 0 <= i < |body| ==> body[i] == s[2..][i];
    if k < |s| - 2 {
      assert s == "&#" + body + ";" + s[3 + k..];
      ReferenceIs(body, s[3 + k..]);
    } else {
      assert s == "&#" + body;
      UnendedReference(body);
    }
  }

  /** The entities of section 4.6. */
  const PREDEFINED: seq<string> := ["&amp;", "&lt;", "&gt;", "&quot;", "&apos;"]

  const MEANT: string := "&<>\"'"

  lemma PredefinedEntity(k: nat, t: string)
    requires k < 5
    ensures GetEntity(PREDEFINED[k] + t) == ([MEANT[k]], At(t))
  {
    hide HexBack, DecBack, Find;
    var e := PREDEFINED[k];
    var s := e + t;
    assert s[|e|..] == t && s[..|e|] == e;
    assert s[1] == e[1] && s[2] == e[2];
    assert e <= s;
  }

  /** When an ampersand yields a character at all: at a predefined entity, or at `&#`, something
      whose digits are digits, and a semicolon. */
  lemma YieldsIff(s: string)
    requires s != "" && s[0] == '&'
    ensures GetEntity(s).0 != ""
            <==> || (exists i :: 0 <= i < |PREDEFINED| && PREDEFINED[i] <= s)
                 || (|s| > 2 && s[1] == '#'
                     && var k := Find(s[2..], ';');
                        k < |s| - 2 && AllDigits(Digits(s[2..2 + k]), Base(s[2..2 + k])))
  {
    hide Numeral, AllDigits, AfterLast, HexBack, DecBack, Find;
    if |s| > 2 && s[1] == '#' {
      hide GetEntity;
      assert forall i :: 0 <= i < |PREDEFINED| ==> PREDEFINED[i][1] != s[1];
      ReferenceAt(s);
    } else {
      assert PREDEFINED[0] == "&amp;" && PREDEFINED[1] == "&lt;" && PREDEFINED[2] == "&gt;";
      assert PREDEFINED[3] == "&quot;" && PREDEFINED[4] == "&apos;";
    }
  }
}
