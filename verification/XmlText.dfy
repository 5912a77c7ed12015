/** Characters, entities and text of TinyXML in byte mode (tinyxml/tinyxmlparser.cpp).

    A character of the model stands for one byte, so only characters below 256 occur in the
    program; nothing here needs that bound. */
module XmlText {

  /** A `const char*`: null, or at what is left before the terminating NUL. */
  datatype Ptr = Null | At(s: string)

  function Left(p: Ptr): nat {
    if p.Null? then 0 else |p.s|
  }

  /** `p && *p` */
  predicate More(p: Ptr) {
    p.At? && p.s != ""
  }

  /** isspace of the C locale. */
  predicate IsWhiteSpace(c: char) {
    '\t' <= c <= '\r' || c == ' '
  }

  predicate AllWhite(s: string) {
    forall i :: 0 <= i < |s| ==> IsWhiteSpace(s[i])
  }

  predicate IsLetter(c: char) {
    'a' <= c <= 'z' || 'A' <= c <= 'Z'
  }

  predicate IsAlpha(c: char) {
    if (c as int) < 127 then IsLetter(c) else true
  }

  predicate IsAlphaNum(c: char) {
    if (c as int) < 127 then IsLetter(c) || '0' <= c <= '9' else true
  }

  predicate NameStart(c: char) {
    IsAlpha(c) || c == '_'
  }

  predicate NameChar(c: char) {
    IsAlphaNum(c) || c == '_' || c == '-' || c == '.' || c == ':'
  }

  function DropWhite(s: string): (r: string)
    ensures |r| <= |s|
    ensures r == "" || !IsWhiteSpace(r[0])
  {
    if s != "" && IsWhiteSpace(s[0]) then DropWhite(s[1..]) else s
  }

  function SkipWhiteSpace(p: Ptr): (r: Ptr)
    ensures Left(r) <= Left(p)
    ensures More(r) ==> !IsWhiteSpace(r.s[0])
  {
    if !More(p) then Null else At(DropWhite(p.s))
  }

  function NameLength(s: string): (n: nat)
    ensures n <= |s|
  {
    if s != "" && NameChar(s[0]) then 1 + NameLength(s[1..]) else 0
  }

  function ReadName(p: Ptr): (r: (string, Ptr))
    ensures Left(r.1) <= Left(p)
    ensures r.1.At? ==> Left(r.1) < Left(p) && |r.0| > 0
  {
    if More(p) && NameStart(p.s[0]) then
      var n := NameLength(p.s);
      (p.s[..n], At(p.s[n..]))
    else ("", Null)
  }

  /** StringEqual without case folding: the tag is next. */
  predicate StringEqual(p: Ptr, tag: string) {
    More(p) && tag <= p.s
  }

  function ToLower(c: char): char {
    if 'A' <= c <= 'Z' then c + ' ' else c
  }

  /** StringEqual ignoring case. */
  predicate StringEqualNoCase(p: Ptr, tag: string) {
    More(p) && |tag| <= |p.s| && forall i :: 0 <= i < |tag| ==> ToLower(p.s[i]) == ToLower(tag[i])
  }

  // ----- character references and entities -----

  const WORD: int := 0x1_0000_0000

  /** Index of the first c in s, or |s|. */
  function Find(s: string, c: char): (k: nat)
    ensures k <= |s|
    ensures k < |s| ==> s[k] == c
    ensures forall i :: 0 <= i < k ==> s[i] != c
  {
    if s == "" || s[0] == c then 0 else 1 + Find(s[1..], c)
  }

  lemma FindFirst(s: string, c: char, k: nat)
    requires k < |s| && s[k] == c && forall i :: 0 <= i < k ==> s[i] != c
    ensures Find(s, c) == k
  {}

  ghost predicate NulFree(s: string) {
    forall i :: 0 <= i < |s| ==> s[i] != '\0'
  }

  /** What is left of a string once it is handed over as a `const char*`. */
  function CStr(s: string): (r: string)
    ensures NulFree(r) && (NulFree(s) ==> r == s)
  {
    s[..Find(s, '\0')]
  }

  datatype Number = Bad | Good(n: nat)

  function HexDigit(c: char): Number {
    if '0' <= c <= '9' then Good((c - '0') as int)
    else if 'a' <= c <= 'f' then Good((c - 'a') as int + 10)
    else if 'A' <= c <= 'F' then Good((c - 'A') as int + 10)
    else Bad
  }

  /** Digits read from the last one back to the nearest 'x', in 32-bit arithmetic. */
  function HexBack(s: string, mult: nat, sum: nat): Number {
    if s == "" || s[|s| - 1] == 'x' then Good(sum)
    else
      var d := HexDigit(s[|s| - 1]);
      if d.Bad? then Bad
      else HexBack(s[..|s| - 1], (mult * 16) % WORD, (sum + mult * d.n) % WORD)
  }

  function DecBack(s: string, mult: nat, sum: nat): Number {
    if s == "" || s[|s| - 1] == '#' then Good(sum)
    else if '0' <= s[|s| - 1] <= '9' then
      DecBack(s[..|s| - 1], (mult * 10) % WORD, (sum + mult * (s[|s| - 1] - '0') as int) % WORD)
    else Bad
  }

  function CharReference(s: string, first: nat, digits: string -> Number): (r: (string, Ptr))
    requires first <= |s|
    ensures r.1.At? ==> |r.1.s| < |s|
    ensures |r.0| <= 1
  {
    var k := first + Find(s[first..], ';');
    if k >= |s| then ("", Null)
    else
      var v := digits(s[first..k]);
      if v.Bad? then ("", Null) else ([(v.n % 256) as char], At(s[k + 1..]))
  }

  /** At an ampersand. An ampersand that starts nothing known yields no character at all. */
  function GetEntity(s: string): (r: (string, Ptr))
    requires s != ""
    ensures r.1.At? ==> |r.1.s| < |s|
    ensures |r.0| <= 1
  {
    if |s| > 2 && s[1] == '#' then
      if s[2] == 'x' then
        if |s| == 3 then ("", Null) else CharReference(s, 3, d => HexBack(d, 1, 0))
      else CharReference(s, 2, d => DecBack(d, 1, 0))
    else if "&amp;" <= s then ("&", At(s[5..]))
    else if "&lt;" <= s then ("<", At(s[4..]))
    else if "&gt;" <= s then (">", At(s[4..]))
    else if "&quot;" <= s then ("\"", At(s[6..]))
    else if "&apos;" <= s then ("'", At(s[6..]))
    else ("", At(s[1..]))
  }

  function GetChar(s: string): (r: (string, Ptr))
    requires s != ""
    ensures r.1.At? ==> |r.1.s| < |s|
    ensures |r.0| <= 1
  {
    if s[0] == '&' then GetEntity(s) else ([s[0]], At(s[1..]))
  }

  // ----- text up to an end tag -----

  /** Text with its white space kept; the pointer stays at the end tag. */
  function KeepText(p: Ptr, endTag: string): (r: (string, Ptr))
    ensures Left(r.1) <= Left(p)
    ensures More(r.1) ==> endTag <= r.1.s
    decreases Left(p)
  {
    if !More(p) || endTag <= p.s then ("", p)
    else
      var c := GetChar(p.s);
      var t := KeepText(c.1, endTag);
      (c.0 + t.0, t.1)
  }

  /** Text with runs of white space turned into one space before the next character. */
  function CondenseText(p: Ptr, endTag: string, white: bool): (r: (string, Ptr))
    ensures Left(r.1) <= Left(p)
    ensures More(r.1) ==> endTag <= r.1.s
    decreases Left(p)
  {
    if !More(p) || endTag <= p.s then ("", p)
    else if IsWhiteSpace(p.s[0]) then CondenseText(At(p.s[1..]), endTag, true)
    else
      var c := GetChar(p.s);
      var t := CondenseText(c.1, endTag, false);
      ((if white then " " else "") + c.0 + t.0, t.1)
  }

  /** One round of the condensing loop. */
  lemma CondenseRound(p: Ptr, endTag: string, white: bool)
    requires More(p) && !(endTag <= p.s)
    ensures IsWhiteSpace(p.s[0]) ==>
              CondenseText(p, endTag, white) == CondenseText(At(p.s[1..]), endTag, true)
    ensures !IsWhiteSpace(p.s[0]) ==>
              var c := GetChar(p.s);
              var t := CondenseText(c.1, endTag, false);
              CondenseText(p, endTag, white) == ((if white then " " else "") + c.0 + t.0, t.1)
  {
    hide GetChar;
  }

  function PastTag(p: Ptr, endTag: string): (r: Ptr)
    requires More(p) ==> endTag <= p.s
    ensures Left(r) <= Left(p)
    ensures More(r) || r.Null?
  {
    if More(p) && |p.s| > |endTag| then At(p.s[|endTag|..]) else Null
  }

  /** ReadText; `trim` is the argument, with the global switch at its default of condensing. */
  function ReadText(p: Ptr, trim: bool, endTag: string): (r: (string, Ptr))
    ensures Left(r.1) <= Left(p)
    ensures More(r.1) || r.1.Null?
  {
    var t := if trim then CondenseText(SkipWhiteSpace(p), endTag, false) else KeepText(p, endTag);
    (t.0, PastTag(t.1, endTag))
  }

  // ----- encoding -----

  function HexUpper(d: nat): char
    requires d < 16
  {
    if d < 10 then '0' + d as char else 'A' + (d - 10) as char
  }

  function EncodeChar(c: char): string {
    if c == '&' then "&amp;"
    else if c == '<' then "&lt;"
    else if c == '>' then "&gt;"
    else if c == '"' then "&quot;"
    else if c == '\'' then "&apos;"
    else if c < ' ' then "&#x" + [HexUpper(c as int / 16), HexUpper(c as int % 16)] + ";"
    else [c]
  }

  /** How much is copied unchanged from a hexadecimal reference: up to, not including, the next
      semicolon, and never the last character of the string. */
  function PassLength(s: string): (n: nat)
    ensures n <= |s|
    ensures |s| >= 2 ==> n >= 1
  {
    if |s| <= 1 then 0
    else if s[1] == ';' then 1
    else 1 + PassLength(s[1..])
  }

  function Encode(s: string): string {
    if s == "" then ""
    else if "&#x" <= s then
      var n := PassLength(s);
      s[..n] + Encode(s[n..])
    else EncodeChar(s[0]) + Encode(s[1..])
  }

  /** No hexadecimal reference starts anywhere in s. */
  ghost predicate NoHexRef(s: string) {
    forall i :: 0 <= i < |s| ==> !("&#x" <= s[i..])
  }
}
