/** The characters the parser tells apart, by enumeration (tinyxml/tinyxmlparser.cpp:124-170,
    314-434, 639-690). */
module XmlChars {
  import opened XmlText
  import opened XmlTextProof

  const SMALL: string := "abcdefghijklmnopqrstuvwxyz"
  const CAPITAL: string := "ABCDEFGHIJKLMNOPQRSTUVWXYZ"
  const DECIMAL: string := "0123456789"

  lemma TheLetters()
    ensures |SMALL| == |CAPITAL| == 26 && |DECIMAL| == 10
    ensures forall i :: 0 <= i < 26 ==> SMALL[i] == 'a' + i as char && CAPITAL[i] == 'A' + i as char
    ensures forall i :: 0 <= i < 10 ==> DECIMAL[i] == '0' + i as char
  {}

  lemma AmongRange(s: string, first: char, c: char)
    requires |s| <= 26 && first <= 'a' && forall i :: 0 <= i < |s| ==> s[i] == first + i as char
    ensures c in s <==> first as int <= c as int < first as int + |s|
  {
    if first as int <= c as int < first as int + |s| { assert s[c as int - first as int] == c; }
  }

  lemma Among(c: char)
    ensures c in SMALL <==> 'a' <= c <= 'z'
    ensures c in CAPITAL <==> 'A' <= c <= 'Z'
    ensures c in DECIMAL <==> '0' <= c <= '9'
  {
    TheLetters();
    AmongRange(SMALL, 'a', c);
    AmongRange(CAPITAL, 'A', c);
    AmongRange(DECIMAL, '0', c);
  }

  /** White space is tab, the four line breaks of C and the space; a name starts with a letter, an
      underscore or anything from 127 up, and goes on with digits and three marks besides. */
  lemma ClassesAre(c: char)
    ensures IsWhiteSpace(c) <==> c as int in {9, 10, 11, 12, 13, 32}
    ensures NameStart(c) <==> c in SMALL || c in CAPITAL || c == '_' || c as int >= 127
    ensures NameChar(c) <==> NameStart(c) || c in DECIMAL || c in "-.:"
  {
    Among(c);
  }

  lemma ToLowerIs(c: char, k: nat)
    ensures k < 26 ==> ToLower(CAPITAL[k]) == SMALL[k]
    ensures c !in CAPITAL ==> ToLower(c) == c
  {
    TheLetters();
    Among(c);
  }

  /** The name read is all name characters, and as long as can be. */
  lemma {:induction false} LongestName(s: string)
    ensures forall i :: 0 <= i < NameLength(s) ==> NameChar(s[i])
    ensures NameLength(s) < |s| ==> !NameChar(s[NameLength(s)])
  {
    hide NameChar;
    if s == "" || !NameChar(s[0]) {
    } else {
      LongestName(s[1..]);
      assert forall i :: 1 <= i < |s| ==> s[i] == s[1..][i - 1];
    }
  }

  /** What is left of a string with a NUL in it is what stands before the first one. */
  lemma CutAtNul(before: string, rest: string)
    requires NulFree(before)
    ensures CStr(before + ['\0'] + rest) == before && CStr(before) == before
  {
    FindFirst(before + ['\0'] + rest, '\0', |before|);
  }

  /** Encoded text has none of the characters that end a tag, a value or a text in it, if no
      reference was passed through. */
  lemma {:induction false} EncodedIsSafe(s: string)
    requires NoHexRef(s)
    ensures forall i :: 0 <= i < |Encode(s)| ==> Encode(s)[i] !in ['<', '>', '"', '\''] && Encode(s)[i] >= ' '
  {
    hide EncodeChar, NoHexRef, Encode;
    if s == "" {
      EncodeNothing();
    } else {
      EncodeStep(s);
      EncodedIsSafe(s[1..]);
      CharIsSafe(s[0]);
    }
  }

  lemma CharIsSafe(c: char)
    ensures forall i :: 0 <= i < |EncodeChar(c)| ==>
              EncodeChar(c)[i] !in ['<', '>', '"', '\''] && EncodeChar(c)[i] >= ' '
  {}
}
