/** Decoding undoes encoding (tinyxml/tinyxml.cpp:52-133, tinyxml/tinyxmlparser.cpp:438-637). */
module XmlTextProof {
  import opened XmlText
  import opened XmlCharRef

  lemma EncodeCharStart(c: char)
    ensures EncodeChar(c) != ""
    ensures EncodeChar(c)[0] !in ['<', '"', '\'']
    ensures IsWhiteSpace(EncodeChar(c)[0]) <==> c == ' '
    ensures c == ' ' ==> EncodeChar(c) == " "
  {}

  lemma HexUpperIs(k: nat)
    requires k < 16
    ensures HexUpper(k) == CAPITALS[k]
  {}

  /** What is encoded, and how: the five characters of section 4.6 of XML 1.0 as their entities,
      control characters as references of two capital hexadecimal digits, all others as themselves. */
  lemma EncodedAs(c: char)
    ensures EncodeChar('&') == "&amp;" && EncodeChar('<') == "&lt;" && EncodeChar('>') == "&gt;"
    ensures EncodeChar('"') == "&quot;" && EncodeChar('\'') == "&apos;"
    ensures EncodeChar(c) == [c] <==> c >= ' ' && c !in ['&', '<', '>', '"', '\'']
    ensures c < ' ' ==> EncodeChar(c) == "&#x" + [CAPITALS[c as int / 16], CAPITALS[c as int % 16]] + ";"
  {
    hide HexUpper;
    if c < ' ' {
      HexUpperIs(c as int / 16);
      HexUpperIs(c as int % 16);
    }
  }

  lemma GetCharOfControl(c: char, tail: string)
    requires c < ' '
    ensures GetChar(EncodeChar(c) + tail) == ([c], At(tail))
  {
    hide GetEntity, EncodeChar;
    EncodedAs(c);
    CodeReferenced(c as int, CAPITALS[c as int / 16], CAPITALS[c as int % 16], tail);
  }

  lemma GetCharOfEntity(c: char, tail: string)
    requires c == '&' || c == '<' || c == '>' || c == '"' || c == '\''
    ensures GetChar(EncodeChar(c) + tail) == ([c], At(tail))
  {
    hide GetEntity, EncodeChar;
    EncodedAs(c);
    var k: nat := if c == '&' then 0 else if c == '<' then 1 else if c == '>' then 2 else if c == '"' then 3 else 4;
    assert EncodeChar(c) == PREDEFINED[k] && MEANT[k] == c;
    PredefinedEntity(k, tail);
  }

  /** The parser reads each encoded character back as that character. */
  lemma GetCharOfEncoded(c: char, tail: string)
    ensures GetChar(EncodeChar(c) + tail) == ([c], At(tail))
  {
    hide GetEntity;
    if c < ' ' {
      GetCharOfControl(c, tail);
    } else if c == '&' || c == '<' || c == '>' || c == '"' || c == '\'' {
      GetCharOfEntity(c, tail);
    } else {
      assert ([c] + tail)[1..] == tail;
    }
  }

  lemma EncodeStep(s: string)
    requires s != "" && NoHexRef(s)
    ensures NoHexRef(s[1..]) && Encode(s) == EncodeChar(s[0]) + Encode(s[1..])
  {
    assert s[0..] == s;
    forall i | 0 <= i < |s[1..]| ensures !("&#x" <= s[1..][i..]) {
      assert s[1..][i..] == s[i + 1..];
    }
  }

  lemma EncodeNothing()
    ensures Encode("") == ""
  {}

  /** Attribute values: whatever encloses the value, and whatever follows, it comes back. */
  lemma {:induction false} KeepUndoesEncode(s: string, quote: string, rest: string)
    requires quote == "\"" || quote == "'"
    requires NoHexRef(s)
    ensures KeepText(At(Encode(s) + quote + rest), quote) == (s, At(quote + rest))
  {
    hide GetChar, EncodeChar, Encode, NoHexRef;
    var whole := Encode(s) + quote + rest;
    if s == "" {
      assert Encode("") == "" by { EncodeNothing(); }
      assert whole == quote + rest;
    } else {
      EncodeStep(s);
      EncodeCharStart(s[0]);
      var tail := Encode(s[1..]) + quote + rest;
      assert whole == EncodeChar(s[0]) + tail;
      GetCharOfEncoded(s[0], tail);
      KeepUndoesEncode(s[1..], quote, rest);
      assert whole[0] == EncodeChar(s[0])[0] != quote[0];
      assert [s[0]] + s[1..] == s;
    }
  }

  /** Runs of spaces become one space before the next character, none at the end. */
  function Collapse(s: string, white: bool): string {
    if s == "" then ""
    else if s[0] == ' ' then Collapse(s[1..], true)
    else (if white then " " else "") + [s[0]] + Collapse(s[1..], false)
  }

  function DropSpaces(s: string): string {
    if s != "" && s[0] == ' ' then DropSpaces(s[1..]) else s
  }

  function Normalize(s: string): string {
    Collapse(DropSpaces(s), false)
  }

  /** No space at either end, no two spaces together. */
  ghost predicate SpaceNormal(s: string) {
    && (s != "" ==> s[0] != ' ' && s[|s| - 1] != ' ')
    && forall i :: 0 <= i < |s| - 1 ==> !(s[i] == ' ' && s[i + 1] == ' ')
  }

  lemma {:induction false} DropWhiteRun(w: string, s: string)
    requires AllWhite(w)
    ensures DropWhite(w + s) == DropWhite(s)
  {
    if w == "" {
      assert w + s == s;
    } else {
      assert (w + s)[1..] == w[1..] + s;
      DropWhiteRun(w[1..], s);
    }
  }

  lemma {:induction false} CondenseWhiteRun(w: string, s: string, tag: string, white: bool)
    requires AllWhite(w) && tag != "" && !IsWhiteSpace(tag[0]) && tag <= s
    ensures CondenseText(At(w + s), tag, white) == ("", At(s))
  {
    if w == "" {
      assert w + s == s;
    } else {
      assert (w + s)[1..] == w[1..] + s;
      CondenseWhiteRun(w[1..], s, tag, true);
    }
  }

  /** Element text, after any leading space: white space before the tag is dropped too. */
  lemma {:induction false} CondenseUndoesEncode(s: string, w: string, rest: string, white: bool)
    requires NoHexRef(s) && AllWhite(w)
    ensures CondenseText(At(Encode(s) + w + "<" + rest), "<", white)
            == (Collapse(s, white), At("<" + rest))
  {
    hide GetChar, EncodeChar, Encode, NoHexRef;
    var whole := Encode(s) + w + "<" + rest;
    if s == "" {
      EncodeNothing();
      assert whole == w + ("<" + rest);
      CondenseWhiteRun(w, "<" + rest, "<", white);
    } else {
      EncodeStep(s);
      EncodeCharStart(s[0]);
      var tail := Encode(s[1..]) + w + "<" + rest;
      assert whole == EncodeChar(s[0]) + tail;
      if s[0] == ' ' {
        assert whole[1..] == tail;
        CondenseUndoesEncode(s[1..], w, rest, true);
      } else {
        GetCharOfEncoded(s[0], tail);
        CondenseUndoesEncode(s[1..], w, rest, false);
      }
    }
  }

  lemma {:induction false} DropWhiteOfEncoded(s: string, tail: string)
    requires NoHexRef(s) && tail != "" && !IsWhiteSpace(tail[0])
    ensures NoHexRef(DropSpaces(s))
    ensures DropWhite(Encode(s) + tail) == Encode(DropSpaces(s)) + tail
  {
    if s == "" {
    } else {
      EncodeStep(s);
      EncodeCharStart(s[0]);
      assert Encode(s) + tail == EncodeChar(s[0]) + (Encode(s[1..]) + tail);
      if s[0] == ' ' {
        assert (Encode(s) + tail)[1..] == Encode(s[1..]) + tail;
        DropWhiteOfEncoded(s[1..], tail);
      }
    }
  }

  /** ReadText in condensing mode returns the string with its runs of spaces collapsed and its
      ends stripped; other white space travelled as references and is untouched. */
  lemma CondensedTextIsNormalized(s: string, rest: string)
    requires NoHexRef(s) && rest != ""
    ensures ReadText(At(Encode(s) + "<" + rest), true, "<") == (Normalize(s), At(rest))
  {
    hide CondenseText, DropWhite, Encode, DropSpaces, Collapse;
    var t := DropSpaces(s);
    var stop := "<" + rest;
    DropWhiteOfEncoded(s, stop);
    assert Encode(s) + "<" + rest == Encode(s) + stop;
    CondenseUndoesEncode(t, "", rest, false);
    assert Encode(t) + "" + "<" + rest == Encode(t) + stop;
    assert stop[1..] == rest;
  }

  lemma {:induction false} CollapseOfNormal(s: string, white: bool)
    requires s != "" ==> s[|s| - 1] != ' '
    requires forall i :: 0 <= i < |s| - 1 ==> !(s[i] == ' ' && s[i + 1] == ' ')
    requires white && s != "" ==> s[0] != ' '
    ensures Collapse(s, white) == (if white && s != "" then " " else "") + s
  {
    if s == "" {
    } else {
      assert s == [s[0]] + s[1..];
      CollapseOfNormal(s[1..], s[0] == ' ');
    }
  }

  lemma {:induction false} CollapseIsNormal(s: string, white: bool)
    ensures var r := Collapse(s, white);
            && (r != "" ==> r[|r| - 1] != ' ' && (r[0] == ' ' ==> white || s[0] == ' '))
            && (forall i :: 0 <= i < |r| - 1 ==> !(r[i] == ' ' && r[i + 1] == ' '))
  {
    if s == "" {
    } else if s[0] == ' ' {
      CollapseIsNormal(s[1..], true);
    } else {
      CollapseIsNormal(s[1..], false);
    }
  }

  lemma {:induction false} DropSpacesStart(s: string)
    ensures DropSpaces(s) != "" ==> DropSpaces(s)[0] != ' '
    ensures s != "" && s[0] != ' ' ==> DropSpaces(s) == s
  {
    if s == "" || s[0] != ' ' {
    } else {
      DropSpacesStart(s[1..]);
    }
  }

  /** The strings that come back unchanged are exactly the space-normal ones. */
  lemma NormalizeFixesIff(s: string)
    ensures Normalize(s) == s <==> SpaceNormal(s)
    ensures SpaceNormal(Normalize(s))
  {
    DropSpacesStart(s);
    CollapseIsNormal(DropSpaces(s), false);
    if SpaceNormal(s) {
      CollapseOfNormal(s, false);
    }
  }
}
