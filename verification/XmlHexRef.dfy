/** Values that contain `&#x` never come back: the encoder passes such a reference through and
    the parser resolves it. */
module XmlHexRef {
  import opened XmlText
  import opened XmlTextProof

  lemma {:induction false} PassLengthStops(s: string)
    requires |s| >= 2
    ensures 1 <= PassLength(s) < |s|
    ensures forall i :: 1 <= i < PassLength(s) ==> s[i] != ';'
    ensures s[PassLength(s)] == ';' || PassLength(s) == |s| - 1
  {
    if s[1] == ';' || |s| <= 2 {
    } else {
      PassLengthStops(s[1..]);
      assert forall i :: 1 <= i < |s| ==> s[i] == s[1..][i - 1];
    }
  }

  lemma SemicolonEndsEncoding(c: char, i: nat)
    requires c != ';' && i < |EncodeChar(c)| && EncodeChar(c)[i] == ';'
    ensures i == |EncodeChar(c)| - 1
  {}

  lemma EncodeOfRef(s: string)
    requires "&#x" <= s
    ensures var n := PassLength(s);
            && 2 <= n < |s| && Encode(s) == s[..n] + Encode(s[n..])
            && |Encode(s)| >= 3 && Encode(s)[0] == '&' && Encode(s)[1] == '#' && Encode(s)[2] == 'x'
            && (s[n] == ';' ==> n >= 3 && Encode(s) == s[..n] + ";" + Encode(s[n + 1..]))
            && (s[n] != ';' ==> n == |s| - 1 && Encode(s) == s[..n] + EncodeChar(s[n]))
  {
    PassLengthStops(s);
    hide EncodeChar, PassLength, Encode;
    var n := PassLength(s);
    RefChars(s);
    RefStep(s);
    RefTail(s, n);
    if s[n] == ';' {
      assert s[..n] + (";" + Encode(s[n + 1..])) == s[..n] + ";" + Encode(s[n + 1..]);
    } else if n == 2 {
      XStep(s[n]);
    }
    RefHead(s, n, Encode(s[n..]));
  }

  lemma RefTail(s: string, n: nat)
    requires n < |s| && (s[n] == ';' || n == |s| - 1)
    ensures Encode(s[n..]) == if s[n] == ';' then ";" + Encode(s[n + 1..]) else EncodeChar(s[n])
  {
    hide EncodeChar, Encode;
    var t := s[n..];
    if s[n] == ';' {
      assert t[1..] == s[n + 1..];
      SemicolonStep(t);
    } else {
      assert t == [s[n]];
      SingleEncode(s[n]);
    }
  }

  lemma RefChars(s: string)
    requires "&#x" <= s
    ensures |s| >= 3 && s[0] == '&' && s[1] == '#' && s[2] == 'x'
  {}

  lemma RefHead(s: string, n: nat, tail: string)
    requires |s| >= 3 && s[0] == '&' && s[1] == '#' && s[2] == 'x' && 2 <= n <= |s|
    requires n == 2 ==> tail != "" && tail[0] == 'x'
    ensures var e := s[..n] + tail; |e| >= 3 && e[0] == '&' && e[1] == '#' && e[2] == 'x'
  {}

  lemma RefStep(s: string)
    requires "&#x" <= s
    ensures Encode(s) == s[..PassLength(s)] + Encode(s[PassLength(s)..])
  {}

  lemma SemicolonStep(t: string)
    requires t != "" && t[0] == ';'
    ensures Encode(t) == ";" + Encode(t[1..])
  {}

  lemma XStep(c: char)
    requires c == 'x'
    ensures EncodeChar(c) == "x"
  {}

  lemma SingleEncode(c: char)
    ensures Encode([c]) == EncodeChar(c)
  {
    assert [c][1..] == "";
  }

  /** A hexadecimal reference resolves to one character and ends at the next semicolon. */
  lemma RefResult(whole: string)
    requires |whole| > 3 && whole[0] == '&' && whole[1] == '#' && whole[2] == 'x'
    ensures var k, c := 3 + Find(whole[3..], ';'), GetChar(whole);
            c.1.At? ==> k < |whole| && |c.0| == 1 && c.1.s == whole[k + 1..]
  {
    hide HexBack, Find;
  }

  /** Where the parser stands after the reference at the head of an encoded string: after the
      value's own semicolon, at the value's end, or already past it. */
  lemma AfterReference(s: string, stop: string)
    requires "&#x" <= s && stop != ""
    ensures var n, c := PassLength(s), GetChar(Encode(s) + stop);
            c.1.At? ==>
              && |c.0| == 1
              && (|c.1.s| < |stop| || c.1.s == stop
                  || (3 <= n < |s| && c.1.s == Encode(s[n + 1..]) + stop))
  {
    hide Encode, EncodeChar, PassLength, GetChar, Find;
    EncodeOfRef(s);
    PassLengthStops(s);
    var n, whole := PassLength(s), Encode(s) + stop;
    RefResult(whole);
    assert forall i :: 3 <= i < n ==> whole[3..][i - 3] == whole[i] == s[i];
    var k := 3 + Find(whole[3..], ';');
    if s[n] == ';' {
      assert whole[3..][n - 3] == whole[n] == ';';
      FindFirst(whole[3..], ';', n - 3);
      assert whole[n + 1..] == Encode(s[n + 1..]) + stop;
    } else if k < |Encode(s)| {
      var e := EncodeChar(s[n]);
      assert whole[3..][k - 3] == whole[k] == ';';
      assert k >= n;
      assert e[k - n] == whole[k];
      SemicolonEndsEncoding(s[n], k - n);
      assert whole[k + 1..] == stop;
    }
  }

  /** A decoded value is never longer than the original, and shorter if a reference was in it. */
  lemma {:induction false} DecodedIsShorter(s: string, quote: string, rest: string)
    requires quote == "\"" || quote == "'"
    ensures var d := KeepText(At(Encode(s) + quote + rest), quote);
            d.1 == At(quote + rest) ==> |d.0| <= |s| && (|d.0| == |s| ==> NoHexRef(s))
    decreases |s|
  {
    hide GetChar, EncodeChar, Encode, PassLength, NoHexRef;
    NoRefStep(s);
    var stop := quote + rest;
    var whole := Encode(s) + quote + rest;
    assert whole == Encode(s) + stop;
    if s == "" {
      EncodeNothing();
    } else if "&#x" <= s {
      EncodeOfRef(s);
      assert whole[0] == '&';
      AfterReference(s, stop);
      var c := GetChar(whole);
      if c.1.At? && |c.1.s| >= |stop| {
        if c.1.s == stop {
          assert quote <= stop;
        } else {
          var n := PassLength(s);
          DecodedIsShorter(s[n + 1..], quote, rest);
          assert Encode(s[n + 1..]) + quote + rest == Encode(s[n + 1..]) + stop;
        }
      }
    } else {
      PlainStep(s);
      EncodeCharStart(s[0]);
      var tail := Encode(s[1..]) + quote + rest;
      assert whole == EncodeChar(s[0]) + tail;
      GetCharOfEncoded(s[0], tail);
      DecodedIsShorter(s[1..], quote, rest);
      assert whole[0] == EncodeChar(s[0])[0] != quote[0];
    }
  }

  lemma NoRefStep(s: string)
    ensures s == "" ==> NoHexRef(s)
    ensures s != "" && !("&#x" <= s) && NoHexRef(s[1..]) ==> NoHexRef(s)
  {
    if s != "" && NoHexRef(s[1..]) {
      assert forall i :: 1 <= i < |s| ==> s[i..] == s[1..][i - 1..];
      assert s[0..] == s;
    }
  }

  lemma PlainStep(s: string)
    requires s != "" && !("&#x" <= s)
    ensures Encode(s) == EncodeChar(s[0]) + Encode(s[1..])
  {}

  /** An attribute value survives printing and parsing exactly when `&#x` is nowhere in it. */
  lemma ValueSurvivesIff(s: string, quote: string, rest: string)
    requires quote == "\"" || quote == "'"
    ensures KeepText(At(Encode(s) + quote + rest), quote) == (s, At(quote + rest)) <==> NoHexRef(s)
  {
    if NoHexRef(s) {
      KeepUndoesEncode(s, quote, rest);
    } else {
      DecodedIsShorter(s, quote, rest);
    }
  }

  /** Leading spaces of any string are dropped before its encoding is condensed. */
  lemma {:induction false} DropWhiteOfAny(s: string, tail: string)
    requires tail != "" && !IsWhiteSpace(tail[0])
    ensures DropWhite(Encode(s) + tail) == Encode(DropSpaces(s)) + tail
  {
    hide EncodeChar, Encode, PassLength;
    if s == "" {
      EncodeNothing();
    } else if "&#x" <= s {
      EncodeOfRef(s);
      assert (Encode(s) + tail)[0] == '&';
    } else {
      PlainStep(s);
      EncodeCharStart(s[0]);
      assert Encode(s) + tail == EncodeChar(s[0]) + (Encode(s[1..]) + tail);
      if s[0] == ' ' {
        assert (Encode(s) + tail)[1..] == Encode(s[1..]) + tail;
        DropWhiteOfAny(s[1..], tail);
      }
    }
  }

  function Pending(white: bool): nat {
    if white then 1 else 0
  }

  /** Condensed text is never longer than the original and a space pending before it, and shorter
      if a reference was in it. */
  lemma {:induction false} CondensedIsShorter(s: string, rest: string, white: bool)
    ensures var d := CondenseText(At(Encode(s) + ("<" + rest)), "<", white);
            d.1 == At("<" + rest) ==>
              |d.0| <= |s| + Pending(white) && (|d.0| == |s| + Pending(white) ==> NoHexRef(s))
    decreases |s|
  {
    hide GetChar, EncodeChar, Encode, PassLength, NoHexRef, CondenseText;
    NoRefStep(s);
    var stop := "<" + rest;
    var whole := Encode(s) + stop;
    CondenseStops(stop, white);
    CondenseStops(stop, false);
    if s == "" {
      EncodeNothing();
      assert whole == stop;
    } else if "&#x" <= s {
      EncodeOfRef(s);
      assert whole[0] == '&';
      CondenseRound(At(whole), "<", white);
      AfterReference(s, stop);
      var c := GetChar(whole);
      if c.1.At? && |c.1.s| >= |stop| && c.1.s != stop {
        CondensedIsShorter(s[PassLength(s) + 1..], rest, false);
      }
    } else {
      PlainStep(s);
      EncodeCharStart(s[0]);
      var tail := Encode(s[1..]) + stop;
      assert whole == EncodeChar(s[0]) + tail && whole[0] == EncodeChar(s[0])[0];
      CondenseRound(At(whole), "<", white);
      if s[0] == ' ' {
        assert whole[1..] == tail;
        CondensedIsShorter(s[1..], rest, true);
      } else {
        GetCharOfEncoded(s[0], tail);
        CondensedIsShorter(s[1..], rest, false);
      }
    }
  }

  lemma CondenseStops(stop: string, white: bool)
    requires "<" <= stop
    ensures CondenseText(At(stop), "<", white) == ("", At(stop))
  {}

  /** Plain text comes back unchanged exactly when it is space-normal and `&#x` is nowhere in it. */
  lemma TextSurvivesIff(s: string, rest: string)
    requires rest != ""
    ensures ReadText(At(Encode(s) + "<" + rest), true, "<") == (s, At(rest)) <==> NoHexRef(s) && SpaceNormal(s)
  {
    hide CondenseText, DropWhite, Encode, NoHexRef, Collapse, SpaceNormal;
    if NoHexRef(s) {
      CondensedTextIsNormalized(s, rest);
      NormalizeFixesIff(s);
    } else {
      hide Normalize;
      var stop, t := "<" + rest, DropSpaces(s);
      assert Encode(s) + "<" + rest == Encode(s) + stop;
      DropWhiteOfAny(s, stop);
      CondensedIsShorter(t, rest, false);
      DropSpacesShorter(s);
      var d := CondenseText(At(Encode(t) + stop), "<", false);
      assert d.1.At? && "<" <= d.1.s && d.1.s[1..] == rest ==> d.1.s == stop;
    }
  }

  lemma {:induction false} DropSpacesShorter(s: string)
    ensures |DropSpaces(s)| <= |s| && (|DropSpaces(s)| == |s| ==> DropSpaces(s) == s)
  {
    if s == "" || s[0] != ' ' {
    } else {
      DropSpacesShorter(s[1..]);
    }
  }
}
