/** Condensing, for text without references: its words, one space between two
    (tinyxml/tinyxmlparser.cpp:599-637). */
module XmlWords {
  import opened XmlText

  function WordLength(s: string): (n: nat)
    ensures n <= |s|
    ensures s != "" && !IsWhiteSpace(s[0]) ==> n >= 1
  {
    if s == "" || IsWhiteSpace(s[0]) then 0 else 1 + WordLength(s[1..])
  }

  /** The runs of characters other than white space. */
  function Words(s: string): seq<string>
    decreases |s|
  {
    if s == "" then []
    else if IsWhiteSpace(s[0]) then Words(s[1..])
    else [s[..WordLength(s)]] + Words(s[WordLength(s)..])
  }

  function Spaced(words: seq<string>): string {
    if words == [] then ""
    else if |words| == 1 then words[0]
    else words[0] + " " + Spaced(words[1..])
  }

  /** A text, perhaps after a space. */
  function Spacer(space: bool, text: string): string {
    if space then " " + text else text
  }

  predicate Raw(s: string) {
    '&' !in s && '<' !in s
  }

  /** One round at a character of a word. */
  lemma WordRound(s: string, rest: string, white: bool)
    requires Raw(s) && s != "" && !IsWhiteSpace(s[0])
    ensures Raw(s[1..])
    ensures var r := CondenseText(At(s[1..] + "<" + rest), "<", false);
            CondenseText(At(s + "<" + rest), "<", white) == (Spacer(white, [s[0]] + r.0), r.1)
  {
    hide GetEntity, CondenseText;
    var whole := s + "<" + rest;
    assert whole[0] == s[0] && s[0] in s && whole[1..] == s[1..] + "<" + rest;
    CondenseRound(At(whole), "<", white);
    assert GetChar(whole) == ([s[0]], At(whole[1..]));
    var r := CondenseText(At(whole[1..]), "<", false);
    assert (if white then " " else "") + [s[0]] + r.0 == Spacer(white, [s[0]] + r.0);
  }

  /** The rest of a word, from inside it. */
  lemma {:induction false} WordCopied(s: string, k: nat, rest: string)
    requires Raw(s) && k <= WordLength(s)
    ensures var r := CondenseText(At(s[k..] + "<" + rest), "<", false);
            CondenseText(At(s + "<" + rest), "<", false) == (s[..k] + r.0, r.1)
  {
    hide CondenseText;
    if k == 0 {
      var r := CondenseText(At(s + "<" + rest), "<", false);
      assert s[0..] == s && s[..0] == "" && "" + r.0 == r.0;
    } else {
      WordRound(s, rest, false);
      WordCopied(s[1..], k - 1, rest);
      assert s[1..][k - 1..] == s[k..] && s[..k] == [s[0]] + s[1..][..k - 1];
      var r := CondenseText(At(s[k..] + "<" + rest), "<", false);
      assert [s[0]] + (s[1..][..k - 1] + r.0) == s[..k] + r.0;
    }
  }

  lemma RawTail(s: string)
    requires Raw(s) && s != ""
    ensures Raw(s[1..])
  {}

  lemma RawFrom(s: string, k: nat)
    requires Raw(s) && k <= |s|
    ensures Raw(s[k..])
  {}

  lemma {:induction false} WordEnds(s: string)
    ensures WordLength(s) < |s| ==> IsWhiteSpace(s[WordLength(s)])
  {
    if s == "" || IsWhiteSpace(s[0]) {
    } else {
      WordEnds(s[1..]);
    }
  }

  /** Between words, a space is pending if one has been read. */
  lemma {:induction false} WordsCondensed(s: string, rest: string, white: bool)
    requires Raw(s) && (white || s == "" || !IsWhiteSpace(s[0]))
    ensures CondenseText(At(s + "<" + rest), "<", white)
            == (Spacer(white && Words(s) != [], Spaced(Words(s))), At("<" + rest))
    decreases |s|
  {
    hide GetEntity, CondenseText, WordLength;
    var whole := s + "<" + rest;
    if s == "" {
      assert whole == "<" + rest && Words(s) == [];
      Stopped("<" + rest, white);
    } else if IsWhiteSpace(s[0]) {
      assert whole[0] == s[0] && whole[1..] == s[1..] + "<" + rest;
      CondenseRound(At(whole), "<", white);
      RawTail(s);
      WordsCondensed(s[1..], rest, true);
    } else {
      OneWord(s, rest, white);
    }
  }

  lemma Stopped(stop: string, white: bool)
    requires "<" <= stop
    ensures CondenseText(At(stop), "<", white) == ("", At(stop))
  {}

  lemma {:induction false} OneWord(s: string, rest: string, white: bool)
    requires Raw(s) && s != "" && !IsWhiteSpace(s[0])
    ensures CondenseText(At(s + "<" + rest), "<", white)
            == (Spacer(white && Words(s) != [], Spaced(Words(s))), At("<" + rest))
    decreases |s|, 0
  {
    hide CondenseText;
    var k, whole := WordLength(s), s + "<" + rest;
    var t := s[k..];
    RawFrom(s, k);
    WordEnds(s);
    FirstChar(s, rest, white);
    WordCopied(s, k, rest);
    if t == "" {
      assert t + "<" + rest == "<" + rest;
      Stopped("<" + rest, false);
      assert Words(t) == [];
    } else {
      assert t[0] == s[k];
      var after := t + "<" + rest;
      assert after[0] == t[0] && after[1..] == t[1..] + "<" + rest;
      CondenseRound(At(after), "<", false);
      RawTail(t);
      WordsCondensed(t[1..], rest, true);
      assert Words(t) == Words(t[1..]);
    }
    SpacedStep(s[..k], Words(t));
    assert Words(s) == [s[..k]] + Words(t);
  }

  /** A pending space comes before the word. */
  lemma FirstChar(s: string, rest: string, white: bool)
    requires Raw(s) && s != "" && !IsWhiteSpace(s[0])
    ensures var r := CondenseText(At(s + "<" + rest), "<", false);
            CondenseText(At(s + "<" + rest), "<", white) == (Spacer(white, r.0), r.1)
  {
    hide CondenseText;
    WordRound(s, rest, white);
    WordRound(s, rest, false);
  }

  lemma SpacedStep(word: string, words: seq<string>)
    ensures Spaced([word] + words) == word + Spacer(words != [], Spaced(words))
  {
    assert ([word] + words)[1..] == words;
  }

  /** ReadText on any text without references: its words with one space between two. */
  lemma RawTextIsItsWords(s: string, rest: string)
    requires Raw(s) && rest != ""
    ensures ReadText(At(s + "<" + rest), true, "<") == (Spaced(Words(s)), At(rest))
  {
    hide CondenseText, Words;
    WhiteBeforeWords(s, rest);
    var t := DropWhite(s);
    WordsCondensed(t, rest, false);
    assert ("<" + rest)[1..] == rest;
  }

  lemma {:induction false} WhiteBeforeWords(s: string, rest: string)
    requires Raw(s)
    ensures DropWhite(s + "<" + rest) == DropWhite(s) + "<" + rest
    ensures Words(DropWhite(s)) == Words(s) && Raw(DropWhite(s))
  {
    var whole := s + "<" + rest;
    if s == "" {
      assert whole == "<" + rest;
    } else if IsWhiteSpace(s[0]) {
      assert whole[0] == s[0] && whole[1..] == s[1..] + "<" + rest;
      RawTail(s);
      WhiteBeforeWords(s[1..], rest);
    } else {
      assert whole[0] == s[0];
    }
  }
}
