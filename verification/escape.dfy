/** The first stage of the markdown renderer: HTML entity escaping of the raw
    model text, done before any tag is synthesised. */
module Escape {
  import opened Text

  /** The three global replacements in the order the renderer applies them:
      `&` first (so the `&` of the later entities is not escaped again), then `<`, then `>`. */
  function EscapeHtml(text: string): string
  {
    ReplaceChar(ReplaceChar(ReplaceChar(text, '&', "&amp;"), '<', "&lt;"), '>', "&gt;")
  }

  /** The entity of one character, or the character itself. */
  function EscapeChar(c: char): string
  {
    if c == '&' then "&amp;" else if c == '<' then "&lt;" else if c == '>' then "&gt;" else [c]
  }

  /** Reference definition: every character replaced by its entity in a single pass. */
  function EscapeEach(text: string): string
  {
    if |text| == 0 then "" else EscapeChar(text[0]) + EscapeEach(text[1..])
  }

  /** The inverse of escaping: the three entities read back as characters. */
  function Unescape(html: string): string
    decreases |html|
  {
    if |html| == 0 then ""
    else if StartsWith(html, "&amp;") then "&" + Unescape(html[5..])
    else if StartsWith(html, "&lt;") then "<" + Unescape(html[4..])
    else if StartsWith(html, "&gt;") then ">" + Unescape(html[4..])
    else [html[0]] + Unescape(html[1..])
  }

  /** The three sequential passes are the same as one character-by-character pass:
      the `&amp;`, `&lt;` and `&gt;` the earlier passes produce hold no `<` or `>`. */
  lemma {:induction false} EscapeIsSinglePass(text: string)
    ensures EscapeHtml(text) == EscapeEach(text)
  {
    if |text| > 0 {
      EscapeIsSinglePass(text[1..]);
      var c := text[0];
      assert text == [c] + text[1..];
      ReplaceCharAppend([c], text[1..], '&', "&amp;");
      var a1 := ReplaceChar([c], '&', "&amp;");
      var b1 := ReplaceChar(text[1..], '&', "&amp;");
      ReplaceCharAppend(a1, b1, '<', "&lt;");
      var a2 := ReplaceChar(a1, '<', "&lt;");
      var b2 := ReplaceChar(b1, '<', "&lt;");
      ReplaceCharAppend(a2, b2, '>', "&gt;");
      EscapeOneChar(c);
    }
  }

  /** The three passes on a single character give its entity. */
  lemma EscapeOneChar(c: char)
    ensures ReplaceChar(ReplaceChar(ReplaceChar([c], '&', "&amp;"), '<', "&lt;"), '>', "&gt;") == EscapeChar(c)
  {
    ReplaceCharOne(c, '&', "&amp;");
    var a1 := ReplaceChar([c], '&', "&amp;");
    if c == '&' {
      assert forall k :: 0 <= k < |a1| ==> a1[k] != '<' && a1[k] != '>';
      ReplaceCharAbsent(a1, '<', "&lt;");
      ReplaceCharAbsent(a1, '>', "&gt;");
    } else {
      ReplaceCharOne(c, '<', "&lt;");
      var a2 := ReplaceChar(a1, '<', "&lt;");
      if c == '<' {
        assert forall k :: 0 <= k < |a2| ==> a2[k] != '>';
        ReplaceCharAbsent(a2, '>', "&gt;");
      } else {
        ReplaceCharOne(c, '>', "&gt;");
      }
    }
  }

  /** Escaped text never holds `<` or `>`. */
  lemma {:induction false} EscapedHasNoAngleBrackets(text: string)
    ensures '<' !in EscapeHtml(text) && '>' !in EscapeHtml(text)
  {
    EscapeIsSinglePass(text);
    EscapeEachNoAngle(text);
  }

  lemma {:induction false} EscapeEachNoAngle(text: string)
    ensures '<' !in EscapeEach(text) && '>' !in EscapeEach(text)
  {
    if |text| > 0 {
      EscapeEachNoAngle(text[1..]);
    }
  }

  /** Escaping loses nothing: unescaping gives the original text back. */
  lemma {:induction false} EscapeRoundTrip(text: string)
    ensures Unescape(EscapeHtml(text)) == text
  {
    EscapeIsSinglePass(text);
    EscapeEachRoundTrip(text);
  }

  lemma {:induction false} EscapeEachRoundTrip(text: string)
    ensures Unescape(EscapeEach(text)) == text
  {
    if |text| > 0 {
      EscapeEachRoundTrip(text[1..]);
      UnescapeOne(text[0], EscapeEach(text[1..]));
      assert text == [text[0]] + text[1..];
    }
  }

  /** Unescaping reads the escape of one character back as that character. */
  lemma UnescapeOne(c: char, rest: string)
    ensures Unescape(EscapeChar(c) + rest) == [c] + Unescape(rest)
  {
    var e := EscapeChar(c) + rest;
    if c == '&' {
      assert StartsWith(e, "&amp;");
      assert e[5..] == rest;
    } else if c == '<' {
      UnescapeLt(rest);
    } else if c == '>' {
      UnescapeGt(rest);
    } else {
      assert e[0] == c && e[1..] == rest;
      assert !StartsWith(e, "&amp;") && !StartsWith(e, "&lt;") && !StartsWith(e, "&gt;");
    }
  }

  lemma UnescapeLt(rest: string)
    ensures Unescape("&lt;" + rest) == "<" + Unescape(rest)
  {
    var e := "&lt;" + rest;
    assert e[1] == 'l';
    assert !StartsWith(e, "&amp;");
    assert StartsWith(e, "&lt;");
    assert e[4..] == rest;
  }

  lemma UnescapeGt(rest: string)
    ensures Unescape("&gt;" + rest) == ">" + Unescape(rest)
  {
    var e := "&gt;" + rest;
    assert e[1] == 'g';
    assert !StartsWith(e, "&amp;") && !StartsWith(e, "&lt;");
    assert StartsWith(e, "&gt;");
    assert e[4..] == rest;
  }
}
