/** The inline formatter: seven global regex replacements (inline code, bold
    italic, bold, italic, each in a `*` and a `_` form) followed by links, in
    that fixed order, each pass applied to the output of the previous one.
    Every `/g` replacement is modelled as a left-to-right scan over suffixes:
    at each position either the pattern matches (its replacement is emitted
    and the scan resumes after the match) or one character is copied. */
module Inline {
  import opened Text
  import opened Wrappers

  /** What the captured text between two delimiters may contain. */
  datatype Body =
    | NoLineBreak   // `(.+?)`: the shortest non-empty text without a line terminator
    | NoBacktick    // `([^`]+)`: a non-empty text without backticks (line breaks allowed)

  /** `delim (body) delim`, replaced by `open` + captured text + `close`. A `bounded` rule
      also demands no word character just before the opening and just after the closing
      delimiter (`(?<!\w)` and `(?!\w)`). */
  datatype Rule = Rule(delim: string, body: Body, bounded: bool, open: string, close: string)

  const CodeSpan: Rule := Rule("`", NoBacktick, false, "<code class=\"md-inline-code\">", "</code>")
  const StarStrongEm: Rule := Rule("***", NoLineBreak, false, "<strong><em>", "</em></strong>")
  const UnderStrongEm: Rule := Rule("___", NoLineBreak, false, "<strong><em>", "</em></strong>")
  const StarStrong: Rule := Rule("**", NoLineBreak, false, "<strong>", "</strong>")
  const UnderStrong: Rule := Rule("__", NoLineBreak, false, "<strong>", "</strong>")
  const StarEm: Rule := Rule("*", NoLineBreak, false, "<em>", "</em>")
  const UnderEm: Rule := Rule("_", NoLineBreak, true, "<em>", "</em>")

  predicate BodyOk(rule: Rule, t: string) {
    match rule.body
    case NoLineBreak => NoLineTerminator(t)
    case NoBacktick => '`' !in t
  }

  /** With an opening delimiter at the head of `s`, a closing delimiter at `j` ends a match:
      the captured text `s[|delim|..j]` is non-empty and allowed, and (for a bounded rule)
      no word character follows the closing delimiter. */
  predicate ClosesAt(s: string, rule: Rule, j: int) {
    var d := |rule.delim|;
    && d < j && j + d <= |s| && s[j..j + d] == rule.delim
    && BodyOk(rule, s[d..j])
    && (rule.bounded ==> j + d == |s| || !IsWordChar(s[j + d]))
  }

  /** The lazy quantifier: the first closing position at or after `from`. */
  function FindClose(s: string, rule: Rule, from: nat): (r: Option<nat>)
    ensures r.Some? ==> from <= r.value && ClosesAt(s, rule, r.value)
    decreases |s| - from
  {
    if from + |rule.delim| > |s| then None
    else if ClosesAt(s, rule, from) then Some(from)
    else FindClose(s, rule, from + 1)
  }

  /** The position `FindClose` reports is the first closing one, and when it reports none
      there is none at or after `from`. */
  lemma {:induction false} FindCloseFirst(s: string, rule: Rule, from: nat)
    ensures FindClose(s, rule, from).Some? ==>
      forall k :: from <= k < FindClose(s, rule, from).value ==> !ClosesAt(s, rule, k)
    ensures FindClose(s, rule, from).None? ==> forall k :: from <= k ==> !ClosesAt(s, rule, k)
    decreases |s| - from
  {
    if from + |rule.delim| <= |s| && !ClosesAt(s, rule, from) {
      FindCloseFirst(s, rule, from + 1);
    }
  }

  /** An opening delimiter at the head of `s`; `prevWord` says whether the character before it
      (in the text this pass works on) is a word character. */
  predicate Opens(s: string, rule: Rule, prevWord: bool) {
    StartsWith(s, rule.delim) && (rule.bounded ==> !prevWord)
  }

  /** Where the match starting at the head of `s` closes, if one starts there. */
  function MatchAt(s: string, rule: Rule, prevWord: bool): (r: Option<nat>)
    requires |rule.delim| > 0
    ensures r.Some? ==> Opens(s, rule, prevWord) && ClosesAt(s, rule, r.value)
  {
    if Opens(s, rule, prevWord) then FindClose(s, rule, |rule.delim| + 1) else None
  }

  /** A match ends at the first position that closes it; no match means no opening
      delimiter or no closing position at all. */
  lemma MatchAtFirst(s: string, rule: Rule, prevWord: bool)
    requires |rule.delim| > 0
    ensures MatchAt(s, rule, prevWord).Some? ==>
      forall k :: k < MatchAt(s, rule, prevWord).value ==> !ClosesAt(s, rule, k)
    ensures MatchAt(s, rule, prevWord).None? ==>
      !Opens(s, rule, prevWord) || forall k :: !ClosesAt(s, rule, k)
  {
    FindCloseFirst(s, rule, |rule.delim| + 1);
    forall k | k <= |rule.delim| ensures !ClosesAt(s, rule, k) { }
  }

  /** One global replacement pass of `rule` over `s`. */
  function Pass(s: string, rule: Rule, prevWord: bool): string
    requires |rule.delim| > 0
    decreases |s|, 1
  {
    if |s| == 0 then ""
    else
      match MatchAt(s, rule, prevWord)
      case Some(j) =>
        var d := |rule.delim|;
        rule.open + s[d..j] + rule.close + PassAfter(s, rule, j)
      case None => [s[0]] + Pass(s[1..], rule, IsWordChar(s[0]))
  }

  /** The pass resumed after a closing delimiter at `j`, knowing whether the character before
      it is a word character. */
  function PassAfter(s: string, rule: Rule, j: nat): string
    requires 0 < |rule.delim| < j && j + |rule.delim| <= |s|
    decreases |s|, 0
  {
    var d := |rule.delim|;
    Pass(s[j + d..], rule, IsWordChar(s[j + d - 1]))
  }

  /** The first occurrence of `c` at or after `from`. */
  function IndexOf(s: string, c: char, from: nat): (r: Option<nat>)
    ensures r.Some? ==> from <= r.value < |s| && s[r.value] == c
    decreases |s| - from
  {
    if from >= |s| then None
    else if s[from] == c then Some(from)
    else IndexOf(s, c, from + 1)
  }

  /** No `c` lies between `from` and the position `IndexOf` reports, and none at all after
      `from` when it reports none. */
  lemma {:induction false} IndexOfIsFirst(s: string, c: char, from: nat)
    ensures IndexOf(s, c, from).Some? ==> forall k :: from <= k < IndexOf(s, c, from).value ==> s[k] != c
    ensures IndexOf(s, c, from).None? ==> forall k :: from <= k < |s| ==> s[k] != c
    decreases |s| - from
  {
    if from < |s| && s[from] != c {
      IndexOfIsFirst(s, c, from + 1);
    }
  }

  /** `[text](url)` at the head of `s`: the text is everything up to the first `]`, the url
      everything up to the first `)` after the `(`, and both are non-empty. */
  predicate LinkShape(s: string, j: int, m: int) {
    && 0 < |s| && s[0] == '['
    && 1 < j && j + 2 < m < |s|
    && s[j] == ']' && s[j + 1] == '(' && s[m] == ')'
    && ']' !in s[1..j] && ')' !in s[j + 2..m]
  }

  /** The link starting at the head of `s`, as the positions of its `]` and its final `)`. */
  function LinkAt(s: string): (r: Option<(nat, nat)>)
    ensures r.Some? ==> LinkShape(s, r.value.0, r.value.1)
    ensures r.None? ==> forall j, m :: !LinkShape(s, j, m)
  {
    if |s| == 0 || s[0] != '[' then None
    else
      IndexOfIsFirst(s, ']', 1);
      match IndexOf(s, ']', 1)
      case None => None
      case Some(j) =>
        if j < 2 || j + 1 >= |s| || s[j + 1] != '(' then None
        else
          IndexOfIsFirst(s, ')', j + 2);
          match IndexOf(s, ')', j + 2)
          case None => None
          case Some(m) => if m < j + 3 then None else Some((j, m))
  }

  const LinkOpen: string := "<a href=\""
  const LinkMid: string := "\" class=\"md-link\">"
  const LinkClose: string := "</a>"

  /** The link pass: `<a href="url" class="md-link">text</a>`, the url inserted as it is. */
  function LinkPass(s: string): string
    decreases |s|, 1
  {
    if |s| == 0 then ""
    else
      match LinkAt(s)
      case Some((j, m)) =>
        LinkOpen + s[j + 2..m] + LinkMid + s[1..j] + LinkClose + LinkPassAfter(s, m)
      case None => [s[0]] + LinkPass(s[1..])
  }

  /** The link pass resumed after the `)` at `m`. */
  function LinkPassAfter(s: string, m: nat): string
    requires m < |s|
    decreases |s|, 0
  {
    LinkPass(s[m + 1..])
  }

  /** `_renderInline`: the passes in the order the renderer applies them. */
  function RenderInline(text: string): string
  {
    var t1 := Pass(text, CodeSpan, false);
    var t2 := Pass(t1, StarStrongEm, false);
    var t3 := Pass(t2, UnderStrongEm, false);
    var t4 := Pass(t3, StarStrong, false);
    var t5 := Pass(t4, UnderStrong, false);
    var t6 := Pass(t5, StarEm, false);
    var t7 := Pass(t6, UnderEm, false);
    LinkPass(t7)
  }

  // ---------------------------------------------------------------- lemmas

  /** A pass changes nothing in a text that never holds its delimiter. */
  lemma {:induction false} PassWithoutDelimiter(s: string, rule: Rule, prevWord: bool)
    requires |rule.delim| > 0
    requires !Contains(s, rule.delim)
    ensures Pass(s, rule, prevWord) == s
  {
    if |s| > 0 {
      assert !OccursAt(s, 0, rule.delim);
      forall k | 0 <= k <= |s[1..]| - |rule.delim| ensures !OccursAt(s[1..], k, rule.delim) {
        assert !OccursAt(s, k + 1, rule.delim);
        assert s[1..][k..k + |rule.delim|] == s[k + 1..k + 1 + |rule.delim|];
      }
      PassWithoutDelimiter(s[1..], rule, IsWordChar(s[0]));
      assert s == [s[0]] + s[1..];
    }
  }

  /** The link pass changes nothing in a text without `[`. */
  lemma {:induction false} LinkPassWithoutBracket(s: string)
    requires '[' !in s
    ensures LinkPass(s) == s
  {
    if |s| > 0 {
      LinkPassWithoutBracket(s[1..]);
      assert s == [s[0]] + s[1..];
    }
  }

  lemma NoCharNoOccurrence(s: string, sub: string)
    requires |sub| > 0 && sub[0] !in s
    ensures !Contains(s, sub)
  {
  }

  /** Text without any of the markup characters `` ` ``, `*`, `_`, `[` is left exactly as it is. */
  lemma PlainTextUnchanged(text: string)
    requires '`' !in text && '*' !in text && '_' !in text && '[' !in text
    ensures RenderInline(text) == text
  {
    NoCharNoOccurrence(text, CodeSpan.delim);
    PassWithoutDelimiter(text, CodeSpan, false);
    NoCharNoOccurrence(text, StarStrongEm.delim);
    PassWithoutDelimiter(text, StarStrongEm, false);
    NoCharNoOccurrence(text, UnderStrongEm.delim);
    PassWithoutDelimiter(text, UnderStrongEm, false);
    NoCharNoOccurrence(text, StarStrong.delim);
    PassWithoutDelimiter(text, StarStrong, false);
    NoCharNoOccurrence(text, UnderStrong.delim);
    PassWithoutDelimiter(text, UnderStrong, false);
    NoCharNoOccurrence(text, StarEm.delim);
    PassWithoutDelimiter(text, StarEm, false);
    NoCharNoOccurrence(text, UnderEm.delim);
    PassWithoutDelimiter(text, UnderEm, false);
    LinkPassWithoutBracket(text);
  }

  /** The underscore italic never starts inside a word: when every `_` follows a word
      character, the pass leaves the text as it is (`snake_case_name` stays plain). */
  lemma {:induction false} UnderscoreInsideWordsKept(s: string, prevWord: bool)
    requires forall k :: 0 < k < |s| && s[k] == '_' ==> IsWordChar(s[k - 1])
    requires |s| > 0 && s[0] == '_' ==> prevWord
    ensures Pass(s, UnderEm, prevWord) == s
  {
    if |s| > 0 {
      assert MatchAt(s, UnderEm, prevWord).None?;
      UnderscoreInsideWordsKept(s[1..], IsWordChar(s[0]));
      assert s == [s[0]] + s[1..];
    }
  }

  /** `**bold**` renders as one bold element wrapping `bold`. */
  lemma {:induction false} BoldExample(s: string, t: string)
    requires s == "**bold**" && t == "<strong>bold</strong>"
    ensures RenderInline(s) == t
  {
    BoldEarlyPasses(s);
    BoldPass(s, t);
    BoldLaterPasses(t);
    ChainAroundBold(s, t);
  }

  lemma {:induction false} BoldEarlyPasses(s: string)
    requires s == "**bold**"
    ensures Pass(Pass(Pass(s, CodeSpan, false), StarStrongEm, false), UnderStrongEm, false) == s
  {
    BoldHasNoOtherMarkup(s);
    NoTripleStar(s);
    EarlyPassesKeep(s);
  }

  lemma BoldHasNoOtherMarkup(s: string)
    requires s == "**bold**"
    ensures '`' !in s && '_' !in s
  {
    assert forall k :: 0 <= k < |s| ==> s[k] != '`' && s[k] != '_';
  }

  /** Text without `` ` ``, `***` or `_` goes through the first three passes unchanged. */
  lemma {:induction false} EarlyPassesKeep(s: string)
    requires '`' !in s && '_' !in s && !Contains(s, "***")
    ensures Pass(Pass(Pass(s, CodeSpan, false), StarStrongEm, false), UnderStrongEm, false) == s
  {
    NoCharNoOccurrence(s, CodeSpan.delim);
    PassWithoutDelimiter(s, CodeSpan, false);
    PassWithoutDelimiter(s, StarStrongEm, false);
    NoCharNoOccurrence(s, UnderStrongEm.delim);
    PassWithoutDelimiter(s, UnderStrongEm, false);
  }

  lemma {:induction false} BoldLaterPasses(t: string)
    requires t == "<strong>bold</strong>"
    ensures LinkPass(Pass(Pass(Pass(t, UnderStrong, false), StarEm, false), UnderEm, false)) == t
  {
    assert forall k :: 0 <= k < |t| ==> t[k] != '*' && t[k] != '_' && t[k] != '[';
    LaterPassesKeep(t);
  }

  lemma {:induction false} ChainAroundBold(s: string, t: string)
    requires Pass(Pass(Pass(s, CodeSpan, false), StarStrongEm, false), UnderStrongEm, false) == s
    requires Pass(s, StarStrong, false) == t
    requires LinkPass(Pass(Pass(Pass(t, UnderStrong, false), StarEm, false), UnderEm, false)) == t
    ensures RenderInline(s) == t
  {
  }

  /** Text without `*`, `_` or `[` goes through the passes after the inline-code pass unchanged. */
  lemma {:induction false} LaterPassesKeep(t: string)
    requires '*' !in t && '_' !in t && '[' !in t
    ensures Pass(t, StarStrongEm, false) == t && Pass(t, UnderStrongEm, false) == t
    ensures Pass(t, StarStrong, false) == t && Pass(t, UnderStrong, false) == t
    ensures Pass(t, StarEm, false) == t && Pass(t, UnderEm, false) == t
    ensures LinkPass(t) == t
  {
    NoCharNoOccurrence(t, StarStrongEm.delim);
    PassWithoutDelimiter(t, StarStrongEm, false);
    NoCharNoOccurrence(t, UnderStrongEm.delim);
    PassWithoutDelimiter(t, UnderStrongEm, false);
    NoCharNoOccurrence(t, StarStrong.delim);
    PassWithoutDelimiter(t, StarStrong, false);
    NoCharNoOccurrence(t, UnderStrong.delim);
    PassWithoutDelimiter(t, UnderStrong, false);
    NoCharNoOccurrence(t, StarEm.delim);
    PassWithoutDelimiter(t, StarEm, false);
    NoCharNoOccurrence(t, UnderEm.delim);
    PassWithoutDelimiter(t, UnderEm, false);
    LinkPassWithoutBracket(t);
  }

  lemma NoTripleStar(s: string)
    requires s == "**bold**"
    ensures !Contains(s, "***")
  {
    forall k | 0 <= k <= 5 ensures !OccursAt(s, k, "***") {
      if k <= 2 { assert s[k..k + 3][2 - k] == s[2]; } else { assert s[k..k + 3][0] == s[k]; }
    }
  }

  lemma BoldPass(s: string, t: string)
    requires s == "**bold**" && t == "<strong>bold</strong>"
    ensures Pass(s, StarStrong, false) == t
  {
    BoldMatch(s);
    PassAtMatch(s, StarStrong, false, 6);
    assert s[2..6] == "bold";
    assert s[8..] == "";
    assert PassAfter(s, StarStrong, 6) == Pass(s[8..], StarStrong, IsWordChar(s[7])) == "";
  }

  /** The `**` at the head of `**bold**` closes at position 6. */
  lemma BoldMatch(s: string)
    requires s == "**bold**"
    ensures MatchAt(s, StarStrong, false) == Some(6)
  {
    BoldCloses(s);
    assert FindClose(s, StarStrong, 6) == Some(6);
    assert FindClose(s, StarStrong, 5) == Some(6);
    assert FindClose(s, StarStrong, 4) == Some(6);
    assert FindClose(s, StarStrong, 3) == Some(6);
    assert s[..2] == "**";
  }

  lemma BoldCloses(s: string)
    requires s == "**bold**"
    ensures ClosesAt(s, StarStrong, 6)
    ensures !ClosesAt(s, StarStrong, 5) && !ClosesAt(s, StarStrong, 4) && !ClosesAt(s, StarStrong, 3)
  {
    assert s[6..8] == "**";
    assert s[2..6] == "bold";
    assert s[5] == 'd' && s[4] == 'l' && s[3] == 'o';
  }

  /** `` `code` `` renders as one inline-code element whose text is exactly `code`. */
  lemma {:induction false} CodeExample(s: string, t: string)
    requires s == "`code`" && t == "<code class=\"md-inline-code\">code</code>"
    ensures RenderInline(s) == t
  {
    CodePass(s, t);
    CodeLaterPasses(t);
    ChainAfterCode(s, t);
  }

  lemma {:induction false} CodeLaterPasses(t: string)
    requires t == "<code class=\"md-inline-code\">code</code>"
    ensures LinkPass(Pass(Pass(Pass(Pass(Pass(Pass(t, StarStrongEm, false), UnderStrongEm, false), StarStrong, false), UnderStrong, false), StarEm, false), UnderEm, false)) == t
  {
    CodeHtmlPlain(t);
    LaterChainKeeps(t);
  }

  lemma CodeHtmlPlain(t: string)
    requires t == "<code class=\"md-inline-code\">code</code>"
    ensures '*' !in t && '_' !in t && '[' !in t
  {
    assert forall k :: 0 <= k < |t| ==> t[k] != '*' && t[k] != '_' && t[k] != '[';
  }

  /** Text without `*`, `_` or `[` goes through all passes after the inline-code pass unchanged. */
  lemma {:induction false} LaterChainKeeps(t: string)
    requires '*' !in t && '_' !in t && '[' !in t
    ensures LinkPass(Pass(Pass(Pass(Pass(Pass(Pass(t, StarStrongEm, false), UnderStrongEm, false), StarStrong, false), UnderStrong, false), StarEm, false), UnderEm, false)) == t
  {
    LaterPassesKeep(t);
  }

  lemma {:induction false} ChainAfterCode(s: string, t: string)
    requires Pass(s, CodeSpan, false) == t
    requires LinkPass(Pass(Pass(Pass(Pass(Pass(Pass(t, StarStrongEm, false), UnderStrongEm, false), StarStrong, false), UnderStrong, false), StarEm, false), UnderEm, false)) == t
    ensures RenderInline(s) == t
  {
  }

  lemma CodePass(s: string, t: string)
    requires s == "`code`" && t == "<code class=\"md-inline-code\">code</code>"
    ensures Pass(s, CodeSpan, false) == t
  {
    assert ClosesAt(s, CodeSpan, 5) by {
      assert s[5..6] == "`";
      assert s[1..5] == "code";
    }
    assert !ClosesAt(s, CodeSpan, 4) by { assert s[4] == 'e'; }
    assert !ClosesAt(s, CodeSpan, 3) by { assert s[3] == 'd'; }
    assert !ClosesAt(s, CodeSpan, 2) by { assert s[2] == 'o'; }
    assert FindClose(s, CodeSpan, 5) == Some(5);
    assert FindClose(s, CodeSpan, 4) == Some(5);
    assert FindClose(s, CodeSpan, 3) == Some(5);
    assert FindClose(s, CodeSpan, 2) == Some(5);
    assert s[..1] == "`";
    assert MatchAt(s, CodeSpan, false) == Some(5);
    PassAtMatch(s, CodeSpan, false, 5);
    assert s[6..] == "";
    assert PassAfter(s, CodeSpan, 5) == Pass(s[6..], CodeSpan, IsWordChar(s[5])) == "";
    assert s[1..5] == "code";
  }

  // ------------------------------------------------------------ inverses

  /** The tags of a rule are HTML tags: the opening one starts with `<` and a letter, the
      closing one with `</`. Every rule of the formatter has this shape. */
  predicate TagPair(rule: Rule) {
    && |rule.open| >= 2 && |rule.close| >= 2
    && rule.open[0] == '<' && rule.open[1] != '/'
    && rule.close[0] == '<' && rule.close[1] == '/'
  }

  lemma RulesAreTagPairs()
    ensures TagPair(CodeSpan) && TagPair(StarStrongEm) && TagPair(UnderStrongEm)
    ensures TagPair(StarStrong) && TagPair(UnderStrong) && TagPair(StarEm) && TagPair(UnderEm)
  {
  }

  /** Turns every opening and closing tag of `rule` back into the rule's delimiter. */
  function Unpass(r: string, rule: Rule): string
    requires TagPair(rule)
    decreases |r|
  {
    if |r| == 0 then ""
    else if r[0] != '<' then [r[0]] + Unpass(r[1..], rule)
    else if StartsWith(r, rule.open) then rule.delim + Unpass(r[|rule.open|..], rule)
    else if StartsWith(r, rule.close) then rule.delim + Unpass(r[|rule.close|..], rule)
    else [r[0]] + Unpass(r[1..], rule)
  }

  /** Text without `<` holds no tag, so `Unpass` copies it. */
  lemma {:induction false} UnpassPlain(t: string, rest: string, rule: Rule)
    requires TagPair(rule) && '<' !in t
    ensures Unpass(t + rest, rule) == t + Unpass(rest, rule)
    decreases |t|
  {
    if |t| > 0 {
      assert (t + rest)[0] == t[0];
      assert (t + rest)[1..] == t[1..] + rest;
      UnpassPlain(t[1..], rest, rule);
    } else {
      assert t + rest == rest;
    }
  }

  lemma UnpassOpen(rest: string, rule: Rule)
    requires TagPair(rule)
    ensures Unpass(rule.open + rest, rule) == rule.delim + Unpass(rest, rule)
  {
    assert (rule.open + rest)[..|rule.open|] == rule.open;
    assert (rule.open + rest)[|rule.open|..] == rest;
  }

  lemma UnpassClose(rest: string, rule: Rule)
    requires TagPair(rule)
    ensures Unpass(rule.close + rest, rule) == rule.delim + Unpass(rest, rule)
  {
    var r := rule.close + rest;
    assert r[1] == '/';
    DiffersAt(r, rule.open, 1);
    assert r[..|rule.close|] == rule.close;
    assert r[|rule.close|..] == rest;
  }

  /** A replacement pass loses nothing: on text without `<` (all the formatter sees once the
      text is escaped), turning each tag the pass emitted back into the delimiter gives the
      text back. */
  lemma {:induction false} PassInverse(s: string, rule: Rule, prevWord: bool)
    requires |rule.delim| > 0 && TagPair(rule) && '<' !in s
    ensures Unpass(Pass(s, rule, prevWord), rule) == s
    decreases |s|, 2
  {
    if |s| > 0 {
      var m := MatchAt(s, rule, prevWord);
      if m.Some? {
        PassInverseAtMatch(s, rule, prevWord, m.value);
      } else {
        PassInverseCopy(s, rule, prevWord);
      }
    }
  }

  lemma {:induction false} PassInverseAtMatch(s: string, rule: Rule, prevWord: bool, j: nat)
    requires |rule.delim| > 0 && TagPair(rule) && '<' !in s
    requires MatchAt(s, rule, prevWord) == Some(j)
    ensures Unpass(Pass(s, rule, prevWord), rule) == s
    decreases |s|, 1
  {
    PassAtMatch(s, rule, prevWord, j);
    AfterInverse(s, rule, j);
    NoCharInSlice(s, '<', |rule.delim|, j);
    MatchedInverse(s, rule, j, PassAfter(s, rule, j));
  }

  lemma {:induction false} AfterInverse(s: string, rule: Rule, j: nat)
    requires |rule.delim| > 0 && TagPair(rule) && '<' !in s
    requires |rule.delim| < j && j + |rule.delim| <= |s|
    ensures Unpass(PassAfter(s, rule, j), rule) == s[j + |rule.delim|..]
    decreases |s|, 0
  {
    var t := s[j + |rule.delim|..];
    var w := IsWordChar(s[j + |rule.delim| - 1]);
    assert PassAfter(s, rule, j) == Pass(t, rule, w);
    NoCharInSlice(s, '<', j + |rule.delim|, |s|);
    PassInverse(t, rule, w);
  }

  lemma {:induction false} PassInverseCopy(s: string, rule: Rule, prevWord: bool)
    requires |rule.delim| > 0 && TagPair(rule) && '<' !in s && |s| > 0
    requires MatchAt(s, rule, prevWord).None?
    ensures Unpass(Pass(s, rule, prevWord), rule) == s
    decreases |s|, 1
  {
    var t := s[1..];
    var w := IsWordChar(s[0]);
    assert Pass(s, rule, prevWord) == [s[0]] + Pass(t, rule, w);
    NoCharInSlice(s, '<', 1, |s|);
    PassInverse(t, rule, w);
    UnpassPlain([s[0]], Pass(t, rule, w), rule);
    assert s == [s[0]] + t;
  }

  /** At a match the pass emits the tagged text and goes on after the closing delimiter. */
  lemma PassAtMatch(s: string, rule: Rule, prevWord: bool, j: nat)
    requires |rule.delim| > 0 && MatchAt(s, rule, prevWord) == Some(j)
    ensures StartsWith(s, rule.delim) && ClosesAt(s, rule, j)
    ensures Pass(s, rule, prevWord) == rule.open + s[|rule.delim|..j] + rule.close + PassAfter(s, rule, j)
  {
  }

  lemma NoCharInSlice(s: string, c: char, i: nat, j: nat)
    requires i <= j <= |s| && c !in s
    ensures c !in s[i..j]
  {
    forall k | 0 <= k < j - i
      ensures s[i..j][k] != c
    {
      assert s[i..j][k] == s[i + k];
    }
  }

  /** A text that differs from `prefix` at a position both reach does not start with it. */
  lemma DiffersAt(s: string, prefix: string, k: nat)
    requires k < |prefix| && k < |s| && s[k] != prefix[k]
    ensures !StartsWith(s, prefix)
  {
    if |prefix| <= |s| {
      assert s[..|prefix|][k] == s[k];
    }
  }

  /** One match: the opening tag, the captured text and the closing tag unpass to the two
      delimiters around the captured text. */
  lemma MatchedInverse(s: string, rule: Rule, j: nat, rest: string)
    requires |rule.delim| > 0 && TagPair(rule)
    requires StartsWith(s, rule.delim) && ClosesAt(s, rule, j) && '<' !in s[|rule.delim|..j]
    requires Unpass(rest, rule) == s[j + |rule.delim|..]
    ensures Unpass(rule.open + s[|rule.delim|..j] + rule.close + rest, rule) == s
  {
    UnpassTagged(s[|rule.delim|..j], rest, rule);
    MatchReassemble(s, rule.delim, j);
  }

  /** A tagged text unpasses to the text between two delimiters. */
  lemma UnpassTagged(body: string, rest: string, rule: Rule)
    requires TagPair(rule) && '<' !in body
    ensures Unpass(rule.open + body + rule.close + rest, rule)
         == rule.delim + body + rule.delim + Unpass(rest, rule)
  {
    assert rule.open + body + rule.close + rest == rule.open + (body + (rule.close + rest));
    UnpassOpen(body + (rule.close + rest), rule);
    UnpassPlain(body, rule.close + rest, rule);
    UnpassClose(rest, rule);
  }

  lemma MatchReassemble(s: string, delim: string, j: nat)
    requires |delim| < j && j + |delim| <= |s|
    requires s[..|delim|] == delim && s[j..j + |delim|] == delim
    ensures s == delim + s[|delim|..j] + delim + s[j + |delim|..]
  {
    assert s == s[..|delim|] + s[|delim|..j] + s[j..j + |delim|] + s[j + |delim|..];
  }

  /** A link tag at the head of `r`, as the positions of the `"` that ends the url and of the
      `<` that starts `</a>`. */
  function LinkTagAt(r: string): (res: Option<(nat, nat)>)
    ensures res.Some? ==>
      (|LinkOpen| <= res.value.0 && res.value.0 + |LinkMid| <= res.value.1
       && res.value.1 + |LinkClose| <= |r|)
  {
    if !StartsWith(r, LinkOpen) then None
    else match IndexOf(r, '"', |LinkOpen|)
      case None => None
      case Some(q) =>
        if !OccursAt(r, q, LinkMid) then None
        else match IndexOf(r, '<', q + |LinkMid|)
          case None => None
          case Some(e) => if OccursAt(r, e, LinkClose) then Some((q, e)) else None
  }

  /** Turns every link tag back into `[text](url)`. */
  function Unlink(r: string): string
    decreases |r|, 1
  {
    if |r| == 0 then ""
    else match LinkTagAt(r)
      case Some((q, e)) => "[" + r[q + |LinkMid|..e] + "](" + r[|LinkOpen|..q] + ")" + UnlinkAfter(r, e)
      case None => [r[0]] + Unlink(r[1..])
  }

  /** The unlinking resumed after a `</a>` that starts at `e`. */
  function UnlinkAfter(r: string, e: nat): string
    requires e + |LinkClose| <= |r|
    decreases |r|, 0
  {
    Unlink(r[e + |LinkClose|..])
  }

  lemma {:induction false} UnlinkPlain(t: string, rest: string)
    requires '<' !in t
    ensures Unlink(t + rest) == t + Unlink(rest)
    decreases |t|
  {
    if |t| > 0 {
      var r := t + rest;
      assert r[0] == t[0];
      DiffersAt(r, LinkOpen, 0);
      assert r[1..] == t[1..] + rest;
      UnlinkPlain(t[1..], rest);
    } else {
      assert t + rest == rest;
    }
  }

  lemma IndexOfFirst(r: string, c: char, from: nat, p: nat)
    requires from <= p < |r| && r[p] == c
    requires forall k :: from <= k < p ==> r[k] != c
    ensures IndexOf(r, c, from) == Some(p)
  {
    IndexOfIsFirst(r, c, from);
  }

  /** The tag the link pass emits is read back as its link, provided the url holds no `"` and
      the text no `<`. */
  lemma UnlinkTag(url: string, text: string, rest: string)
    requires '"' !in url && '<' !in text
    ensures Unlink(LinkOpen + url + LinkMid + text + LinkClose + rest)
         == "[" + text + "](" + url + ")" + Unlink(rest)
  {
    var r := LinkOpen + url + LinkMid + text + LinkClose + rest;
    var q := |LinkOpen| + |url|;
    LinkTagOf(url, text, rest);
    TagPieces(url, text, rest);
    UnlinkAtTag(r, q, q + |LinkMid| + |text|, url, text, rest);
  }

  /** At a link tag `Unlink` writes the link back and goes on after `</a>`. */
  lemma UnlinkAtTag(r: string, q: nat, e: nat, url: string, text: string, rest: string)
    requires LinkTagAt(r) == Some((q, e))
    requires r[|LinkOpen|..q] == url && r[q + |LinkMid|..e] == text && r[e + |LinkClose|..] == rest
    ensures Unlink(r) == "[" + text + "](" + url + ")" + Unlink(rest)
  {
    assert UnlinkAfter(r, e) == Unlink(rest);
  }

  lemma TagPieces(url: string, text: string, rest: string)
    ensures var r := LinkOpen + url + LinkMid + text + LinkClose + rest;
      var q := |LinkOpen| + |url|;
      var e := q + |LinkMid| + |text|;
      && r[..|LinkOpen|] == LinkOpen && r[|LinkOpen|..q] == url
      && r[q..q + |LinkMid|] == LinkMid && r[q + |LinkMid|..e] == text
      && r[e..e + |LinkClose|] == LinkClose && r[e + |LinkClose|..] == rest
  {
  }

  /** The emitted tag is found at the head: its url ends at the first `"` and its text at the
      first `<` after the middle part. */
  lemma LinkTagOf(url: string, text: string, rest: string)
    requires '"' !in url && '<' !in text
    ensures var r := LinkOpen + url + LinkMid + text + LinkClose + rest;
      var q := |LinkOpen| + |url|;
      LinkTagAt(r) == Some((q, q + |LinkMid| + |text|))
  {
    TagPieces(url, text, rest);
    var q := |LinkOpen| + |url|;
    LinkTagFound(LinkOpen + url + LinkMid + text + LinkClose + rest, q, q + |LinkMid| + |text|);
  }

  lemma LinkTagFound(r: string, q: nat, e: nat)
    requires |LinkOpen| <= q && q + |LinkMid| <= e && e + |LinkClose| <= |r|
    requires r[..|LinkOpen|] == LinkOpen && '"' !in r[|LinkOpen|..q]
    requires r[q..q + |LinkMid|] == LinkMid && '<' !in r[q + |LinkMid|..e]
    requires r[e..e + |LinkClose|] == LinkClose
    ensures LinkTagAt(r) == Some((q, e))
  {
    assert r[q] == r[q..q + |LinkMid|][0];
    IndexOfAfterSlice(r, '"', |LinkOpen|, q);
    assert r[e] == r[e..e + |LinkClose|][0];
    IndexOfAfterSlice(r, '<', q + |LinkMid|, e);
  }

  lemma IndexOfAfterSlice(r: string, c: char, from: nat, p: nat)
    requires from <= p < |r| && r[p] == c && c !in r[from..p]
    ensures IndexOf(r, c, from) == Some(p)
  {
    forall k | from <= k < p ensures r[k] != c {
      assert r[k] == r[from..p][k - from];
    }
    IndexOfFirst(r, c, from, p);
  }

  /** The link pass loses nothing: on text without `<` and `"`, turning each emitted link tag
      back into `[text](url)` gives the text back. (A `"` in a url would end the attribute
      early, which is why the inverse needs it absent.) */
  lemma {:induction false} LinkPassInverse(s: string)
    requires '<' !in s && '"' !in s
    ensures Unlink(LinkPass(s)) == s
    decreases |s|, 2
  {
    if |s| > 0 {
      var l := LinkAt(s);
      if l.Some? {
        LinkInverseAtLink(s, l.value.0, l.value.1);
      } else {
        LinkInverseCopy(s);
      }
    }
  }

  lemma {:induction false} LinkInverseAtLink(s: string, j: nat, m: nat)
    requires '<' !in s && '"' !in s
    requires LinkAt(s) == Some((j, m))
    ensures Unlink(LinkPass(s)) == s
    decreases |s|, 1
  {
    LinkPassAt(s, j, m);
    LinkAfterInverse(s, m);
    NoCharInSlice(s, '"', j + 2, m);
    NoCharInSlice(s, '<', 1, j);
    UnlinkTag(s[j + 2..m], s[1..j], LinkPassAfter(s, m));
    LinkReassemble(s, j, m);
  }

  lemma {:induction false} LinkAfterInverse(s: string, m: nat)
    requires '<' !in s && '"' !in s && m < |s|
    ensures Unlink(LinkPassAfter(s, m)) == s[m + 1..]
    decreases |s|, 0
  {
    NoCharInSlice(s, '<', m + 1, |s|);
    NoCharInSlice(s, '"', m + 1, |s|);
    LinkPassInverse(s[m + 1..]);
  }

  lemma LinkReassemble(s: string, j: nat, m: nat)
    requires LinkShape(s, j, m)
    ensures s == "[" + s[1..j] + "](" + s[j + 2..m] + ")" + s[m + 1..]
  {
    assert s == s[..1] + s[1..j] + s[j..j + 2] + s[j + 2..m] + s[m..m + 1] + s[m + 1..];
  }

  /** At a link the pass emits its anchor and goes on after the `)`. */
  lemma LinkPassAt(s: string, j: nat, m: nat)
    requires LinkAt(s) == Some((j, m))
    ensures LinkShape(s, j, m)
    ensures LinkPass(s) == LinkOpen + s[j + 2..m] + LinkMid + s[1..j] + LinkClose + LinkPassAfter(s, m)
  {
  }

  lemma {:induction false} LinkInverseCopy(s: string)
    requires '<' !in s && '"' !in s && |s| > 0
    requires LinkAt(s).None?
    ensures Unlink(LinkPass(s)) == s
    decreases |s|, 1
  {
    var t := s[1..];
    assert LinkPass(s) == [s[0]] + LinkPass(t);
    NoCharInSlice(s, '<', 1, |s|);
    NoCharInSlice(s, '"', 1, |s|);
    LinkPassInverse(t);
    UnlinkPlain([s[0]], LinkPass(t));
    assert s == [s[0]] + t;
  }
}
