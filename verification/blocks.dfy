/** `_renderMarkdown`: escaping, the fenced-code pass, then one forward scan
    over the lines that keeps at most one open list and one open blockquote.
    The scan emits pieces; opening and closing tags are pieces of their own so
    that their nesting can be stated, and the rendered HTML is the pieces'
    text joined with newlines. */
module Markdown {
  import opened Text
  import opened Wrappers
  import Escape
  import Fence
  import Inline
  import Table

  // ------------------------------------------------------ line matchers

  /** Length of the run of `c` at the start of `s`. */
  function CharRun(s: string, c: char): (n: nat)
    ensures n <= |s|
    ensures forall k :: 0 <= k < n ==> s[k] == c
    ensures n < |s| ==> s[n] != c
  {
    if |s| == 0 || s[0] != c then 0 else 1 + CharRun(s[1..], c)
  }

  /** Length of the run of white space (`\s`) at the start of `s`. */
  function SpaceRun(s: string): (n: nat)
    ensures n <= |s|
    ensures forall k :: 0 <= k < n ==> IsSpace(s[k])
    ensures n < |s| ==> !IsSpace(s[n])
  {
    if |s| == 0 || !IsSpace(s[0]) then 0 else 1 + SpaceRun(s[1..])
  }

  /** Length of the run of decimal digits (`\d`) at the start of `s`. */
  function DigitRun(s: string): (n: nat)
    ensures n <= |s|
    ensures forall k :: 0 <= k < n ==> IsDigit(s[k])
    ensures n < |s| ==> !IsDigit(s[n])
  {
    if |s| == 0 || !IsDigit(s[0]) then 0 else 1 + DigitRun(s[1..])
  }

  /** The backtracking of `\s+(.+)$` after the greedy `\s+` took `k` characters: give back one
      white-space character at a time until the rest is non-empty and free of line terminators. */
  function Backtrack(s: string, k: nat): Option<string>
    requires k <= SpaceRun(s)
    decreases k
  {
    if k == 0 then None
    else if |s[k..]| > 0 && NoLineTerminator(s[k..]) then Some(s[k..])
    else Backtrack(s, k - 1)
  }

  /** `\s+(.+)$` anchored at the start of `s`: the captured text, if it matches. With `m`
      leading white-space characters, the text after all of them when that is non-empty and free
      of line terminators; when the line ends in white space, the last white-space character
      alone, provided at least two were there and it is no line terminator; otherwise no match.
      `BacktrackClosedForm` shows this is what the backtracking search finds. */
  function SpaceThenText(s: string): Option<string>
  {
    var m := SpaceRun(s);
    if m == 0 then None
    else if m < |s| then (if NoLineTerminator(s[m..]) then Some(s[m..]) else None)
    else if m >= 2 && !IsLineTerminator(s[m - 1]) then Some(s[m - 1..])
    else None
  }

  /** `^(#{1,6})\s+(.+)$`: the level and the text of a heading line. */
  function HeadingMatch(line: string): (r: Option<(nat, string)>)
    ensures r.Some? ==> 1 <= r.value.0 <= 6 && r.value.0 == CharRun(line, '#')
  {
    var n := CharRun(line, '#');
    if 1 <= n <= 6 then
      match SpaceThenText(line[n..])
      case Some(t) => Some((n, t))
      case None => None
    else None
  }

  /** `^(-{3,}|\*{3,}|_{3,})$` on the trimmed line. */
  predicate IsRule(line: string) {
    var t := Trim(line);
    |t| >= 3 && (CharRun(t, '-') == |t| || CharRun(t, '*') == |t| || CharRun(t, '_') == |t|)
  }

  /** `^[\s]*[-*+]\s+(.+)$`: the text of a bulleted item. */
  function BulletMatch(line: string): Option<string>
  {
    var j := SpaceRun(line);
    if j < |line| && line[j] in "-*+" then SpaceThenText(line[j + 1..]) else None
  }

  /** `^[\s]*\d+[.)]\s+(.+)$`: the text of a numbered item. */
  function NumberedMatch(line: string): Option<string>
  {
    var j := SpaceRun(line);
    var d := DigitRun(line[j..]);
    if d >= 1 && j + d < |line| && line[j + d] in ".)" then SpaceThenText(line[j + d + 1..]) else None
  }

  /** `^&gt;\s?(.*)$`: the text of a quoted line (the `>` is already escaped). A line matches
      exactly when it starts with `&gt;` and nothing after the character following it ends a
      line (that character, if a line terminator, is taken by `\s?`); the greedy `\s?` drops a
      white-space character that is there. */
  function QuoteMatch(line: string): (r: Option<string>)
    ensures r.Some? ==> StartsWith(line, "&gt;") && NoLineTerminator(r.value)
    ensures r.Some? ==> r.value == line[4..] || (|line| >= 5 && r.value == line[5..])
    ensures r.Some? <==> StartsWith(line, "&gt;") && (|line| <= 4 || NoLineTerminator(line[5..]))
    ensures r.Some? && |line| > 4 ==> r.value == (if IsSpace(line[4]) then line[5..] else line[4..])
  {
    if StartsWith(line, "&gt;") then
      var rest := line[4..];
      if |rest| > 0 && IsSpace(rest[0]) && NoLineTerminator(rest[1..]) then Some(rest[1..])
      else if NoLineTerminator(rest) then Some(rest)
      else None
    else None
  }

  /** What the scan makes of one line, tried in the renderer's order. */
  datatype LineKind =
    | PreStart
    | Heading(level: nat, text: string)
    | HorizontalRule
    | TableRow
    | Item(kind: ListKind, text: string)
    | Quote(text: string)
    | Blank
    | Paragraph

  datatype ListKind = Bulleted | Numbered

  function Classify(line: string): LineKind
  {
    if Contains(line, "<pre") then PreStart
    else if HeadingMatch(line).Some? then Heading(HeadingMatch(line).value.0, HeadingMatch(line).value.1)
    else if IsRule(line) then HorizontalRule
    else if Table.IsTableRow(line) then TableRow
    else if BulletMatch(line).Some? then Item(Bulleted, BulletMatch(line).value)
    else if NumberedMatch(line).Some? then Item(Numbered, NumberedMatch(line).value)
    else if QuoteMatch(line).Some? then Quote(QuoteMatch(line).value)
    else if Trim(line) == "" then Blank
    else Paragraph
  }

  // ------------------------------------------------------------ the scan

  /** `inList`/`listType` and `inBlockquote`. */
  datatype BlockState = BlockState(list: Option<ListKind>, quote: bool)

  const Init: BlockState := BlockState(None, false)

  /** One entry of `result`: a structural tag, or a line of text. */
  datatype Piece =
    | OpenList(kind: ListKind)
    | CloseList(kind: ListKind)
    | OpenQuote
    | CloseQuote
    | Line(html: string)
    | Formatted(before: string, text: string, after: string)
    | TableBlock(rows: seq<string>)

  function PieceHtml(p: Piece): string
  {
    match p
    case OpenList(Bulleted) => "<ul>"
    case OpenList(Numbered) => "<ol>"
    case CloseList(Bulleted) => "</ul>"
    case CloseList(Numbered) => "</ol>"
    case OpenQuote => "<blockquote>"
    case CloseQuote => "</blockquote>"
    case Line(html) => html
    case Formatted(before, text, after) => before + Inline.RenderInline(text) + after
    case TableBlock(rows) => Table.RenderTable(rows)
  }

  function CloseListIfOpen(st: BlockState): seq<Piece>
  {
    if st.list.Some? then [CloseList(st.list.value)] else []
  }

  function CloseQuoteIfOpen(st: BlockState): seq<Piece>
  {
    if st.quote then [CloseQuote] else []
  }

  function Lines(ls: seq<string>): (r: seq<Piece>)
    ensures |r| == |ls|
    ensures forall k :: 0 <= k < |r| ==> r[k] == Line(ls[k])
  {
    if |ls| == 0 then [] else [Line(ls[0])] + Lines(ls[1..])
  }

  /** The last line copied through for a code block starting at `i`: the first line from `i` on
      that contains `</pre>`, or the last line when none does. */
  function PreEnd(lines: seq<string>, i: nat): (k: nat)
    requires i < |lines|
    ensures i <= k < |lines|
    ensures forall j :: i <= j < k ==> !Contains(lines[j], "</pre>")
    ensures Contains(lines[k], "</pre>") || k == |lines| - 1
    decreases |lines| - i
  {
    if Contains(lines[i], "</pre>") || i == |lines| - 1 then i else PreEnd(lines, i + 1)
  }

  /** The last line of the run of consecutive table rows starting at `i`. */
  function TableEnd(lines: seq<string>, i: nat): (k: nat)
    requires i < |lines|
    ensures i <= k < |lines|
  {
    RunEnd(lines, i, Table.IsTableRow)
  }

  /** The last line of the run starting at `i` whose later lines all satisfy `p`. */
  function RunEnd(lines: seq<string>, i: nat, p: string -> bool): (k: nat)
    requires i < |lines|
    ensures i <= k < |lines|
    decreases |lines| - i
  {
    if i + 1 < |lines| && p(lines[i + 1]) then RunEnd(lines, i + 1, p) else i
  }

  /** Every line of the run after its first satisfies `p`; for `TableEnd`, every line collected
      into one table is a table row. */
  lemma {:induction false} RunEndSatisfies(lines: seq<string>, i: nat, p: string -> bool)
    requires i < |lines|
    ensures forall j :: i < j <= RunEnd(lines, i, p) ==> p(lines[j])
    decreases |lines| - i
  {
    if i + 1 < |lines| && p(lines[i + 1]) {
      RunEndSatisfies(lines, i + 1, p);
      forall j | i < j <= RunEnd(lines, i, p) ensures p(lines[j]) {
        if j > i + 1 { assert i + 1 < j <= RunEnd(lines, i + 1, p); }
      }
    }
  }

  /** The run is maximal: it stops at the last line or before a line that fails `p`; for
      `TableEnd`, before a line that is not a table row. */
  lemma {:induction false} RunEndMaximal(lines: seq<string>, i: nat, p: string -> bool)
    requires i < |lines|
    ensures RunEnd(lines, i, p) + 1 == |lines| || !p(lines[RunEnd(lines, i, p) + 1])
    decreases |lines| - i
  {
    if i + 1 < |lines| && p(lines[i + 1]) {
      RunEndMaximal(lines, i + 1, p);
    }
  }

  function HeadingOpen(level: nat): string
  {
    "<h" + NatToString(level) + " class=\"md-heading\">"
  }

  function HeadingClose(level: nat): string
  {
    "</h" + NatToString(level) + ">"
  }

  /** What one iteration of the loop emits, where it continues, and the state it leaves. */
  datatype StepResult = StepResult(out: seq<Piece>, next: nat, state: BlockState)

  function Step(lines: seq<string>, i: nat, st: BlockState): (r: StepResult)
    requires i < |lines|
    ensures i < r.next <= |lines|
  {
    StepAs(lines, i, st, Classify(lines[i]))
  }

  /** One iteration once the line at `i` is known to be of the given kind. */
  function StepAs(lines: seq<string>, i: nat, st: BlockState, kind: LineKind): (r: StepResult)
    requires i < |lines|
    ensures i < r.next <= |lines|
  {
    var line := lines[i];
    match kind
    case PreStart =>
      var k := PreEnd(lines, i);
      StepResult(Lines(lines[i..k + 1]), k + 1, st)
    case Heading(n, t) =>
      StepResult(CloseListIfOpen(st) + [Formatted(HeadingOpen(n), t, HeadingClose(n))], i + 1, st.(list := None))
    case HorizontalRule =>
      StepResult(CloseListIfOpen(st) + [Line("<hr>")], i + 1, st.(list := None))
    case TableRow =>
      var k := TableEnd(lines, i);
      StepResult(CloseListIfOpen(st) + CloseQuoteIfOpen(st) + [TableBlock(lines[i..k + 1])],
                 k + 1, Init)
    case Item(kind, t) =>
      var opening := if st.list == Some(kind) then [] else CloseListIfOpen(st) + [OpenList(kind)];
      StepResult(opening + [Formatted("<li>", t, "</li>")], i + 1, st.(list := Some(kind)))
    case Quote(t) =>
      var opening := if st.quote then [] else [OpenQuote];
      StepResult(CloseListIfOpen(st) + opening + [Formatted("", t, "")], i + 1, BlockState(None, true))
    case Blank =>
      StepResult(CloseListIfOpen(st) + CloseQuoteIfOpen(st) + [Line("")], i + 1, Init)
    case Paragraph =>
      StepResult(CloseListIfOpen(st) + CloseQuoteIfOpen(st) + [Formatted("<p>", line, "</p>")],
                 i + 1, Init)
  }

  /** The loop from line `i` in state `st`, followed by the closing of whatever is still open. */
  function Scan(lines: seq<string>, i: nat, st: BlockState): seq<Piece>
    decreases |lines| - i
  {
    if i >= |lines| then CloseListIfOpen(st) + CloseQuoteIfOpen(st)
    else
      var r := Step(lines, i, st);
      r.out + Scan(lines, r.next, r.state)
  }

  /** The pieces `_renderMarkdown` emits for a text. */
  function Blocks(text: string): seq<Piece>
  {
    Scan(Split(Fence.FencePass(Escape.EscapeHtml(text)), '\n'), 0, Init)
  }

  function PiecesHtml(ps: seq<Piece>): (r: seq<string>)
    ensures |r| == |ps|
  {
    if |ps| == 0 then [] else [PieceHtml(ps[0])] + PiecesHtml(ps[1..])
  }

  /** `_renderMarkdown`. */
  function RenderMarkdown(text: string): string
  {
    Join(PiecesHtml(Blocks(text)), '\n')
  }

  // ------------------------------------------------- matcher properties

  /** When the text after the whole white-space run is non-empty, backtracking cannot help: the
      match succeeds exactly when that text has no line terminator. */
  lemma BacktrackWithText(s: string)
    requires 0 < SpaceRun(s) < |s|
    ensures Backtrack(s, SpaceRun(s)) == if NoLineTerminator(s[SpaceRun(s)..]) then Some(s[SpaceRun(s)..]) else None
  {
    var m := SpaceRun(s);
    BacktrackStep(s, m);
    if !NoLineTerminator(s[m..]) {
      TerminatorAhead(s, m);
    }
  }

  /** A line terminator after the white space stops every shorter backtracking step too. */
  lemma TerminatorAhead(s: string, m: nat)
    requires 0 < m <= SpaceRun(s) && m < |s| && !NoLineTerminator(s[m..])
    ensures Backtrack(s, m - 1) == None
  {
    var x :| 0 <= x < |s[m..]| && IsLineTerminator(s[m..][x]);
    assert s[m..][x] == s[m + x];
    BacktrackPastTerminator(s, m - 1, m + x);
  }

  /** When the line is white space to its end, backtracking gives back one character, which
      matches when it is no line terminator and at least one white-space character is left. */
  lemma BacktrackAllSpace(s: string)
    requires 0 < SpaceRun(s) == |s|
    ensures Backtrack(s, |s|) == if |s| >= 2 && !IsLineTerminator(s[|s| - 1]) then Some(s[|s| - 1..]) else None
  {
    var m := |s|;
    BacktrackEmptyTail(s, m);
    if m >= 2 {
      var last := s[m - 1..];
      assert last == [s[m - 1]];
      BacktrackStep(s, m - 1);
      if IsLineTerminator(s[m - 1]) {
        assert !NoLineTerminator(last);
        BacktrackPastTerminator(s, m - 2, m - 1);
      }
    }
  }

  lemma BacktrackEmptyTail(s: string, m: nat)
    requires 0 < m == SpaceRun(s) == |s|
    ensures Backtrack(s, m) == Backtrack(s, m - 1)
  {
    assert |s[m..]| == 0;
  }

  lemma BacktrackStep(s: string, k: nat)
    requires 0 < k <= SpaceRun(s) && k < |s|
    ensures Backtrack(s, k) == if NoLineTerminator(s[k..]) then Some(s[k..]) else Backtrack(s, k - 1)
  {
  }

  /** Giving back white space never gets past a line terminator further right. */
  lemma {:induction false} BacktrackPastTerminator(s: string, k: nat, p: nat)
    requires k <= SpaceRun(s) && k <= p < |s| && IsLineTerminator(s[p])
    ensures Backtrack(s, k) == None
    decreases k
  {
    if k > 0 {
      assert s[k..][p - k] == s[p];
      BacktrackPastTerminator(s, k - 1, p);
    }
  }

  /** The backtracking search of `\s+(.+)$`, started from the whole white-space run, finds
      exactly what `SpaceThenText` says. */
  lemma BacktrackClosedForm(s: string)
    ensures Backtrack(s, SpaceRun(s)) == SpaceThenText(s)
  {
    var m := SpaceRun(s);
    if 0 < m < |s| {
      BacktrackWithText(s);
    } else if 0 < m {
      BacktrackAllSpace(s);
    }
  }

  /** A line opening with seven or more `#` is never a heading. */
  lemma SevenHashesNoHeading(line: string)
    requires |line| >= 7 && forall k :: 0 <= k < 7 ==> line[k] == '#'
    ensures HeadingMatch(line).None?
  {
  }

  /** A heading's level is the number of leading `#`, and its text is what follows the run of
      white space after them (all of it, or its last character when the line ends in two or more
      white-space characters). */
  lemma HeadingShape(line: string)
    requires HeadingMatch(line).Some?
    ensures var n := HeadingMatch(line).value.0;
      var t := HeadingMatch(line).value.1;
      && 1 <= n <= 6
      && (forall k :: 0 <= k < n ==> line[k] == '#')
      && line[n] != '#'
      && IsSpace(line[n])
      && |t| > 0 && NoLineTerminator(t)
      && (t == line[n + SpaceRun(line[n..])..] || t == line[n + SpaceRun(line[n..]) - 1..])
  {
    var n := CharRun(line, '#');
    HeadingParts(line);
    var t := SpaceThenText(line[n..]).value;
    SpaceThenTextShape(line[n..]);
    HeadingAssemble(line, n, SpaceRun(line[n..]), t);
  }

  /** The facts of `HeadingShape`, from those about the level and the white-space run. */
  lemma HeadingAssemble(line: string, n: nat, m: nat, t: string)
    requires n < |line| && 0 < m <= |line| - n
    requires (forall k :: 0 <= k < n ==> line[k] == '#') && line[n] != '#'
    requires IsSpace(line[n..][0]) && |t| > 0 && NoLineTerminator(t)
    requires t == line[n..][m..] || t == line[n..][m - 1..]
    ensures IsSpace(line[n]) && (t == line[n + m..] || t == line[n + m - 1..])
  {
    SuffixOfSuffix(line, n, m);
    SuffixOfSuffix(line, n, m - 1);
  }

  lemma HeadingParts(line: string)
    requires HeadingMatch(line).Some?
    ensures var n := CharRun(line, '#');
      && n < |line| && SpaceThenText(line[n..]).Some?
      && HeadingMatch(line).value == (n, SpaceThenText(line[n..]).value)
      && line[n..][0] == line[n]
  {
  }

  lemma SuffixOfSuffix(s: string, a: nat, b: nat)
    requires a + b <= |s|
    ensures s[a..][b..] == s[a + b..]
  {
  }

  /** What `\s+(.+)$` captures: the text after the white-space run, or its last character. */
  lemma SpaceThenTextShape(s: string)
    requires SpaceThenText(s).Some?
    ensures var t := SpaceThenText(s).value;
      var m := SpaceRun(s);
      && 0 < m && IsSpace(s[0])
      && |t| > 0 && NoLineTerminator(t)
      && (t == s[m..] || t == s[m - 1..])
  {
    var m := SpaceRun(s);
    if m >= |s| {
      var t := SpaceThenText(s).value;
      assert t == s[m - 1..] && |t| == 1 && t[0] == s[m - 1];
    }
  }

  /** The level and text of a concrete heading line. */
  lemma HeadingExample()
    ensures HeadingMatch("### Notes") == Some((3, "Notes"))
  {
    var line := "### Notes";
    NotesHashes();
    NotesSpace();
    assert line[3..] == " Notes";
    assert NoLineTerminator("Notes") by {
      assert forall k :: 0 <= k < 5 ==> "Notes"[k] != '\n' && "Notes"[k] != '\r' && "Notes"[k] != '\U{2028}' && "Notes"[k] != '\U{2029}';
    }
  }

  lemma NotesHashes()
    ensures CharRun("### Notes", '#') == 3
  {
    var line := "### Notes";
    assert line[1..] == "## Notes" && line[2..] == "# Notes" && line[3..] == " Notes";
  }

  lemma NotesSpace()
    ensures SpaceRun(" Notes") == 1 && " Notes"[1..] == "Notes"
  {
    assert " Notes"[1..] == "Notes";
  }

  // --------------------------------------------------- block properties

  // The lemmas of this section each state one branch of `StepAs`, as a reader's summary of
  // the dispatch; they follow from its definition directly. The scan as a whole (the nesting
  // of everything emitted, across all lines) is what `StepReplay`, `ScanReplay` and
  // `RenderBalanced` prove.

  /** `<pre` lines are copied through untouched up to and including the first line with `</pre>`
      (or to the last line), and the list and blockquote state is left as it was. */
  lemma PreLinesVerbatim(lines: seq<string>, i: nat, st: BlockState)
    requires i < |lines| && Contains(lines[i], "<pre")
    ensures var r := Step(lines, i, st);
      && r.state == st
      && |r.out| == r.next - i
      && (forall j :: i <= j < r.next ==> r.out[j - i] == Line(lines[j]))
      && (forall j :: i <= j < r.next - 1 ==> !Contains(lines[j], "</pre>"))
      && (Contains(lines[r.next - 1], "</pre>") || r.next == |lines|)
  {
  }

  /** Headings and rules close an open list and leave an open blockquote alone. */
  lemma HeadingAndRuleKeepQuote(lines: seq<string>, i: nat, st: BlockState, kind: LineKind)
    requires i < |lines| && (kind.Heading? || kind.HorizontalRule?)
    ensures StepAs(lines, i, st, kind).state == BlockState(None, st.quote)
    ensures forall p :: p in StepAs(lines, i, st, kind).out ==> !p.OpenQuote? && !p.CloseQuote? && !p.OpenList?
    ensures st.list.Some? ==> StepAs(lines, i, st, kind).out[0] == CloseList(st.list.value)
    ensures st.list.None? ==> |StepAs(lines, i, st, kind).out| == 1
  {
  }

  /** An item of the kind of the open list goes into that list: no list tag is emitted. */
  lemma SameKindItemsShareList(lines: seq<string>, i: nat, st: BlockState, kind: ListKind, t: string)
    requires i < |lines| && st.list == Some(kind)
    ensures StepAs(lines, i, st, Item(kind, t)).state == st
    ensures StepAs(lines, i, st, Item(kind, t)).out == [Formatted("<li>", t, "</li>")]
  {
  }

  /** An item of the other kind closes the open list before opening a list of its own kind;
      with no list open, it just opens one. */
  lemma ItemSwitchesList(lines: seq<string>, i: nat, st: BlockState, kind: ListKind, t: string)
    requires i < |lines| && st.list != Some(kind)
    ensures StepAs(lines, i, st, Item(kind, t)).state == st.(list := Some(kind))
    ensures st.list.Some? ==> StepAs(lines, i, st, Item(kind, t)).out[..2] == [CloseList(st.list.value), OpenList(kind)]
    ensures st.list.None? ==> StepAs(lines, i, st, Item(kind, t)).out[0] == OpenList(kind)
  {
  }

  /** Every line that is neither an item nor inside a code block leaves no list open, and closes
      the open list before anything else. */
  lemma NonItemClosesList(lines: seq<string>, i: nat, st: BlockState, kind: LineKind)
    requires i < |lines| && !kind.Item? && !kind.PreStart?
    ensures StepAs(lines, i, st, kind).state.list.None?
    ensures st.list.Some? ==> StepAs(lines, i, st, kind).out[0] == CloseList(st.list.value)
  {
  }

  /** A quoted line continues an open blockquote or opens one. */
  lemma QuoteOpensOrContinues(lines: seq<string>, i: nat, st: BlockState, t: string)
    requires i < |lines|
    ensures StepAs(lines, i, st, Quote(t)).state == BlockState(None, true)
    ensures st.quote <==> OpenQuote !in StepAs(lines, i, st, Quote(t)).out
  {
  }

  /** A table, a blank line and a paragraph close an open blockquote. */
  lemma QuoteClosedByOtherBlocks(lines: seq<string>, i: nat, st: BlockState, kind: LineKind)
    requires i < |lines| && (kind.TableRow? || kind.Blank? || kind.Paragraph?)
    ensures StepAs(lines, i, st, kind).state == Init
    ensures st.quote <==> CloseQuote in StepAs(lines, i, st, kind).out
  {
  }

  // ------------------------------------------------------------- nesting

  datatype Tag = ListTag(kind: ListKind) | QuoteTag

  /** Replays pieces against a stack of open tags. A list may open only when no list is open,
      a blockquote only when nothing is open, and a close must match the innermost open tag;
      `None` when a piece breaks these rules. */
  function Replay(ps: seq<Piece>, stack: seq<Tag>): Option<seq<Tag>>
  {
    if |ps| == 0 then Some(stack)
    else match ps[0]
      case Line(_) => Replay(ps[1..], stack)
      case Formatted(_, _, _) => Replay(ps[1..], stack)
      case TableBlock(_) => Replay(ps[1..], stack)
      case OpenList(k) =>
        if forall j :: 0 <= j < |stack| ==> stack[j] == QuoteTag then Replay(ps[1..], stack + [ListTag(k)]) else None
      case OpenQuote =>
        if |stack| == 0 then Replay(ps[1..], stack + [QuoteTag]) else None
      case CloseList(k) =>
        if |stack| > 0 && stack[|stack| - 1] == ListTag(k) then Replay(ps[1..], stack[..|stack| - 1]) else None
      case CloseQuote =>
        if |stack| > 0 && stack[|stack| - 1] == QuoteTag then Replay(ps[1..], stack[..|stack| - 1]) else None
  }

  /** The open tags a state stands for: the blockquote outside, the list inside. */
  function StackOf(st: BlockState): seq<Tag>
  {
    (if st.quote then [QuoteTag] else []) + (if st.list.Some? then [ListTag(st.list.value)] else [])
  }

  lemma {:induction false} ReplayAppend(a: seq<Piece>, b: seq<Piece>, stack: seq<Tag>)
    ensures Replay(a + b, stack) == (if Replay(a, stack).Some? then Replay(b, Replay(a, stack).value) else None)
  {
    if |a| == 0 {
      assert a + b == b;
    } else {
      assert (a + b)[0] == a[0];
      assert (a + b)[1..] == a[1..] + b;
      match a[0]
      case Line(_) => ReplayAppend(a[1..], b, stack);
      case Formatted(_, _, _) => ReplayAppend(a[1..], b, stack);
      case TableBlock(_) => ReplayAppend(a[1..], b, stack);
      case OpenList(k) => ReplayAppend(a[1..], b, stack + [ListTag(k)]);
      case OpenQuote => ReplayAppend(a[1..], b, stack + [QuoteTag]);
      case CloseList(k) => if |stack| > 0 { ReplayAppend(a[1..], b, stack[..|stack| - 1]); }
      case CloseQuote => if |stack| > 0 { ReplayAppend(a[1..], b, stack[..|stack| - 1]); }
    }
  }

  lemma {:induction false} ReplayLines(ls: seq<string>, stack: seq<Tag>)
    ensures Replay(Lines(ls), stack) == Some(stack)
  {
    if |ls| > 0 {
      ReplayLines(ls[1..], stack);
    }
  }

  lemma ReplayCloseList(st: BlockState)
    ensures Replay(CloseListIfOpen(st), StackOf(st)) == Some(StackOf(st.(list := None)))
  {
    var s := StackOf(st);
    if st.list.Some? {
      assert s[|s| - 1] == ListTag(st.list.value);
      assert s[..|s| - 1] == StackOf(st.(list := None));
      assert [CloseList(st.list.value)][1..] == [];
    }
  }

  lemma ReplayThenContent(ps: seq<Piece>, p: Piece, stack: seq<Tag>)
    requires p.Line? || p.Formatted? || p.TableBlock?
    ensures Replay(ps + [p], stack) == Replay(ps, stack)
  {
    ReplayAppend(ps, [p], stack);
  }

  lemma ReplayCloseBoth(st: BlockState)
    ensures Replay(CloseListIfOpen(st) + CloseQuoteIfOpen(st), StackOf(st)) == Some(StackOf(Init))
  {
    ReplayAppend(CloseListIfOpen(st), CloseQuoteIfOpen(st), StackOf(st));
    ReplayCloseList(st);
    ReplayCloseQuote(st.(list := None));
    assert StackOf(Init) == [];
  }

  lemma ReplayCloseQuote(st: BlockState)
    requires st.list.None?
    ensures Replay(CloseQuoteIfOpen(st), StackOf(st)) == Some([])
  {
    if st.quote {
      assert StackOf(st) == [QuoteTag];
      assert [CloseQuote][1..] == [];
      assert Replay([CloseQuote], [QuoteTag]) == Replay([], []);
    } else {
      assert StackOf(st) == [];
    }
  }

  lemma ReplayClosingContent(st: BlockState, p: Piece)
    requires p.Line? || p.Formatted? || p.TableBlock?
    ensures Replay(CloseListIfOpen(st) + CloseQuoteIfOpen(st) + [p], StackOf(st)) == Some(StackOf(Init))
  {
    ReplayThenContent(CloseListIfOpen(st) + CloseQuoteIfOpen(st), p, StackOf(st));
    ReplayCloseBoth(st);
  }

  lemma ReplayItem(st: BlockState, kind: ListKind, x: string)
    ensures Replay((if st.list == Some(kind) then [] else CloseListIfOpen(st) + [OpenList(kind)]) + [Formatted("<li>", x, "</li>")], StackOf(st))
         == Some(StackOf(st.(list := Some(kind))))
  {
    var opening := if st.list == Some(kind) then [] else CloseListIfOpen(st) + [OpenList(kind)];
    ReplayThenContent(opening, Formatted("<li>", x, "</li>"), StackOf(st));
    if st.list != Some(kind) {
      ReplayCloseList(st);
      ReplayAppend(CloseListIfOpen(st), [OpenList(kind)], StackOf(st));
      assert StackOf(st.(list := None)) + [ListTag(kind)] == StackOf(st.(list := Some(kind)));
    }
  }

  lemma ReplayQuote(st: BlockState, x: string)
    ensures Replay(CloseListIfOpen(st) + (if st.quote then [] else [OpenQuote]) + [Formatted("", x, "")], StackOf(st))
         == Some(StackOf(BlockState(None, true)))
  {
    var opening: seq<Piece> := if st.quote then [] else [OpenQuote];
    ReplayThenContent(CloseListIfOpen(st) + opening, Formatted("", x, ""), StackOf(st));
    ReplayCloseList(st);
    ReplayAppend(CloseListIfOpen(st), opening, StackOf(st));
    var mid := StackOf(st.(list := None));
    if st.quote {
      assert mid == [QuoteTag];
      assert opening == [];
    } else {
      assert mid == [];
      var none: seq<Tag> := [];
      assert [OpenQuote][1..] == [];
      assert none + [QuoteTag] == [QuoteTag];
      assert Replay([OpenQuote], none) == Replay([], [QuoteTag]);
    }
    assert StackOf(BlockState(None, true)) == [QuoteTag];
  }

  /** Each iteration takes the stack of open tags from the state it starts in to the state it leaves. */
  lemma StepReplay(lines: seq<string>, i: nat, st: BlockState)
    requires i < |lines|
    ensures Replay(Step(lines, i, st).out, StackOf(st)) == Some(StackOf(Step(lines, i, st).state))
  {
    StepAsReplay(lines, i, st, Classify(lines[i]));
  }

  lemma StepAsReplay(lines: seq<string>, i: nat, st: BlockState, kind: LineKind)
    requires i < |lines|
    ensures Replay(StepAs(lines, i, st, kind).out, StackOf(st)) == Some(StackOf(StepAs(lines, i, st, kind).state))
  {
    match kind
    case PreStart => ReplayPreStep(lines, i, st);
    case Heading(n, t) => ReplayHeadingStep(lines, i, st, n, t);
    case HorizontalRule => ReplayRuleStep(lines, i, st);
    case TableRow => ReplayTableStep(lines, i, st);
    case Item(k, t) => ReplayItem(st, k, t);
    case Quote(t) => ReplayQuote(st, t);
    case Blank => ReplayBlankStep(lines, i, st);
    case Paragraph => ReplayParagraphStep(lines, i, st);
  }

  lemma ReplayPreStep(lines: seq<string>, i: nat, st: BlockState)
    requires i < |lines|
    ensures Replay(StepAs(lines, i, st, PreStart).out, StackOf(st)) == Some(StackOf(st))
  {
    ReplayLines(lines[i..PreEnd(lines, i) + 1], StackOf(st));
  }

  lemma ReplayHeadingStep(lines: seq<string>, i: nat, st: BlockState, n: nat, t: string)
    requires i < |lines|
    ensures Replay(StepAs(lines, i, st, Heading(n, t)).out, StackOf(st)) == Some(StackOf(st.(list := None)))
  {
    ReplayThenContent(CloseListIfOpen(st), Formatted(HeadingOpen(n), t, HeadingClose(n)), StackOf(st));
    ReplayCloseList(st);
  }

  lemma ReplayRuleStep(lines: seq<string>, i: nat, st: BlockState)
    requires i < |lines|
    ensures Replay(StepAs(lines, i, st, HorizontalRule).out, StackOf(st)) == Some(StackOf(st.(list := None)))
  {
    ReplayThenContent(CloseListIfOpen(st), Line("<hr>"), StackOf(st));
    ReplayCloseList(st);
  }

  lemma ReplayTableStep(lines: seq<string>, i: nat, st: BlockState)
    requires i < |lines|
    ensures Replay(StepAs(lines, i, st, TableRow).out, StackOf(st)) == Some(StackOf(Init))
  {
    ReplayClosingContent(st, TableBlock(lines[i..TableEnd(lines, i) + 1]));
  }

  lemma ReplayBlankStep(lines: seq<string>, i: nat, st: BlockState)
    requires i < |lines|
    ensures Replay(StepAs(lines, i, st, Blank).out, StackOf(st)) == Some(StackOf(Init))
  {
    ReplayClosingContent(st, Line(""));
  }

  lemma ReplayParagraphStep(lines: seq<string>, i: nat, st: BlockState)
    requires i < |lines|
    ensures Replay(StepAs(lines, i, st, Paragraph).out, StackOf(st)) == Some(StackOf(Init))
  {
    var p := Formatted("<p>", lines[i], "</p>");
    assert StepAs(lines, i, st, Paragraph) == StepResult(CloseListIfOpen(st) + CloseQuoteIfOpen(st) + [p], i + 1, Init);
    ReplayClosingContent(st, p);
  }

  /** From any line and state, the rest of the scan closes exactly what is open, properly nested. */
  lemma {:induction false} ScanReplay(lines: seq<string>, i: nat, st: BlockState)
    ensures Replay(Scan(lines, i, st), StackOf(st)) == Some([])
    decreases |lines| - i
  {
    if i >= |lines| {
      ReplayCloseBoth(st);
      assert StackOf(Init) == [];
    } else {
      var r := Step(lines, i, st);
      StepReplay(lines, i, st);
      ScanReplay(lines, r.next, r.state);
      ReplayAppend(r.out, Scan(lines, r.next, r.state), StackOf(st));
    }
  }

  /** The emitted `<ul>`/`<ol>`/`<blockquote>` tags are balanced and properly nested, at most one
      list is open at a time, a list may sit inside a blockquote but not the other way round, and
      everything is closed by the end of the output. */
  lemma RenderBalanced(text: string)
    ensures Replay(Blocks(text), []) == Some([])
  {
    var lines := Split(Fence.FencePass(Escape.EscapeHtml(text)), '\n');
    ScanReplay(lines, 0, Init);
    assert StackOf(Init) == [];
  }
}
