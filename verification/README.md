# ZoteroOllama core in Dafny

ZoteroOllama is a Zotero plugin. It lets a user chat with a local Ollama model about one PDF in
their library. This project models the plugin's sequential core and proves properties of it:

- **the markdown renderer of the chat dialog** (`_renderMarkdown` and its helpers). It has these
  parts:
  - entity escaping (module `Escape`);
  - the fenced-code pass (`Fence`);
  - the line-by-line block scan with its list and blockquote state (`Markdown`);
  - the inline formatter (`Inline`);
  - the table helpers (`Table`).

  Each regular expression is written out as a matcher:
  - a global replacement is a left-to-right scan over suffixes with leftmost, non-overlapping
    matches;
  - a lazy group takes the first closing delimiter that works;
  - the backtracking of `\s+(.+)$` is modelled step by step and shown equal to a closed form.
- **the NDJSON reading of `OllamaClient.chat`** (`Stream`). The client reads the response in
  chunks into a carry-over buffer, splits it into lines, and parses each line. It skips blank and
  unparseable lines, stops early on `done`, and parses the leftover buffer once more at the end.
  The model also covers the outcomes of an abort, a network failure and an HTTP error. The
  dialog's fallback client is line for line the same loop, so it is modelled once.
- **the conversation state of the dialog** (`Session`): `sendMessage`, `stopGeneration` and
  `clearChat`, with the DOM reduced to the state and to what the user ends up seeing.
- **the Zotero side** (`Zotero`): the selection guards, the choice of the PDF attachment, the
  metadata block, and the preference fallbacks of `openChatForSelectedItem`.

Host services are inputs:
- `JSON.parse` is an oracle from a line to an optional record;
- the server's reply is a datatype of read results;
- Zotero items and preferences are plain data.

`Text` holds the string toolkit: JavaScript `trim`, `split`, `join`, `indexOf`, and the
character classes `\s`, `\w`, `\d` and `.`.

## Model

| member | source | states |
|---|---|---|
| `Escape.EscapeIsSinglePass` | chrome/content/chat-dialog.js:250-253 | The three global replacements (`&` first, then `<`, then `>`) equal one pass that replaces every character by its entity. |
| `Escape.EscapedHasNoAngleBrackets` | chrome/content/chat-dialog.js:250-253 | Escaped text holds no `<` and no `>`. |
| `Escape.EscapeRoundTrip` | chrome/content/chat-dialog.js:250-253 | Escaping loses nothing: reading `&amp;`, `&lt;` and `&gt;` back gives the original text. |
| `Fence.WordRun` | chrome/content/chat-dialog.js:257 | The greedy `\w*` takes the longest run of word characters. |
| `Fence.FenceClose` | chrome/content/chat-dialog.js:257 | The lazy body ends at the first three backticks at or after its start, or the fence does not match. |
| `Fence.FenceBecomesOnePre` | chrome/content/chat-dialog.js:256-265 | Three backticks, a word-character language, a newline, a body without three backticks, and the closing backticks become exactly one `<pre class="md-code-block"><code>` block; the rest of the text goes on through the pass. |
| `Fence.NoFenceUnchanged` | chrome/content/chat-dialog.js:256-265 | Text without three backticks in a row passes the fence stage unchanged. |
| `Fence.PreBodyIsContent` | chrome/content/chat-dialog.js:261 | The block body is the code with one trailing newline removed, and it differs from the code exactly when the code ends in a newline. |
| `Markdown.CharRun` | chrome/content/chat-dialog.js:289 | The run of `#` at the start of a line is maximal. |
| `Markdown.BacktrackClosedForm` | chrome/content/chat-dialog.js:289 | The backtracking search of `\s+(.+)$` finds the text after the whole white-space run when that text is non-empty and on one line. When the line ends in two or more white-space characters, it finds the last one, provided that is no line terminator. Otherwise it finds nothing. |
| `Markdown.HeadingShape` | chrome/content/chat-dialog.js:289-304 | A heading's level is its count of leading `#`, between 1 and 6. White space follows the `#` run, and the text is a non-empty one-line suffix of the line after that white space. |
| `Markdown.SevenHashesNoHeading` | chrome/content/chat-dialog.js:289 | A line that opens with seven or more `#` is never a heading. |
| `Markdown.HeadingExample` | chrome/content/chat-dialog.js:289-304 | `### Notes` is a level-3 heading with text `Notes`. |
| `Markdown.QuoteMatch` | chrome/content/chat-dialog.js:385 | A line matches exactly when it starts with the escaped `>` and holds no line terminator after the character that follows it. The text is the rest of the line, without its first character when that is white space, and holds no line terminator. |
| `Markdown.PreEnd` | chrome/content/chat-dialog.js:278-286 | Copying from a `<pre` line stops at the first line holding `</pre>`, or at the last line. |
| `Markdown.PreLinesVerbatim` | chrome/content/chat-dialog.js:278-286 | The lines of a code block are emitted unchanged, one piece per line, through the first `</pre>` line, and the list and blockquote state is kept. |
| `Markdown.RunEndSatisfies` | chrome/content/chat-dialog.js:329-337 | Every line collected into one table is a table row. `TableEnd` is this run with the table-row test. |
| `Markdown.RunEndMaximal` | chrome/content/chat-dialog.js:329-337 | Table collection stops only at the end of the text or before a line that is not a table row. |
| `Markdown.HeadingAndRuleKeepQuote` | chrome/content/chat-dialog.js:288-316 | A heading or a rule closes an open list first. It leaves an open blockquote open and emits no quote tag. |
| `Markdown.SameKindItemsShareList` | chrome/content/chat-dialog.js:343-376 | An item of the kind of the open list joins it: only the `<li>` is emitted, and the state is unchanged. |
| `Markdown.ItemSwitchesList` | chrome/content/chat-dialog.js:343-376 | An item of the other kind closes the open list and then opens its own. With no list open, it just opens one. |
| `Markdown.NonItemClosesList` | chrome/content/chat-dialog.js:378-382 | Every line that is neither an item nor in a code block leaves no list open, and closes the open list before anything else. |
| `Markdown.QuoteOpensOrContinues` | chrome/content/chat-dialog.js:384-393 | A quoted line opens a blockquote exactly when none is open. |
| `Markdown.QuoteClosedByOtherBlocks` | chrome/content/chat-dialog.js:394-406 | A table, a blank line or a paragraph closes an open blockquote, exactly when one is open, and resets the state. |
| `Markdown.StepReplay` | chrome/content/chat-dialog.js:274-407 | Each iteration of the scan takes the stack of open tags from the state it starts in to the state it leaves, with only properly nested opens and closes. |
| `Markdown.ScanReplay` | chrome/content/chat-dialog.js:274-411 | From any line and state, the rest of the scan and the final closing leave no tag open. |
| `Markdown.RenderBalanced` | chrome/content/chat-dialog.js:248-413 | The `<ul>`, `<ol>` and `<blockquote>` tags of the whole rendering are balanced and properly nested. At most one list is open at a time, a list may sit inside a blockquote but not the reverse, and everything is closed at the end. |
| `Inline.FindClose` | chrome/content/chat-dialog.js:425 | A position the lazy group reports lies at or after where the search starts, and holds a closing delimiter after a non-empty allowed body. |
| `Inline.FindCloseFirst` | chrome/content/chat-dialog.js:425 | The lazy group takes the first closing position. When it reports none, no position from the start on closes, and the match fails. |
| `Inline.MatchAt` | chrome/content/chat-dialog.js:421-442 | A match starts only at an opening delimiter, with no word character before it for the `_` rule, and ends at a position that closes it. |
| `Inline.MatchAtFirst` | chrome/content/chat-dialog.js:421-442 | A match ends at the first position that closes it. There is no match only when no opening delimiter is there or no position closes it. |
| `Inline.LinkAt` | chrome/content/chat-dialog.js:446 | A link's text runs to the first `]`, which must be followed by `(`. Its url runs to the first `)`. Both are non-empty. |
| `Inline.PassWithoutDelimiter` | chrome/content/chat-dialog.js:421-442 | A replacement pass changes nothing in a text that does not hold its delimiter. |
| `Inline.LinkPassWithoutBracket` | chrome/content/chat-dialog.js:445-448 | The link pass changes nothing in a text without `[`. |
| `Inline.PlainTextUnchanged` | chrome/content/chat-dialog.js:419-451 | Text without a backtick, `*`, `_` or `[` is left as it is by the inline formatter. |
| `Inline.UnderscoreInsideWordsKept` | chrome/content/chat-dialog.js:439-442 | Underscores that each follow a word character (as in `snake_case_name`) are never read as italics. |
| `Inline.PassInverse` | chrome/content/chat-dialog.js:421-442 | Every replacement pass loses nothing. On text without `<`, turning each opening and closing tag the pass emitted back into the rule's delimiter gives the text back. |
| `Inline.LinkPassInverse` | chrome/content/chat-dialog.js:445-448 | The link pass loses nothing. On text without `<` and `"`, turning each emitted link tag back into `[text](url)` gives the text back. |
| `Inline.BoldExample` | chrome/content/chat-dialog.js:434 | `**bold**` renders as `<strong>bold</strong>`. |
| `Inline.CodeExample` | chrome/content/chat-dialog.js:421 | `` `code` `` renders as `<code class="md-inline-code">code</code>`. |
| `Table.TableRowIff` | chrome/content/chat-dialog.js:456-461 | A line is a table row exactly when it holds a pipe and a character that is neither a pipe nor white space. |
| `Table.StripPipesCount` | chrome/content/chat-dialog.js:467 | Stripping the edge pipes removes exactly the leading and the trailing pipe, if present, and no other pipe. |
| `Table.ParseTableCellsCount` | chrome/content/chat-dialog.js:474-480 | The number of cells is the number of pipes left after stripping the edge pipes, plus one. |
| `Table.ParseTableCellsClean` | chrome/content/chat-dialog.js:474-480 | No cell holds a pipe, and every cell is trimmed. |
| `Table.KeptFilter` | chrome/content/chat-dialog.js:504-528 | Every body row comes from a line that is not a separator, and every such line yields a body row, so no separator yields a body row. |
| `Table.KeptAppend` | chrome/content/chat-dialog.js:506-516 | The body lines keep their order and their repetitions: one line gives itself or nothing, and the selection distributes over concatenation. |
| `Table.RenderTableLoop` | chrome/content/chat-dialog.js:485-533 | The loops as written give exactly the table the functional model describes. With a header they render the first line's cells, skip the separator and start at the third line. Otherwise they start at the first line. Every later separator is skipped by `continue`. |
| `Table.BodyRowsLoop` | chrome/content/chat-dialog.js:506-516 | The body loop emits one row per line from its start index on that the separator test does not reject, in order. |
| `Table.RenderTableHeader` | chrome/content/chat-dialog.js:489-504 | The table opens with a `<thead>` exactly when it has at least two lines and the second is a separator. It always ends by closing the body and the table. |
| `Text.JoinSplit` | chrome/content/chat-dialog.js:268 | Splitting on a character and joining with it again gives the text back. |
| `Text.SplitJoin` | chrome/content/chat-dialog.js:413 | Joining lines that are free of the separator and splitting again gives the lines back. |
| `Text.SplitLength` | chrome/content/chat-dialog.js:268 | Splitting gives one more piece than there are separators. |
| `Text.SplitAppend` | ollama.js:106-109 | Splitting a concatenation continues the last piece of the first part with the second part. |
| `Text.BlankIffAllSpace` | chrome/content/chat-dialog.js:400 | A line trims to empty exactly when it is all white space. |
| `Text.DecimalRoundTrip` | chrome/content/chat-dialog.js:296-303 | The decimal text of a level or status code reads back as the same number. |
| `Stream.Absorb` | ollama.js:115-118 | Absorbing a record keeps the response equal to the concatenation of non-empty tokens. |
| `Stream.Feed` | ollama.js:106-109 | The buffer kept after a chunk never holds a newline. |
| `Stream.FeedAppend` | ollama.js:102-130 | Feeding two chunks one after the other is the same as feeding their concatenation. |
| `Stream.ChunkBoundaryIndependence` | ollama.js:102-146 | However the body is cut into chunks, the tokens, the final callback and the returned value are those of reading it in one piece. |
| `Stream.OneChunk` | ollama.js:102-146 | A body read as several chunks is read as their concatenation. |
| `Stream.ChatWellFormed` | ollama.js:62-155 | Every call emits its tokens and then exactly one of `onDone` and `onError`, matching how it ends. `onDone` and the returned value are the concatenation of the tokens, and no token is empty. |
| `Stream.ReadLoopWellFormed` | ollama.js:102-154 | From any consistent reader state, the rest of the read loop gives a well-formed call. |
| `Stream.SkippedLineIrrelevant` | ollama.js:111-128 | A blank line, an unparseable line, or a record with no content and no `done` changes nothing: removing it gives the same result. |
| `Stream.DoneStopsLines` | ollama.js:119-122 | Once a `done` record has been processed, no later line is looked at. |
| `Stream.DoneRecordEndsStream` | ollama.js:115-122 | A first line holding a `done` record ends the call: its content, if any, is the only token, `onDone` gets it, and nothing later matters. |
| `Stream.LeftoverIsLastLine` | ollama.js:132-143 | The leftover buffer is handled like a complete line, apart from its `done` flag. |
| `Stream.LeftoverIgnoresDone` | ollama.js:132-143 | The leftover record has the same effect whatever its `done` flag says. |
| `Stream.FinalNewlineIrrelevant` | ollama.js:132-146 | A final record gives the same call whether or not a newline follows it. |
| `Stream.TrailingNewlineIrrelevant` | ollama.js:102-146 | A body with an extra final newline gives the same call. |
| `Stream.AbortReturnsPartial` | ollama.js:147-151 | An abort, before the response or after some chunks, calls `onDone` with the text so far and returns it; `onError` is not called. |
| `Stream.HttpErrorReported` | ollama.js:91-96 | A status that is not ok yields no token. Only `onError` fires, with `Ollama error (<status>): <body>` where the status reads back in decimal, and the call throws that message. |
| `Stream.ReturnsWithoutFailure` | ollama.js:102-151 | With no failing read, the call always returns. |
| `Session.SendIgnoredIff` | chrome/content/chat-dialog.js:576-580 | Send does nothing exactly while generating or when the input is all white space. |
| `Session.OutboundShape` | chrome/content/chat-dialog.js:586-600 | The messages sent are the system message (prompt, metadata header, metadata, PDF header, PDF text), then the earlier history, then the new trimmed, non-empty user message. |
| `Session.ResponseIsTokens` | chrome/content/chat-dialog.js:617-647 | The response the dialog keeps is the concatenation of the streamed tokens, whichever way the call ended. |
| `Session.FinishShape` | chrome/content/chat-dialog.js:649-667 | For the corrected ending (see Findings): the response is appended as an assistant message exactly when it is non-empty, and generation ends. An error shows exactly when the call threw. The bubble is rendered, is removed after an error, or holds the placeholder. |
| `Session.TurnHistory` | chrome/content/chat-dialog.js:576-669 | A turn appends the user message and, exactly when the response is non-empty, one assistant message holding all tokens, also after an abort or an error. |
| `Session.CompletedTurn` | chrome/content/chat-dialog.js:636-663 | A call that completes shows no error. It appends and renders its text when non-empty. Otherwise it leaves the placeholder, or, as written, no bubble when status text from before the turn is still on the bar. |
| `Session.StopKeepsPartial` | chrome/content/chat-dialog.js:649-675 | Stopping after some chunks keeps the text streamed so far as the assistant message, rendered, and shows no error. An empty partial answer leaves the placeholder, or, as written, no bubble when status text from before the turn is still on the bar. |
| `Session.StopOnlyDuringTurn` | chrome/content/chat-dialog.js:671-675 | Stop aborts only a turn in flight. Nothing is aborted before Send. The state a turn streams in always has the abort available. Once the turn has ended, nothing is aborted again. |
| `Session.ClearDuringTurn` | chrome/content/chat-dialog.js:677-678 | Clearing while a turn is in flight empties the history, and the turn's answer is then appended to the empty history. |
| `Session.DisplaysOfTokens` | chrome/content/chat-dialog.js:625-634 | The bubble is re-rendered once per token, and the last rendering is of the whole text so far. |
| `Session.LastDisplayIsFinal` | chrome/content/chat-dialog.js:625-657 | For a completed call, the final rendering is the rendering shown after the last token. |
| `Session.AsWrittenWithClearBar` | chrome/content/chat-dialog.js:654-663 | With an empty status bar before the turn, the dialog as written ends the turn as the corrected ending does. |
| `Session.AsWrittenOnlyBubble` | chrome/content/chat-dialog.js:649-663 | The ending as written agrees with the corrected ending on the history, the status line and every rendering. The bubble differs exactly for an empty answer from a call that did not throw, while status text from before the turn is on the bar. |
| `Session.AsWrittenSameSend` | chrome/content/chat-dialog.js:576-600 | Both endings start a turn the same way: they ignore the same presses of Send and send the same messages. |
| `Session.StaleStatusHidesPlaceholder` | chrome/content/chat-dialog.js:615 | A message left on the status bar makes the dialog as written remove the bubble of an empty answer that raised no error. |
| `Session.StaleStatusExample` | chrome/content/chat-dialog.js:654-663 | A completed call with no token after an earlier error: as written the bubble is removed, while the placeholder is due. |
| `Zotero.MenuMatchesGuards` | zotero-ollama.js:114-177 | The menu entry is visible exactly for the selections the command accepts. Every other selection gets the "exactly one item" or the "regular item" alert. |
| `Zotero.SelectItem` | zotero-ollama.js:164-177 | The command goes on only with a single selected item, and that item is the one used. |
| `Zotero.FirstPdf` | zotero-ollama.js:131-134 | The attachment chosen is the first with content type `application/pdf`. |
| `Zotero.ExtractCases` | zotero-ollama.js:121-158 | Extraction fails for a non-regular item, an item without attachments, or one without a PDF. Any text it returns is not blank and comes from the first PDF. Usable indexed text is returned before any indexing request. Otherwise the text after one indexing request is returned when usable. When both are blank, extraction fails with the not-indexed error. |
| `Zotero.OnlyFirstPdfMatters` | zotero-ollama.js:131-156 | Attachments after the first PDF never change the outcome, not even a later PDF with usable text. |
| `Zotero.CreatorNames` | zotero-ollama.js:190-192 | Each creator becomes `first last`, or just the last name when the first name is empty, in item order. |
| `Zotero.JoinWithEmpty` | zotero-ollama.js:193 | A join with a non-empty separator is empty exactly when there is nothing to join, or one empty part. |
| `Zotero.AuthorsLinePresence` | zotero-ollama.js:190-198 | The `Authors` line is missing exactly when the item has no creators, or one creator with no name at all. |
| `Zotero.MetadataText` | zotero-ollama.js:189-200 | The metadata is `Title: ` and the title, or `Untitled`. Then come `\nAuthors: `, `\nYear: ` (the year, else the date) and `\nDOI: `, in that order, each only when its value is non-empty. |
| `Zotero.MetadataRoundTrip` | zotero-ollama.js:189-200 | When no field spans several lines, the metadata block reads back into its title, authors, year and DOI. |
| `Zotero.PrefsFallBack` | zotero-ollama.js:209-227 | For each of the four preferences, an absent or falsy value falls back to `gpt-oss:20b`, `http://localhost:11434`, 32768 or the built-in prompt, and a truthy one is used as is. The result is never empty or zero. |
| `Zotero.DialogUsesPrefs` | zotero-ollama.js:203-228 | The dialog that opens gets each preference when it is truthy, and its built-in default otherwise, for the model, the URL, the context window and the system prompt. |
| `Zotero.OpenChatOutcome` | zotero-ollama.js:163-228 | The dialog opens exactly for a single regular item whose first PDF yields text, and gets that text, the metadata block and the title. Otherwise the alert carries the selection message or `ZoteroOllama: ` and the extraction error. |

## Left out

- The bytes-to-text decoding (`TextDecoder`, including a multibyte character split across chunks): chunks are already text.
- `JSON.parse` and the reading of `message.content` and `done` are one oracle from a line to an optional record. A content that is not a string is outside the model.
- Exceptions thrown by the callbacks themselves, which the client's inner catch would swallow. Callbacks are events that always return.
- The DOM: `innerHTML`, the thinking indicator, scrolling, focus and button states. The status kept for a turn is the error line shown at its end, and is empty when the bar is hidden. The text a hidden bar still holds is modelled only as `statusBefore` in `Session.FinishAsWritten` and `Session.SendAsWritten`. The bubble is kept as the markdown it is rendered from, or the placeholder, or no bubble.
- `isAvailable`, `listModels`, `checkOllamaConnection`, `_resolveOllamaClient` and the dialog's `init`: connection checks and wiring, not logic on the conversation.
- An AbortError raised by `fetch` before any response is treated like an abort during the read. The `error.name` test of the dialog is folded into the outcome of the call.
- The text of an error response is read by `response.text()`, which could itself fail. It is taken as given.
- Inline code is not protected from the later inline passes, so no protection is claimed. `"` in a link's url is not escaped, so no attribute safety is claimed either.
- The context-window budget: the code has no token estimation or truncation, `maxPdfTextLength` is never read, and the dialog's truncation flag is never set.
- The defaults in `prefs.js` (a longer system prompt) are preference defaults installed by Zotero. When they are present, the built-in fallback of `openChatForSelectedItem` is not used. The model takes the preferences as given.
- Zotero items, their `isRegularItem` flag, their fields (`year` is read as the item supplies it), and the text reported before and after one indexing request are plain data.
- `bootstrap.js`, the window and menu registration of `zotero-ollama.js`, and `content/preferences.js`: host lifecycle and UI.
- Fence.FenceAtStart: its contract only bounds the positions it returns. What a fence turns into is stated by `Fence.FenceBecomesOnePre`.
- Session.Finish: the placeholder is decided by this turn's error alone. The dialog as written also reads status text left from before the turn (see Findings).
- Session.SendWith: composes the start of a turn with the corrected ending `Session.Finish`. The dialog as written is `Session.SendAsWritten`. `Session.AsWrittenOnlyBubble` and `Session.AsWrittenSameSend` state where the two differ, and `Session.CompletedTurn` and `Session.StopKeepsPartial` state both.
- Strings are sequences of characters, while JavaScript strings are UTF-16 code units, which is what `.`, `\s` and `\w` read. Characters outside the Basic Multilingual Plane (two code units in JavaScript) are one character here, so a regex that would see half of a surrogate pair is not modelled.
- Markdown.RenderBalanced: balance is proved on the emitted pieces. The inline HTML inside a line is not inspected, since it never holds a list or blockquote tag.

## Findings

| source | as written | input that shows it | evidently intended | confidence | as-written member | corrected member |
|---|---|---|---|---|---|---|
| chrome/content/chat-dialog.js:615 | `hideStatus` only hides the status bar and keeps its text. The end of the turn tests that text to tell whether an error occurred, so a message left from before the turn still counts. | A turn whose call completes with no token after an earlier turn failed (status text `Error: <message>`, such as `Error: Ollama error (500): model failed to load` from a failed HTTP request): the empty bubble is removed and the user sees neither an answer, nor the placeholder, nor an error. | The placeholder `(No response generated)` unless this turn raised an error. | medium, not executed | `Session.FinishAsWritten` (`Session.StaleStatusHidesPlaceholder`, `Session.StaleStatusExample`) | `Session.Finish` (`Session.FinishShape`) |
