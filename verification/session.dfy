/** The dialog's conversation state: `sendMessage`, `stopGeneration` and
    `clearChat` with the DOM reduced to what the user ends up seeing (the
    re-rendered assistant text after every token, the final bubble and the
    status line). The request itself is the stream model: the reply and the
    record parser are parameters, standing for the network and `JSON.parse`. */
module Session {
  import opened Text
  import opened Wrappers
  import Stream
  import Markdown

  datatype Role = SystemRole | UserRole | AssistantRole

  datatype Message = Message(role: Role, content: string)

  /** What the dialog was opened with. */
  datatype Context = Context(systemPrompt: string, metadata: string, pdfText: string)

  /** `messages` and `isGenerating`. */
  datatype ChatState = ChatState(history: seq<Message>, generating: bool)

  const Fresh: ChatState := ChatState([], false)

  const MetadataHeader: string := "\n\n--- PAPER METADATA ---\n"
  const PdfHeader: string := "\n\n--- FULL PDF TEXT ---\n"

  /** The system message sent ahead of the conversation on every turn. */
  function SystemContent(ctx: Context): string
  {
    ctx.systemPrompt + MetadataHeader + ctx.metadata + PdfHeader + ctx.pdfText
  }

  /** The start of a turn: nothing while generating or when the input trims to empty; otherwise
      the trimmed input is appended as a user message, generation starts, and the messages to
      send are the system message followed by the whole history. */
  function Begin(st: ChatState, ctx: Context, input: string): Option<(ChatState, seq<Message>)>
  {
    if st.generating || Trim(input) == "" then None
    else
      var history := st.history + [Message(UserRole, Trim(input))];
      Some((ChatState(history, true), [Message(SystemRole, SystemContent(ctx))] + history))
  }

  /** `fullResponse` after the callbacks: a token extends it, `onDone` replaces it. */
  function Accumulate(events: seq<Stream.Event>, full: string): string
  {
    if |events| == 0 then full
    else match events[0]
      case Token(t) => Accumulate(events[1..], full + t)
      case Done(text) => Accumulate(events[1..], text)
      case Error(_) => Accumulate(events[1..], full)
  }

  /** The text the assistant bubble is re-rendered from after each token: the whole response so
      far. The bubble then holds `Markdown.RenderMarkdown` of it. */
  function Displays(events: seq<Stream.Event>, full: string): (r: seq<string>)
  {
    if |events| == 0 then []
    else match events[0]
      case Token(t) => [full + t] + Displays(events[1..], full + t)
      case Done(text) => Displays(events[1..], text)
      case Error(_) => Displays(events[1..], full)
  }

  /** What is left of the assistant bubble at the end of a turn: the rendering of a response,
      the placeholder text, or no bubble at all. */
  datatype Bubble = Rendered(markdown: string) | NoResponse | Removed

  /** The bubble's contents as shown. */
  function BubbleContent(b: Bubble): string
  {
    match b
    case Rendered(markdown) => Markdown.RenderMarkdown(markdown)
    case NoResponse => "(No response generated)"
    case Removed => ""
  }

  /** The end of a turn: the new state, the status line, the bubble, and every intermediate
      rendering of the streamed text. */
  datatype TurnEnd = TurnEnd(state: ChatState, status: string, bubble: Bubble, displays: seq<string>)

  /** After the call: a non-empty response is rendered and appended as an assistant message,
      whether the call completed, was aborted or failed; an empty one leaves a placeholder,
      or no bubble when an error is on the status line. Generation ends. */
  function Finish(st: ChatState, call: Stream.Call): TurnEnd
  {
    var full := Accumulate(call.events, "");
    var status := if call.outcome.Thrown? then "Error: " + call.outcome.message else "";
    var history := if full != "" then st.history + [Message(AssistantRole, full)] else st.history;
    var bubble := if full != "" then Rendered(full)
                  else if status == "" then NoResponse else Removed;
    TurnEnd(ChatState(history, false), status, bubble, Displays(call.events, ""))
  }

  /** The end of a turn as the dialog is written: the choice between the placeholder and removing
      the bubble reads the status bar's text, and `hideStatus` at the start of the turn only hides
      the bar without clearing it, so `statusBefore` (a warning or error shown before the turn)
      still counts. `Finish` decides on this turn's error alone. */
  function FinishAsWritten(st: ChatState, call: Stream.Call, statusBefore: string): TurnEnd
  {
    var full := Accumulate(call.events, "");
    var status := if call.outcome.Thrown? then "Error: " + call.outcome.message else "";
    var barText := if call.outcome.Thrown? then status else statusBefore;
    var history := if full != "" then st.history + [Message(AssistantRole, full)] else st.history;
    var bubble := if full != "" then Rendered(full)
                  else if barText == "" then NoResponse else Removed;
    TurnEnd(ChatState(history, false), status, bubble, Displays(call.events, ""))
  }

  /** What one press of Send does. */
  datatype Turn = Ignored | Sent(outbound: seq<Message>, end: TurnEnd)

  /** `sendMessage`, given how the call to the client goes. */
  function SendWith(st: ChatState, ctx: Context, input: string, call: Stream.Call): Turn
  {
    match Begin(st, ctx, input)
    case None => Ignored
    case Some((started, outbound)) => Sent(outbound, Finish(started, call))
  }

  /** `sendMessage` as written: the same start, and the ending that reads the status text left
      from before the turn. */
  function SendAsWritten(st: ChatState, ctx: Context, input: string, call: Stream.Call, statusBefore: string): Turn
  {
    match Begin(st, ctx, input)
    case None => Ignored
    case Some((started, outbound)) => Sent(outbound, FinishAsWritten(started, call, statusBefore))
  }

  /** `sendMessage`, with the reply the server gives to the outbound messages. */
  function SendMessage(st: ChatState, ctx: Context, input: string, parse: Stream.Parser, reply: Stream.Reply): Turn
  {
    SendWith(st, ctx, input, Stream.Chat(parse, reply))
  }

  /** `stopGeneration`: an abort is signalled exactly while a turn is in flight. */
  function StopSignalsAbort(st: ChatState): bool
  {
    st.generating
  }

  /** `clearChat`: the history is emptied; a turn in flight is not affected. */
  function Clear(st: ChatState): ChatState
  {
    st.(history := [])
  }

  // ------------------------------------------------------------- lemmas

  /** Send does nothing exactly while generating or when the input is blank. */
  lemma SendIgnoredIff(st: ChatState, ctx: Context, input: string, call: Stream.Call)
    ensures SendWith(st, ctx, input, call).Ignored? <==> st.generating || AllSpace(input)
  {
    BlankIffAllSpace(input);
  }

  /** The messages sent: the system message with the prompt, metadata and PDF text, then the
      earlier history, then the new (trimmed) user message. */
  lemma OutboundShape(st: ChatState, ctx: Context, input: string, call: Stream.Call)
    requires SendWith(st, ctx, input, call).Sent?
    ensures var out := SendWith(st, ctx, input, call).outbound;
      && |out| == |st.history| + 2
      && out[0] == Message(SystemRole, ctx.systemPrompt + MetadataHeader + ctx.metadata + PdfHeader + ctx.pdfText)
      && out[1..|out| - 1] == st.history
      && out[|out| - 1] == Message(UserRole, Trim(input))
      && out[|out| - 1].content != ""
  {
    var b := Begin(st, ctx, input);
    assert b.Some?;
    assert SendWith(st, ctx, input, call).outbound == b.value.1;
    BeginShape(st, ctx, input);
  }

  lemma BeginShape(st: ChatState, ctx: Context, input: string)
    requires Begin(st, ctx, input).Some?
    ensures var out := Begin(st, ctx, input).value.1;
      && out == [Message(SystemRole, SystemContent(ctx))] + st.history + [Message(UserRole, Trim(input))]
      && Trim(input) != ""
  {
  }

  lemma {:induction false} AccumulateTokens(events: seq<Stream.Event>, full: string)
    requires forall k :: 0 <= k < |events| ==> events[k].Token?
    ensures Accumulate(events, full) == full + Stream.ConcatFront(Stream.TokenTexts(events))
  {
    if |events| > 0 {
      AccumulateTokens(events[1..], full + events[0].text);
      assert Stream.TokenTexts(events)[1..] == Stream.TokenTexts(events[1..]);
    }
  }

  lemma AccumulateLast(prefix: seq<Stream.Event>, last: Stream.Event, full: string)
    ensures Accumulate(prefix + [last], full) == Accumulate([last], Accumulate(prefix, full))
    decreases |prefix|
  {
    if |prefix| > 0 {
      assert (prefix + [last])[1..] == prefix[1..] + [last];
      match prefix[0]
      case Token(t) => AccumulateLast(prefix[1..], last, full + t);
      case Done(text) => AccumulateLast(prefix[1..], last, text);
      case Error(_) => AccumulateLast(prefix[1..], last, full);
    } else {
      assert prefix + [last] == [last];
    }
  }

  /** Whatever way the call ends, the response the dialog keeps is exactly the concatenation
      of the streamed tokens: `onDone` hands over the same text, and an error keeps what came. */
  lemma ResponseIsTokens(call: Stream.Call)
    requires Stream.WellFormed(call)
    ensures var prefix := call.events[..|call.events| - 1];
      Accumulate(call.events, "") == Stream.Concat(Stream.TokenTexts(prefix))
  {
    var n := |call.events|;
    var prefix := call.events[..n - 1];
    assert call.events == prefix + [call.events[n - 1]];
    AccumulateLast(prefix, call.events[n - 1], "");
    AccumulateTokens(prefix, "");
    Stream.ConcatFrontIsConcat(Stream.TokenTexts(prefix));
    assert [call.events[n - 1]][1..] == [];
  }

  /** The end of a turn, for any well-formed call: the response made of all streamed tokens is
      appended exactly when non-empty, generation ends, and the status line shows an error
      exactly when the call threw. */
  lemma FinishShape(st: ChatState, call: Stream.Call)
    requires Stream.WellFormed(call)
    ensures var response := Stream.Concat(Stream.TokenTexts(call.events[..|call.events| - 1]));
      var end := Finish(st, call);
      && end.state == ChatState(st.history + (if response != "" then [Message(AssistantRole, response)] else []), false)
      && (end.status != "" <==> call.outcome.Thrown?)
      && end.bubble == (if response != "" then Rendered(response)
                        else if call.outcome.Thrown? then Removed else NoResponse)
  {
    ResponseIsTokens(call);
  }

  /** A turn appends the user message and, exactly when the response is non-empty, one assistant
      message holding all streamed tokens, also after an abort or an error; generation ends, and
      the status line shows the error of a failed call. Every call the client makes is well
      formed (`Stream.ChatWellFormed`). */
  lemma TurnHistory(st: ChatState, ctx: Context, input: string, call: Stream.Call)
    requires SendWith(st, ctx, input, call).Sent? && Stream.WellFormed(call)
    ensures var tokens := Stream.TokenTexts(call.events[..|call.events| - 1]);
      var end := SendWith(st, ctx, input, call).end;
      && !end.state.generating
      && end.state.history ==
           st.history + [Message(UserRole, Trim(input))]
           + (if Stream.Concat(tokens) != "" then [Message(AssistantRole, Stream.Concat(tokens))] else [])
      && (end.status != "" <==> call.outcome.Thrown?)
  {
    var (started, outbound) := Begin(st, ctx, input).value;
    FinishShape(started, call);
  }

  /** Stopping a turn after some chunks keeps the text streamed so far: it is appended as the
      assistant message and rendered when non-empty, and no error is shown. An empty partial
      answer leaves the placeholder; as written, it leaves no bubble when status text from
      before the turn is still on the bar. */
  lemma StopKeepsPartial(st: ChatState, ctx: Context, input: string, parse: Stream.Parser,
                         cs: seq<string>, tail: seq<Stream.Read>, statusBefore: string)
    requires SendMessage(st, ctx, input, parse, Stream.Body(Stream.Chunks(cs) + [Stream.Aborted] + tail)).Sent?
    ensures var partial := Stream.FeedAll(parse, Stream.Init, cs).progress.full;
      var call := Stream.Chat(parse, Stream.Body(Stream.Chunks(cs) + [Stream.Aborted] + tail));
      var end := SendMessage(st, ctx, input, parse, Stream.Body(Stream.Chunks(cs) + [Stream.Aborted] + tail)).end;
      var written := SendAsWritten(st, ctx, input, call, statusBefore).end;
      && end.status == ""
      && end.state.history ==
           st.history + [Message(UserRole, Trim(input))]
           + (if partial != "" then [Message(AssistantRole, partial)] else [])
      && end.bubble == (if partial != "" then Rendered(partial) else NoResponse)
      && written.state == end.state && written.status == ""
      && written.bubble == (if partial != "" then Rendered(partial)
                            else if statusBefore == "" then NoResponse else Removed)
  {
    var p := Stream.FeedAll(parse, Stream.Init, cs).progress;
    Stream.AbortReturnsPartial(parse, cs, tail);
    Stream.ConsistentFeedAll(parse, Stream.Init, cs);
    CompletedTurn(st, ctx, input, p, statusBefore);
  }

  /** A turn whose call completes normally with the progress `p`: no error is shown, and the
      text is appended and rendered when non-empty. An empty answer leaves the placeholder; as
      written, it leaves no bubble when status text from before the turn is still on the bar. */
  lemma CompletedTurn(st: ChatState, ctx: Context, input: string, p: Stream.Progress, statusBefore: string)
    requires Stream.Consistent(p) && SendWith(st, ctx, input, Stream.Complete(p)).Sent?
    ensures var end := SendWith(st, ctx, input, Stream.Complete(p)).end;
      var written := SendAsWritten(st, ctx, input, Stream.Complete(p), statusBefore).end;
      && end.status == ""
      && end.state.history ==
           st.history + [Message(UserRole, Trim(input))]
           + (if p.full != "" then [Message(AssistantRole, p.full)] else [])
      && end.bubble == (if p.full != "" then Rendered(p.full) else NoResponse)
      && written.state == end.state && written.status == ""
      && written.bubble == (if p.full != "" then Rendered(p.full)
                            else if statusBefore == "" then NoResponse else Removed)
  {
    var call := Stream.Complete(p);
    Stream.CompleteWellFormed(p);
    TurnHistory(st, ctx, input, call);
    assert call.events[..|call.events| - 1] == Stream.TokenEvents(p.tokens);
    Stream.TokenTextsOfEvents(p.tokens);
    var (started, outbound) := Begin(st, ctx, input).value;
    ResponseIsTokens(call);
    FinishShape(started, call);
    AsWrittenOnlyBubble(started, call, statusBefore);
  }

  /** Clearing while a turn is in flight: the turn's answer is still appended, to the now
      empty history. */
  lemma ClearDuringTurn(st: ChatState, call: Stream.Call)
    requires Stream.WellFormed(call)
    ensures var response := Accumulate(call.events, "");
      Finish(Clear(st), call).state.history == (if response != "" then [Message(AssistantRole, response)] else [])
  {
  }

  lemma {:induction false} DisplaysOfTokens(events: seq<Stream.Event>, full: string)
    requires |events| >= 1
    requires forall k :: 0 <= k < |events| ==> events[k].Token?
    ensures |Displays(events, full)| == |events|
    ensures Displays(events, full)[|events| - 1] == Accumulate(events, full)
  {
    if |events| > 1 {
      DisplaysOfTokens(events[1..], full + events[0].text);
    }
  }

  /** While streaming, the bubble shows the rendering of the response so far after each token,
      and the last of these is the final rendering of a completed call. */
  lemma LastDisplayIsFinal(st: ChatState, call: Stream.Call)
    requires Stream.WellFormed(call) && call.outcome.Returned? && |call.events| >= 2
    ensures var end := Finish(st, call);
      && |end.displays| == |call.events| - 1
      && end.bubble == Rendered(end.displays[|end.displays| - 1])
  {
    var n := |call.events|;
    var prefix := call.events[..n - 1];
    assert call.events == prefix + [call.events[n - 1]];
    DisplaysOfTokens(prefix, "");
    DisplaysLast(prefix, call.events[n - 1], "");
    var sofar := Accumulate(prefix, "");
    FinalAccumulate(call);
    assert sofar != "" by {
      AccumulateTokens(prefix, "");
      NonEmptyConcat(Stream.TokenTexts(prefix));
    }
  }

  /** The response kept at the end of a completed call is the text accumulated from its tokens. */
  lemma FinalAccumulate(call: Stream.Call)
    requires Stream.WellFormed(call) && call.outcome.Returned?
    ensures Accumulate(call.events, "") == Accumulate(call.events[..|call.events| - 1], "")
  {
    var n := |call.events|;
    var prefix := call.events[..n - 1];
    assert call.events == prefix + [call.events[n - 1]];
    AccumulateLast(prefix, call.events[n - 1], "");
    AccumulateTokens(prefix, "");
    Stream.ConcatFrontIsConcat(Stream.TokenTexts(prefix));
    assert [call.events[n - 1]][1..] == [];
  }

  lemma DisplaysLast(prefix: seq<Stream.Event>, last: Stream.Event, full: string)
    requires last.Done?
    ensures Displays(prefix + [last], full) == Displays(prefix, full)
    decreases |prefix|
  {
    if |prefix| > 0 {
      assert (prefix + [last])[1..] == prefix[1..] + [last];
      match prefix[0]
      case Token(t) => DisplaysLast(prefix[1..], last, full + t);
      case Done(text) => DisplaysLast(prefix[1..], last, text);
      case Error(_) => DisplaysLast(prefix[1..], last, full);
    } else {
      assert prefix + [last] == [last];
      assert [last][1..] == [];
    }
  }

  lemma NonEmptyConcat(parts: seq<string>)
    requires |parts| >= 1 && parts[0] != ""
    ensures Stream.ConcatFront(parts) != ""
  {
  }

  // ------------------------------------------------------- stale status

  /** With the status bar empty before the turn, the dialog as written ends every turn as
      `Finish` does. */
  lemma AsWrittenWithClearBar(st: ChatState, call: Stream.Call)
    ensures FinishAsWritten(st, call, "") == Finish(st, call)
  {
  }

  /** A message left on the status bar before the turn (the connection error shown when the
      dialog opens, or a previous turn's error) makes the dialog as written remove the bubble of an empty
      answer that raised no error, where the placeholder is due. */
  lemma StaleStatusHidesPlaceholder(st: ChatState, call: Stream.Call, statusBefore: string)
    requires Stream.WellFormed(call) && call.outcome.Returned? && Accumulate(call.events, "") == ""
    requires statusBefore != ""
    ensures FinishAsWritten(st, call, statusBefore).bubble == Removed
    ensures FinishAsWritten(st, call, statusBefore).status == ""
    ensures Finish(st, call).bubble == NoResponse
  {
  }

  /** The ending as written agrees with `Finish` on the history, the status line and every
      rendering; the bubble differs exactly for an empty answer from a call that did not throw,
      when status text from before the turn is still on the bar. */
  lemma AsWrittenOnlyBubble(st: ChatState, call: Stream.Call, statusBefore: string)
    ensures var written := FinishAsWritten(st, call, statusBefore);
      var end := Finish(st, call);
      && written.state == end.state && written.status == end.status && written.displays == end.displays
      && (written.bubble != end.bubble <==>
            Accumulate(call.events, "") == "" && call.outcome.Returned? && statusBefore != "")
  {
  }

  /** A press of Send takes the same path in both endings: ignored in the same cases, and
      sending the same messages. */
  lemma AsWrittenSameSend(st: ChatState, ctx: Context, input: string, call: Stream.Call, statusBefore: string)
    ensures SendAsWritten(st, ctx, input, call, statusBefore).Ignored? <==> SendWith(st, ctx, input, call).Ignored?
    ensures SendWith(st, ctx, input, call).Sent? ==>
      SendAsWritten(st, ctx, input, call, statusBefore).outbound == SendWith(st, ctx, input, call).outbound
  {
  }

  // --------------------------------------------------------------- stop

  /** Stop aborts only a turn in flight: there is nothing to abort before Send, the state
      a turn streams in is generating, so a stop then always signals the abort, and once the
      turn has ended there is again nothing to abort. */
  lemma StopOnlyDuringTurn(st: ChatState, ctx: Context, input: string, call: Stream.Call)
    requires !st.generating
    ensures !StopSignalsAbort(st)
    ensures Begin(st, ctx, input).Some? ==> StopSignalsAbort(Begin(st, ctx, input).value.0)
    ensures SendWith(st, ctx, input, call).Sent? ==> !StopSignalsAbort(SendWith(st, ctx, input, call).end.state)
    ensures Begin(st, ctx, input).Some? <==> SendWith(st, ctx, input, call).Sent?
  {
  }

  /** The concrete case: a completed call with no token after an earlier error. */
  lemma StaleStatusExample(st: ChatState)
    ensures var call := Stream.Complete(Stream.Start);
      && FinishAsWritten(st, call, "Error: Ollama error (500): model failed to load").bubble == Removed
      && Finish(st, call).bubble == NoResponse
  {
    var call := Stream.Complete(Stream.Start);
    assert call.events == [Stream.Done("")];
    assert Accumulate(call.events, "") == Accumulate([], "") == "";
  }
}
