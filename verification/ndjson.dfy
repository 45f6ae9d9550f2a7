/** `OllamaClient.chat` once the request is sent: the response body is read
    chunk by chunk into a carry-over buffer, split on newlines, and every
    complete line is parsed as one JSON record of the stream. The same loop is
    the dialog's fallback client, so it is modelled once. `JSON.parse` together
    with the reads of `message.content` and `done` is an oracle: a partial
    function from a line to a record, `None` when parsing (or reading the
    fields) throws. Decoding bytes to text happens before this model: chunks
    are already text. */
module Stream {
  import opened Text
  import opened Wrappers

  /** The two fields of a streamed record the client looks at; an absent or empty
      `message.content` is the empty string, an absent `done` is `false`. */
  datatype Record = Record(content: string, done: bool)

  type Parser = string -> Option<Record>

  /** One result of `reader.read()`, or the exception it throws. */
  datatype Read = Chunk(text: string) | Aborted | Failed(message: string)

  /** What `fetch` gives: an abort or a network failure before any response, a response whose
      status is not ok (with its body text), or an ok response and the reads of its body. The end
      of `results` is the reader reporting `done`. */
  datatype Reply =
    | FetchAborted
    | FetchFailed(message: string)
    | HttpError(status: nat, body: string)
    | Body(results: seq<Read>)

  /** The callbacks, in the order they are called. */
  datatype Event = Token(text: string) | Done(full: string) | Error(message: string)

  /** How `chat` ends: it returns the full response, or it throws. */
  datatype Outcome = Returned(value: string) | Thrown(message: string)

  datatype Call = Call(events: seq<Event>, outcome: Outcome)

  /** `fullResponse` and the token texts handed to `onToken` so far. */
  datatype Progress = Progress(full: string, tokens: seq<string>)

  const Start: Progress := Progress("", [])

  /** The in-order concatenation of texts. */
  function Concat(parts: seq<string>): string
  {
    if |parts| == 0 then "" else Concat(parts[..|parts| - 1]) + parts[|parts| - 1]
  }

  /** `fullResponse` is the concatenation of the tokens, and no token is empty. */
  predicate Consistent(p: Progress) {
    && p.full == Concat(p.tokens)
    && forall k :: 0 <= k < |p.tokens| ==> p.tokens[k] != ""
  }

  /** The effect of one record: a non-empty content is appended and emitted. */
  function Absorb(p: Progress, content: string): (r: Progress)
    ensures Consistent(p) ==> Consistent(r)
  {
    if content == "" then p
    else
      assert (p.tokens + [content])[..|p.tokens|] == p.tokens;
      Progress(p.full + content, p.tokens + [content])
  }

  /** One line of the loop: blank lines and lines that fail to parse are skipped; a record's
      content is absorbed, and `true` says its `done` flag ends the stream. */
  function ProcessLine(parse: Parser, line: string, p: Progress): (Progress, bool)
  {
    if Trim(line) == "" then (p, false)
    else match parse(line)
      case None => (p, false)
      case Some(rec) => (Absorb(p, rec.content), rec.done)
  }

  /** The complete lines of one read, in order, up to the first `done` record. */
  function RunLines(parse: Parser, lines: seq<string>, p: Progress): (r: (Progress, bool))
    ensures Consistent(p) ==> Consistent(r.0)
  {
    if |lines| == 0 then (p, false)
    else
      var (p1, stop) := ProcessLine(parse, lines[0], p);
      if stop then (p1, true) else RunLines(parse, lines[1..], p1)
  }

  /** The loop state: still reading with a carry-over buffer, or ended by a `done` record. */
  datatype Reader = Reading(buffer: string, progress: Progress) | Stopped(progress: Progress)

  const Init: Reader := Reading("", Start)

  /** One chunk: appended to the buffer, every complete line processed, the unfinished last line
      kept as the new buffer. */
  function Feed(parse: Parser, rd: Reader, chunk: string): (r: Reader)
    ensures r.Reading? ==> '\n' !in r.buffer
  {
    match rd
    case Stopped(_) => rd
    case Reading(buffer, p) =>
      var parts := Split(buffer + chunk, '\n');
      SplitPiecesNoSep(buffer + chunk, '\n');
      var (p1, stop) := RunLines(parse, AllButLast(parts), p);
      if stop then Stopped(p1) else Reading(Last(parts), p1)
  }

  /** After the last read: a non-blank buffer is parsed once more; its `done` flag is ignored. */
  function Leftover(parse: Parser, buffer: string, p: Progress): Progress
  {
    if Trim(buffer) == "" then p
    else match parse(buffer)
      case None => p
      case Some(rec) => Absorb(p, rec.content)
  }

  function TokenEvents(tokens: seq<string>): (r: seq<Event>)
    ensures |r| == |tokens|
    ensures forall k :: 0 <= k < |r| ==> r[k] == Token(tokens[k])
  {
    if |tokens| == 0 then [] else [Token(tokens[0])] + TokenEvents(tokens[1..])
  }

  /** A call that ends by `onDone(fullResponse)` and returns it. */
  function Complete(p: Progress): Call
  {
    Call(TokenEvents(p.tokens) + [Done(p.full)], Returned(p.full))
  }

  /** A call that ends by `onError` and rethrows. */
  function Fail(p: Progress, message: string): Call
  {
    Call(TokenEvents(p.tokens) + [Error(message)], Thrown(message))
  }

  /** The read loop over the remaining results. */
  function ReadLoop(parse: Parser, results: seq<Read>, rd: Reader): Call
  {
    match rd
    case Stopped(p) => Complete(p)
    case Reading(buffer, p) =>
      if |results| == 0 then Complete(Leftover(parse, buffer, p))
      else match results[0]
        case Chunk(text) => ReadLoop(parse, results[1..], Feed(parse, rd, text))
        case Aborted => Complete(p)
        case Failed(m) => Fail(p, m)
  }

  /** The message of the error thrown for a status that is not ok. */
  function StatusMessage(status: nat, body: string): string
  {
    "Ollama error (" + NatToString(status) + "): " + body
  }

  /** `OllamaClient.chat`. */
  function Chat(parse: Parser, reply: Reply): Call
  {
    match reply
    case FetchAborted => Complete(Start)
    case FetchFailed(m) => Fail(Start, m)
    case HttpError(status, body) => Fail(Start, StatusMessage(status, body))
    case Body(results) => ReadLoop(parse, results, Init)
  }

  // ------------------------------------------------------ line algebra

  lemma {:induction false} RunLinesAppend(parse: Parser, xs: seq<string>, ys: seq<string>, p: Progress)
    ensures RunLines(parse, xs + ys, p) ==
      if RunLines(parse, xs, p).1 then RunLines(parse, xs, p)
      else RunLines(parse, ys, RunLines(parse, xs, p).0)
  {
    if |xs| == 0 {
      assert xs + ys == ys;
    } else {
      assert (xs + ys)[0] == xs[0];
      assert (xs + ys)[1..] == xs[1..] + ys;
      var (p1, stop) := ProcessLine(parse, xs[0], p);
      if !stop {
        RunLinesAppend(parse, xs[1..], ys, p1);
      }
    }
  }

  lemma AllButLastAppend(xs: seq<string>, ys: seq<string>)
    requires |ys| >= 1
    ensures AllButLast(xs + ys) == xs + AllButLast(ys)
    ensures Last(xs + ys) == Last(ys)
  {
  }

  /** Feeding two chunks one after the other is feeding their concatenation. */
  lemma FeedAppend(parse: Parser, rd: Reader, a: string, b: string)
    ensures Feed(parse, Feed(parse, rd, a), b) == Feed(parse, rd, a + b)
  {
    if rd.Reading? {
      var buffer, p := rd.buffer, rd.progress;
      var pa := Split(buffer + a, '\n');
      var tail := Split(Last(pa) + b, '\n');
      assert buffer + (a + b) == (buffer + a) + b;
      SplitAppend(buffer + a, b, '\n');
      AllButLastAppend(AllButLast(pa), tail);
      RunLinesAppend(parse, AllButLast(pa), AllButLast(tail), p);
    }
  }

  /** One chunk read: the loop goes on from the fed state. */
  lemma ReadChunk(parse: Parser, text: string, tail: seq<Read>, rd: Reader)
    ensures ReadLoop(parse, [Chunk(text)] + tail, rd) == ReadLoop(parse, tail, Feed(parse, rd, text))
  {
    assert ([Chunk(text)] + tail)[1..] == tail;
  }

  function Chunks(cs: seq<string>): (r: seq<Read>)
    ensures |r| == |cs|
    ensures forall k :: 0 <= k < |r| ==> r[k] == Chunk(cs[k])
  {
    if |cs| == 0 then [] else [Chunk(cs[0])] + Chunks(cs[1..])
  }

  function ConcatFront(cs: seq<string>): string
  {
    if |cs| == 0 then "" else cs[0] + ConcatFront(cs[1..])
  }

  lemma {:induction false} ConcatFrontIsConcat(cs: seq<string>)
    ensures ConcatFront(cs) == Concat(cs)
    decreases |cs|
  {
    if |cs| > 0 {
      ConcatFrontIsConcat(cs[1..]);
      if |cs| > 1 {
        ConcatFrontIsConcat(cs[..|cs| - 1]);
        ConcatFrontIsConcat(cs[1..][..|cs| - 2]);
        assert cs[1..][..|cs| - 2] == cs[..|cs| - 1][1..];
        assert cs[1..][|cs| - 2] == cs[|cs| - 1];
      } else {
        assert cs[..0] == [];
      }
    }
  }

  lemma {:induction false} ChunksFeed(parse: Parser, cs: seq<string>, tail: seq<Read>, rd: Reader)
    requires |cs| >= 1
    ensures ReadLoop(parse, Chunks(cs) + tail, rd) == ReadLoop(parse, [Chunk(ConcatFront(cs))] + tail, rd)
    decreases |cs|
  {
    assert Chunks(cs) + tail == [Chunk(cs[0])] + (Chunks(cs[1..]) + tail);
    ReadChunk(parse, cs[0], Chunks(cs[1..]) + tail, rd);
    if |cs| == 1 {
      assert ConcatFront(cs) == cs[0] by { assert cs[1..] == []; }
      assert Chunks(cs[1..]) + tail == tail;
    } else {
      ChunksFeed(parse, cs[1..], tail, Feed(parse, rd, cs[0]));
      ReadChunk(parse, ConcatFront(cs[1..]), tail, Feed(parse, rd, cs[0]));
      FeedAppend(parse, rd, cs[0], ConcatFront(cs[1..]));
      ReadChunk(parse, ConcatFront(cs), tail, rd);
    }
  }

  // ----------------------------------------------------------- theorems

  /** Chunk-boundary independence: however the decoded body is cut into results, the tokens, the
      final callback and the returned value are those of reading it in one piece. */
  lemma ChunkBoundaryIndependence(parse: Parser, cs: seq<string>, tail: seq<Read>)
    requires |cs| >= 1
    ensures Chat(parse, Body(Chunks(cs) + tail)) == Chat(parse, Body([Chunk(Concat(cs))] + tail))
  {
    assert Chat(parse, Body(Chunks(cs) + tail)) == ReadLoop(parse, Chunks(cs) + tail, Init);
    assert Chat(parse, Body([Chunk(Concat(cs))] + tail)) == ReadLoop(parse, [Chunk(Concat(cs))] + tail, Init);
    ChunksFeed(parse, cs, tail, Init);
    ConcatFrontIsConcat(cs);
  }

  /** A call is well formed: tokens first, then exactly one of `onDone` and `onError`, matching
      the outcome; `onDone` and the returned value are the concatenation of the tokens, and no
      token is empty. */
  predicate WellFormed(c: Call) {
    && |c.events| >= 1
    && (forall k :: 0 <= k < |c.events| - 1 ==> c.events[k].Token?)
    && !c.events[|c.events| - 1].Token?
    && (c.outcome.Returned? <==> c.events[|c.events| - 1].Done?)
    && (c.events[|c.events| - 1].Done? ==> c.events[|c.events| - 1].full == c.outcome.value)
    && (c.events[|c.events| - 1].Error? ==> c.events[|c.events| - 1].message == c.outcome.message)
    && (forall k :: 0 <= k < |c.events| - 1 ==> c.events[k].text != "")
    && (c.outcome.Returned? ==> c.outcome.value == Concat(TokenTexts(c.events[..|c.events| - 1])))
  }

  function TokenTexts(events: seq<Event>): (r: seq<string>)
    requires forall k :: 0 <= k < |events| ==> events[k].Token?
    ensures |r| == |events|
    ensures forall k :: 0 <= k < |r| ==> r[k] == events[k].text
  {
    if |events| == 0 then [] else [events[0].text] + TokenTexts(events[1..])
  }

  lemma TokenTextsOfEvents(tokens: seq<string>)
    ensures TokenTexts(TokenEvents(tokens)) == tokens
  {
  }

  lemma CompleteWellFormed(p: Progress)
    requires Consistent(p)
    ensures WellFormed(Complete(p))
  {
    var c := Complete(p);
    assert c.events[..|c.events| - 1] == TokenEvents(p.tokens);
    TokenTextsOfEvents(p.tokens);
  }

  lemma FailWellFormed(p: Progress, m: string)
    requires Consistent(p)
    ensures WellFormed(Fail(p, m))
  {
    var c := Fail(p, m);
    assert c.events[..|c.events| - 1] == TokenEvents(p.tokens);
  }

  lemma LeftoverConsistent(parse: Parser, buffer: string, p: Progress)
    requires Consistent(p)
    ensures Consistent(Leftover(parse, buffer, p))
  {
  }

  lemma {:induction false} ReadLoopWellFormed(parse: Parser, results: seq<Read>, rd: Reader)
    requires Consistent(rd.progress)
    ensures WellFormed(ReadLoop(parse, results, rd))
    decreases |results|
  {
    match rd
    case Stopped(p) => CompleteWellFormed(p);
    case Reading(buffer, p) =>
      if |results| == 0 {
        LeftoverConsistent(parse, buffer, p);
        CompleteWellFormed(Leftover(parse, buffer, p));
      } else {
        match results[0]
        case Chunk(text) => ReadLoopWellFormed(parse, results[1..], Feed(parse, rd, text));
        case Aborted => CompleteWellFormed(p);
        case Failed(m) => FailWellFormed(p, m);
      }
  }

  /** Every call, whatever the reply and the records, is well formed: exactly one terminal
      callback, after all tokens, and the returned text is what the tokens spell. */
  lemma ChatWellFormed(parse: Parser, reply: Reply)
    ensures WellFormed(Chat(parse, reply))
  {
    assert Concat([]) == "";
    match reply
    case FetchAborted => CompleteWellFormed(Start);
    case FetchFailed(m) => FailWellFormed(Start, m);
    case HttpError(status, body) => FailWellFormed(Start, StatusMessage(status, body));
    case Body(results) => ReadLoopWellFormed(parse, results, Init);
  }

  // ------------------------------------------------- line-level properties

  /** A line the loop skips: blank, unparseable, or a record that is not `done` and has no
      content. */
  predicate Skipped(parse: Parser, line: string) {
    Trim(line) == "" || parse(line).None? || (parse(line).value.content == "" && !parse(line).value.done)
  }

  /** Skipped lines neither emit a token nor end the stream: removing one changes nothing. */
  lemma SkippedLineIrrelevant(parse: Parser, xs: seq<string>, line: string, ys: seq<string>, p: Progress)
    requires Skipped(parse, line)
    ensures RunLines(parse, xs + [line] + ys, p) == RunLines(parse, xs + ys, p)
  {
    assert xs + [line] + ys == xs + ([line] + ys);
    RunLinesAppend(parse, xs, [line] + ys, p);
    RunLinesAppend(parse, xs, ys, p);
    assert ([line] + ys)[1..] == ys;
  }

  /** Once a `done` record has been processed, no later line is looked at. */
  lemma DoneStopsLines(parse: Parser, xs: seq<string>, ys: seq<string>, p: Progress)
    requires RunLines(parse, xs, p).1
    ensures RunLines(parse, xs + ys, p) == RunLines(parse, xs, p)
  {
    RunLinesAppend(parse, xs, ys, p);
  }

  lemma FeedDoneLine(parse: Parser, line: string, rest: string, content: string)
    requires '\n' !in line && Trim(line) != "" && parse(line) == Some(Record(content, true))
    ensures Feed(parse, Init, line + "\n" + rest) == Stopped(Absorb(Start, content))
  {
    assert "" + (line + "\n" + rest) == line + ['\n'] + rest;
    SplitAfterPiece(line, rest, '\n');
    var parts := [line] + Split(rest, '\n');
    assert AllButLast(parts) == [line] + AllButLast(Split(rest, '\n'));
    assert ProcessLine(parse, line, Start) == (Absorb(Start, content), true);
  }

  /** A first line holding a `done` record ends the call at once: its content (if any) is the
      only token, `onDone` gets it, and nothing after that line, in this read or a later one,
      matters. */
  lemma DoneRecordEndsStream(parse: Parser, line: string, rest: string, tail: seq<Read>, content: string)
    requires '\n' !in line && Trim(line) != "" && parse(line) == Some(Record(content, true))
    ensures Chat(parse, Body([Chunk(line + "\n" + rest)] + tail)) == Complete(Absorb(Start, content))
  {
    assert Chat(parse, Body([Chunk(line + "\n" + rest)] + tail)) == ReadLoop(parse, [Chunk(line + "\n" + rest)] + tail, Init);
    ReadChunk(parse, line + "\n" + rest, tail, Init);
    FeedDoneLine(parse, line, rest, content);
  }

  /** The leftover buffer is handled like a complete line, except that its `done` flag does not
      matter (the call completes either way). */
  lemma LeftoverIsLastLine(parse: Parser, buffer: string, p: Progress)
    ensures Leftover(parse, buffer, p) == ProcessLine(parse, buffer, p).0
  {
  }

  /** The leftover buffer's record has the same effect whatever its `done` flag says. */
  lemma LeftoverIgnoresDone(parse1: Parser, parse2: Parser, buffer: string, p: Progress)
    requires parse1(buffer).Some? <==> parse2(buffer).Some?
    requires parse1(buffer).Some? ==> parse1(buffer).value.content == parse2(buffer).value.content
    ensures Leftover(parse1, buffer, p) == Leftover(parse2, buffer, p)
  {
  }

  lemma FeedNewline(parse: Parser, buffer: string, p: Progress)
    requires '\n' !in buffer
    ensures var (p1, stop) := ProcessLine(parse, buffer, p);
      Feed(parse, Reading(buffer, p), "\n") == if stop then Stopped(p1) else Reading("", p1)
  {
    assert buffer + "\n" == buffer + ['\n'] + "";
    SplitAfterPiece(buffer, "", '\n');
    assert Split(buffer + "\n", '\n') == [buffer, ""];
    assert AllButLast([buffer, ""]) == [buffer];
    assert Last([buffer, ""]) == "";
    assert [buffer][1..] == [];
    assert RunLines(parse, [buffer], p) == ProcessLine(parse, buffer, p);
  }

  /** Reading the end of the body: whether the final record is followed by a newline or not
      does not change the call. */
  lemma FinalNewlineIrrelevant(parse: Parser, buffer: string, p: Progress)
    requires '\n' !in buffer
    ensures ReadLoop(parse, [], Feed(parse, Reading(buffer, p), "\n")) == ReadLoop(parse, [], Reading(buffer, p))
  {
    FeedNewline(parse, buffer, p);
    var (p1, stop) := ProcessLine(parse, buffer, p);
    assert Leftover(parse, buffer, p) == p1;
    if !stop {
      assert Trim("") == "";
      assert Leftover(parse, "", p1) == p1;
    }
  }

  /** A body read as several chunks is read as their concatenation. */
  lemma OneChunk(parse: Parser, cs: seq<string>)
    requires |cs| >= 1
    ensures Chat(parse, Body(Chunks(cs))) == ReadLoop(parse, [], Feed(parse, Init, Concat(cs)))
  {
    ChunkBoundaryIndependence(parse, cs, []);
    assert Chunks(cs) + [] == Chunks(cs);
    ReadChunk(parse, Concat(cs), [], Init);
    assert Chat(parse, Body([Chunk(Concat(cs))] + [])) == ReadLoop(parse, [Chunk(Concat(cs))] + [], Init);
  }

  /** A body whose last record ends with a newline and the same body without that newline give
      the same call. */
  lemma TrailingNewlineIrrelevant(parse: Parser, cs: seq<string>)
    requires |cs| >= 1
    ensures Chat(parse, Body(Chunks(cs + ["\n"]))) == Chat(parse, Body(Chunks(cs)))
  {
    OneChunk(parse, cs);
    OneChunk(parse, cs + ["\n"]);
    assert Concat(cs + ["\n"]) == Concat(cs) + "\n" by { assert (cs + ["\n"])[..|cs|] == cs; }
    FeedAppend(parse, Init, Concat(cs), "\n");
    var rd := Feed(parse, Init, Concat(cs));
    if rd.Reading? {
      FinalNewlineIrrelevant(parse, rd.buffer, rd.progress);
    }
  }

  /** The state after feeding several chunks. */
  function FeedAll(parse: Parser, rd: Reader, cs: seq<string>): Reader
    decreases |cs|
  {
    if |cs| == 0 then rd else FeedAll(parse, Feed(parse, rd, cs[0]), cs[1..])
  }

  lemma {:induction false} ConsistentFeedAll(parse: Parser, rd: Reader, cs: seq<string>)
    requires Consistent(rd.progress)
    ensures Consistent(FeedAll(parse, rd, cs).progress)
    decreases |cs|
  {
    if |cs| > 0 {
      ConsistentFeedAll(parse, Feed(parse, rd, cs[0]), cs[1..]);
    }
  }

  lemma {:induction false} ChunksThen(parse: Parser, cs: seq<string>, tail: seq<Read>, rd: Reader)
    ensures ReadLoop(parse, Chunks(cs) + tail, rd) == ReadLoop(parse, tail, FeedAll(parse, rd, cs))
    decreases |cs|
  {
    if |cs| == 0 {
      assert Chunks(cs) + tail == tail;
    } else {
      assert Chunks(cs) + tail == [Chunk(cs[0])] + (Chunks(cs[1..]) + tail);
      ReadChunk(parse, cs[0], Chunks(cs[1..]) + tail, rd);
      ChunksThen(parse, cs[1..], tail, Feed(parse, rd, cs[0]));
    }
  }

  /** An abort after some chunks calls `onDone` with the text accumulated so far and returns
      it; `onError` is not called. */
  lemma AbortReturnsPartial(parse: Parser, cs: seq<string>, tail: seq<Read>)
    ensures Chat(parse, Body(Chunks(cs) + [Aborted] + tail)) == Complete(FeedAll(parse, Init, cs).progress)
    ensures Chat(parse, FetchAborted) == Complete(Start)
  {
    assert Chunks(cs) + [Aborted] + tail == Chunks(cs) + ([Aborted] + tail);
    assert Chat(parse, Body(Chunks(cs) + [Aborted] + tail)) == ReadLoop(parse, Chunks(cs) + ([Aborted] + tail), Init);
    ChunksThen(parse, cs, [Aborted] + tail, Init);
    assert ([Aborted] + tail)[0] == Aborted;
  }

  /** A status that is not ok produces no token: only `onError` with the status message, which
      starts with `Ollama error (` and carries the status in decimal, and the call throws it. */
  lemma HttpErrorReported(parse: Parser, status: nat, body: string)
    ensures var m := StatusMessage(status, body);
      && Chat(parse, HttpError(status, body)) == Call([Error(m)], Thrown(m))
      && m[..14] == "Ollama error ("
      && DecimalValue(m[14..14 + |NatToString(status)|]) == status
      && m[14 + |NatToString(status)|..] == "): " + body
  {
    var m := StatusMessage(status, body);
    var d := NatToString(status);
    assert m == "Ollama error (" + d + "): " + body;
    assert m[..14] == "Ollama error (";
    assert m[14..14 + |d|] == d;
    assert m[14 + |d|..] == "): " + body;
    DecimalRoundTrip(status);
    assert TokenEvents([]) == [];
  }

  /** With no failing read, the call always completes and returns. */
  lemma {:induction false} ReturnsWithoutFailure(parse: Parser, results: seq<Read>, rd: Reader)
    requires forall k :: 0 <= k < |results| ==> !results[k].Failed?
    ensures ReadLoop(parse, results, rd).outcome.Returned?
    decreases |results|
  {
    if rd.Reading? && |results| > 0 && results[0].Chunk? {
      ReturnsWithoutFailure(parse, results[1..], Feed(parse, rd, results[0].text));
    }
  }
}
