/** The chat widget's client side: the text sent for a question, and the
    decoder that turns the streamed reply into the answer shown on screen.

    The reply arrives as text chunks. Each chunk is split on "\n" on its
    own, with no partial line carried to the next chunk. A line counts only
    if it starts with the frame marker `data: `; its payload is trimmed,
    skipped when empty or `[DONE]`, and otherwise handed to a JSON parser.
    Every parsed `text-delta` event with a non-empty `delta` appends that
    delta to the answer, and each new value of the answer is published to
    the screen. JSON parsing is a parameter of the model. */
module ChatStream {
  import opened Wrappers
  import opened JsStrings

  /** What the decoder reads from a parsed frame: its `type` field when that
      is a string, and its `delta` field as the text `+=` would append when
      that field is truthy (`None` when it is falsy or missing). A truthy
      field whose string form is empty, such as `[]`, gives `Some("")`. */
  datatype Event = Event(kind: Option<string>, delta: Option<string>)

  /** `JSON.parse` followed by the decoder's field reads. `None` stands for a
      payload on which either of them throws. */
  type Parser = string -> Option<Event>

  const DataPrefix: string := "data: "
  const DoneSentinel: string := "[DONE]"
  const TextDeltaType: string := "text-delta"
  const ErrorReply: string := "An error occurred reaching the AI Tutor."

  // ---------------------------------------------------------------------
  // The outgoing question
  // ---------------------------------------------------------------------

  /** The text of the user message: the question itself, followed by a note
      naming the current lesson when the lesson title is truthy. */
  function OutgoingText(question: string, lessonTitle: Option<string>): (r: string)
    ensures question <= r
    ensures r == question <==> !Truthy(lessonTitle)
    ensures Truthy(lessonTitle) ==>
      r[|question|..] == " (Current lesson: " + lessonTitle.value + ")"
  {
    question + (if Truthy(lessonTitle) then " (Current lesson: " + lessonTitle.value + ")" else "")
  }

  // ---------------------------------------------------------------------
  // Specification of the decoder, line by line and chunk by chunk
  // ---------------------------------------------------------------------

  /** The trimmed payload of a frame line, `None` for any other line.
      `line.replace("data: ", "")` removes the first occurrence of the marker,
      which on a frame line is its prefix. */
  function Payload(line: string): (r: Option<string>)
    ensures r.Some? <==> DataPrefix <= line
    ensures r.Some? ==> |r.value| <= |line| - |DataPrefix|
  {
    if DataPrefix <= line then Some(Trim(line[|DataPrefix|..])) else None
  }

  /** The text one line adds to the answer: the delta of a parsed
      `text-delta` frame, and nothing for every other line. */
  function LineDelta(parse: Parser, line: string): (r: string)
    ensures r != "" ==>
      && Payload(line).Some?
      && Payload(line).value != "" && Payload(line).value != DoneSentinel
      && parse(Payload(line).value) == Some(Event(Some(TextDeltaType), Some(r)))
  {
    match Payload(line)
    case None => ""
    case Some(payload) =>
      if payload == "" || payload == DoneSentinel then ""
      else
        match parse(payload)
        case None => ""
        case Some(ev) =>
          if ev.kind == Some(TextDeltaType) && ev.delta.Some? then ev.delta.value else ""
  }

  /** How one line contributes text: the decoding below is stated for any
      such rule, and the widget uses `FrameRule`. */
  type LineRule = string -> string

  /** The widget's rule: a line adds the delta of the frame it carries. */
  function FrameRule(parse: Parser): LineRule {
    line => LineDelta(parse, line)
  }

  /** The text a run of lines adds, in order. */
  function LinesText(delta: LineRule, lines: seq<string>): string {
    if lines == [] then ""
    else LinesText(delta, lines[..|lines| - 1]) + delta(lines[|lines| - 1])
  }

  /** The text one chunk adds: the chunk is split on "\n" by itself. */
  function ChunkText(delta: LineRule, chunk: string): string {
    LinesText(delta, Split(chunk, '\n'))
  }

  /** How a chunk is cut into lines. The decoding of a whole reply is
      stated for any such cut, and the widget uses `ByNewline`. */
  type Splitter = string -> seq<string>

  /** The widget's cut: `chunk.split("\n")`. */
  const ByNewline: Splitter := chunk => Split(chunk, '\n')

  /** The text a whole reply adds: each chunk cut into lines by itself and
      decoded independently. */
  function StreamText(split: Splitter, delta: LineRule, chunks: seq<string>): string {
    if chunks == [] then ""
    else StreamText(split, delta, chunks[..|chunks| - 1]) + LinesText(delta, split(chunks[|chunks| - 1]))
  }

  /** The values published to the screen while a run of lines is decoded
      onto the answer `acc`: one value after each non-empty delta. */
  function Updates(delta: LineRule, acc: string, lines: seq<string>): seq<string> {
    if lines == [] then []
    else
      Updates(delta, acc, lines[..|lines| - 1])
        + (if delta(lines[|lines| - 1]) == "" then [] else [acc + LinesText(delta, lines)])
  }

  /** The values published while a whole reply is decoded onto `acc`. */
  function StreamUpdates(split: Splitter, delta: LineRule, acc: string, chunks: seq<string>): seq<string> {
    if chunks == [] then []
    else
      var init := chunks[..|chunks| - 1];
      StreamUpdates(split, delta, acc, init)
        + Updates(delta, acc + StreamText(split, delta, init), split(chunks[|chunks| - 1]))
  }

  /** The published values only grow: starting from `lo`, each one strictly
      extends the one before, and the last one (or `lo` itself when nothing
      was published) is `hi`. */
  ghost predicate Publishes(lo: string, log: seq<string>, hi: string)
    decreases |log|
  {
    if log == [] then lo == hi else lo < log[0] && Publishes(log[0], log[1..], hi)
  }

  lemma PrefixTransitive(a: string, b: string, c: string)
    requires a <= b && b <= c
    ensures a <= c
  {
    assert c[..|b|][..|a|] == c[..|a|];
  }

  /** What `Publishes` promises about any two values of the log. */
  lemma {:induction false} PublishesOrdered(lo: string, log: seq<string>, hi: string)
    requires Publishes(lo, log, hi)
    ensures lo <= hi
    ensures forall i :: 0 <= i < |log| ==> lo < log[i] <= hi
    ensures forall i, j :: 0 <= i < j < |log| ==> log[i] < log[j]
    ensures log != [] ==> log[|log| - 1] == hi
    decreases |log|
  {
    if log != [] {
      var rest := log[1..];
      PublishesOrdered(log[0], rest, hi);
      PrefixTransitive(lo, log[0], hi);
      forall i | 0 <= i < |log| ensures lo < log[i] <= hi {
        if i > 0 {
          assert log[i] == rest[i - 1];
          PrefixTransitive(lo, log[0], log[i]);
        }
      }
      forall i, j | 0 <= i < j < |log| ensures log[i] < log[j] {
        assert log[j] == rest[j - 1];
        if i > 0 {
          assert log[i] == rest[i - 1];
        }
      }
    }
  }

  /** Two publishing phases, the second starting where the first ended,
      publish as one. */
  lemma {:induction false} PublishesChain(lo: string, a: seq<string>, mid: string, b: seq<string>, hi: string)
    requires Publishes(lo, a, mid) && Publishes(mid, b, hi)
    ensures Publishes(lo, a + b, hi)
    decreases |a|
  {
    if a == [] {
      assert a + b == b;
    } else {
      PublishesChain(a[0], a[1..], mid, b, hi);
      assert (a + b)[1..] == a[1..] + b;
    }
  }

  /** While lines are decoded, the published answer only grows and ends at
      the decoded text. */
  lemma {:induction false} UpdatesPublish(delta: LineRule, acc: string, lines: seq<string>)
    ensures Publishes(acc, Updates(delta, acc, lines), acc + LinesText(delta, lines))
  {
    if lines != [] {
      var init := lines[..|lines| - 1];
      var d := delta(lines[|lines| - 1]);
      var mid := acc + LinesText(delta, init);
      UpdatesPublish(delta, acc, init);
      assert mid + d == acc + LinesText(delta, lines);
      PublishesChain(acc, Updates(delta, acc, init), mid,
                     if d == "" then [] else [mid + d], mid + d);
    }
  }

  /** Over a whole reply the published answer only grows: every value shown
      extends the one shown before it, and the last one shown is the decoded
      reply. */
  lemma {:induction false} StreamUpdatesPublish(split: Splitter, delta: LineRule, acc: string, chunks: seq<string>)
    ensures Publishes(acc, StreamUpdates(split, delta, acc, chunks), acc + StreamText(split, delta, chunks))
  {
    if chunks != [] {
      var init := chunks[..|chunks| - 1];
      var last := chunks[|chunks| - 1];
      var mid := acc + StreamText(split, delta, init);
      StreamUpdatesPublish(split, delta, acc, init);
      UpdatesPublish(delta, mid, split(last));
      assert mid + LinesText(delta, split(last)) == acc + StreamText(split, delta, chunks);
      PublishesChain(acc, StreamUpdates(split, delta, acc, init), mid,
                     Updates(delta, mid, split(last)), acc + StreamText(split, delta, chunks));
    }
  }

  /** Decoding one more chunk of a reply extends the text and the
      published values by what that chunk adds. */
  lemma StreamStep(split: Splitter, delta: LineRule, acc: string, log: seq<string>, chunks: seq<string>, k: nat,
                   text: string, shown: seq<string>)
    requires k < |chunks|
    requires text == acc + StreamText(split, delta, chunks[..k])
    requires shown == log + StreamUpdates(split, delta, acc, chunks[..k])
    ensures text + LinesText(delta, split(chunks[k])) == acc + StreamText(split, delta, chunks[..k + 1])
    ensures shown + Updates(delta, text, split(chunks[k]))
         == log + StreamUpdates(split, delta, acc, chunks[..k + 1])
  {
    var done := chunks[..k + 1];
    assert done[..k] == chunks[..k];
    assert done[k] == chunks[k];
    assert StreamText(split, delta, done)
        == StreamText(split, delta, chunks[..k]) + LinesText(delta, split(chunks[k]));
    assert StreamUpdates(split, delta, acc, done)
        == StreamUpdates(split, delta, acc, chunks[..k]) + Updates(delta, text, split(chunks[k]));
  }

  /** Decoding one more line of a chunk extends the text and the published
      values by what that line adds. */
  lemma LinesStep(delta: LineRule, acc: string, log: seq<string>, lines: seq<string>, i: nat,
                  text: string, shown: seq<string>)
    requires i < |lines|
    requires text == acc + LinesText(delta, lines[..i])
    requires shown == log + Updates(delta, acc, lines[..i])
    ensures text + delta(lines[i]) == acc + LinesText(delta, lines[..i + 1])
    ensures shown + (if delta(lines[i]) == "" then [] else [text + delta(lines[i])])
         == log + Updates(delta, acc, lines[..i + 1])
  {
    assert lines[..i + 1][..i] == lines[..i];
  }

  /** Lines are decoded independently of each other. */
  lemma {:induction false} LinesTextAppend(delta: LineRule, a: seq<string>, b: seq<string>)
    ensures LinesText(delta, a + b) == LinesText(delta, a) + LinesText(delta, b)
  {
    if b != [] {
      var ab := a + b;
      assert ab[..|ab| - 1] == a + b[..|b| - 1];
      assert ab[|ab| - 1] == b[|b| - 1];
      LinesTextAppend(delta, a, b[..|b| - 1]);
    } else {
      assert a + b == a;
    }
  }

  /** Chunks are decoded independently of each other. */
  lemma {:induction false} StreamTextAppend(split: Splitter, delta: LineRule, a: seq<string>, b: seq<string>)
    ensures StreamText(split, delta, a + b) == StreamText(split, delta, a) + StreamText(split, delta, b)
  {
    if b != [] {
      var ab := a + b;
      assert ab[..|ab| - 1] == a + b[..|b| - 1];
      assert ab[|ab| - 1] == b[|b| - 1];
      StreamTextAppend(split, delta, a, b[..|b| - 1]);
    } else {
      assert a + b == a;
    }
  }

  /** A line that adds no text can be dropped from anywhere in the stream
      without changing what the other lines add: lines that are not frames,
      empty or `[DONE]` payloads, payloads the parser rejects, and events
      that are not non-empty `text-delta`s. In particular `[DONE]` does not
      end decoding: the lines after it still count. */
  lemma InertLineIgnored(delta: LineRule, before: seq<string>, line: string, after: seq<string>)
    requires delta(line) == ""
    ensures LinesText(delta, before + [line] + after) == LinesText(delta, before + after)
  {
    LinesTextAppend(delta, before + [line], after);
    LinesTextAppend(delta, before, after);
    assert (before + [line])[..|before|] == before;
  }

  /** The lines that add no text, case by case. */
  lemma SkippedLines(parse: Parser, line: string)
    ensures !(DataPrefix <= line) ==> LineDelta(parse, line) == ""
    ensures Payload(line) == Some("") ==> LineDelta(parse, line) == ""
    ensures Payload(line) == Some(DoneSentinel) ==> LineDelta(parse, line) == ""
    ensures Payload(line).Some? && parse(Payload(line).value).None? ==> LineDelta(parse, line) == ""
    ensures Payload(line).Some? && parse(Payload(line).value).Some?
            && parse(Payload(line).value).value.kind != Some(TextDeltaType)
            ==> LineDelta(parse, line) == ""
    ensures Payload(line).Some? && parse(Payload(line).value).Some?
            && parse(Payload(line).value).value.delta in {None, Some("")}
            ==> LineDelta(parse, line) == ""
  {
  }

  /** A chunk splits at each "\n" into independently decoded parts. */
  lemma ChunkTextSplitsAtNewline(delta: LineRule, x: string, y: string)
    ensures ChunkText(delta, x + "\n" + y) == ChunkText(delta, x) + ChunkText(delta, y)
  {
    SplitAround(x, y, '\n');
    LinesTextAppend(delta, Split(x, '\n'), Split(y, '\n'));
  }

  /** A chunk that ends in "\n" decodes the same on its own as glued to the
      next one. */
  lemma ChunkTextGlue(delta: LineRule, a: string, b: string)
    requires delta("") == ""
    requires a != [] && a[|a| - 1] == '\n'
    ensures ChunkText(delta, a + b) == ChunkText(delta, a) + ChunkText(delta, b)
  {
    var x := a[..|a| - 1];
    assert a == x + "\n" + "";
    assert a + b == x + "\n" + b;
    ChunkTextSplitsAtNewline(delta, x, b);
    ChunkTextSplitsAtNewline(delta, x, "");
    assert Split("", '\n') == [""];
    assert LinesText(delta, [""]) == LinesText(delta, []) + delta("");
  }

  /** The chunks of a reply, concatenated. */
  function Flatten(chunks: seq<string>): string {
    if chunks == [] then "" else chunks[0] + Flatten(chunks[1..])
  }

  /** A reply of one chunk decodes as that chunk. */
  lemma OneChunk(delta: LineRule, chunk: string)
    ensures StreamText(ByNewline, delta, [chunk]) == ChunkText(delta, chunk)
  {
    assert [chunk][..0] == [];
    assert ByNewline(chunk) == Split(chunk, '\n');
    assert StreamText(ByNewline, delta, [chunk]) == "" + ChunkText(delta, chunk);
  }

  /** When every chunk except possibly the last ends in "\n", the reply
      decodes to the same text as the whole reply delivered in one chunk. */
  lemma {:induction false} NewlineAlignedChunks(delta: LineRule, chunks: seq<string>)
    requires delta("") == ""
    requires forall i :: 0 <= i < |chunks| - 1 ==> chunks[i] != [] && chunks[i][|chunks[i]| - 1] == '\n'
    ensures StreamText(ByNewline, delta, chunks) == ChunkText(delta, Flatten(chunks))
  {
    if chunks != [] {
      var first := chunks[0];
      var rest := chunks[1..];
      assert chunks == [first] + rest;
      OneChunk(delta, first);
      if rest == [] {
        assert Flatten(chunks) == first + "";
        assert first + "" == first;
      } else {
        assert Flatten(chunks) == first + Flatten(rest);
        StreamTextAppend(ByNewline, delta, [first], rest);
        NewlineAlignedChunks(delta, rest);
        ChunkTextGlue(delta, first, Flatten(rest));
      }
    }
  }

  // ---------------------------------------------------------------------
  // The decoder as the widget runs it
  // ---------------------------------------------------------------------

  /** The `fullResponse` accumulator of one reply, with the log of values
      handed to the screen. */
  class FrameDecoder {
    const parse: Parser
    /** The line rule the decoder follows: `FrameRule(parse)`. */
    ghost const rule: LineRule
    /** The cut of a chunk into lines the decoder follows: `ByNewline`. */
    ghost const lines: Splitter
    var fullResponse: string
    /** Every value handed to the screen so far, in order. */
    ghost var published: seq<string>

    /** The decoder follows the frame rule and cuts chunks at "\n". What it
        publishes is stated exactly by the methods below; that the answer
        on screen only grows is `StreamUpdatesPublish`. */
    ghost predicate Valid() {
      && (forall line {:trigger LineDelta(parse, line)} :: rule(line) == LineDelta(parse, line))
      && (forall chunk {:trigger Split(chunk, '\n')} :: lines(chunk) == Split(chunk, '\n'))
    }

    constructor(parse: Parser)
      ensures Valid()
      ensures this.parse == parse && rule == FrameRule(parse) && lines == ByNewline
      ensures fullResponse == "" && published == []
    {
      this.parse := parse;
      rule := FrameRule(parse);
      lines := ByNewline;
      fullResponse := "";
      published := [];
    }

    /** One pass of the line loop: a frame line with a non-empty, non-`[DONE]`
        payload that parses to a `text-delta` event with a truthy `delta`
        appends it and publishes the new answer; every other line is
        skipped. A truthy delta with an empty string form leaves the answer
        as it is, and handing that same answer to the screen again is not
        logged. */
    method FeedLine(line: string)
      requires Valid()
      modifies this
      ensures fullResponse == old(fullResponse) + rule(line)
      ensures published == old(published) + (if rule(line) == "" then [] else [fullResponse])
    {
      assert rule(line) == LineDelta(parse, line);
      if DataPrefix <= line {
        var dataStr := Trim(line[|DataPrefix|..]);
        if dataStr == "" || dataStr == DoneSentinel {
          return;
        }
        match parse(dataStr) {
          case None =>
          case Some(ev) =>
            if ev.kind == Some(TextDeltaType) && ev.delta.Some? && ev.delta.value != "" {
              fullResponse := fullResponse + ev.delta.value;
              published := published + [fullResponse];
            }
        }
      }
    }

    /** Decodes the lines of one chunk onto the accumulator. */
    method FeedChunk(chunk: string)
      requires Valid()
      modifies this
      ensures fullResponse == old(fullResponse) + LinesText(rule, lines(chunk))
      ensures published == old(published) + Updates(rule, old(fullResponse), lines(chunk))
    {
      var ls := Split(chunk, '\n');
      assert ls == lines(chunk);
      for i := 0 to |ls|
        invariant fullResponse == old(fullResponse) + LinesText(rule, ls[..i])
        invariant published == old(published) + Updates(rule, old(fullResponse), ls[..i])
      {
        LinesStep(rule, old(fullResponse), old(published), ls, i, fullResponse, published);
        FeedLine(ls[i]);
      }
      assert ls[..|ls|] == ls;
    }

    /** The read loop: decodes chunks until the reader reports `done`, which
        here is the end of `chunks`. */
    method ReadStream(chunks: seq<string>)
      requires Valid()
      modifies this
      ensures fullResponse == old(fullResponse) + StreamText(lines, rule, chunks)
      ensures published == old(published) + StreamUpdates(lines, rule, old(fullResponse), chunks)
    {
      var k := 0;
      while true
        invariant 0 <= k <= |chunks|
        invariant fullResponse == old(fullResponse) + StreamText(lines, rule, chunks[..k])
        invariant published == old(published) + StreamUpdates(lines, rule, old(fullResponse), chunks[..k])
        decreases |chunks| - k
      {
        if k == |chunks| {
          break;
        }
        StreamStep(lines, rule, old(fullResponse), old(published), chunks, k, fullResponse, published);
        FeedChunk(chunks[k]);
        k := k + 1;
      }
      assert chunks[..k] == chunks;
    }
  }

  // ---------------------------------------------------------------------
  // The widget
  // ---------------------------------------------------------------------

  /** How the request to the chat endpoint turned out: `fetch` rejected, the
      response had no body, or the body delivered `chunks` and then either
      reported `done` or failed to read. */
  datatype ChatReply = FetchRejected | NoBody | Body(chunks: seq<string>, readFailed: bool)

  /** The answer shown once the request has settled. */
  function ReplyText(parse: Parser, reply: ChatReply): (r: string)
    ensures reply.Body? && !reply.readFailed ==> r == StreamText(ByNewline, FrameRule(parse), reply.chunks)
    ensures !(reply.Body? && !reply.readFailed) ==> r == ErrorReply
  {
    match reply
    case Body(chunks, false) => StreamText(ByNewline, FrameRule(parse), chunks)
    case _ => ErrorReply
  }

  /** The values shown while the request settles, after the initial reset. */
  function ReplyUpdates(parse: Parser, reply: ChatReply): seq<string> {
    match reply
    case Body(chunks, readFailed) =>
      StreamUpdates(ByNewline, FrameRule(parse), "", chunks) + (if readFailed then [ErrorReply] else [])
    case _ => [ErrorReply]
  }

  /** The screen ends on the settled answer: the last value shown while a
      request settles is the answer the widget keeps. */
  lemma ReplyEndsOnAnswer(parse: Parser, reply: ChatReply)
    ensures var log := [""] + ReplyUpdates(parse, reply);
            log[|log| - 1] == ReplyText(parse, reply)
  {
    if reply.Body? {
      StreamUpdatesPublish(ByNewline, FrameRule(parse), "", reply.chunks);
      PublishesOrdered("", StreamUpdates(ByNewline, FrameRule(parse), "", reply.chunks), "" + StreamText(ByNewline, FrameRule(parse), reply.chunks));
      assert "" + StreamText(ByNewline, FrameRule(parse), reply.chunks) == StreamText(ByNewline, FrameRule(parse), reply.chunks);
    }
  }

  /** What a decoded body leaves on screen, once a failed read has had its
      say, is the settled answer and its log. */
  lemma BodySettles(parse: Parser, reply: ChatReply, text: string, shown: seq<string>)
    requires reply.Body?
    requires text == "" + StreamText(ByNewline, FrameRule(parse), reply.chunks)
    requires shown == [] + StreamUpdates(ByNewline, FrameRule(parse), "", reply.chunks)
    ensures (if reply.readFailed then ErrorReply else text) == ReplyText(parse, reply)
    ensures shown + (if reply.readFailed then [ErrorReply] else []) == ReplyUpdates(parse, reply)
  {
    assert [] + StreamUpdates(ByNewline, FrameRule(parse), "", reply.chunks)
        == StreamUpdates(ByNewline, FrameRule(parse), "", reply.chunks);
  }

  /** Reads a reply body to its end with a fresh decoder: the answer it
      leaves on screen and every value it hands to the screen on the way,
      the error message last when a read failed. */
  method DecodeReply(parse: Parser, reply: ChatReply) returns (text: string, ghost shown: seq<string>)
    requires reply.Body?
    ensures text == ReplyText(parse, reply)
    ensures shown == ReplyUpdates(parse, reply)
  {
    var decoder := new FrameDecoder(parse);
    decoder.ReadStream(reply.chunks);
    text := decoder.fullResponse;
    shown := decoder.published;
    BodySettles(parse, reply, text, shown);
    if reply.readFailed {
      text := ErrorReply;
      shown := shown + [ErrorReply];
    }
  }

  /** The widget's state: the input box, the question being answered, the
      answer on screen and the loading flag. */
  class ChatWidget {
    const parse: Parser
    const lessonTitle: Option<string>
    var question: string
    var activeQuestion: string
    var response: string
    var loading: bool
    /** Every value handed to the screen so far, in order. */
    ghost var responseLog: seq<string>

    constructor(parse: Parser, lessonTitle: Option<string>)
      ensures this.parse == parse && this.lessonTitle == lessonTitle
      ensures question == "" && activeQuestion == "" && response == "" && !loading
      ensures responseLog == []
    {
      this.parse := parse;
      this.lessonTitle := lessonTitle;
      question := "";
      activeQuestion := "";
      response := "";
      loading := false;
      responseLog := [];
    }

    /** Typing in the input box. */
    method EditQuestion(text: string)
      modifies this
      ensures question == text
      ensures activeQuestion == old(activeQuestion) && response == old(response)
      ensures loading == old(loading) && responseLog == old(responseLog)
    {
      question := text;
    }

    /** Submitting the form. An empty question does nothing. Otherwise the
        input is cleared, the question becomes the active one, the answer is
        reset, the message text is sent, and the reply is decoded onto the
        screen; any failure of the request replaces the answer with a fixed
        error message, and loading ends in every case. */
    method AskAI(reply: ChatReply) returns (sent: Option<string>)
      modifies this
      ensures old(question) == "" ==> sent == None && unchanged(this)
      ensures old(question) != "" ==>
        && sent == Some(OutgoingText(old(question), lessonTitle))
        && question == ""
        && activeQuestion == old(question)
        && response == ReplyText(parse, reply)
        && !loading
        && responseLog == old(responseLog) + [""] + ReplyUpdates(parse, reply)
    {
      if question == "" {
        return None;
      }
      var userQuestion := question;
      question := "";
      activeQuestion := userQuestion;
      loading := true;
      response := "";
      responseLog := responseLog + [response];
      sent := Some(OutgoingText(userQuestion, lessonTitle));
      match reply {
        case FetchRejected =>
          response := ErrorReply;
          responseLog := responseLog + [response];
        case NoBody =>
          response := ErrorReply;
          responseLog := responseLog + [response];
        case Body(_, _) =>
          var text, shown := DecodeReply(parse, reply);
          response := text;
          responseLog := responseLog + shown;
      }
      loading := false;
    }
  }

  // ---------------------------------------------------------------------
  // Chunk boundaries inside a frame
  // ---------------------------------------------------------------------

  /** A chunk without "\n" is a single line. */
  lemma SingleLineChunk(delta: LineRule, chunk: string)
    requires '\n' !in chunk
    ensures ChunkText(delta, chunk) == delta(chunk)
  {
    SplitWithoutSeparator(chunk, '\n');
    assert LinesText(delta, [chunk]) == LinesText(delta, []) + delta(chunk);
  }

  /** A reply of two chunks decodes as the first chunk, then the second. */
  lemma TwoChunks(delta: LineRule, a: string, b: string)
    ensures StreamText(ByNewline, delta, [a, b]) == ChunkText(delta, a) + ChunkText(delta, b)
  {
    assert [a, b][..1] == [a];
    assert [a][..0] == [];
    assert ByNewline(a) == Split(a, '\n');
    assert ByNewline(b) == Split(b, '\n');
    assert StreamText(ByNewline, delta, [a]) == "" + ChunkText(delta, a);
    assert StreamText(ByNewline, delta, [a, b]) == StreamText(ByNewline, delta, [a]) + ChunkText(delta, b);
  }

  /** The frame marker alone is a frame with an empty payload. */
  lemma BareMarkerAddsNothing(parse: Parser)
    ensures LineDelta(parse, DataPrefix) == ""
  {
    assert DataPrefix[|DataPrefix|..] == "";
  }

  /** A JSON object on a line of its own is no frame. */
  lemma BareObjectAddsNothing(parse: Parser, frame: string)
    requires frame != [] && frame[0] == '{'
    ensures LineDelta(parse, frame) == ""
  {
    assert !(DataPrefix <= frame) by {
      if |DataPrefix| <= |frame| {
        assert frame[0] != DataPrefix[0];
      }
    }
  }

  /** A whole frame line carrying a `text-delta` event adds its delta. */
  lemma WholeFrameAddsDelta(parse: Parser, frame: string, text: string)
    requires parse(frame) == Some(Event(Some(TextDeltaType), Some(text))) && text != ""
    requires frame != [] && frame[0] == '{' && frame[|frame| - 1] == '}'
    ensures LineDelta(parse, DataPrefix + frame) == text
  {
    assert (DataPrefix + frame)[|DataPrefix|..] == frame;
    TrimKeepsUnpadded(frame);
    assert frame != DoneSentinel;
  }

  /** A frame whose marker and payload arrive in different chunks adds
      nothing when each chunk is split on its own, although the same text
      delivered whole adds the frame's delta. */
  lemma SplitFrameLosesDelta(parse: Parser, frame: string, text: string)
    requires parse(frame) == Some(Event(Some(TextDeltaType), Some(text))) && text != ""
    requires frame != [] && frame[0] == '{' && frame[|frame| - 1] == '}' && '\n' !in frame
    ensures StreamText(ByNewline, FrameRule(parse), [DataPrefix, frame]) == ""
    ensures ChunkText(FrameRule(parse), DataPrefix + frame) == text
  {
    var rule := FrameRule(parse);
    TwoChunks(rule, DataPrefix, frame);
    SingleLineChunk(rule, DataPrefix);
    SingleLineChunk(rule, frame);
    BareMarkerAddsNothing(parse);
    BareObjectAddsNothing(parse, frame);
    assert '\n' !in DataPrefix + frame;
    SingleLineChunk(rule, DataPrefix + frame);
    WholeFrameAddsDelta(parse, frame, text);
  }

  /** The last index of `c` in `s`. */
  function LastIndexOf(s: string, c: char): (k: nat)
    requires c in s
    ensures k < |s| && s[k] == c && c !in s[k + 1..]
  {
    if s[|s| - 1] == c then |s| - 1
    else
      var k := LastIndexOf(s[..|s| - 1], c);
      assert s[k + 1..] == s[..|s| - 1][k + 1..] + [s[|s| - 1]];
      k
  }

  /** A decoder that holds the trailing partial line of each chunk until the
      rest of it arrives and decodes it as a last line at end of input. It
      is not what the widget does. */
  function BufferedFeed(delta: LineRule, pending: string, chunks: seq<string>): string
    decreases |chunks|
  {
    if chunks == [] then ChunkText(delta, pending)
    else
      var s := pending + chunks[0];
      if '\n' in s then
        var k := LastIndexOf(s, '\n');
        ChunkText(delta, s[..k]) + BufferedFeed(delta, s[k + 1..], chunks[1..])
      else BufferedFeed(delta, s, chunks[1..])
  }

  function BufferedDecode(delta: LineRule, chunks: seq<string>): string {
    BufferedFeed(delta, "", chunks)
  }

  lemma {:induction false} BufferedFeedMatchesWhole(delta: LineRule, pending: string, chunks: seq<string>)
    ensures BufferedFeed(delta, pending, chunks) == ChunkText(delta, pending + Flatten(chunks))
    decreases |chunks|
  {
    if chunks == [] {
      assert pending + Flatten(chunks) == pending;
    } else {
      var s := pending + chunks[0];
      assert pending + Flatten(chunks) == s + Flatten(chunks[1..]);
      if '\n' in s {
        var k := LastIndexOf(s, '\n');
        BufferedFeedMatchesWhole(delta, s[k + 1..], chunks[1..]);
        assert s + Flatten(chunks[1..]) == s[..k] + "\n" + (s[k + 1..] + Flatten(chunks[1..]));
        ChunkTextSplitsAtNewline(delta, s[..k], s[k + 1..] + Flatten(chunks[1..]));
      } else {
        BufferedFeedMatchesWhole(delta, s, chunks[1..]);
      }
    }
  }

  /** With the partial line held back, every way of cutting a reply into
      chunks, mid-frame included, decodes to the text of the whole reply. */
  lemma BufferedDecodeMatchesWhole(delta: LineRule, chunks: seq<string>)
    ensures BufferedDecode(delta, chunks) == ChunkText(delta, Flatten(chunks))
  {
    BufferedFeedMatchesWhole(delta, "", chunks);
    assert "" + Flatten(chunks) == Flatten(chunks);
  }
}
