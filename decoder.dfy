/**
 * The read loop shared by `streamSuperChat` and `streamCouncil`: chunks of
 * response text are split into lines, blank and untagged lines are skipped,
 * each `data: ` line is parsed and its event delivered, and delivery stops
 * at the first event whose type is `error`. `Delivered` says what the whole
 * loop delivers for a given response; `ReadStream` is the loop itself.
 */
module StreamDecoder {
  import opened Wrappers
  import opened Events
  import opened Lines

  /** The tag that marks a data-bearing line. */
  const DataPrefix: string := "data: "

  /** Message used when a failed request carries no message of its own. */
  const NetworkErrorMessage: string := "Network error occurred"

  /** Prefix of the message of the event synthesised for a failed read. */
  const StreamErrorPrefix: string := "Stream error: "

  // ---------------------------------------------------------------------
  // String.prototype.trim and startsWith
  // ---------------------------------------------------------------------

  /** The characters `trim()` removes: ECMAScript WhiteSpace and LineTerminator. */
  const JsWhitespace: set<char> := {
    '\t', '\U{000B}', '\U{000C}', ' ', '\U{00A0}', '\U{FEFF}', '\U{1680}',
    '\U{2000}', '\U{2001}', '\U{2002}', '\U{2003}', '\U{2004}', '\U{2005}',
    '\U{2006}', '\U{2007}', '\U{2008}', '\U{2009}', '\U{200A}',
    '\U{202F}', '\U{205F}', '\U{3000}',
    '\n', '\r', '\U{2028}', '\U{2029}'
  }

  predicate IsJsWhitespace(c: char) {
    c in JsWhitespace
  }

  predicate IsBlank(s: string) {
    forall i :: 0 <= i < |s| ==> IsJsWhitespace(s[i])
  }

  /** `s` with its leading whitespace removed. */
  function TrimStart(s: string): (r: string)
    ensures |r| <= |s| && r == s[|s| - |r|..]
    ensures forall i :: 0 <= i < |s| - |r| ==> IsJsWhitespace(s[i])
    ensures r != [] ==> !IsJsWhitespace(r[0])
  {
    if s != [] && IsJsWhitespace(s[0]) then
      assert forall i :: 1 <= i < |s| ==> s[i] == s[1..][i - 1];
      TrimStart(s[1..])
    else s
  }

  /** `s` with its trailing whitespace removed. */
  function TrimEnd(s: string): (r: string)
    ensures |r| <= |s| && r == s[..|r|]
    ensures forall i :: |r| <= i < |s| ==> IsJsWhitespace(s[i])
    ensures r != [] ==> !IsJsWhitespace(r[|r| - 1])
  {
    if s != [] && IsJsWhitespace(s[|s| - 1]) then
      assert forall i :: 0 <= i < |s| - 1 ==> s[i] == s[..|s| - 1][i];
      TrimEnd(s[..|s| - 1])
    else s
  }

  /** `s.trim()` */
  function Trim(s: string): string {
    TrimEnd(TrimStart(s))
  }

  /** `line.trim() === ''` holds exactly for lines made of whitespace only. */
  lemma TrimEmptyIffBlank(s: string)
    ensures Trim(s) == "" <==> IsBlank(s)
  {
    var t := TrimStart(s);
    if t != [] {
      assert t[0] == s[|s| - |t|];
    }
  }

  /** `s.startsWith(prefix)` */
  predicate StartsWith(s: string, prefix: string) {
    |prefix| <= |s| && s[..|prefix|] == prefix
  }

  /** A data line is never blank, so the blank-line check never hides one. */
  lemma DataLineNotBlank(line: string)
    requires StartsWith(line, DataPrefix)
    ensures Trim(line) != ""
  {
    assert line[0] == 'd';
    TrimEmptyIffBlank(line);
  }

  // ---------------------------------------------------------------------
  // One line
  // ---------------------------------------------------------------------

  /**
   * What one complete line contributes: nothing for a blank line (one that
   * `trim()` empties, see TrimEmptyIffBlank), a line without the tag, or a
   * tagged line whose payload does not parse; the parsed event otherwise.
   * `parse` stands for `JSON.parse`.
   */
  function DecodeLine(parse: string -> Option<Event>, line: string): (r: Option<Event>)
    ensures r.Some? ==> !IsBlank(line) && StartsWith(line, DataPrefix)
  {
    if IsBlank(line) then None
    else if StartsWith(line, DataPrefix) then parse(line[|DataPrefix|..])
    else None
  }

  /**
   * The event of a data line is the parse of the text after the six-character
   * tag; when that parse fails the line contributes nothing.
   */
  lemma DecodeDataLine(parse: string -> Option<Event>, line: string)
    requires StartsWith(line, DataPrefix)
    ensures |DataPrefix| == 6
    ensures DecodeLine(parse, line) == parse(line[6..])
  {
    DataLineNotBlank(line);
    TrimEmptyIffBlank(line);
  }

  /** A line whose decoded event is an error event. */
  predicate IsErrorLine(parse: string -> Option<Event>, line: string) {
    var r := DecodeLine(parse, line);
    r.Some? && IsError(r.value)
  }

  // ---------------------------------------------------------------------
  // A sequence of complete lines
  // ---------------------------------------------------------------------

  /** What the `for…of` over complete lines delivers, and whether it returned on an error event. */
  datatype Outcome = Outcome(events: seq<Event>, halted: bool)

  /**
   * The `for…of` over a batch of complete lines: each event is delivered
   * before its type is checked, and an error event ends the walk.
   */
  function DecodeLines(parse: string -> Option<Event>, lines: seq<string>): (o: Outcome)
    ensures o.halted ==> o.events != [] && IsError(o.events[|o.events| - 1])
    ensures forall i :: 0 <= i < |o.events| - 1 ==> !IsError(o.events[i])
    ensures !o.halted ==> forall i :: 0 <= i < |o.events| ==> !IsError(o.events[i])
    ensures |o.events| <= |lines|
    decreases |lines|
  {
    if lines == [] then Outcome([], false)
    else
      var rest := DecodeLines(parse, lines[1..]);
      match DecodeLine(parse, lines[0])
      case None => rest
      case Some(e) =>
        if IsError(e) then Outcome([e], true)
        else Outcome([e] + rest.events, rest.halted)
  }

  /** The walk halts exactly when some line decodes to an error event. */
  lemma {:induction false} HaltedIffErrorLine(parse: string -> Option<Event>, lines: seq<string>)
    ensures DecodeLines(parse, lines).halted <==> exists i :: 0 <= i < |lines| && IsErrorLine(parse, lines[i])
    decreases |lines|
  {
    if lines != [] {
      HaltedIffErrorLine(parse, lines[1..]);
      assert forall i :: 1 <= i < |lines| ==> lines[i] == lines[1..][i - 1];
    }
  }

  /** Reference reading: every event the lines decode to, in line order, with no early stop. */
  function Accepted(parse: string -> Option<Event>, lines: seq<string>): seq<Event> {
    if lines == [] then []
    else
      Contribution(parse, lines[0]) + Accepted(parse, lines[1..])
  }

  /** The events one line contributes: none, or the one it decodes to. */
  function Contribution(parse: string -> Option<Event>, line: string): seq<Event> {
    match DecodeLine(parse, line)
    case None => []
    case Some(e) => [e]
  }

  /** Without an error line every accepted line delivers its event exactly once, in order. */
  lemma {:induction false} DecodeLinesWithoutError(parse: string -> Option<Event>, lines: seq<string>)
    requires forall i :: 0 <= i < |lines| ==> !IsErrorLine(parse, lines[i])
    ensures DecodeLines(parse, lines) == Outcome(Accepted(parse, lines), false)
    decreases |lines|
  {
    if lines != [] {
      assert !IsErrorLine(parse, lines[0]);
      forall i | 0 <= i < |lines| - 1 ensures !IsErrorLine(parse, lines[1..][i]) {
        assert lines[1..][i] == lines[i + 1];
      }
      DecodeLinesWithoutError(parse, lines[1..]);
    }
  }

  /**
   * With an error line at `k` and none before it, exactly the events of the
   * lines up to and including line `k` are delivered, and the walk halts.
   */
  lemma {:induction false} DecodeLinesUpToError(parse: string -> Option<Event>, lines: seq<string>, k: nat)
    requires k < |lines| && IsErrorLine(parse, lines[k])
    requires forall i :: 0 <= i < k ==> !IsErrorLine(parse, lines[i])
    ensures DecodeLines(parse, lines) == Outcome(Accepted(parse, lines[..k + 1]), true)
    decreases k
  {
    if k > 0 {
      assert !IsErrorLine(parse, lines[0]);
      forall i | 0 <= i < k - 1 ensures !IsErrorLine(parse, lines[1..][i]) {
        assert lines[1..][i] == lines[i + 1];
      }
      assert lines[1..][k - 1] == lines[k];
      DecodeLinesUpToError(parse, lines[1..], k - 1);
      assert lines[..k + 1][1..] == lines[1..][..k];
      assert lines[..k + 1][0] == lines[0];
    }
  }

  /**
   * Walking `a + b` is walking `a` and, unless `a` already ended on an error
   * event, then walking `b`: nothing after an error line is looked at.
   */
  lemma {:induction false} DecodeLinesAppend(parse: string -> Option<Event>, a: seq<string>, b: seq<string>)
    ensures DecodeLines(parse, a + b) ==
      if DecodeLines(parse, a).halted then DecodeLines(parse, a)
      else Outcome(DecodeLines(parse, a).events + DecodeLines(parse, b).events, DecodeLines(parse, b).halted)
    decreases |a|
  {
    if a == [] {
      assert a + b == b;
    } else {
      assert (a + b)[0] == a[0];
      assert (a + b)[1..] == a[1..] + b;
      DecodeLinesAppend(parse, a[1..], b);
      var ra, rb := DecodeLines(parse, a[1..]), DecodeLines(parse, b);
      match DecodeLine(parse, a[0])
      case None =>
      case Some(e) =>
        if !IsError(e) && !ra.halted {
          assert [e] + (ra.events + rb.events) == ([e] + ra.events) + rb.events;
        }
    }
  }

  /**
   * `DeliverLines` is the `for…of` of the read loop: it skips blank lines and
   * lines without the tag, passes the tail of each data line to `parse`,
   * drops a line whose parse fails, hands every parsed event on and stops
   * right after an error event.
   */
  method DeliverLines(parse: string -> Option<Event>, lines: seq<string>) returns (events: seq<Event>, halted: bool)
    ensures Outcome(events, halted) == DecodeLines(parse, lines)
  {
    events, halted := [], false;
    var j := 0;
    while j < |lines| && !halted
      invariant 0 <= j <= |lines|
      invariant halted ==> DecodeLines(parse, lines) == Outcome(events, true)
      invariant !halted ==>
        var rest := DecodeLines(parse, lines[j..]);
        DecodeLines(parse, lines) == Outcome(events + rest.events, rest.halted)
    {
      var line := lines[j];
      assert lines[j..][1..] == lines[j + 1..];
      TrimEmptyIffBlank(line);
      if Trim(line) == "" {
        // blank line: `continue`
      } else if StartsWith(line, DataPrefix) {
        var data := parse(line[|DataPrefix|..]);
        match data
        case None =>
          // parse failure: logged and skipped
        case Some(e) =>
          assert [e] + DecodeLines(parse, lines[j + 1..]).events == [e] + DecodeLines(parse, lines[j..][1..]).events;
          events := events + [e];
          if IsError(e) {
            halted := true;
          }
      }
      j := j + 1;
    }
    if !halted {
      assert lines[j..] == [];
    }
  }

  // ---------------------------------------------------------------------
  // The whole response
  // ---------------------------------------------------------------------

  /** How the reads of an opened body end. */
  datatype Ending =
    | EndOfStream              // `reader.read()` reports `done`
    | ReadFailure(reason: string)  // `reader.read()` rejects with this message

  /**
   * What the transport produced for one streaming call: either the request
   * failed before any body could be read, or the body yielded these decoded
   * chunks, in order, and then ended as `ending` says.
   */
  datatype Response =
    | RequestFailed(reason: string)
    | Streamed(chunks: seq<string>, ending: Ending)

  /** `err.message || 'Network error occurred'` */
  function RequestErrorMessage(reason: string): (m: string)
    ensures m != ""
    ensures reason != "" ==> m == reason
  {
    if reason == "" then NetworkErrorMessage else reason
  }

  /** The text of the chunks, in order. */
  function Concat(chunks: seq<string>): string {
    if chunks == [] then "" else Concat(chunks[..|chunks| - 1]) + chunks[|chunks| - 1]
  }

  lemma {:induction false} ConcatAppend(a: seq<string>, b: seq<string>)
    ensures Concat(a + b) == Concat(a) + Concat(b)
    decreases |b|
  {
    if b == [] {
      assert a + b == a;
    } else {
      var init, last := b[..|b| - 1], b[|b| - 1];
      assert (a + b)[..|a + b| - 1] == a + init;
      assert (a + b)[|a + b| - 1] == last;
      ConcatAppend(a, init);
      calc {
        Concat(a + b);
        Concat(a + init) + last;
        (Concat(a) + Concat(init)) + last;
        Concat(a) + (Concat(init) + last);
      }
    }
  }

  /** Whether the complete lines of `text` contain an error event. */
  predicate HaltedBy(parse: string -> Option<Event>, text: string) {
    DecodeLines(parse, CompleteLines(text)).halted
  }

  /**
   * Every event handed to `onEvent` during one streaming call. Only
   * complete lines of the received text are decoded; an error event ends
   * everything; a failed read adds one synthetic error event after what was
   * already delivered; a failed request delivers one error event and nothing
   * else. An error event, if any, is the last event delivered.
   */
  function Delivered(parse: string -> Option<Event>, response: Response): (r: seq<Event>)
    ensures forall i :: 0 <= i < |r| - 1 ==> !IsError(r[i])
    ensures response.RequestFailed? ==> r == [ErrorEvent(RequestErrorMessage(response.reason))]
  {
    match response
    case RequestFailed(reason) => [ErrorEvent(RequestErrorMessage(reason))]
    case Streamed(chunks, ending) =>
      var o := DecodeLines(parse, CompleteLines(Concat(chunks)));
      if o.halted then o.events
      else
        match ending
        case EndOfStream => o.events
        case ReadFailure(reason) => o.events + [ErrorEvent(StreamErrorPrefix + reason)]
  }

  /** Once the text read so far holds an error event, further text changes nothing. */
  lemma HaltedIsFinal(parse: string -> Option<Event>, a: string, b: string)
    requires HaltedBy(parse, a)
    ensures HaltedBy(parse, a + b)
    ensures DecodeLines(parse, CompleteLines(a + b)) == DecodeLines(parse, CompleteLines(a))
  {
    LinesAppend(a, b);
    DecodeLinesAppend(parse, CompleteLines(a), CompleteLines(Pending(a) + b));
  }

  /**
   * After an error event nothing else is decoded or delivered: neither
   * the later lines, nor later chunks, nor how the stream ends.
   */
  lemma ErrorEventEndsStream(parse: string -> Option<Event>, chunks: seq<string>, later: seq<string>, e1: Ending, e2: Ending)
    requires HaltedBy(parse, Concat(chunks))
    ensures Delivered(parse, Streamed(chunks + later, e1)) == Delivered(parse, Streamed(chunks, e2))
  {
    ConcatAppend(chunks, later);
    HaltedIsFinal(parse, Concat(chunks), Concat(later));
  }

  /**
   * Text after the last newline is never decoded: appending an unterminated
   * final fragment, even a well-formed data line, delivers nothing more.
   */
  lemma PendingTextDropped(parse: string -> Option<Event>, chunks: seq<string>, tail: string, ending: Ending)
    requires NoNewline(tail)
    ensures Delivered(parse, Streamed(chunks + [tail], ending)) == Delivered(parse, Streamed(chunks, ending))
  {
    var text := Concat(chunks);
    ConcatAppend(chunks, [tail]);
    assert Concat([tail]) == Concat([]) + tail;
    LinesAppend(text, tail);
    LinesDecompose(text);
    assert NoNewline(Pending(text) + tail);
    NoNewlineNoLines(Pending(text) + tail);
    assert CompleteLines(text + tail) == CompleteLines(text);
  }

  /**
   * A failed read delivers exactly one more event, the synthetic error,
   * after the events already delivered, unless an error event had already
   * ended the stream.
   */
  lemma ReadFailureAddsOneEvent(parse: string -> Option<Event>, chunks: seq<string>, reason: string)
    ensures Delivered(parse, Streamed(chunks, ReadFailure(reason))) ==
      Delivered(parse, Streamed(chunks, EndOfStream)) +
      (if HaltedBy(parse, Concat(chunks)) then [] else [ErrorEvent(StreamErrorPrefix + reason)])
  {
  }

  /**
   * Chunk boundaries do not matter: a response delivers the same events as
   * the same text arriving in a single chunk. At this level it follows from
   * `Delivered` reading only the concatenated text; that the read loop itself
   * honours this is the contract of `ReadBody` (it delivers exactly
   * `Delivered`) together with that of `LineSplitter.Feed` (its emitted lines
   * are the complete lines of all text received).
   */
  lemma ChunkBoundariesIrrelevant(parse: string -> Option<Event>, chunks: seq<string>, ending: Ending)
    ensures Delivered(parse, Streamed(chunks, ending)) == Delivered(parse, Streamed([Concat(chunks)], ending))
  {
    var single := [Concat(chunks)];
    assert single[..0] == [];
    assert Concat(single) == Concat(chunks);
  }

  /** What is delivered once reading has stopped after `n` chunks. */
  lemma DeliveredAfterReads(parse: string -> Option<Event>, chunks: seq<string>, n: nat, ending: Ending)
    requires n <= |chunks|
    requires n < |chunks| ==> HaltedBy(parse, Concat(chunks[..n]))
    ensures var o := DecodeLines(parse, CompleteLines(Concat(chunks[..n])));
      Delivered(parse, Streamed(chunks, ending)) ==
        if o.halted then o.events
        else match ending
          case EndOfStream => o.events
          case ReadFailure(reason) => o.events + [ErrorEvent(StreamErrorPrefix + reason)]
  {
    if n < |chunks| {
      ErrorEventEndsStream(parse, chunks[..n], chunks[n..], ending, ending);
      assert chunks[..n] + chunks[n..] == chunks;
    } else {
      assert chunks[..n] == chunks;
    }
  }

  /**
   * The body of the read loop of `streamSuperChat` and `streamCouncil`: read
   * a chunk, feed it to the line buffer, walk the completed lines, stop on an
   * error event; on a failed read deliver one synthetic error event.
   * `chunksRead` counts the chunks taken from the body: reading stops at the
   * first chunk after which an error event has been delivered.
   */
  method ReadBody(parse: string -> Option<Event>, chunks: seq<string>, ending: Ending)
    returns (delivered: seq<Event>, chunksRead: nat)
    ensures delivered == Delivered(parse, Streamed(chunks, ending))
    ensures chunksRead <= |chunks|
    ensures chunksRead < |chunks| ==> HaltedBy(parse, Concat(chunks[..chunksRead]))
    ensures forall k :: 0 <= k < chunksRead ==> !HaltedBy(parse, Concat(chunks[..k]))
  {
    var splitter := new LineSplitter();
    delivered := [];
    var halted := false;
    chunksRead := 0;
    while chunksRead < |chunks| && !halted
      invariant 0 <= chunksRead <= |chunks|
      invariant splitter.Valid()
      invariant splitter.received == Concat(chunks[..chunksRead])
      invariant splitter.emitted == CompleteLines(splitter.received)
      invariant Outcome(delivered, halted) == DecodeLines(parse, splitter.emitted)
      invariant forall k :: 0 <= k < chunksRead ==> !HaltedBy(parse, Concat(chunks[..k]))
    {
      ghost var before := splitter.emitted;
      var lines := splitter.Feed(chunks[chunksRead]);
      var events, stop := DeliverLines(parse, lines);
      DecodeLinesAppend(parse, before, lines);
      delivered := delivered + events;
      halted := stop;
      assert chunks[..chunksRead + 1][..chunksRead] == chunks[..chunksRead];
      chunksRead := chunksRead + 1;
    }
    DeliveredAfterReads(parse, chunks, chunksRead, ending);
    if !halted {
      match ending
      case EndOfStream =>
        // the pending buffer is dropped
      case ReadFailure(reason) =>
        delivered := delivered + [ErrorEvent(StreamErrorPrefix + reason)];
    }
  }

  /**
   * One streaming call: a failed request delivers the request's error event
   * and reads nothing; otherwise the body is read by `ReadBody`.
   */
  method ReadStream(parse: string -> Option<Event>, response: Response) returns (delivered: seq<Event>, chunksRead: nat)
    ensures delivered == Delivered(parse, response)
    ensures response.RequestFailed? ==> chunksRead == 0
    ensures response.Streamed? ==>
      && chunksRead <= |response.chunks|
      && (chunksRead < |response.chunks| ==> HaltedBy(parse, Concat(response.chunks[..chunksRead])))
      && forall k :: 0 <= k < chunksRead ==> !HaltedBy(parse, Concat(response.chunks[..k]))
  {
    match response
    case RequestFailed(reason) =>
      delivered := [ErrorEvent(RequestErrorMessage(reason))];
      chunksRead := 0;
    case Streamed(chunks, ending) =>
      delivered, chunksRead := ReadBody(parse, chunks, ending);
  }
}
