/**
 * The reading loop of the chat client: every chunk the reader delivers is
 * appended to `buffer`, the buffer is split on '\n', the last segment stays
 * in `buffer` and the complete lines are handled one by one.
 */
module Consumer {
  import opened Framing
  import opened Records

  /** The reader's state between two chunks: `buffer` and what has been produced. */
  datatype Snapshot = Snapshot(buffer: string, view: View)

  /** Before the first chunk: empty buffer, empty `fullResponse`, empty bot message, no log. */
  const Initial: Snapshot := Snapshot([], View([], [], []))

  /** One chunk handled: its complete lines processed, the remainder kept. */
  function FeedSpec(s: Snapshot, chunk: string, parse: string -> Parsed): Snapshot
  {
    var text := s.buffer + chunk;
    Snapshot(Rest(text), ProcessLines(s.view, Complete(text), parse))
  }

  /** Chunks handled in arrival order until the reader reports done. */
  function ReadAll(s: Snapshot, chunks: seq<string>, parse: string -> Parsed): Snapshot
    decreases |chunks|
  {
    if chunks == [] then s else ReadAll(FeedSpec(s, chunks[0], parse), chunks[1..], parse)
  }

  /** The complete lines released, chunk after chunk, starting from `buffer`. */
  function Released(buffer: string, chunks: seq<string>): seq<string>
    decreases |chunks|
  {
    if chunks == [] then []
    else
      var text := buffer + chunks[0];
      Complete(text) + Released(Rest(text), chunks[1..])
  }

  /** The stream text: all chunks in arrival order. */
  function Concat(chunks: seq<string>): string
    decreases |chunks|
  {
    if chunks == [] then [] else chunks[0] + Concat(chunks[1..])
  }

  /**
   * The object the client's `sendMessage` works on while reading: `buffer`,
   * `fullResponse`, the text of the bot message and the console log.
   */
  class StreamConsumer {
    var buffer: string
    var fullResponse: string
    var shown: string
    var log: seq<LogEntry>
    const parse: string -> Parsed

    function State(): Snapshot
      reads this
    {
      Snapshot(buffer, View(fullResponse, shown, log))
    }

    /** The buffer never holds a complete line. */
    ghost predicate Valid()
      reads this
    {
      NL !in buffer
    }

    constructor (parse: string -> Parsed)
      ensures Valid() && State() == Initial && this.parse == parse
    {
      buffer, fullResponse, shown, log := [], [], [], [];
      this.parse := parse;
    }

    /**
     * One chunk from the reader. The old buffer plus the chunk is the
     * released lines, each followed by '\n', plus the new buffer.
     */
    method Feed(chunk: string)
      requires Valid()
      modifies this
      ensures Valid()
      ensures State() == FeedSpec(old(State()), chunk, parse)
      ensures old(buffer) + chunk == Terminated(Complete(old(buffer) + chunk)) + buffer
    {
      var text := buffer + chunk;
      var parts := Split(text);
      buffer := parts[|parts| - 1];
      var lines := parts[..|parts| - 1];
      Decompose(text);
      ghost var target := ProcessLines(View(fullResponse, shown, log), lines, parse);
      for i := 0 to |lines|
        invariant buffer == Rest(text)
        invariant ProcessLines(View(fullResponse, shown, log), lines[i..], parse) == target
      {
        var line := lines[i];
        ProcessFrom(View(fullResponse, shown, log), lines, i, parse);
        if Trim(line) == [] {
          continue;
        }
        match parse(line) {
          case Malformed =>
            log := log + [ParseFailure(line)];
          case Record(error, response, done) =>
            if error.Some? && Truthy(error.value) {
              shown := Text(error.value);
              break;
            }
            if response.Some? {
              fullResponse := fullResponse + Text(response.value);
              shown := fullResponse;
            }
            if done == Some(Bool(true)) {
              log := log + [StreamComplete];
            }
        }
      }
    }
  }

  /** Handling the lines from index `i` on: line `i`, then the rest unless it is an error. */
  lemma ProcessFrom(v: View, lines: seq<string>, i: nat, parse: string -> Parsed)
    requires i < |lines|
    ensures ProcessLines(v, lines[i..], parse)
         == if IsError(lines[i], parse) then StepLine(v, lines[i], parse)
            else ProcessLines(StepLine(v, lines[i], parse), lines[i + 1..], parse)
  {
    assert lines[i..][0] == lines[i] && lines[i..][1..] == lines[i + 1..];
  }

  // ---------------------------------------------------------------------------
  // Chunk boundaries
  // ---------------------------------------------------------------------------

  /** After the last chunk the buffer holds the text after the stream's last '\n'. */
  lemma {:induction false} ReadAllBuffer(s: Snapshot, chunks: seq<string>, parse: string -> Parsed)
    requires NL !in s.buffer
    ensures ReadAll(s, chunks, parse).buffer == Rest(s.buffer + Concat(chunks))
    decreases |chunks|
  {
    if chunks == [] {
      NoNewline(s.buffer);
      assert s.buffer + Concat(chunks) == s.buffer;
    } else {
      var text := s.buffer + chunks[0];
      Decompose(text);
      ReadAllBuffer(FeedSpec(s, chunks[0], parse), chunks[1..], parse);
      CompleteAppend(text, Concat(chunks[1..]));
      assert s.buffer + Concat(chunks) == text + Concat(chunks[1..]);
    }
  }

  /**
   * Chunk-boundary independence of framing: the lines released across all
   * chunks are the complete lines of the whole text, i.e. every
   * '\n'-separated segment of it except the last.
   */
  lemma {:induction false} ReleasedIsComplete(buffer: string, chunks: seq<string>)
    requires NL !in buffer
    ensures Released(buffer, chunks) == Complete(buffer + Concat(chunks))
    decreases |chunks|
  {
    if chunks == [] {
      NoNewline(buffer);
      assert buffer + Concat(chunks) == buffer;
    } else {
      var text := buffer + chunks[0];
      Decompose(text);
      ReleasedIsComplete(Rest(text), chunks[1..]);
      CompleteAppend(text, Concat(chunks[1..]));
      assert buffer + Concat(chunks) == text + Concat(chunks[1..]);
    }
  }

  /** Any two splittings of the same stream text release the same lines. */
  lemma SameTextSameLines(a: seq<string>, b: seq<string>)
    requires Concat(a) == Concat(b)
    ensures Released([], a) == Released([], b)
    ensures var parts := Split(Concat(a)); Released([], a) == parts[..|parts| - 1]
  {
    ReleasedIsComplete([], a);
    ReleasedIsComplete([], b);
    assert [] + Concat(a) == Concat(a);
  }

  lemma NoErrorSplit(a: seq<string>, b: seq<string>, parse: string -> Parsed)
    requires NoError(a + b, parse)
    ensures NoError(a, parse) && NoError(b, parse)
  {
    forall k | 0 <= k < |a| ensures !IsError(a[k], parse) { assert (a + b)[k] == a[k]; }
    forall k | 0 <= k < |b| ensures !IsError(b[k], parse) { assert (a + b)[|a| + k] == b[k]; }
  }

  /**
   * Without an error line, reading chunk by chunk produces what handling
   * all released lines in one go produces.
   */
  lemma {:induction false} ReadAllProcesses(s: Snapshot, chunks: seq<string>, parse: string -> Parsed)
    requires NoError(Released(s.buffer, chunks), parse)
    ensures ReadAll(s, chunks, parse).view == ProcessLines(s.view, Released(s.buffer, chunks), parse)
    decreases |chunks|
  {
    if chunks != [] {
      var text := s.buffer + chunks[0];
      var s' := FeedSpec(s, chunks[0], parse);
      NoErrorSplit(Complete(text), Released(Rest(text), chunks[1..]), parse);
      ReadAllProcesses(s', chunks[1..], parse);
      ProcessAppend(s.view, Complete(text), Released(Rest(text), chunks[1..]), parse);
    }
  }

  /**
   * Without an error line, reading a stream from the start handles exactly
   * the complete lines of the whole stream text, in one go.
   */
  lemma ReadsStreamLines(chunks: seq<string>, parse: string -> Parsed)
    requires NoError(Complete(Concat(chunks)), parse)
    ensures ReadAll(Initial, chunks, parse).view
         == ProcessLines(Initial.view, Complete(Concat(chunks)), parse)
  {
    assert [] + Concat(chunks) == Concat(chunks);
    ReleasedIsComplete([], chunks);
    ReadAllProcesses(Initial, chunks, parse);
  }

  /**
   * Ignoring the error `break`, the reply does not depend on where the
   * stream is cut into chunks.
   */
  lemma ChunkingIrrelevant(a: seq<string>, b: seq<string>, parse: string -> Parsed)
    requires Concat(a) == Concat(b)
    requires NoError(Complete(Concat(a)), parse)
    ensures ReadAll(Initial, a, parse) == ReadAll(Initial, b, parse)
  {
    assert [] + Concat(a) == Concat(a);
    ReleasedIsComplete([], a);
    ReleasedIsComplete([], b);
    ReadAllProcesses(Initial, a, parse);
    ReadAllProcesses(Initial, b, parse);
    ReadAllBuffer(Initial, a, parse);
    ReadAllBuffer(Initial, b, parse);
  }

  /** `fullResponse` only grows across chunks, error lines or not. */
  lemma {:induction false} FullGrowsAcrossChunks(s: Snapshot, chunks: seq<string>, parse: string -> Parsed)
    ensures IsPrefix(s.view.full, ReadAll(s, chunks, parse).view.full)
    decreases |chunks|
  {
    if chunks != [] {
      var s' := FeedSpec(s, chunks[0], parse);
      FullGrows(s.view, Complete(s.buffer + chunks[0]), parse);
      FullGrowsAcrossChunks(s', chunks[1..], parse);
      var f := ReadAll(s', chunks[1..], parse).view.full;
      assert f[..|s.view.full|] == f[..|s'.view.full|][..|s.view.full|];
    }
  }

  lemma {:induction false} ReadAllSnoc(s: Snapshot, chunks: seq<string>, last: string, parse: string -> Parsed)
    ensures ReadAll(s, chunks + [last], parse) == FeedSpec(ReadAll(s, chunks, parse), last, parse)
    decreases |chunks|
  {
    if chunks == [] {
      assert chunks + [last] == [last];
    } else {
      assert (chunks + [last])[1..] == chunks[1..] + [last];
      ReadAllSnoc(FeedSpec(s, chunks[0], parse), chunks[1..], last, parse);
    }
  }

  /**
   * The trailing segment is lost: text after the last '\n' when the reader
   * reports done is never parsed. A newline-free `tail` at the end of the
   * last chunk, whether alone or after other lines in that chunk, leaves
   * what the reader produced exactly as the chunk without it would, error
   * lines or not.
   */
  lemma TrailingSegmentLost(s: Snapshot, chunks: seq<string>, x: string, tail: string,
                            parse: string -> Parsed)
    requires NL !in s.buffer && NL !in tail
    ensures ReadAll(s, chunks + [x + tail], parse).view == ReadAll(s, chunks + [x], parse).view
  {
    ReadAllSnoc(s, chunks, x + tail, parse);
    ReadAllSnoc(s, chunks, x, parse);
    var r := ReadAll(s, chunks, parse);
    BufferHoldsNoLine(s, chunks, parse);
    TailReleasesNothing(r.buffer, x, tail);
  }

  /** Reading keeps the buffer free of '\n'. */
  lemma BufferHoldsNoLine(s: Snapshot, chunks: seq<string>, parse: string -> Parsed)
    requires NL !in s.buffer
    ensures NL !in ReadAll(s, chunks, parse).buffer
  {
    ReadAllBuffer(s, chunks, parse);
    Decompose(s.buffer + Concat(chunks));
  }

  /** A newline-free tail after the last '\n' of a chunk releases no line. */
  lemma TailReleasesNothing(buffer: string, x: string, tail: string)
    requires NL !in tail
    ensures Complete(buffer + (x + tail)) == Complete(buffer + x)
  {
    var t := buffer + x;
    assert buffer + (x + tail) == t + tail;
    CompleteAppend(t, tail);
    Decompose(t);
    assert NL !in Rest(t) + tail;
    NoNewline(Rest(t) + tail);
    assert Complete(t) + [] == Complete(t);
  }

  /** A chunk holding one line and its '\n', read from an empty buffer. */
  lemma OneLine(d: string)
    requires NL !in d
    ensures Complete([] + (d + "\n")) == [d] && Rest([] + (d + "\n")) == []
  {
    assert [] + (d + "\n") == d + [NL] + [];
    SplitAfterLine(d, []);
    assert Split([]) == [[]];
    PartsOf(d + [NL] + [], [d], []);
  }

  /** A chunk holding two lines, each with its '\n', read from an empty buffer. */
  lemma TwoLines(e: string, d: string)
    requires NL !in e && NL !in d
    ensures Complete([] + (e + "\n" + d + "\n")) == [e, d]
  {
    assert [] + (e + "\n" + d + "\n") == e + [NL] + (d + [NL] + []);
    SplitAfterLine(d, []);
    SplitAfterLine(e, d + [NL] + []);
    assert Split([]) == [[]];
    PartsOf(e + [NL] + (d + [NL] + []), [e, d], []);
  }

  /**
   * The `break` on an error line leaves only the current chunk: an error
   * line followed by a delta line in one chunk shows the error, while the
   * same text cut between the two lines shows the delta, which overwrites
   * the error.
   */
  lemma ErrorBreakIsPerChunk(parse: string -> Parsed, e: string, d: string)
    requires NL !in e && NL !in d && !AllSpace(e) && !AllSpace(d)
    requires parse(e) == Record(Some(Str("boom")), None, None)
    requires parse(d) == Record(None, Some(Str("A")), None)
    ensures ReadAll(Initial, [e + "\n" + d + "\n"], parse).view.shown == "boom"
    ensures ReadAll(Initial, [e + "\n", d + "\n"], parse).view.shown == "A"
  {
    ErrorInOneChunk(parse, e, d);
    ErrorThenDeltaChunk(parse, e, d);
  }

  lemma ErrorInOneChunk(parse: string -> Parsed, e: string, d: string)
    requires NL !in e && NL !in d && !AllSpace(e)
    requires parse(e) == Record(Some(Str("boom")), None, None)
    ensures ReadAll(Initial, [e + "\n" + d + "\n"], parse).view.shown == "boom"
  {
    TwoLines(e, d);
    var s1 := FeedSpec(Initial, e + "\n" + d + "\n", parse);
    assert s1.view == ProcessLines(Initial.view, [e, d], parse);
    assert s1.view.shown == "boom";
    assert [e + "\n" + d + "\n"][1..] == [];
  }

  lemma ErrorThenDeltaChunk(parse: string -> Parsed, e: string, d: string)
    requires NL !in e && NL !in d && !AllSpace(e) && !AllSpace(d)
    requires parse(e) == Record(Some(Str("boom")), None, None)
    requires parse(d) == Record(None, Some(Str("A")), None)
    ensures ReadAll(Initial, [e + "\n", d + "\n"], parse).view.shown == "A"
  {
    OneLine(e);
    OneLine(d);
    var s1 := FeedSpec(Initial, e + "\n", parse);
    assert s1.buffer == [];
    var s2 := FeedSpec(s1, d + "\n", parse);
    assert [d][1..] == [];
    assert s2.view == ProcessLines(s1.view, [d], parse) == StepLine(s1.view, d, parse);
    assert s2.view.shown == "A";
    assert [e + "\n", d + "\n"][1..] == [d + "\n"];
    assert ReadAll(s1, [d + "\n"], parse) == ReadAll(s2, [], parse) == s2;
  }
}
