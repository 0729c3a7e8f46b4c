/**
 * One chat turn (`sendMessage`): the blank-input guard, the user message and
 * the empty bot placeholder, the request, the reading loop and the fixed
 * apology on failure.
 *
 * The request and the reader are not modelled: a turn receives a Transport
 * that says whether the request failed (a thrown `fetch` or a non-OK
 * status), and otherwise which chunks the reader delivered, already decoded,
 * and whether a read then threw.
 */
module Chat {
  import opened Framing
  import opened Records
  import opened Consumer

  /** The text shown in the bot message when the request or the reading fails. */
  const Apology: string := "Sorry, I encountered an error. Please try again."

  datatype Transport =
    | Refused                                           // `fetch` threw, or `!response.ok`
    | Delivered(chunks: seq<string>, aborted: bool)     // chunks read; `aborted`: a later read threw

  datatype Sender = User | Bot

  datatype Message = Message(sender: Sender, text: string)

  /** The final text of the bot message for one accepted turn. */
  function ReplyText(transport: Transport, parse: string -> Parsed): (r: string)
    ensures transport.Refused? || transport.aborted ==> r == Apology
  {
    match transport
    case Refused => Apology
    case Delivered(chunks, aborted) =>
      if aborted then Apology else ReadAll(Initial, chunks, parse).view.shown
  }

  /**
   * The reading loop: a fresh consumer is fed every delivered chunk in
   * order; the result is the text the bot message holds when the reader
   * reports done.
   */
  method ReadReply(chunks: seq<string>, parse: string -> Parsed) returns (shown: string)
    ensures shown == ReadAll(Initial, chunks, parse).view.shown
  {
    var reader := new StreamConsumer(parse);
    for i := 0 to |chunks|
      invariant reader.Valid() && reader.parse == parse
      invariant reader.State() == ReadAll(Initial, chunks[..i], parse)
    {
      reader.Feed(chunks[i]);
      assert chunks[..i + 1] == chunks[..i] + [chunks[i]];
      ReadAllSnoc(Initial, chunks[..i], chunks[i], parse);
    }
    assert chunks[..|chunks|] == chunks;
    shown := reader.shown;
  }

  /**
   * The request and the reading: the apology when the request fails or a
   * read throws, and otherwise what the reading loop leaves shown.
   */
  method Reply(transport: Transport, parse: string -> Parsed) returns (reply: string)
    ensures reply == ReplyText(transport, parse)
  {
    match transport {
      case Refused =>
        reply := Apology;
      case Delivered(chunks, aborted) =>
        var shown := ReadReply(chunks, parse);
        reply := if aborted then Apology else shown;
    }
  }

  /**
   * The chat box: the input field and the messages shown. There is no
   * "turn in progress" state, so nothing stops a second message from being
   * sent while a reply is still streaming.
   */
  class ChatWindow {
    var input: string
    var messages: seq<Message>

    constructor ()
      ensures input == [] && messages == []
    {
      input, messages := [], [];
    }

    /**
     * Blank input (after trimming) does nothing at all. Otherwise the input
     * is cleared, the trimmed text is added as a user message and a bot
     * message follows, whose text ends as ReplyText.
     */
    method SendMessage(transport: Transport, parse: string -> Parsed)
      modifies this
      ensures Trim(old(input)) == [] ==> input == old(input) && messages == old(messages)
      ensures Trim(old(input)) != [] ==>
                && input == []
                && messages == old(messages) + [Message(User, Trim(old(input))),
                                                Message(Bot, ReplyText(transport, parse))]
    {
      var text := Trim(input);
      if text == [] {
        return;
      }
      ghost var before := messages;
      messages := messages + [Message(User, text), Message(Bot, [])];
      input := [];
      var reply := Reply(transport, parse);
      ghost var expected := ReplyText(transport, parse);
      assert reply == expected;
      messages := messages[|messages| - 1 := Message(Bot, reply)];
      assert messages == before + [Message(User, text), Message(Bot, expected)];
    }
  }

  /**
   * Without an error record, the reply is the concatenation of the deltas
   * of every complete line of the whole stream text, however it was cut
   * into chunks; it stays empty when no record carried a `response`.
   */
  lemma ReplyIsDeltas(chunks: seq<string>, parse: string -> Parsed)
    requires NoError(Complete(Concat(chunks)), parse)
    ensures var lines := Complete(Concat(chunks));
            ReplyText(Delivered(chunks, false), parse)
              == (if HasDelta(lines, parse) then Deltas(lines, parse) else [])
  {
    ReadsStreamLines(chunks, parse);
    ReplyFromLines(Complete(Concat(chunks)), parse);
  }

  lemma ThreeLines(a: string, m: string, b: string, fin: string)
    requires NL !in a && NL !in m && NL !in b && NL !in fin
    ensures Complete(a + "\n" + m + "\n" + b + "\n" + fin) == [a, m, b]
  {
    assert a + "\n" + m + "\n" + b + "\n" + fin == a + [NL] + (m + [NL] + (b + [NL] + fin));
    SplitAfterLine(b, fin);
    SplitAfterLine(m, b + [NL] + fin);
    SplitAfterLine(a, m + [NL] + (b + [NL] + fin));
    NoNewline(fin);
    assert Split(fin) == [fin];
  }

  /**
   * A malformed line between two deltas does not abort the turn: the reply
   * is "AB" for every way of cutting the text into chunks (the final `done`
   * record, having no trailing '\n', is never even parsed).
   */
  lemma MalformedLineSkipped(chunks: seq<string>, parse: string -> Parsed,
                             a: string, m: string, b: string, fin: string)
    requires NL !in a && NL !in m && NL !in b && NL !in fin
    requires !AllSpace(a) && parse(a) == Record(None, Some(Str("A")), None)
    requires !AllSpace(m) && parse(m) == Malformed
    requires !AllSpace(b) && parse(b) == Record(None, Some(Str("B")), None)
    requires Concat(chunks) == a + "\n" + m + "\n" + b + "\n" + fin
    ensures ReplyText(Delivered(chunks, false), parse) == "AB"
  {
    var lines := [a, m, b];
    ThreeLines(a, m, b, fin);
    assert Classify(a, parse) == Accept(Some("A"), false);
    assert Classify(m, parse) == Drop;
    assert Classify(b, parse) == Accept(Some("B"), false);
    assert NoError(lines, parse);
    assert CarriesDelta(lines[0], parse);
    ReplyIsDeltas(chunks, parse);
    assert lines[1..] == [m, b] && lines[1..][1..] == [b] && lines[1..][1..][1..] == [];
    assert LineDelta(a, parse) == "A" && LineDelta(m, parse) == [] && LineDelta(b, parse) == "B";
    assert Deltas([b], parse) == "B";
    assert Deltas([m, b], parse) == "B";
    assert Deltas(lines, parse) == "A" + "B" == "AB";
  }

  /**
   * An error record after a delta replaces the partial reply: the bot
   * message shows the error, not "Hi".
   */
  lemma ErrorReplacesPartialReply(parse: string -> Parsed, h: string, e: string)
    requires NL !in h && NL !in e
    requires !AllSpace(h) && parse(h) == Record(None, Some(Str("Hi")), None)
    requires !AllSpace(e) && parse(e) == Record(Some(Str("boom")), None, None)
    ensures ReplyText(Delivered([h + "\n" + e + "\n"], false), parse) == "boom"
  {
    TwoLines(h, e);
    var v1 := StepLine(Initial.view, h, parse);
    assert [h, e][1..] == [e];
    assert ProcessLines(Initial.view, [h, e], parse) == ProcessLines(v1, [e], parse);
    assert ProcessLines(v1, [e], parse).shown == "boom";
    var s1 := FeedSpec(Initial, h + "\n" + e + "\n", parse);
    assert s1.view.shown == "boom";
    assert [h + "\n" + e + "\n"][1..] == [];
    assert ReadAll(Initial, [h + "\n" + e + "\n"], parse) == ReadAll(s1, [], parse);
  }
}
