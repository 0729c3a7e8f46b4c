/**
 * What the chat client does with one complete line of the reply stream.
 *
 * A line is skipped when it is blank after `trim()`; otherwise it goes to
 * `JSON.parse`, which is not modelled: it is a parameter `parse` that
 * classifies a line as `Malformed` (a syntax error, or a JSON `null`, whose
 * `.error` access throws into the same `catch`) or as a record whose `error`,
 * `response` and `done` keys may be present with any JSON value.
 */
module Records {

  datatype Option<T> = None | Some(value: T)

  /** Characters removed by JavaScript `String.prototype.trim`: WhiteSpace and LineTerminator. */
  predicate IsSpace(c: char)
  {
    || c == '\t' || c == '\n' || c == '\U{B}' || c == '\U{C}' || c == '\r' || c == ' '
    || c == '\U{A0}' || c == '\U{1680}' || ('\U{2000}' <= c <= '\U{200A}')
    || c == '\U{2028}' || c == '\U{2029}' || c == '\U{202F}' || c == '\U{205F}'
    || c == '\U{3000}' || c == '\U{FEFF}'
  }

  predicate AllSpace(s: string)
  {
    forall i :: 0 <= i < |s| ==> IsSpace(s[i])
  }

  /** Index of the first non-whitespace character at or after `i` (or `|s|`), all before it blank. */
  function SkipLeading(s: string, i: nat): (k: nat)
    requires i <= |s|
    requires forall j :: 0 <= j < i ==> IsSpace(s[j])
    ensures i <= k <= |s|
    ensures forall j :: 0 <= j < k ==> IsSpace(s[j])
    ensures k < |s| ==> !IsSpace(s[k])
    decreases |s| - i
  {
    if i < |s| && IsSpace(s[i]) then SkipLeading(s, i + 1) else i
  }

  /** End of `s` once trailing whitespace down to `lo` is dropped: everything from it on is blank. */
  function SkipTrailing(s: string, lo: nat, i: nat): (k: nat)
    requires lo <= i <= |s|
    requires forall j :: i <= j < |s| ==> IsSpace(s[j])
    ensures lo <= k <= i
    ensures forall j :: k <= j < |s| ==> IsSpace(s[j])
    ensures k > lo ==> !IsSpace(s[k - 1])
    decreases i
  {
    if i > lo && IsSpace(s[i - 1]) then SkipTrailing(s, lo, i - 1) else i
  }

  /**
   * `s.trim()`: `s` with a whitespace prefix and a whitespace suffix cut
   * off; empty exactly when `s` is all whitespace, and otherwise neither
   * starting nor ending with whitespace.
   */
  function Trim(s: string): (r: string)
    ensures r == [] <==> AllSpace(s)
    ensures r != [] ==> !IsSpace(r[0]) && !IsSpace(r[|r| - 1])
  {
    var a := SkipLeading(s, 0);
    var b := SkipTrailing(s, a, |s|);
    assert a < |s| ==> b > a;
    s[a..b]
  }

  /** Trim only cuts off whitespace: its result is a slice of `s` between a blank prefix and a blank suffix. */
  lemma TrimCutsWhitespace(s: string)
    ensures exists a, b :: 0 <= a <= b <= |s| && Trim(s) == s[a..b] && AllSpace(s[..a]) && AllSpace(s[b..])
  {
    var a := SkipLeading(s, 0);
    var b := SkipTrailing(s, a, |s|);
    assert Trim(s) == s[a..b];
    assert AllSpace(s[..a]) && AllSpace(s[b..]);
  }

  /** A JSON value as the client reads it: its truthiness and its string conversion. */
  datatype Value =
    | Str(s: string)
    | Bool(b: bool)
    | Null
      /** A number, array or object: `truthy` is false only for 0 and NaN; `text` is `String(value)`. */
    | Other(truthy: bool, text: string)

  /** JavaScript truthiness (`if (value)`): the empty string, false, null, 0 and NaN are falsy. */
  function Truthy(v: Value): bool
  {
    match v
    case Str(s) => s != []
    case Bool(b) => b
    case Null => false
    case Other(t, _) => t
  }

  /** JavaScript string conversion, as done by `+=` on a string and by `textContent =`. */
  function Text(v: Value): string
  {
    match v
    case Str(s) => s
    case Bool(b) => if b then "true" else "false"
    case Null => "null"
    case Other(_, text) => text
  }

  /** The result of `JSON.parse(line)` as far as the client can tell; a missing key is `None`. */
  datatype Parsed =
    | Malformed
    | Record(error: Option<Value>, response: Option<Value>, done: Option<Value>)

  /** What the client does with one line. */
  datatype Action =
    | Skip                                         // blank line: `continue`
    | Drop                                         // parse failure: logged, line dropped
    | ShowError(message: string)                   // truthy `error`: shown, rest of chunk abandoned
    | Accept(delta: Option<string>, final: bool)   // `response` delta (if any) and `done === true`

  /** The console output the client produces while reading. */
  datatype LogEntry = ParseFailure(line: string) | StreamComplete

  /** What the reader has produced so far: `fullResponse`, the bot message's text, and the log. */
  datatype View = View(full: string, shown: string, log: seq<LogEntry>)

  /**
   * How one line is classified: blank test (`line.trim() === ''`, which by
   * Trim's contract is "all whitespace"), parse, then `error` before
   * `response` before `done`.
   */
  function Classify(line: string, parse: string -> Parsed): Action
  {
    if AllSpace(line) then Skip
    else match parse(line)
      case Malformed => Drop
      case Record(error, response, done) =>
        if error.Some? && Truthy(error.value) then ShowError(Text(error.value))
        else Accept(if response.Some? then Some(Text(response.value)) else None,
                    done == Some(Bool(true)))
  }

  /** Applying an accepted record: append the delta and show the whole reply; log `done`. */
  function AcceptRecord(v: View, delta: Option<string>, final: bool): View
  {
    var v' := if delta.Some? then v.(full := v.full + delta.value, shown := v.full + delta.value) else v;
    if final then v'.(log := v'.log + [StreamComplete]) else v'
  }

  /** The effect of one line on what the reader has produced. */
  function StepLine(v: View, line: string, parse: string -> Parsed): View
  {
    match Classify(line, parse)
    case Skip => v
    case Drop => v.(log := v.log + [ParseFailure(line)])
    case ShowError(message) => v.(shown := message)
    case Accept(delta, final) => AcceptRecord(v, delta, final)
  }

  /**
   * The inner `for` loop over the complete lines released by one chunk:
   * lines are handled in order until one carries a truthy `error`, which is
   * shown and ends the loop (`break`).
   */
  function ProcessLines(v: View, lines: seq<string>, parse: string -> Parsed): View
    decreases |lines|
  {
    if lines == [] then v
    else if IsError(lines[0], parse) then StepLine(v, lines[0], parse)
    else ProcessLines(StepLine(v, lines[0], parse), lines[1..], parse)
  }

  predicate IsError(line: string, parse: string -> Parsed)
  {
    Classify(line, parse).ShowError?
  }

  predicate NoError(lines: seq<string>, parse: string -> Parsed)
  {
    forall k :: 0 <= k < |lines| ==> !IsError(lines[k], parse)
  }

  /** The text a line appends to `fullResponse`: its delta, or nothing. */
  function LineDelta(line: string, parse: string -> Parsed): string
  {
    var a := Classify(line, parse);
    if a.Accept? && a.delta.Some? then a.delta.value else []
  }

  /** The concatenated deltas of the lines: an independent account of `fullResponse`. */
  function Deltas(lines: seq<string>, parse: string -> Parsed): string
    decreases |lines|
  {
    if lines == [] then [] else LineDelta(lines[0], parse) + Deltas(lines[1..], parse)
  }

  /** Number of `done: true` records among the lines. */
  function DoneCount(lines: seq<string>, parse: string -> Parsed): nat
    decreases |lines|
  {
    if lines == [] then 0
    else
      var a := Classify(lines[0], parse);
      (if a.Accept? && a.final then 1 else 0) + DoneCount(lines[1..], parse)
  }

  predicate IsPrefix<T(==)>(a: seq<T>, b: seq<T>)
  {
    |a| <= |b| && b[..|a|] == a
  }

  // ---------------------------------------------------------------------------
  // Per-line rules
  // ---------------------------------------------------------------------------

  /** A whitespace-only line changes nothing; the next line is handled as if it were absent. */
  lemma BlankLine(v: View, line: string, rest: seq<string>, parse: string -> Parsed)
    requires AllSpace(line)
    ensures ProcessLines(v, [line] + rest, parse) == ProcessLines(v, rest, parse)
  {
    assert ([line] + rest)[1..] == rest;
  }

  /**
   * A line that fails to parse leaves `fullResponse` and the shown text as
   * they were, is logged, and processing continues with the next line.
   */
  lemma MalformedLine(v: View, line: string, rest: seq<string>, parse: string -> Parsed)
    requires !AllSpace(line) && parse(line) == Malformed
    ensures ProcessLines(v, [line] + rest, parse)
         == ProcessLines(View(v.full, v.shown, v.log + [ParseFailure(line)]), rest, parse)
  {
    assert ([line] + rest)[1..] == rest;
  }

  /**
   * A record with `response` and no truthy `error`: `fullResponse` becomes
   * the old value plus the delta and the shown text becomes that whole value,
   * whether or not the record also says `done`; processing continues.
   */
  lemma DeltaLine(v: View, line: string, rest: seq<string>, parse: string -> Parsed,
                  e: Option<Value>, r: Value, d: Option<Value>)
    requires !AllSpace(line) && parse(line) == Record(e, Some(r), d)
    requires e.None? || !Truthy(e.value)
    ensures var w := ProcessLines(v, [line] + rest, parse);
            var u := View(v.full + Text(r), v.full + Text(r),
                           if d == Some(Bool(true)) then v.log + [StreamComplete] else v.log);
            w == ProcessLines(u, rest, parse)
  {
    assert ([line] + rest)[1..] == rest;
  }

  /**
   * Error precedence: a record with a truthy `error` shows that error,
   * ignores any `response` on it, leaves `fullResponse` unchanged and
   * abandons every later line.
   */
  lemma ErrorLine(v: View, line: string, rest: seq<string>, parse: string -> Parsed,
                  e: Value, r: Option<Value>, d: Option<Value>)
    requires !AllSpace(line) && parse(line) == Record(Some(e), r, d) && Truthy(e)
    ensures ProcessLines(v, [line] + rest, parse) == View(v.full, Text(e), v.log)
  {
  }

  /** An empty-string `error` is falsy: the record is handled as if it had no `error` at all. */
  lemma EmptyErrorIgnored(line: string, parse: string -> Parsed, r: Option<Value>, d: Option<Value>)
    requires !AllSpace(line) && parse(line) == Record(Some(Str([])), r, d)
    ensures !IsError(line, parse)
    ensures Classify(line, parse) == Classify(line, _ => Record(None, r, d))
  {
  }

  /**
   * `done` is only a log entry: a `done: true` record without a truthy
   * `error` continues with the next line, exactly as the same record
   * without `done` would, plus one "stream complete" entry.
   */
  lemma DoneLine(v: View, line: string, rest: seq<string>, parse: string -> Parsed,
                 e: Option<Value>, r: Option<Value>)
    requires !AllSpace(line) && parse(line) == Record(e, r, Some(Bool(true)))
    requires e.None? || !Truthy(e.value)
    ensures var without := AcceptRecord(v, if r.Some? then Some(Text(r.value)) else None, false);
            ProcessLines(v, [line] + rest, parse)
              == ProcessLines(without.(log := without.log + [StreamComplete]), rest, parse)
  {
    assert ([line] + rest)[1..] == rest;
  }

  // ---------------------------------------------------------------------------
  // Whole-chunk properties
  // ---------------------------------------------------------------------------

  /** One line without a truthy `error` appends its delta to `fullResponse`. */
  lemma StepFull(v: View, line: string, parse: string -> Parsed)
    requires !IsError(line, parse)
    ensures StepLine(v, line, parse).full == v.full + LineDelta(line, parse)
  {
  }

  /** One line without a truthy `error` shows `fullResponse` if it carried a delta, else changes nothing shown. */
  lemma StepShown(v: View, line: string, parse: string -> Parsed)
    requires !IsError(line, parse)
    ensures var w := StepLine(v, line, parse);
            w.shown == (if CarriesDelta(line, parse) then w.full else v.shown)
  {
  }

  /** One line without a truthy `error` only extends the log, by one entry for `done`. */
  lemma StepLog(v: View, line: string, parse: string -> Parsed)
    requires !IsError(line, parse)
    ensures var w := StepLine(v, line, parse);
            && IsPrefix(v.log, w.log)
            && |w.log| >= |v.log| + (if Classify(line, parse).Accept? && Classify(line, parse).final then 1 else 0)
  {
  }

  lemma NoErrorTail(lines: seq<string>, parse: string -> Parsed)
    requires lines != [] && NoError(lines, parse)
    ensures !IsError(lines[0], parse) && NoError(lines[1..], parse)
  {
    forall k | 0 <= k < |lines| - 1 ensures !IsError(lines[1..][k], parse) {
      assert lines[1..][k] == lines[k + 1];
    }
  }

  /** The line carries a `response` value and no truthy `error`. */
  predicate CarriesDelta(line: string, parse: string -> Parsed)
  {
    Classify(line, parse).Accept? && Classify(line, parse).delta.Some?
  }

  /** Some line carries a `response` value. */
  predicate HasDelta(lines: seq<string>, parse: string -> Parsed)
  {
    exists k :: 0 <= k < |lines| && CarriesDelta(lines[k], parse)
  }

  lemma HasDeltaCons(lines: seq<string>, parse: string -> Parsed)
    requires lines != []
    ensures HasDelta(lines, parse) <==> CarriesDelta(lines[0], parse) || HasDelta(lines[1..], parse)
  {
    if HasDelta(lines, parse) && !CarriesDelta(lines[0], parse) {
      var k :| 0 <= k < |lines| && CarriesDelta(lines[k], parse);
      assert lines[1..][k - 1] == lines[k];
    }
    if HasDelta(lines[1..], parse) {
      var k :| 0 <= k < |lines| - 1 && CarriesDelta(lines[1..][k], parse);
      assert lines[k + 1] == lines[1..][k];
    }
  }

  /** Without error lines, `fullResponse` grows by exactly the concatenated deltas. */
  lemma {:induction false} FullIsDeltas(v: View, lines: seq<string>, parse: string -> Parsed)
    requires NoError(lines, parse)
    ensures ProcessLines(v, lines, parse).full == v.full + Deltas(lines, parse)
    decreases |lines|
  {
    if lines != [] {
      NoErrorTail(lines, parse);
      var u := StepLine(v, lines[0], parse);
      StepFull(v, lines[0], parse);
      FullIsDeltas(u, lines[1..], parse);
      var d, rest := LineDelta(lines[0], parse), Deltas(lines[1..], parse);
      assert Deltas(lines, parse) == d + rest;
      assert v.full + (d + rest) == (v.full + d) + rest;
    }
  }

  /**
   * Without error lines, the shown text ends as the whole `fullResponse` if
   * some record carried a `response`, and is untouched otherwise.
   */
  lemma {:induction false} ShownIsFull(v: View, lines: seq<string>, parse: string -> Parsed)
    requires NoError(lines, parse)
    ensures var w := ProcessLines(v, lines, parse);
            w.shown == (if HasDelta(lines, parse) then w.full else v.shown)
    decreases |lines|
  {
    if lines != [] {
      NoErrorTail(lines, parse);
      HasDeltaCons(lines, parse);
      var u := StepLine(v, lines[0], parse);
      StepShown(v, lines[0], parse);
      ShownIsFull(u, lines[1..], parse);
      if !HasDelta(lines[1..], parse) {
        FullIsDeltas(u, lines[1..], parse);
        NoDeltaNoText(lines[1..], parse);
        assert u.full + [] == u.full;
      }
    }
  }

  /** Without error lines, the log only grows, by at least one entry per `done`. */
  lemma {:induction false} LogCountsDone(v: View, lines: seq<string>, parse: string -> Parsed)
    requires NoError(lines, parse)
    ensures var w := ProcessLines(v, lines, parse);
            IsPrefix(v.log, w.log) && |w.log| >= |v.log| + DoneCount(lines, parse)
    decreases |lines|
  {
    if lines != [] {
      NoErrorTail(lines, parse);
      var u := StepLine(v, lines[0], parse);
      StepLog(v, lines[0], parse);
      LogCountsDone(u, lines[1..], parse);
      var w := ProcessLines(u, lines[1..], parse);
      assert w.log[..|v.log|] == w.log[..|u.log|][..|v.log|];
    }
  }

  /**
   * A reply read from scratch without error lines shows the concatenated
   * deltas, or stays empty when no record carried a `response`.
   */
  lemma ReplyFromLines(lines: seq<string>, parse: string -> Parsed)
    requires NoError(lines, parse)
    ensures ProcessLines(View([], [], []), lines, parse).shown
         == (if HasDelta(lines, parse) then Deltas(lines, parse) else [])
  {
    var v := View([], [], []);
    FullIsDeltas(v, lines, parse);
    ShownIsFull(v, lines, parse);
    assert [] + Deltas(lines, parse) == Deltas(lines, parse);
  }

  lemma {:induction false} NoDeltaNoText(lines: seq<string>, parse: string -> Parsed)
    requires !HasDelta(lines, parse)
    ensures Deltas(lines, parse) == []
    decreases |lines|
  {
    if lines != [] {
      HasDeltaCons(lines, parse);
      NoDeltaNoText(lines[1..], parse);
    }
  }

  /** `fullResponse` and the log only ever grow by extension, whatever the lines are. */
  lemma {:induction false} FullGrows(v: View, lines: seq<string>, parse: string -> Parsed)
    ensures IsPrefix(v.full, ProcessLines(v, lines, parse).full)
    ensures IsPrefix(v.log, ProcessLines(v, lines, parse).log)
    decreases |lines|
  {
    if lines != [] && !IsError(lines[0], parse) {
      var u := StepLine(v, lines[0], parse);
      StepFull(v, lines[0], parse);
      StepLog(v, lines[0], parse);
      FullGrows(u, lines[1..], parse);
      var w := ProcessLines(u, lines[1..], parse);
      assert w.full[..|v.full|] == w.full[..|u.full|][..|v.full|];
      assert w.log[..|v.log|] == w.log[..|u.log|][..|v.log|];
    }
  }

  /**
   * Lines after the first error line are never handled: the result is the
   * error shown over what the lines before it produced.
   */
  lemma {:induction false} ErrorAbandonsRest(v: View, before: seq<string>, line: string,
                                             after: seq<string>, parse: string -> Parsed)
    requires NoError(before, parse) && IsError(line, parse)
    ensures var w := ProcessLines(v, before, parse);
            ProcessLines(v, before + [line] + after, parse)
              == w.(shown := Classify(line, parse).message)
    decreases |before|
  {
    if before == [] {
      assert before + [line] + after == [line] + after;
    } else {
      NoErrorTail(before, parse);
      assert (before + [line] + after)[1..] == before[1..] + [line] + after;
      ErrorAbandonsRest(StepLine(v, before[0], parse), before[1..], line, after, parse);
    }
  }

  /** Handling `a + b` without an error in `a` is handling `a`, then `b`. */
  lemma {:induction false} ProcessAppend(v: View, a: seq<string>, b: seq<string>, parse: string -> Parsed)
    requires NoError(a, parse)
    ensures ProcessLines(v, a + b, parse) == ProcessLines(ProcessLines(v, a, parse), b, parse)
    decreases |a|
  {
    if a == [] {
      assert a + b == b;
    } else {
      NoErrorTail(a, parse);
      assert (a + b)[1..] == a[1..] + b;
      ProcessAppend(StepLine(v, a[0], parse), a[1..], b, parse);
    }
  }

  /** The three-record example: "Hel", "lo", then `done` gives "Hello" and one completion entry. */
  lemma HelloExample(parse: string -> Parsed, l1: string, l2: string, l3: string)
    requires !AllSpace(l1) && parse(l1) == Record(None, Some(Str("Hel")), None)
    requires !AllSpace(l2) && parse(l2) == Record(None, Some(Str("lo")), None)
    requires !AllSpace(l3) && parse(l3) == Record(None, None, Some(Bool(true)))
    ensures ProcessLines(View([], [], []), [l1, l2, l3], parse) == View("Hello", "Hello", [StreamComplete])
  {
    var s := [l1, l2, l3];
    assert Classify(l1, parse) == Accept(Some("Hel"), false);
    assert Classify(l2, parse) == Accept(Some("lo"), false);
    assert Classify(l3, parse) == Accept(None, true);
    var v1 := StepLine(View([], [], []), l1, parse);
    assert [] + "Hel" == "Hel";
    assert v1 == View("Hel", "Hel", []);
    var v2 := StepLine(v1, l2, parse);
    assert "Hel" + "lo" == "Hello";
    assert v2 == View("Hello", "Hello", []);
    assert StepLine(v2, l3, parse) == View("Hello", "Hello", [StreamComplete]);
    assert s[1..] == [l2, l3] && s[1..][1..] == [l3] && s[1..][1..][1..] == [];
    assert ProcessLines(v2, [l3], parse) == View("Hello", "Hello", [StreamComplete]);
    assert ProcessLines(v1, [l2, l3], parse) == View("Hello", "Hello", [StreamComplete]);
  }
}
