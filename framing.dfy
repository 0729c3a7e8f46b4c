/**
 * Newline framing of the chat reply stream.
 *
 * The client keeps the decoded text in a `buffer`, splits it on '\n'
 * (JavaScript `String.prototype.split` with a one-character separator),
 * releases every segment but the last as a complete line and keeps the last
 * segment as the new buffer (`lines.pop()`).
 */
module Framing {

  const NL: char := '\n'

  /** The segments joined back with '\n' between consecutive segments. */
  function Join(parts: seq<string>): string
    requires |parts| >= 1
  {
    if |parts| == 1 then parts[0] else parts[0] + [NL] + Join(parts[1..])
  }

  /** Every line followed by its own '\n', concatenated. */
  function Terminated(lines: seq<string>): string
  {
    if lines == [] then [] else lines[0] + [NL] + Terminated(lines[1..])
  }

  /** No segment contains the separator. */
  predicate NoSeparator(parts: seq<string>)
  {
    forall k :: 0 <= k < |parts| ==> NL !in parts[k]
  }

  /** `s.split('\n')`: the '\n'-separated segments of `s`, always at least one. */
  function Split(s: string): (r: seq<string>)
    ensures |r| >= 1
    decreases |s|
  {
    if s == [] then [[]]
    else
      var t := Split(s[1..]);
      if s[0] == NL then
        [[]] + t
      else
        [[s[0]] + t[0]] + t[1..]
  }

  /**
   * Split is faithful to its text: no segment contains '\n', and joining the
   * segments back with '\n' gives `s` again.
   */
  lemma JoinSplit(s: string)
    ensures NoSeparator(Split(s))
    ensures Join(Split(s)) == s
  {
    SplitSegments(s);
    SplitRejoins(s);
  }

  lemma {:induction false} SplitSegments(s: string)
    ensures NoSeparator(Split(s))
    decreases |s|
  {
    if s != [] {
      var t := Split(s[1..]);
      SplitSegments(s[1..]);
      assert s == [s[0]] + s[1..];
      if s[0] == NL {
        SplitNewline(s[1..]);
        assert forall k :: 0 < k < |t| + 1 ==> ([[]] + t)[k] == t[k - 1];
      } else {
        SplitOther(s[0], s[1..]);
        var r := [[s[0]] + t[0]] + t[1..];
        assert NL !in r[0];
        assert forall k :: 0 < k < |r| ==> r[k] == t[k];
      }
    }
  }

  lemma {:induction false} SplitRejoins(s: string)
    ensures Join(Split(s)) == s
    decreases |s|
  {
    if s != [] {
      var t := Split(s[1..]);
      SplitRejoins(s[1..]);
      assert s == [s[0]] + s[1..];
      if s[0] == NL {
        SplitNewline(s[1..]);
        JoinCons([], t);
      } else {
        SplitOther(s[0], s[1..]);
        JoinExtendHead(s[0], t[0], t[1..]);
        assert [t[0]] + t[1..] == t;
      }
    }
  }

  /** Join of a segment in front of at least one more. */
  lemma JoinCons(h: string, t: seq<string>)
    requires |t| >= 1
    ensures Join([h] + t) == h + [NL] + Join(t)
  {
    assert ([h] + t)[1..] == t;
  }

  /** Join after extending the first segment at its front. */
  lemma JoinExtendHead(c: char, h: string, rest: seq<string>)
    ensures Join([[c] + h] + rest) == [c] + Join([h] + rest)
  {
    if rest != [] {
      JoinCons([c] + h, rest);
      JoinCons(h, rest);
      assert [c] + h + [NL] + Join(rest) == [c] + (h + [NL] + Join(rest));
    }
  }

  /** The complete lines of `s`: every segment but the last. */
  function Complete(s: string): seq<string>
  {
    var parts := Split(s);
    parts[..|parts| - 1]
  }

  /** What stays in the buffer: the text after the last '\n' (`lines.pop()`). */
  function Rest(s: string): string
  {
    var parts := Split(s);
    parts[|parts| - 1]
  }

  lemma {:induction false} JoinTerminated(lines: seq<string>, last: string)
    ensures Join(lines + [last]) == Terminated(lines) + last
    decreases |lines|
  {
    if lines != [] {
      assert (lines + [last])[1..] == lines[1..] + [last];
      JoinTerminated(lines[1..], last);
    }
  }

  /**
   * Framing invariant: the text splits into its complete lines, each followed
   * by '\n', and a remainder with no '\n'; no complete line holds a '\n'.
   */
  lemma Decompose(s: string)
    ensures s == Terminated(Complete(s)) + Rest(s)
    ensures NL !in Rest(s)
    ensures NoSeparator(Complete(s))
  {
    var parts := Split(s);
    var n := |parts|;
    var lines, last := parts[..n - 1], parts[n - 1];
    assert parts == lines + [last];
    JoinSplit(s);
    JoinTerminated(lines, last);
    assert NL !in last;
    forall k | 0 <= k < |lines| ensures NL !in lines[k] {
      assert lines[k] == parts[k];
    }
  }

  /** Text without a '\n' releases no line and stays whole in the buffer. */
  lemma {:induction false} NoNewline(s: string)
    ensures NL !in s <==> Complete(s) == []
    ensures NL !in s ==> Rest(s) == s
    decreases |s|
  {
    if s != [] {
      NoNewline(s[1..]);
      assert s == [s[0]] + s[1..];
    }
  }

  /** Splitting a text that begins with a newline-free `p` and a '\n'. */
  lemma {:induction false} SplitAfterLine(p: string, z: string)
    requires NL !in p
    ensures Split(p + [NL] + z) == [p] + Split(z)
    decreases |p|
  {
    if p == [] {
      assert p + [NL] + z == [NL] + z;
      assert ([NL] + z)[1..] == z;
    } else {
      assert (p + [NL] + z)[1..] == p[1..] + [NL] + z;
      SplitAfterLine(p[1..], z);
      assert [p[0]] + p[1..] == p;
    }
  }

  /** Split is the inverse of Join on segments without a separator. */
  lemma {:induction false} SplitJoin(parts: seq<string>)
    requires |parts| >= 1
    requires NoSeparator(parts)
    ensures Split(Join(parts)) == parts
    decreases |parts|
  {
    if |parts| == 1 {
      NoNewline(parts[0]);
      assert Split(parts[0]) == Complete(parts[0]) + [Rest(parts[0])];
    } else {
      SplitJoin(parts[1..]);
      SplitAfterLine(parts[0], Join(parts[1..]));
      assert [parts[0]] + parts[1..] == parts;
    }
  }

  /** One unfolding of Split on a text that starts with `c`. */
  lemma SplitNewline(s: string)
    ensures Split([NL] + s) == [[]] + Split(s)
  {
    assert ([NL] + s)[1..] == s;
  }

  lemma SplitOther(c: char, s: string)
    requires c != NL
    ensures Split([c] + s) == [[c] + Split(s)[0]] + Split(s)[1..]
  {
    assert ([c] + s)[1..] == s;
  }

  /**
   * Splitting a concatenation: the complete lines of `x` come first and the
   * remainder of `x` is glued to the front of `y`.
   */
  lemma {:induction false} SplitAppend(x: string, y: string)
    ensures Split(x + y) == Complete(x) + Split(Rest(x) + y)
    decreases |x|
  {
    if x == [] {
      assert x + y == Rest(x) + y;
    } else {
      var c, x' := x[0], x[1..];
      assert x == [c] + x';
      assert x + y == [c] + (x' + y);
      SplitAppend(x', y);
      SplitAppendStep(c, x', y);
    }
  }

  /** The split of a text is its complete lines followed by its remainder. */
  lemma SplitParts(s: string)
    ensures Split(s) == Complete(s) + [Rest(s)]
  {
    var parts := Split(s);
    assert parts == parts[..|parts| - 1] + [parts[|parts| - 1]];
  }

  /** Reading Complete and Rest off a known split. */
  lemma PartsOf(s: string, lines: seq<string>, last: string)
    requires Split(s) == lines + [last]
    ensures Complete(s) == lines && Rest(s) == last
  {
    assert (lines + [last])[..|lines|] == lines;
  }

  /** Sequence algebra for replacing the head of a concatenation. */
  lemma ReplaceHead<T>(g: T, a: seq<T>, b: seq<T>)
    requires a != []
    ensures (a + b)[0] == a[0]
    ensures [g] + (a + b)[1..] == ([g] + a[1..]) + b
  {
    assert (a + b)[1..] == a[1..] + b;
  }

  /** The inductive step of SplitAppend, for a first character `c`. */
  lemma SplitAppendStep(c: char, x': string, y: string)
    requires Split(x' + y) == Complete(x') + Split(Rest(x') + y)
    ensures Split([c] + x' + y) == Complete([c] + x') + Split(Rest([c] + x') + y)
  {
    assert [c] + x' + y == [c] + (x' + y);
    if c == NL {
      StepNewline(x', y);
    } else if Complete(x') == [] {
      StepLastLine(c, x', y);
    } else {
      StepInside(c, x', y);
    }
  }

  /** Sequence algebra for putting an element in front of a concatenation. */
  lemma ConsAssoc<T>(g: T, a: seq<T>, b: seq<T>)
    ensures [g] + (a + b) == ([g] + a) + b
  {
  }

  lemma StepNewline(x': string, y: string)
    requires Split(x' + y) == Complete(x') + Split(Rest(x') + y)
    ensures Split([NL] + (x' + y)) == Complete([NL] + x') + Split(Rest([NL] + x') + y)
  {
    var lines, last := Complete(x'), Rest(x');
    var u := Split(last + y);
    SplitParts(x');
    SplitNewline(x');
    ConsAssoc([], lines, [last]);
    PartsOf([NL] + x', [[]] + lines, last);
    SplitNewline(x' + y);
    ConsAssoc([], lines, u);
  }

  lemma StepLastLine(c: char, x': string, y: string)
    requires c != NL && Complete(x') == []
    ensures Split([c] + (x' + y)) == Complete([c] + x') + Split(Rest([c] + x') + y)
  {
    NoNewline(x');
    assert NL !in [c] + x';
    NoNewline([c] + x');
    assert [c] + (x' + y) == Rest([c] + x') + y;
  }

  lemma StepInside(c: char, x': string, y: string)
    requires c != NL && Complete(x') != []
    requires Split(x' + y) == Complete(x') + Split(Rest(x') + y)
    ensures Split([c] + (x' + y)) == Complete([c] + x') + Split(Rest([c] + x') + y)
  {
    var lines, last := Complete(x'), Rest(x');
    var u := Split(last + y);
    SplitParts(x');
    var h := [c] + lines[0];
    SplitOther(c, x');
    ReplaceHead(h, lines, [last]);
    PartsOf([c] + x', [h] + lines[1..], last);
    SplitOther(c, x' + y);
    ReplaceHead(h, lines, u);
  }

  /**
   * Chunk-boundary step: the lines released from `x + y` are those of `x`
   * followed by those of its remainder extended with `y`, and the final
   * remainder is the same either way.
   */
  lemma CompleteAppend(x: string, y: string)
    ensures Complete(x + y) == Complete(x) + Complete(Rest(x) + y)
    ensures Rest(x + y) == Rest(Rest(x) + y)
  {
    SplitAppend(x, y);
    var u := Split(Rest(x) + y);
    assert Split(x + y) == Complete(x) + u;
    assert Complete(x + y) == Complete(x) + u[..|u| - 1];
  }
}
