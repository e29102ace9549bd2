/**
 * Newline framing of the response text: JavaScript's `s.split('\n')`, its
 * inverse `parts.join('\n')`, and the buffer that carries an unterminated
 * line from one chunk to the next.
 */
module Lines {

  const Newline: char := '\n'

  predicate NoNewline(s: string) {
    Newline !in s
  }

  predicate AllNoNewline(parts: seq<string>) {
    forall i :: 0 <= i < |parts| ==> NoNewline(parts[i])
  }

  /** `parts.join('\n')` */
  function Join(parts: seq<string>): string
    requires |parts| >= 1
  {
    if |parts| == 1 then parts[0] else parts[0] + [Newline] + Join(parts[1..])
  }

  /**
   * `s.split('\n')`: never empty, no piece holds a newline, and joining the
   * pieces back gives `s`.
   */
  function Split(s: string): (parts: seq<string>)
    ensures |parts| >= 1
    ensures AllNoNewline(parts)
    ensures Join(parts) == s
    decreases |s|
  {
    if s == [] then [""]
    else
      var rest := Split(s[1..]);
      if s[0] == Newline then
        assert ([""] + rest)[1..] == rest;
        [""] + rest
      else
        var parts := [[s[0]] + rest[0]] + rest[1..];
        assert parts[1..] == rest[1..];
        assert |rest| > 1 ==> Join(rest) == rest[0] + [Newline] + Join(rest[1..]);
        assert s == [s[0]] + s[1..];
        parts
  }

  /** Splitting `a + b` where `a` holds no newline extends the first piece of `b`. */
  lemma {:induction false} SplitNoNewlinePrefix(a: string, b: string)
    requires NoNewline(a)
    ensures Split(a + b) == [a + Split(b)[0]] + Split(b)[1..]
    decreases |a|
  {
    if a == [] {
      assert a + b == b;
      assert a + Split(b)[0] == Split(b)[0];
      assert Split(b) == [Split(b)[0]] + Split(b)[1..];
    } else {
      assert a[0] != Newline && NoNewline(a[1..]);
      assert (a + b)[0] == a[0];
      assert (a + b)[1..] == a[1..] + b;
      SplitNoNewlinePrefix(a[1..], b);
      var rest := Split(a[1..] + b);
      assert rest[0] == a[1..] + Split(b)[0];
      assert rest[1..] == Split(b)[1..];
      assert [a[0]] + (a[1..] + Split(b)[0]) == a + Split(b)[0];
    }
  }

  /** `join` and `split` are inverse on pieces without newlines. */
  lemma {:induction false} SplitJoin(parts: seq<string>)
    requires |parts| >= 1 && AllNoNewline(parts)
    ensures Split(Join(parts)) == parts
    decreases |parts|
  {
    if |parts| == 1 {
      SplitNoNewlinePrefix(parts[0], "");
      assert parts[0] + "" == parts[0];
    } else {
      var tail := Join(parts[1..]);
      SplitJoin(parts[1..]);
      assert Split([Newline] + tail) == [""] + Split(tail) by {
        assert ([Newline] + tail)[1..] == tail;
      }
      assert parts[0] + [Newline] + tail == parts[0] + ([Newline] + tail);
      SplitNoNewlinePrefix(parts[0], [Newline] + tail);
      assert parts[0] + "" == parts[0];
      assert parts == [parts[0]] + parts[1..];
    }
  }

  /** The complete lines of `s`: every piece of the split but the last. */
  function CompleteLines(s: string): seq<string> {
    var parts := Split(s);
    parts[..|parts| - 1]
  }

  /** The text after the last newline of `s`, still waiting for its terminator. */
  function Pending(s: string): string {
    var parts := Split(s);
    parts[|parts| - 1]
  }

  /** Each line followed by its newline, concatenated. */
  function Terminated(lines: seq<string>): string {
    if lines == [] then "" else lines[0] + [Newline] + Terminated(lines[1..])
  }

  lemma {:induction false} TerminatedAppend(a: seq<string>, b: seq<string>)
    ensures Terminated(a + b) == Terminated(a) + Terminated(b)
    decreases |a|
  {
    if a == [] {
      assert a + b == b;
    } else {
      assert (a + b)[1..] == a[1..] + b;
      TerminatedAppend(a[1..], b);
    }
  }

  lemma {:induction false} TerminatedLast(parts: seq<string>)
    requires |parts| >= 1
    ensures Terminated(parts[..|parts| - 1]) + parts[|parts| - 1] == Join(parts)
    decreases |parts|
  {
    if |parts| > 1 {
      var tail := parts[1..];
      TerminatedLast(tail);
      assert parts[..|parts| - 1][1..] == tail[..|tail| - 1];
      assert parts[|parts| - 1] == tail[|tail| - 1];
    }
  }

  /** The complete lines, each with its newline, followed by the pending text, are `s`. */
  lemma LinesDecompose(s: string)
    ensures AllNoNewline(CompleteLines(s)) && NoNewline(Pending(s))
    ensures Terminated(CompleteLines(s)) + Pending(s) == s
  {
    TerminatedLast(Split(s));
  }

  /**
   * The decomposition is unique: any newline-free lines and newline-free
   * remainder that rebuild `s` are the complete lines and the pending text
   * of `s`.
   */
  lemma LinesUnique(lines: seq<string>, rest: string, s: string)
    requires AllNoNewline(lines) && NoNewline(rest)
    requires Terminated(lines) + rest == s
    ensures lines == CompleteLines(s) && rest == Pending(s)
  {
    var parts := lines + [rest];
    assert parts[..|parts| - 1] == lines;
    TerminatedLast(parts);
    SplitJoin(parts);
  }

  /** Text already accounted for, then the split of what was pending plus new text. */
  lemma Reassemble(done: string, pending: string, more: string, rest: string, a: string, b: string)
    requires done + pending == a
    requires more + rest == pending + b
    ensures done + more + rest == a + b
  {
    calc {
      done + more + rest;
      done + (more + rest);
      done + (pending + b);
      (done + pending) + b;
    }
  }

  /**
   * Feeding more text: the lines completed by `a + b` are those of `a`
   * followed by those completed when `b` is appended to what `a` left pending.
   */
  lemma LinesAppend(a: string, b: string)
    ensures CompleteLines(a + b) == CompleteLines(a) + CompleteLines(Pending(a) + b)
    ensures Pending(a + b) == Pending(Pending(a) + b)
  {
    var la, lb := CompleteLines(a), CompleteLines(Pending(a) + b);
    LinesDecompose(a);
    LinesDecompose(Pending(a) + b);
    TerminatedAppend(la, lb);
    Reassemble(Terminated(la), Pending(a), Terminated(lb), Pending(Pending(a) + b), a, b);
    LinesUnique(la + lb, Pending(Pending(a) + b), a + b);
  }

  /** Text without a newline completes no line and is all pending. */
  lemma NoNewlineNoLines(s: string)
    requires NoNewline(s)
    ensures CompleteLines(s) == [] && Pending(s) == s
  {
    LinesUnique([], s, s);
  }

  /**
   * The incremental splitter of the read loop: `buffer` persists across
   * reads. Ghost fields record all text received so far and all complete
   * lines handed out so far.
   */
  class LineSplitter {
    var buffer: string
    ghost var received: string
    ghost var emitted: seq<string>

    /** No newline in the buffer or in a line, and lines plus buffer rebuild the input. */
    ghost predicate Valid()
      reads this
    {
      && NoNewline(buffer)
      && AllNoNewline(emitted)
      && Terminated(emitted) + buffer == received
    }

    /** `let buffer = ''` */
    constructor ()
      ensures Valid()
      ensures buffer == "" && received == "" && emitted == []
    {
      buffer := "";
      received := "";
      emitted := [];
    }

    /**
     * `buffer += chunk; const lines = buffer.split('\n'); buffer = lines.pop();`
     * The lines handed out so far depend only on the text received so far,
     * never on where the chunk boundaries fell.
     */
    method Feed(chunk: string) returns (lines: seq<string>)
      requires Valid()
      modifies this
      ensures Valid()
      ensures received == old(received) + chunk
      ensures emitted == old(emitted) + lines
      ensures lines == CompleteLines(old(buffer) + chunk)
      ensures emitted == CompleteLines(received) && buffer == Pending(received)
      ensures chunk == "" ==> lines == [] && buffer == old(buffer)
    {
      var parts := Split(buffer + chunk);
      lines := parts[..|parts| - 1];
      ghost var before := buffer;
      buffer := parts[|parts| - 1];
      received := received + chunk;
      ghost var was := emitted;
      emitted := emitted + lines;
      LinesDecompose(before + chunk);
      TerminatedAppend(was, lines);
      Reassemble(Terminated(was), before, Terminated(lines), buffer, old(received), chunk);
      LinesUnique(emitted, buffer, received);
      if chunk == "" {
        assert before + chunk == before;
        NoNewlineNoLines(before);
      }
    }
  }
}
