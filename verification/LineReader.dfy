/**
 Bounded reading of newline-terminated records from a buffered byte stream.
 The buffer hands out the stream in pieces of any size; the reader must not notice.
 */
module LineReader {
  import opened Prelude

  type byte = n: int | 0 <= n < 256

  const NEWLINE: byte := 10
  const CARRIAGE_RETURN: byte := 13

  /** A buffered stream: `FillBuf` shows some non-empty prefix of what is left, `Consume` drops a prefix. */
  class Source {
    var rest: seq<byte>

    constructor (data: seq<byte>)
      ensures rest == data
    {
      rest := data;
    }

    method FillBuf() returns (chunk: seq<byte>)
      ensures chunk <= rest
      ensures chunk == [] <==> rest == []
    {
      if rest == [] {
        return [];
      }
      var n: nat :| 0 < n <= |rest|;
      chunk := rest[..n];
    }

    method Consume(n: nat)
      requires n <= |rest|
      modifies this
      ensures rest == old(rest)[n..]
    {
      rest := rest[n..];
    }
  }

  /** Position of the first newline, or the length when there is none. */
  function NewlineAt(s: seq<byte>): (i: nat)
    ensures i <= |s|
    ensures i < |s| ==> s[i] == NEWLINE
    ensures forall j :: 0 <= j < i ==> s[j] != NEWLINE
  {
    if s == [] || s[0] == NEWLINE then 0 else 1 + NewlineAt(s[1..])
  }

  function LineEnd(s: seq<byte>): (n: nat)
    ensures n <= |s|
    ensures s != [] ==> n > 0
  {
    if NewlineAt(s) < |s| then NewlineAt(s) + 1 else |s|
  }

  /** One physical line: through the first newline, or everything when there is none. */
  function FirstLine(s: seq<byte>): seq<byte> { s[..LineEnd(s)] }

  function AfterFirstLine(s: seq<byte>): seq<byte> { s[LineEnd(s)..] }

  datatype Outcome = Eof | Line | Oversized(bytes: nat)

  function OutcomeOf(s: seq<byte>, maxBytes: nat): Outcome {
    if s == [] then Eof
    else if |FirstLine(s)| > maxBytes then Oversized(|FirstLine(s)|)
    else Line
  }

  /** A newline-free prefix can be set aside without changing where the line ends. */
  lemma {:induction false} FirstLineAfterPrefix(s: seq<byte>, n: nat)
    requires n <= |s| && NewlineAt(s[..n]) == n
    ensures FirstLine(s) == s[..n] + FirstLine(s[n..])
    ensures AfterFirstLine(s) == AfterFirstLine(s[n..])
  {
    NewlineAfterPrefix(s, n);
    assert LineEnd(s) == n + LineEnd(s[n..]);
    hide LineEnd, NewlineAt;
    TakeAfterDrop(s, n, LineEnd(s[n..]));
  }

  lemma TakeAfterDrop(s: seq<byte>, n: nat, m: nat)
    requires n + m <= |s|
    ensures s[..n + m] == s[..n] + s[n..][..m]
    ensures s[n + m..] == s[n..][m..]
  {
  }

  lemma {:induction false} NewlineAfterPrefix(s: seq<byte>, n: nat)
    requires n <= |s| && NewlineAt(s[..n]) == n
    ensures NewlineAt(s) == n + NewlineAt(s[n..])
  {
    var i := NewlineAt(s);
    assert forall j :: 0 <= j < n ==> s[..n][j] == s[j];
    assert i >= n;
    var k := NewlineAt(s[n..]);
    assert n + k < |s| ==> s[n + k] == s[n..][k];
    assert i < |s| ==> s[n..][i - n] == s[i];
    assert forall j :: n <= j < n + k ==> s[j] == s[n..][j - n];
  }

  lemma NewlineInChunk(s: seq<byte>, chunk: seq<byte>)
    requires chunk <= s && NewlineAt(chunk) < |chunk|
    ensures NewlineAt(s) == NewlineAt(chunk)
    ensures FirstLine(s) == chunk[..NewlineAt(chunk) + 1]
    ensures AfterFirstLine(s) == s[NewlineAt(chunk) + 1..]
  {
    var i, k := NewlineAt(s), NewlineAt(chunk);
    assert chunk == s[..|chunk|];
    assert s[k] == NEWLINE;
    assert i < |chunk| ==> chunk[i] == s[i];
  }

  lemma PlainChunk(s: seq<byte>, chunk: seq<byte>)
    requires chunk <= s && NewlineAt(chunk) == |chunk|
    ensures FirstLine(s) == chunk + FirstLine(s[|chunk|..])
    ensures AfterFirstLine(s) == AfterFirstLine(s[|chunk|..])
  {
    assert chunk == s[..|chunk|];
    FirstLineAfterPrefix(s, |chunk|);
  }

  lemma NothingLeft()
    ensures FirstLine([]) == [] && AfterFirstLine([]) == [] && NewlineAt([]) == 0
  {
  }

  method DrainLineRemainder(reader: Source, sofar: nat) returns (bytes: nat)
    modifies reader
    ensures bytes == sofar + |FirstLine(old(reader.rest))|
    ensures reader.rest == AfterFirstLine(old(reader.rest))
  {
    hide NewlineAt, FirstLine, AfterFirstLine;
    NothingLeft();
    ghost var start := reader.rest;
    bytes := sofar;
    while true
      invariant bytes + |FirstLine(reader.rest)| == sofar + |FirstLine(start)|
      invariant AfterFirstLine(reader.rest) == AfterFirstLine(start)
      decreases |reader.rest|
    {
      var chunk := reader.FillBuf();
      if chunk == [] {
        return;
      }
      var newline := NewlineAt(chunk);
      if newline < |chunk| {
        NewlineInChunk(reader.rest, chunk);
        bytes := bytes + newline + 1;
        reader.Consume(newline + 1);
        return;
      }
      PlainChunk(reader.rest, chunk);
      bytes := bytes + |chunk|;
      reader.Consume(|chunk|);
    }
  }

  /**
   Whatever the chunks, exactly one physical line is consumed. It is returned when it fits and reported with its
   true length when it does not.
   */
  method ReadBoundedLine(reader: Source, maxBytes: nat) returns (outcome: Outcome, line: seq<byte>)
    modifies reader
    ensures outcome == OutcomeOf(old(reader.rest), maxBytes)
    ensures line == if outcome == Line then FirstLine(old(reader.rest)) else []
    ensures reader.rest == AfterFirstLine(old(reader.rest))
  {
    hide NewlineAt, FirstLine, AfterFirstLine;
    NothingLeft();
    ghost var start := reader.rest;
    line := [];
    while true
      invariant start == [] <==> line == [] && reader.rest == []
      invariant NewlineAt(line) == |line| <= maxBytes
      invariant FirstLine(start) == line + FirstLine(reader.rest)
      invariant AfterFirstLine(start) == AfterFirstLine(reader.rest)
      decreases |reader.rest|
    {
      var chunk := reader.FillBuf();
      if chunk == [] {
        outcome := if line == [] then Eof else Line;
        return;
      }
      var newline := NewlineAt(chunk);
      if newline < |chunk| {
        NewlineInChunk(reader.rest, chunk);
        var take := newline + 1;
        var total := |line| + take;
        reader.Consume(take);
        if total > maxBytes {
          return Oversized(total), [];
        }
        line := line + chunk[..take];
        return Line, line;
      }
      PlainChunk(reader.rest, chunk);
      if |line| + |chunk| > maxBytes {
        var bytes := DrainLineRemainder(reader, |line|);
        return Oversized(bytes), [];
      }
      LongerLineFree(line, chunk);
      assert line + (chunk + FirstLine(reader.rest[|chunk|..])) == (line + chunk) + FirstLine(reader.rest[|chunk|..]);
      line := line + chunk;
      reader.Consume(|chunk|);
    }
  }

  lemma LongerLineFree(line: seq<byte>, chunk: seq<byte>)
    requires NewlineAt(line) == |line| && NewlineAt(chunk) == |chunk|
    ensures NewlineAt(line + chunk) == |line + chunk|
  {
    assert (line + chunk)[..|line|] == line;
    NewlineAfterPrefix(line + chunk, |line|);
    assert (line + chunk)[|line|..] == chunk;
  }

  /** A line without the newlines and carriage returns at its end. */
  function Stripped(line: seq<byte>): seq<byte> {
    if line != [] && (Last(line) == NEWLINE || Last(line) == CARRIAGE_RETURN) then Stripped(line[..|line| - 1])
    else line
  }

  /** Stripping takes off exactly the line feeds and carriage returns at the end. */
  lemma {:induction false} StrippedExactly(line: seq<byte>)
    ensures var n := |Stripped(line)|;
            && n <= |line| && Stripped(line) == line[..n]
            && (forall i :: n <= i < |line| ==> line[i] == 10 || line[i] == 13)
            && (n > 0 ==> line[n - 1] != 10 && line[n - 1] != 13)
  {
    if line != [] && (Last(line) == NEWLINE || Last(line) == CARRIAGE_RETURN) {
      var front := line[..|line| - 1];
      StrippedExactly(front);
      assert forall i :: 0 <= i < |front| ==> front[i] == line[i];
    }
  }

  // ----- Repeated reads -----

  function SplitLines(s: seq<byte>): seq<seq<byte>>
    decreases |s|
  {
    if s == [] then [] else [FirstLine(s)] + SplitLines(AfterFirstLine(s))
  }

  function Joined(lines: seq<seq<byte>>): seq<byte> {
    if lines == [] then [] else lines[0] + Joined(lines[1..])
  }

  /** Non-empty, and with a newline nowhere but at the end. */
  predicate IsLine(line: seq<byte>) {
    line != [] && NewlineAt(line) >= |line| - 1
  }

  predicate Terminated(line: seq<byte>) {
    line != [] && Last(line) == NEWLINE
  }

  lemma FirstLineIsLine(s: seq<byte>)
    requires s != []
    ensures IsLine(FirstLine(s))
    ensures AfterFirstLine(s) != [] ==> Terminated(FirstLine(s))
    ensures s == FirstLine(s) + AfterFirstLine(s)
  {
    var line := FirstLine(s);
    assert forall j :: 0 <= j < |line| ==> line[j] == s[j];
  }

  /** Splitting loses and reorders nothing, and every piece but the last is a terminated line. */
  lemma {:induction false} SplitLinesPartition(s: seq<byte>)
    ensures Joined(SplitLines(s)) == s
    ensures forall i :: 0 <= i < |SplitLines(s)| ==> IsLine(SplitLines(s)[i])
    ensures forall i :: 0 <= i < |SplitLines(s)| - 1 ==> Terminated(SplitLines(s)[i])
    decreases |s|
  {
    if s != [] {
      FirstLineIsLine(s);
      hide IsLine, FirstLine, Terminated;
      var after := AfterFirstLine(s);
      SplitLinesPartition(after);
      var lines := SplitLines(s);
      assert lines[0] == FirstLine(s) && lines[1..] == SplitLines(after);
    }
  }

  lemma FirstLineOfConcat(s: seq<byte>, t: seq<byte>)
    requires Terminated(s)
    ensures FirstLine(s + t) == FirstLine(s)
    ensures AfterFirstLine(s + t) == AfterFirstLine(s) + t
    ensures AfterFirstLine(s) == [] || Terminated(AfterFirstLine(s))
  {
    assert NewlineAt(s) < |s|;
    NewlineInChunk(s + t, s);
    assert FirstLine(s + t) == FirstLine(s);
    var n := |FirstLine(s)|;
    assert (s + t)[n..] == s[n..] + t;
  }

  lemma SplitLinesCons(s: seq<byte>)
    requires s != []
    ensures SplitLines(s) == [FirstLine(s)] + SplitLines(AfterFirstLine(s))
  {
  }

  /** Appending after a terminated line appends lines. */
  lemma {:induction false} SplitLinesConcat(s: seq<byte>, t: seq<byte>)
    requires s == [] || Terminated(s)
    ensures SplitLines(s + t) == SplitLines(s) + SplitLines(t)
    decreases |s|
  {
    hide FirstLine, AfterFirstLine, SplitLines;
    if s == [] {
      NoLines();
      assert s + t == t;
    } else {
      AfterShorter(s);
      FirstLineOfConcat(s, t);
      SplitLinesCons(s);
      SplitLinesCons(s + t);
      SplitLinesConcat(AfterFirstLine(s), t);
    }
  }

  lemma NoLines()
    ensures SplitLines([]) == []
  {
  }

  function Within(lines: seq<seq<byte>>, maxBytes: nat): seq<seq<byte>> {
    if lines == [] then []
    else if |lines[0]| <= maxBytes then [lines[0]] + Within(lines[1..], maxBytes)
    else Within(lines[1..], maxBytes)
  }

  lemma AfterShorter(s: seq<byte>)
    ensures s == [] ==> AfterFirstLine(s) == []
    ensures s != [] ==> |AfterFirstLine(s)| < |s|
  {
  }

  lemma WithinNothing(maxBytes: nat)
    ensures Within([], maxBytes) == []
  {
  }

  lemma {:induction false} WithinSnoc(lines: seq<seq<byte>>, line: seq<byte>, maxBytes: nat)
    ensures Within(lines + [line], maxBytes) == Within(lines, maxBytes) + (if |line| <= maxBytes then [line] else [])
  {
    if lines == [] {
      assert lines + [line] == [line];
    } else {
      assert (lines + [line])[1..] == lines[1..] + [line];
      WithinSnoc(lines[1..], line, maxBytes);
    }
  }

  /** Reading to the end yields the plain line split with the oversized lines left out, and nothing else. */
  method ReadAllLines(reader: Source, maxBytes: nat) returns (lines: seq<seq<byte>>)
    modifies reader
    ensures lines == Within(SplitLines(old(reader.rest)), maxBytes)
    ensures reader.rest == []
  {
    hide FirstLine, AfterFirstLine, Within;
    ghost var start := reader.rest;
    WithinNothing(maxBytes);
    ghost var done: seq<seq<byte>> := [];
    lines := [];
    while true
      invariant SplitLines(start) == done + SplitLines(reader.rest)
      invariant lines == Within(done, maxBytes)
      decreases |reader.rest|
    {
      ghost var before := reader.rest;
      AfterShorter(before);
      var outcome, line := ReadBoundedLine(reader, maxBytes);
      if outcome == Eof {
        assert before == [] && SplitLines(before) == [];
        assert done + [] == done;
        return;
      }
      WithinSnoc(done, FirstLine(before), maxBytes);
      done := done + [FirstLine(before)];
      if outcome == Line {
        lines := lines + [line];
      }
    }
  }
}
