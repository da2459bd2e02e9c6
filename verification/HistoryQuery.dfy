/** Newest-first history queries that stop early, against the naive scan of everything. */
module HistoryQuery {
  import opened Prelude
  import opened LineReader
  import opened DayFiles
  import opened Samples
  import opened HistoryStore

  const MAX_HISTORY_LINE_BYTES := 64 * 1024

  /** The sample a line holds, if it is not blank, not malformed, and survives the sanitiser. */
  function DecodeLine(codec: Codec, line: seq<byte>): Option<HistorySample> {
    var text := Stripped(line);
    if text == [] then None
    else
      var sample := codec.decode(text);
      if sample.None? then None else SanitizedSample(sample.value)
  }

  function Decoded(codec: Codec, lines: seq<seq<byte>>): seq<HistorySample> {
    if lines == [] then []
    else
      var rest := Decoded(codec, lines[1..]);
      var sample := DecodeLine(codec, lines[0]);
      if sample.None? then rest else [sample.value] + rest
  }

  /** All samples of a file, oldest first. */
  function FileSamples(codec: Codec, bytes: seq<byte>): seq<HistorySample> {
    Decoded(codec, Within(SplitLines(bytes), MAX_HISTORY_LINE_BYTES))
  }

  /** What each line of a file holds: nothing when it is too long, blank, malformed or refused by the sanitiser. */
  function Yields(codec: Codec, lines: seq<seq<byte>>): (r: seq<Option<HistorySample>>)
    ensures |r| == |lines|
    ensures forall i :: 0 <= i < |r| ==>
              r[i] ==
              if |lines[i]| > 65_536 || Stripped(lines[i]) == [] || codec.decode(Stripped(lines[i])).None? then None
              else SanitizedSample(codec.decode(Stripped(lines[i])).value)
  {
    seq(|lines|, i requires 0 <= i < |lines| =>
      if |lines[i]| > 65_536 || Stripped(lines[i]) == [] || codec.decode(Stripped(lines[i])).None? then None
      else SanitizedSample(codec.decode(Stripped(lines[i])).value))
  }

  predicate Wanted(s: HistorySample, id: string, since: int) {
    s.sessionId == id && s.recordedAt >= since
  }

  function Matches(samples: seq<HistorySample>, id: string, since: int): seq<HistorySample> {
    if samples == [] then []
    else
      var rest := Matches(samples[1..], id, since);
      if Wanted(samples[0], id, since) then [samples[0]] + rest else rest
  }

  /** The naive scan: every match of every named file, oldest file first. */
  function Naive(codec: Codec, files: Files, names: seq<string>, id: string, since: int): seq<HistorySample> {
    if names == [] then []
    else Matches(FileSamples(codec, Content(files, names[0])), id, since) + Naive(codec, files, names[1..], id, since)
  }

  /** The names a query looks at: those of the day of `since` and later. */
  function Candidates(files: Files, since: int): set<string> {
    set p | p in files && DayOf(p) >= DayBucket(since)
  }

  /** Walk the directory in any order, keep the names of recent enough days, and sort them. */
  method HistoryFilesFrom(files: Files, since: int) returns (names: seq<string>)
    ensures IsListing(names, Candidates(files, since))
  {
    hide DayOf, IsListing;
    var minDay := DayBucket(since);
    var found: set<string> := {};
    var pending := files.Keys;
    while pending != {}
      invariant pending <= files.Keys
      invariant found == Candidates(files, since) - pending
      decreases |pending|
    {
      var p :| p in pending;
      pending := pending - {p};
      if DayOf(p) >= minDay {
        found := found + {p};
      }
    }
    assert found == Candidates(files, since);
    names := ListSorted(found);
  }

  lemma {:induction false} MatchesSnoc(samples: seq<HistorySample>, s: HistorySample, id: string, since: int)
    ensures Matches(samples + [s], id, since) ==
            Matches(samples, id, since) + (if Wanted(s, id, since) then [s] else [])
  {
    if samples == [] {
      assert samples + [s] == [s];
    } else {
      assert (samples + [s])[1..] == samples[1..] + [s];
      MatchesSnoc(samples[1..], s, id, since);
    }
  }

  lemma {:induction false} MatchesConcat(a: seq<HistorySample>, b: seq<HistorySample>, id: string, since: int)
    ensures Matches(a + b, id, since) == Matches(a, id, since) + Matches(b, id, since)
  {
    if a == [] {
      assert a + b == b;
    } else {
      assert (a + b)[1..] == a[1..] + b;
      MatchesConcat(a[1..], b, id, since);
    }
  }

  lemma {:induction false} DecodedSnoc(codec: Codec, lines: seq<seq<byte>>, line: seq<byte>)
    ensures Decoded(codec, lines + [line]) ==
            Decoded(codec, lines) + (if DecodeLine(codec, line).Some? then [DecodeLine(codec, line).value] else [])
  {
    hide DecodeLine;
    if lines == [] {
      assert lines + [line] == [line];
    } else {
      assert (lines + [line])[1..] == lines[1..] + [line];
      DecodedSnoc(codec, lines[1..], line);
    }
  }

  lemma {:induction false} DecodedConcat(codec: Codec, a: seq<seq<byte>>, b: seq<seq<byte>>)
    ensures Decoded(codec, a + b) == Decoded(codec, a) + Decoded(codec, b)
  {
    hide DecodeLine;
    if a == [] {
      assert a + b == b;
    } else {
      assert (a + b)[1..] == a[1..] + b;
      DecodedConcat(codec, a[1..], b);
    }
  }

  lemma {:induction false} SamplesAreYields(codec: Codec, lines: seq<seq<byte>>)
    ensures Decoded(codec, Within(lines, MAX_HISTORY_LINE_BYTES)) == Somes(Yields(codec, lines))
  {
    hide Stripped, SanitizedSample;
    if lines != [] {
      var front, line := lines[..|lines| - 1], Last(lines);
      SamplesAreYields(codec, front);
      assert lines == front + [line];
      assert Yields(codec, lines)[..|front|] == Yields(codec, front);
      WithinSnoc(front, line, MAX_HISTORY_LINE_BYTES);
      DecodedSnoc(codec, Within(front, MAX_HISTORY_LINE_BYTES), line);
      var kept := Decoded(codec, Within(front, MAX_HISTORY_LINE_BYTES));
      assert kept + [] == kept;
      assert Within(front, MAX_HISTORY_LINE_BYTES) + [] == Within(front, MAX_HISTORY_LINE_BYTES);
    }
  }

  /** A file yields the samples its lines hold, in order, each line once and none left out. */
  lemma FileSamplesExactly(codec: Codec, bytes: seq<byte>) returns (pos: seq<nat>)
    ensures Picks(Yields(codec, SplitLines(bytes)), FileSamples(codec, bytes), pos)
  {
    SamplesAreYields(codec, SplitLines(bytes));
    pos := SomesPicks(Yields(codec, SplitLines(bytes)));
  }

  /** One file read line by line through the bounded reader. */
  method ReadMatches(codec: Codec, bytes: seq<byte>, id: string, since: int) returns (matches: seq<HistorySample>)
    ensures matches == Matches(FileSamples(codec, bytes), id, since)
  {
    hide DecodeLine, Wanted, FirstLine, AfterFirstLine;
    var reader := new Source(bytes);
    ghost var lines: seq<seq<byte>> := [];
    matches := [];
    while true
      invariant Within(SplitLines(bytes), MAX_HISTORY_LINE_BYTES) ==
                lines + Within(SplitLines(reader.rest), MAX_HISTORY_LINE_BYTES)
      invariant matches == Matches(Decoded(codec, lines), id, since)
      modifies reader
      decreases |reader.rest|
    {
      ghost var before := reader.rest;
      AfterShorter(before);
      var outcome, line := ReadBoundedLine(reader, MAX_HISTORY_LINE_BYTES);
      if outcome == Eof {
        NoLines();
        assert lines + [] == lines;
        return;
      }
      SplitLinesCons(before);
      WithinHead(FirstLine(before), SplitLines(reader.rest), MAX_HISTORY_LINE_BYTES);
      if outcome == Line {
        DecodedSnoc(codec, lines, line);
        ghost var decoded := Decoded(codec, lines);
        lines := lines + [line];
        var sample := DecodeLine(codec, line);
        assert decoded + [] == decoded;
        if sample.Some? {
          MatchesSnoc(decoded, sample.value, id, since);
          if Wanted(sample.value, id, since) {
            matches := matches + [sample.value];
          }
        }
      }
    }
  }

  lemma WithinHead(line: seq<byte>, rest: seq<seq<byte>>, maxBytes: nat)
    ensures Within([line] + rest, maxBytes) ==
            (if |line| <= maxBytes then [line] else []) + Within(rest, maxBytes)
  {
    assert ([line] + rest)[1..] == rest;
  }

  function Reversed<T>(s: seq<T>): seq<T> {
    if s == [] then [] else [Last(s)] + Reversed(s[..|s| - 1])
  }

  lemma {:induction false} ReversedConcat<T>(a: seq<T>, b: seq<T>)
    ensures Reversed(a + b) == Reversed(b) + Reversed(a)
  {
    if b == [] {
      assert a + b == a;
    } else {
      assert (a + b)[..|a + b| - 1] == a + b[..|b| - 1];
      ReversedConcat(a, b[..|b| - 1]);
    }
  }

  lemma {:induction false} ReversedLength<T>(s: seq<T>)
    ensures |Reversed(s)| == |s|
  {
    if s != [] {
      ReversedLength(s[..|s| - 1]);
    }
  }

  /** Cutting the reversed sequence and turning it back keeps the last elements. */
  lemma {:induction false} ReversedFirstN<T>(s: seq<T>, n: nat)
    ensures Reversed(FirstN(Reversed(s), n)) == LastN(s, n)
  {
    ReversedLength(s);
    if |s| <= n {
      ReversedTwice(s);
    } else {
      var early, recent := s[..|s| - n], s[|s| - n..];
      assert s == early + recent;
      ReversedConcat(early, recent);
      ReversedLength(recent);
      assert Reversed(s)[..n] == Reversed(recent);
      ReversedTwice(recent);
    }
  }

  lemma {:induction false} ReversedTwice<T>(s: seq<T>)
    ensures Reversed(Reversed(s)) == s
  {
    if s != [] {
      var front := s[..|s| - 1];
      ReversedTwice(front);
      ReversedConcat([Last(s)], Reversed(front));
      assert Reversed([Last(s)]) == [Last(s)] by {
        assert [Last(s)][..0] == [];
      }
    }
  }

  /** Push one file's matches newest-first, dropping the oldest beyond the limit. */
  method PushNewestFirst(samples: seq<HistorySample>, fileMatches: seq<HistorySample>, limit: nat)
    returns (r: seq<HistorySample>)
    requires |samples| <= limit
    ensures r == FirstN(samples + Reversed(fileMatches), limit)
  {
    r := samples;
    var i := |fileMatches|;
    assert fileMatches[i..] == [] && Reversed(fileMatches[i..]) == [];
    assert samples + [] == samples;
    while i > 0
      invariant 0 <= i <= |fileMatches|
      invariant r == FirstN(samples + Reversed(fileMatches[i..]), limit)
    {
      i := i - 1;
      assert fileMatches[i..] == [fileMatches[i]] + fileMatches[i + 1..];
      ReversedConcat([fileMatches[i]], fileMatches[i + 1..]);
      assert [fileMatches[i]][..0] == [];
      assert Reversed([fileMatches[i]]) == [fileMatches[i]];
      assert samples + Reversed(fileMatches[i..]) == (samples + Reversed(fileMatches[i + 1..])) + [fileMatches[i]];
      r := r + [fileMatches[i]];
      if |r| > limit {
        r := r[..|r| - 1];
      }
    }
    assert fileMatches[0..] == fileMatches;
  }

  lemma NaiveCons(codec: Codec, files: Files, names: seq<string>, i: nat, id: string, since: int)
    requires i < |names|
    ensures Naive(codec, files, names[i..], id, since) ==
            Matches(FileSamples(codec, Content(files, names[i])), id, since)
            + Naive(codec, files, names[i + 1..], id, since)
  {
    assert names[i..][1..] == names[i + 1..];
  }

  /** Older files cannot matter once enough newer matches are known. */
  lemma EnoughIsEnough<T>(older: seq<T>, newer: seq<T>, n: nat)
    requires |newer| >= n
    ensures LastN(older + newer, n) == LastN(newer, n)
  {
  }

  lemma {:induction false} NaiveSplit(
    codec: Codec, files: Files, a: seq<string>, b: seq<string>, id: string, since: int)
    ensures Naive(codec, files, a + b, id, since) ==
            Naive(codec, files, a, id, since) + Naive(codec, files, b, id, since)
  {
    hide Matches, FileSamples, Content;
    if a == [] {
      assert a + b == b;
    } else {
      assert (a + b)[1..] == a[1..] + b;
      NaiveSplit(codec, files, a[1..], b, id, since);
    }
  }

  // ----- What a query returns, by position -----

  /** Every sample of the named files, oldest file first. */
  function AllIn(codec: Codec, files: Files, names: seq<string>): seq<HistorySample> {
    if names == [] then [] else FileSamples(codec, Content(files, names[0])) + AllIn(codec, files, names[1..])
  }

  lemma {:induction false} NaiveIsMatches(codec: Codec, files: Files, names: seq<string>, id: string, since: int)
    ensures Naive(codec, files, names, id, since) == Matches(AllIn(codec, files, names), id, since)
  {
    hide FileSamples, Content, Wanted;
    if names != [] {
      NaiveIsMatches(codec, files, names[1..], id, since);
      MatchesConcat(FileSamples(codec, Content(files, names[0])), AllIn(codec, files, names[1..]), id, since);
    }
  }

  /** The samples of session `id` from time `since` on, where they are among all samples. */
  function OfSession(all: seq<HistorySample>, id: string, since: int): (r: seq<Option<HistorySample>>)
    ensures |r| == |all|
    ensures forall i :: 0 <= i < |r| ==>
              r[i] == if all[i].sessionId == id && all[i].recordedAt >= since then Some(all[i]) else None
  {
    seq(|all|, i requires 0 <= i < |all| =>
      if all[i].sessionId == id && all[i].recordedAt >= since then Some(all[i]) else None)
  }

  lemma {:induction false} MatchesAreSomes(all: seq<HistorySample>, id: string, since: int)
    ensures Matches(all, id, since) == Somes(OfSession(all, id, since))
  {
    if all != [] {
      var front := all[..|all| - 1];
      MatchesAreSomes(front, id, since);
      MatchesSnoc(front, Last(all), id, since);
      assert all == front + [Last(all)];
      assert OfSession(all, id, since)[..|front|] == OfSession(front, id, since);
    }
  }

  /**
   `result` are samples of session `id` from `since` on, taken from `all` in order. One that was not taken comes before
   all that were, and then the result is full.
   */
  ghost predicate NewestOf(
    all: seq<HistorySample>, result: seq<HistorySample>, pos: seq<nat>, id: string, since: int, limit: nat)
  {
    && |pos| == |result| <= limit
    && (forall i, j :: 0 <= i < j < |pos| ==> pos[i] < pos[j])
    && (forall i :: 0 <= i < |pos| ==>
          && pos[i] < |all| && result[i] == all[pos[i]]
          && result[i].sessionId == id && result[i].recordedAt >= since)
    && (forall j :: 0 <= j < |all| && all[j].sessionId == id && all[j].recordedAt >= since && j !in pos ==>
          |result| == limit && forall i :: 0 <= i < |pos| ==> j < pos[i])
  }

  lemma SuffixAt<T>(s: seq<T>, limit: nat, i: nat)
    requires i < |LastN(s, limit)|
    ensures |LastN(s, limit)| == Min(|s|, limit)
    ensures LastN(s, limit)[i] == s[|s| - Min(|s|, limit) + i]
  {
  }

  lemma SuffixLengths<S, T>(s: seq<S>, t: seq<T>, limit: nat)
    requires |s| == |t|
    ensures |LastN(s, limit)| == |LastN(t, limit)| == Min(|s|, limit)
  {
  }

  lemma LastInOrder<T>(from: seq<Option<T>>, to: seq<T>, every: seq<nat>, limit: nat, i: nat, j: nat)
    requires Picks(from, to, every) && i < j < |LastN(every, limit)|
    ensures LastN(every, limit)[i] < LastN(every, limit)[j]
  {
    SuffixAt(every, limit, i);
    SuffixAt(every, limit, j);
  }

  lemma LastTaken<T>(from: seq<Option<T>>, to: seq<T>, every: seq<nat>, limit: nat, i: nat)
    requires Picks(from, to, every) && i < |LastN(every, limit)|
    ensures |LastN(to, limit)| == |LastN(every, limit)|
    ensures LastN(every, limit)[i] < |from| && from[LastN(every, limit)[i]] == Some(LastN(to, limit)[i])
  {
    SuffixLengths(every, to, limit);
    SuffixAt(every, limit, i);
    SuffixAt(to, limit, i);
  }

  lemma LastLeftOut<T>(from: seq<Option<T>>, to: seq<T>, every: seq<nat>, limit: nat, j: nat)
    requires Picks(from, to, every) && j < |from| && from[j].Some? && j !in LastN(every, limit)
    ensures |LastN(to, limit)| == limit
    ensures forall i :: 0 <= i < |LastN(every, limit)| ==> j < LastN(every, limit)[i]
  {
    SuffixLengths(every, to, limit);
    var cut := |every| - Min(|every|, limit);
    var k :| 0 <= k < |every| && every[k] == j;
    forall n: nat | cut <= n < |every|
      ensures every[n] in LastN(every, limit)
    {
      SuffixAt(every, limit, n - cut);
    }
    forall i: nat | i < |LastN(every, limit)|
      ensures j < LastN(every, limit)[i]
    {
      SuffixAt(every, limit, i);
      assert k < cut + i;
    }
  }

  lemma {:induction false} NewestMatches(all: seq<HistorySample>, id: string, since: int, limit: nat)
    returns (pos: seq<nat>)
    ensures NewestOf(all, LastN(Matches(all, id, since), limit), pos, id, since, limit)
  {
    MatchesAreSomes(all, id, since);
    var marked, found := OfSession(all, id, since), Matches(all, id, since);
    var every := SomesPicks(marked);
    PicksLengths(marked, found, every);
    SuffixLengths(every, found, limit);
    hide Matches, OfSession, Somes, LastN, Picks;
    pos := LastN(every, limit);
    forall i: nat, j: nat | i < j < |pos|
      ensures pos[i] < pos[j]
    {
      LastInOrder(marked, found, every, limit, i, j);
    }
    forall i: nat | i < |pos|
      ensures pos[i] < |all| && marked[pos[i]] == Some(LastN(found, limit)[i])
    {
      LastTaken(marked, found, every, limit, i);
    }
    forall j: nat | j < |all| && all[j].sessionId == id && all[j].recordedAt >= since && j !in pos
      ensures |LastN(found, limit)| == limit && forall i :: 0 <= i < |pos| ==> j < pos[i]
    {
      LastLeftOut(marked, found, every, limit, j);
    }
  }

  lemma PicksLengths<T>(from: seq<Option<T>>, to: seq<T>, pos: seq<nat>)
    requires Picks(from, to, pos)
    ensures |pos| == |to|
  {
  }

  datatype QueryResult = Found(samples: seq<HistorySample>) | QueryFailed

  /**
   The last matches in chronological order of files, exactly as the naive scan would end with, although only as many
   of the newest files are read as are needed. `broken` are the files that cannot be opened or read.
   */
  method QuerySession(
    dir: HistoryDir, codec: Codec, broken: set<string>, id: string, since: int, limit: nat, maxQuerySamples: nat)
    returns (result: QueryResult)
    ensures result.Found? && Min(limit, maxQuerySamples) > 0 ==>
              exists names ::
                && IsListing(names, Candidates(dir.files, since))
                && result.samples == LastN(Naive(codec, dir.files, names, id, since), Min(limit, maxQuerySamples))
    ensures result.Found? ==> forall s :: s in result.samples ==> s.sessionId == id && s.recordedAt >= since
    ensures result.Found? && Min(limit, maxQuerySamples) > 0 ==>
              exists names, pos ::
                && IsListing(names, Candidates(dir.files, since))
                && NewestOf(AllIn(codec, dir.files, names), result.samples, pos, id, since, Min(limit, maxQuerySamples))
    ensures Min(limit, maxQuerySamples) == 0 ==> result == Found([])
    ensures dir.readable && broken !! Candidates(dir.files, since) ==> result.Found?
  {
    hide DayOf, Matches, FileSamples, Content, IsListing, NewestOf;
    var wanted: nat := Min(limit, maxQuerySamples);
    if wanted == 0 {
      return Found([]);
    }
    if !dir.readable {
      return QueryFailed;
    }
    var names := HistoryFilesFrom(dir.files, since);
    var samples: seq<HistorySample> := [];
    var i := |names|;
    ghost var newer: seq<HistorySample> := [];
    assert names[i..] == [];
    while i > 0 && |samples| < wanted
      invariant 0 <= i <= |names|
      invariant newer == Naive(codec, dir.files, names[i..], id, since)
      invariant samples == FirstN(Reversed(newer), wanted)
    {
      i := i - 1;
      var p := names[i];
      if p in broken {
        ListedIsKey(names, Candidates(dir.files, since), i);
        return QueryFailed;
      }
      var bytes := Content(dir.files, p);
      var fileMatches := ReadMatches(codec, bytes, id, since);
      NaiveCons(codec, dir.files, names, i, id, since);
      ReversedConcat(fileMatches, newer);
      samples := PushNewestFirst(samples, fileMatches, wanted);
      newer := fileMatches + newer;
    }
    ReversedLength(newer);
    ReversedFirstN(newer, wanted);
    assert names == names[..i] + names[i..];
    NaiveSplit(codec, dir.files, names[..i], names[i..], id, since);
    if i > 0 {
      EnoughIsEnough(Naive(codec, dir.files, names[..i], id, since), newer, wanted);
    } else {
      assert names[i..] == names;
    }
    result := Found(Reversed(samples));
    NaiveIsMatches(codec, dir.files, names, id, since);
    ghost var pos := NewestMatches(AllIn(codec, dir.files, names), id, since, wanted);
    NewestBelong(AllIn(codec, dir.files, names), result.samples, pos, id, since, wanted);
  }

  lemma NewestBelong(
    all: seq<HistorySample>, result: seq<HistorySample>, pos: seq<nat>, id: string, since: int, limit: nat)
    requires NewestOf(all, result, pos, id, since, limit)
    ensures forall s :: s in result ==> s.sessionId == id && s.recordedAt >= since
  {
  }

  lemma ListedIsKey(names: seq<string>, keys: set<string>, i: nat)
    requires IsListing(names, keys) && i < |names|
    ensures names[i] in keys
  {
  }

  // ----- Skipping whole days -----

  /** Every sample a file yields was recorded on the file's own day. */
  ghost predicate FiledByDay(codec: Codec, files: Files) {
    forall p, s :: p in files && s in FileSamples(codec, files[p]) ==> DayBucket(s.recordedAt) == DayOf(p)
  }

  lemma {:induction false} NothingWanted(samples: seq<HistorySample>, id: string, since: int)
    requires forall s :: s in samples ==> s.recordedAt < since
    ensures Matches(samples, id, since) == []
  {
    if samples != [] {
      assert samples[0] in samples;
      NothingWanted(samples[1..], id, since);
    }
  }

  lemma EarlierDayEarlier(a: int, b: int)
    requires DayBucket(a) < DayBucket(b)
    ensures a < b
  {
  }

  lemma {:induction false} SkippedFilesEmpty(
    codec: Codec, files: Files, names: seq<string>, id: string, since: int)
    requires FiledByDay(codec, files)
    requires forall p :: p in names ==> p in files && DayOf(p) < DayBucket(since)
    ensures Naive(codec, files, names, id, since) == []
  {
    hide DayOf, FileSamples;
    if names != [] {
      var p := names[0];
      forall s | s in FileSamples(codec, files[p])
        ensures s.recordedAt < since
      {
        EarlierDayEarlier(s.recordedAt, since);
      }
      NothingWanted(FileSamples(codec, files[p]), id, since);
      SkippedFilesEmpty(codec, files, names[1..], id, since);
    }
  }

  /** Leaving out the files of earlier days loses nothing: the naive scan of everything finds the same samples. */
  lemma SkippingDaysLosesNothing(
    codec: Codec, files: Files, all: seq<string>, names: seq<string>, id: string, since: int)
    requires FiledByDay(codec, files)
    requires IsListing(all, files.Keys) && IsListing(names, Candidates(files, since))
    ensures Naive(codec, files, all, id, since) == Naive(codec, files, names, id, since)
  {
    var i := SplitByDay(all, DayBucket(since));
    hide DayOf, NameBefore, FiledByDay;
    var early, late := all[..i], all[i..];
    assert all == early + late;
    LateIsListing(files, all, i, since);
    ListingUnique(late, names, Candidates(files, since));
    NaiveSplit(codec, files, early, late, id, since);
    SkippedFilesEmpty(codec, files, early, id, since);
  }

  lemma SplitByDay(all: seq<string>, day: int) returns (i: nat)
    requires Sorting.InOrder(all, NameBefore)
    ensures i <= |all|
    ensures forall k :: 0 <= k < |all| ==> (DayOf(all[k]) >= day <==> k >= i)
  {
    hide FileDay;
    i := 0;
    while i < |all| && DayOf(all[i]) < day
      invariant 0 <= i <= |all|
      invariant forall k :: 0 <= k < i ==> DayOf(all[k]) < day
    {
      i := i + 1;
    }
    assert i < |all| ==> forall k :: i < k < |all| ==> NameBefore(all[i], all[k]);
  }

  lemma LateIsListing(files: Files, all: seq<string>, i: nat, since: int)
    requires IsListing(all, files.Keys) && i <= |all|
    requires forall k :: 0 <= k < |all| ==> (DayOf(all[k]) >= DayBucket(since) <==> k >= i)
    ensures IsListing(all[i..], Candidates(files, since))
    ensures forall p :: p in all[..i] ==> p in files && DayOf(p) < DayBucket(since)
  {
    hide DayOf, NameBefore;
    ListingDistinct(all, files.Keys);
    var late := all[i..];
    assert forall k :: 0 <= k < |late| ==> late[k] == all[i + k];
    forall p
      ensures p in late <==> p in Candidates(files, since)
    {
      if p in Candidates(files, since) {
        assert p in all;
        var k :| 0 <= k < |all| && all[k] == p;
        assert late[k - i] == p;
      }
    }
    DistinctCount(late, Candidates(files, since));
  }

  lemma {:induction false} DistinctCount<T>(s: seq<T>, elements: set<T>)
    requires forall i, j :: 0 <= i < j < |s| ==> s[i] != s[j]
    requires forall x :: x in s <==> x in elements
    ensures |s| == |elements|
  {
    if s == [] {
      assert elements == {};
    } else {
      var tail, rest := s[1..], elements - {s[0]};
      assert forall x :: x in s <==> x == s[0] || x in tail;
      assert s[0] !in tail;
      DistinctCount(tail, rest);
    }
  }
}
