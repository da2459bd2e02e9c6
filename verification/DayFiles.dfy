/** The on-disk layout: one file per day bucket, found again by parsing its name. */
module DayFiles {
  import opened Prelude
  import opened Decimal
  import opened LineReader
  import opened Sorting
  import SessionIds

  const DAY_MS := 86_400_000

  /** Euclidean division, so times before the epoch fall in negative days. */
  function DayBucket(unixMs: int): int { unixMs / DAY_MS }

  /** The day bucket of a time is the whole number of days since the epoch, rounded down. */
  lemma DayBucketExactly(unixMs: int)
    ensures DayBucket(unixMs) * 86_400_000 <= unixMs < (DayBucket(unixMs) + 1) * 86_400_000
  {
  }

  const PREFIX := "day-"
  const SUFFIX := ".jsonl"

  function FileName(day: int): string { PREFIX + Format(day) + SUFFIX }

  function StripPrefix(s: string, prefix: string): Option<string> {
    if prefix <= s then Some(s[|prefix|..]) else None
  }

  function StripSuffix(s: string, suffix: string): Option<string> {
    if |suffix| <= |s| && s[|s| - |suffix|..] == suffix then Some(s[..|s| - |suffix|]) else None
  }

  /** The day a file name stands for, if it is a day file at all. */
  function FileDay(name: string): Option<int> {
    var rest := StripPrefix(name, PREFIX);
    if rest.None? then None
    else
      var day := StripSuffix(rest.value, SUFFIX);
      if day.None? then None else ParseI64(day.value)
  }

  /** A day's own file name is recognised as that day's. */
  lemma FileDayInvertsFileName(day: int)
    requires -I64_LIMIT <= day < I64_LIMIT
    ensures FileDay(FileName(day)) == Some(day)
  {
    var digits := Format(day);
    assert FileName(day)[|PREFIX|..] == digits + SUFFIX;
    assert (digits + SUFFIX)[|digits|..] == SUFFIX;
    assert (digits + SUFFIX)[..|digits|] == digits;
    hide Format;
    ParseInvertsFormat(day);
  }

  /** Day files by name. Entries that are not regular day files are ignored by every operation. */
  type Files = map<string, seq<byte>>

  ghost predicate AllDayFiles(files: Files) {
    forall p :: p in files ==> FileDay(p).Some?
  }

  function DayOf(name: string): int { UnwrapOr(FileDay(name), 0) }

  /** Oldest day first, then by name. */
  predicate NameBefore(a: string, b: string) {
    DayOf(a) < DayOf(b) || (DayOf(a) == DayOf(b) && SessionIds.StringLess(a, b))
  }

  lemma NameOrder()
    ensures Transitive(NameBefore) && Irreflexive(NameBefore)
    ensures forall a: string, b: string :: a != b ==> (NameBefore(a, b) <==> !NameBefore(b, a))
  {
    hide FileDay;
    forall a: string, b: string, c: string | NameBefore(a, b) && NameBefore(b, c)
      ensures NameBefore(a, c)
    {
      if SessionIds.StringLess(a, b) && SessionIds.StringLess(b, c) {
        SessionIds.StringLessTransitive(a, b, c);
      }
    }
    forall a: string
      ensures !NameBefore(a, a)
    {
      if SessionIds.StringLess(a, a) {
        SessionIds.StringLessAsymmetric(a, a);
      }
    }
    forall a: string, b: string | a != b
      ensures NameBefore(a, b) <==> !NameBefore(b, a)
    {
      SessionIds.StringLessTotal(a, b);
      if SessionIds.StringLess(a, b) {
        SessionIds.StringLessAsymmetric(a, b);
      } else {
        SessionIds.StringLessAsymmetric(b, a);
      }
    }
  }

  /** `names` lists `keys` once each, oldest first. */
  ghost predicate IsListing(names: seq<string>, keys: set<string>) {
    InOrder(names, NameBefore) && |names| == |keys| && forall p :: p in names <==> p in keys
  }

  lemma ListingUnique(a: seq<string>, b: seq<string>, keys: set<string>)
    requires IsListing(a, keys) && IsListing(b, keys)
    ensures a == b
  {
    NameOrder();
    hide NameBefore;
    InOrderUnique(a, b, NameBefore);
  }

  lemma ListingDistinct(names: seq<string>, keys: set<string>)
    requires IsListing(names, keys)
    ensures forall i, j :: 0 <= i < j < |names| ==> names[i] != names[j]
  {
    NameOrder();
    hide NameBefore;
  }

  /** A listing goes from earlier to later days, and by name within a day. */
  lemma ListedByDay(names: seq<string>, keys: set<string>, i: nat, j: nat)
    requires IsListing(names, keys) && i < j < |names|
    ensures DayOf(names[i]) <= DayOf(names[j])
    ensures DayOf(names[i]) == DayOf(names[j]) ==> SessionIds.StringLess(names[i], names[j])
  {
    hide DayOf;
    assert NameBefore(names[i], names[j]);
  }

  /** The names of the day files. */
  lemma DayNames()
    ensures FileName(0) == "day-0.jsonl" && FileName(-12) == "day--12.jsonl"
    ensures FileDay("day-0.jsonl") == Some(0)
  {
    assert Digits(12) == "12";
    assert FileName(0) == "day-0.jsonl";
    FileDayInvertsFileName(0);
  }

  lemma ListingExtended(names: seq<string>, keys: set<string>, p: string)
    requires IsListing(names, keys) && p !in keys
    ensures IsListing(Inserted(p, names, NameBefore), keys + {p})
  {
    hide NameBefore, Inserted;
    NameOrder();
    InsertedInOrder(p, names, NameBefore);
    InsertedContents(p, names, NameBefore);
  }

  /** The names in order, whatever order the directory yields them in. */
  method ListSorted(keys: set<string>) returns (names: seq<string>)
    ensures IsListing(names, keys)
  {
    hide NameBefore, Inserted;
    names := [];
    var pending := keys;
    while pending != {}
      invariant pending <= keys
      invariant IsListing(names, keys - pending)
      decreases |pending|
    {
      var p :| p in pending;
      ListingExtended(names, keys - pending, p);
      assert keys - (pending - {p}) == (keys - pending) + {p};
      names := Inserted(p, names, NameBefore);
      pending := pending - {p};
    }
    assert keys - pending == keys;
  }

  // ----- Sizes -----

  ghost function Total(files: Files): nat
    decreases |files|
  {
    if files == map[] then 0
    else
      var p :| p in files;
      |files[p]| + Total(files - {p})
  }

  lemma {:induction false} TotalRemove(files: Files, p: string)
    requires p in files
    ensures Total(files) == |files[p]| + Total(files - {p})
    decreases |files|
  {
    var q :| q in files && Total(files) == |files[q]| + Total(files - {q});
    if q != p {
      TotalRemove(files - {q}, p);
      TotalRemove(files - {p}, q);
      assert files - {q} - {p} == files - {p} - {q};
    }
  }

  lemma {:induction false} TotalOfPart(part: Files, files: Files)
    requires part.Keys <= files.Keys && forall p :: p in part ==> part[p] == files[p]
    ensures Total(part) <= Total(files)
    decreases |files|
  {
    if part.Keys != files.Keys {
      var p :| p in files && p !in part;
      TotalRemove(files, p);
      TotalOfPart(part, files - {p});
    } else {
      assert part == files;
    }
  }

  function Content(files: Files, p: string): seq<byte> { if p in files then files[p] else [] }

  function Appended(files: Files, p: string, data: seq<byte>): Files { files[p := Content(files, p) + data] }

  lemma TotalAppended(files: Files, p: string, data: seq<byte>)
    ensures Total(Appended(files, p, data)) == Total(files) + |data|
  {
    var longer := Appended(files, p, data);
    TotalRemove(longer, p);
    if p in files {
      TotalRemove(files, p);
      assert longer - {p} == files - {p};
    } else {
      assert longer - {p} == files;
    }
  }

  method SumSizes(files: Files) returns (total: nat)
    ensures total == Total(files)
  {
    var pending := files;
    total := 0;
    while pending != map[]
      invariant total + Total(pending) == Total(files)
      decreases |pending|
    {
      var p :| p in pending;
      TotalRemove(pending, p);
      total := total + |pending[p]|;
      pending := pending - {p};
    }
  }
}
