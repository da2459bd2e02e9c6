/** Content negotiation for the metrics endpoint. */
module Accept {
  import opened Prelude
  import Text

  datatype Format = PrometheusText | OpenMetricsText

  /** Reading a quality value. Texts that are no number, or not a finite one, give `None`. */
  type QualityParser = string -> Option<real>

  // ----- Text handling -----

  function Split(s: string, separator: char): (r: seq<string>)
    ensures r != []
  {
    if s == [] then [""]
    else
      var rest := Split(s[1..], separator);
      if s[0] == separator then [""] + rest else [[s[0]] + rest[0]] + rest[1..]
  }

  function SplitOnce(s: string, separator: char): Option<(string, string)> {
    if s == [] then None
    else if s[0] == separator then Some(("", s[1..]))
    else
      var rest := SplitOnce(s[1..], separator);
      if rest.None? then None else Some(([s[0]] + rest.value.0, rest.value.1))
  }

  function AsciiLower(c: char): char {
    if 'A' <= c <= 'Z' then c - 'A' + 'a' else c
  }

  predicate EqualIgnoringCase(a: string, b: string) {
    |a| == |b| && forall i :: 0 <= i < |a| ==> AsciiLower(a[i]) == AsciiLower(b[i])
  }

  function TrimEndOf(s: string, c: char): string {
    if s != [] && Last(s) == c then TrimEndOf(s[..|s| - 1], c) else s
  }

  function TrimStartOf(s: string, c: char): string {
    if s != [] && s[0] == c then TrimStartOf(s[1..], c) else s
  }

  function Unquoted(s: string): string { TrimEndOf(TrimStartOf(s, '"'), '"') }

  lemma {:induction false} SplitWhole(s: string, separator: char)
    requires separator !in s
    ensures Split(s, separator) == [s]
  {
    if s != [] {
      assert s[0] in s;
      assert separator !in s[1..];
      SplitWhole(s[1..], separator);
      assert s == [s[0]] + s[1..];
    }
  }

  /** Splitting two pieces joined by the separator is splitting each. */
  lemma {:induction false} SplitJoined(a: string, b: string, separator: char)
    ensures Split(a + [separator] + b, separator) == Split(a, separator) + Split(b, separator)
  {
    var joined := a + [separator] + b;
    if a == [] {
      assert joined[1..] == b;
    } else {
      assert joined[1..] == a[1..] + [separator] + b;
      SplitJoined(a[1..], b, separator);
    }
  }

  // ----- One item -----

  datatype AcceptMatch = AcceptMatch(quality: real, specificity: nat)

  /** How specifically a media range names a type: not at all, by wildcard, by main type, or in full. */
  function MediaMatch(candidate: string, mainType: string, subtype: string): Option<nat> {
    var split := SplitOnce(candidate, '/');
    if split.None? then None
    else
      var t, s := Text.Trim(split.value.0), Text.Trim(split.value.1);
      if t == "*" && s == "*" then Some(0)
      else if s == "*" && EqualIgnoringCase(t, mainType) then Some(1)
      else if EqualIgnoringCase(t, mainType) && EqualIgnoringCase(s, subtype) then Some(2)
      else None
  }

  datatype Target = Target(mainType: string, subtype: string, version: string)

  const OPENMETRICS := Target("application", "openmetrics-text", "1.0.0")
  const PROMETHEUS := Target("text", "plain", "0.0.4")
  const CHARSET := "utf-8"

  predicate Named(parameter: string, name: string) {
    var split := SplitOnce(parameter, '=');
    split.Some? && EqualIgnoringCase(Text.Trim(split.value.0), name)
  }

  function ValueOf(parameter: string): string {
    var split := SplitOnce(parameter, '=');
    if split.None? then "" else Unquoted(Text.Trim(split.value.1))
  }

  /** A parameter that makes the whole item void: no value at all, or a quality outside [0, 1]. */
  predicate Void(parse: QualityParser, parameter: string) {
    || SplitOnce(parameter, '=').None?
    || (Named(parameter, "q")
        && (parse(ValueOf(parameter)).None? || !(0.0 <= parse(ValueOf(parameter)).value <= 1.0)))
  }

  /** The value of the last parameter of that name. */
  function LastNamed(parameters: seq<string>, name: string): Option<string> {
    if parameters == [] then None
    else if Named(Last(parameters), name) then Some(ValueOf(Last(parameters)))
    else LastNamed(parameters[..|parameters| - 1], name)
  }

  function QualityOf(parse: QualityParser, parameters: seq<string>): real {
    var q := LastNamed(parameters, "q");
    if q.None? then 1.0 else UnwrapOr(parse(q.value), 1.0)
  }

  /** What one item says about a target, if anything: the last value of each parameter counts. */
  function ItemMatch(parse: QualityParser, item: string, target: Target): Option<AcceptMatch> {
    var parts := Split(item, ';');
    var specificity := MediaMatch(Text.Trim(parts[0]), target.mainType, target.subtype);
    var parameters := parts[1..];
    var version, charset := LastNamed(parameters, "version"), LastNamed(parameters, "charset");
    if specificity.None? || exists i :: 0 <= i < |parameters| && Void(parse, parameters[i]) then None
    else if version.Some? && version.value != target.version then None
    else if charset.Some? && !EqualIgnoringCase(charset.value, CHARSET) then None
    else Some(AcceptMatch(QualityOf(parse, parameters), specificity.value))
  }

  lemma LastNamedStep(parameters: seq<string>, i: nat, name: string)
    requires i < |parameters|
    ensures LastNamed(parameters[..i + 1], name) ==
            if Named(parameters[i], name) then Some(ValueOf(parameters[i])) else LastNamed(parameters[..i], name)
  {
    assert parameters[..i + 1][..i] == parameters[..i];
  }

  lemma NamesApart(parameter: string)
    ensures Named(parameter, "q") ==> !Named(parameter, "version") && !Named(parameter, "charset")
    ensures Named(parameter, "version") ==> !Named(parameter, "charset")
  {
    hide SplitOnce, Text.Trim;
    if Named(parameter, "version") {
      var name := Text.Trim(SplitOnce(parameter, '=').value.0);
      assert AsciiLower(name[0]) == AsciiLower("version"[0]) != AsciiLower("charset"[0]);
    }
  }

  lemma BlankMatchesNothing(mainType: string, subtype: string)
    ensures MediaMatch("", mainType, subtype) == None
  {
  }

  /** The parameter scan of one item, leaving at the first void parameter. */
  method AcceptItemQuality(parse: QualityParser, item: string, target: Target) returns (r: Option<AcceptMatch>)
    ensures r == ItemMatch(parse, item, target)
  {
    hide Split, SplitOnce, Text.Trim, Unquoted, EqualIgnoringCase, MediaMatch, LastNamed;
    var parts := Split(item, ';');
    var mediaType := Text.Trim(parts[0]);
    BlankMatchesNothing(target.mainType, target.subtype);
    if mediaType == "" {
      return None;
    }
    var specificity := MediaMatch(mediaType, target.mainType, target.subtype);
    if specificity.None? {
      return None;
    }
    var parameters := parts[1..];
    var quality, version, charset := 1.0, None, None;
    NothingNamed();
    assert parameters[..0] == [];
    for i := 0 to |parameters|
      invariant forall k :: 0 <= k < i ==> !Void(parse, parameters[k])
      invariant quality == QualityOf(parse, parameters[..i])
      invariant version == LastNamed(parameters[..i], "version")
      invariant charset == LastNamed(parameters[..i], "charset")
    {
      var parameter := parameters[i];
      NamesApart(parameter);
      LastNamedStep(parameters, i, "q");
      LastNamedStep(parameters, i, "version");
      LastNamedStep(parameters, i, "charset");
      var split := SplitOnce(parameter, '=');
      if split.None? {
        return None;
      }
      var name, value := Text.Trim(split.value.0), Unquoted(Text.Trim(split.value.1));
      if EqualIgnoringCase(name, "q") {
        var parsed := parse(value);
        if parsed.None? || !(0.0 <= parsed.value <= 1.0) {
          return None;
        }
        quality := parsed.value;
      } else if EqualIgnoringCase(name, "version") {
        version := Some(value);
      } else if EqualIgnoringCase(name, "charset") {
        charset := Some(value);
      }
    }
    assert parameters[..|parameters|] == parameters;
    if version.Some? && version.value != target.version {
      return None;
    }
    if charset.Some? && !EqualIgnoringCase(charset.value, CHARSET) {
      return None;
    }
    return Some(AcceptMatch(quality, specificity.value));
  }

  lemma NothingNamed()
    ensures forall name :: LastNamed([], name) == None
  {
  }

  // ----- Merging -----

  predicate CandidatePreferred(a: AcceptMatch, b: AcceptMatch) {
    a.specificity > b.specificity || (a.specificity == b.specificity && a.quality > b.quality)
  }

  predicate FinallyPreferred(a: AcceptMatch, b: AcceptMatch) {
    a.quality > b.quality || (a.quality == b.quality && a.specificity > b.specificity)
  }

  function Merged(current: Option<AcceptMatch>, candidate: Option<AcceptMatch>): Option<AcceptMatch> {
    if current.Some? && candidate.Some? && CandidatePreferred(candidate.value, current.value) then candidate
    else if current.Some? then current
    else candidate
  }

  /** All that a list of items says about a target. */
  function Candidates(parse: QualityParser, items: seq<string>, target: Target): (r: seq<Option<AcceptMatch>>)
    ensures |r| == |items| && forall i :: 0 <= i < |r| ==> r[i] == ItemMatch(parse, items[i], target)
  {
    seq(|items|, i requires 0 <= i < |items| => ItemMatch(parse, items[i], target))
  }

  function Best(candidates: seq<Option<AcceptMatch>>): Option<AcceptMatch> {
    if candidates == [] then None
    else Merged(Best(candidates[..|candidates| - 1]), Last(candidates))
  }

  /** The most specific candidate and, among those, the one of highest quality. */
  ghost predicate IsBest(best: Option<AcceptMatch>, candidates: seq<Option<AcceptMatch>>) {
    && (best.None? ==> forall c :: c in candidates ==> c == None)
    && (best.Some? ==> best in candidates)
    && (best.Some? ==> forall c :: c in candidates && c.Some? ==>
          || c.value.specificity < best.value.specificity
          || (c.value.specificity == best.value.specificity && c.value.quality <= best.value.quality))
  }

  lemma {:induction false} BestIsBest(candidates: seq<Option<AcceptMatch>>)
    ensures IsBest(Best(candidates), candidates)
  {
    if candidates != [] {
      var front := candidates[..|candidates| - 1];
      BestIsBest(front);
      assert candidates == front + [Last(candidates)];
      assert forall c :: c in candidates <==> c in front || c == Last(candidates);
    }
  }

  /** The best match depends on which candidates there are, not on their order or number. */
  lemma BestOrderFree(a: seq<Option<AcceptMatch>>, b: seq<Option<AcceptMatch>>)
    requires forall c: Option<AcceptMatch> :: c.Some? ==> (c in a <==> c in b)
    ensures Best(a) == Best(b)
  {
    BestIsBest(a);
    BestIsBest(b);
    assert Best(a).Some? ==> Best(a) in b;
    assert Best(b).Some? ==> Best(b) in a;
  }

  lemma {:induction false} BestConcat(a: seq<Option<AcceptMatch>>, b: seq<Option<AcceptMatch>>)
    ensures Best(a + b) == Merged(Best(a), Best(b))
  {
    if b == [] {
      assert a + b == a;
    } else {
      assert (a + b)[..|a + b| - 1] == a + b[..|b| - 1];
      BestConcat(a, b[..|b| - 1]);
    }
  }

  // ----- Headers -----

  datatype Preference = Preference(openmetrics: Option<AcceptMatch>, textPlain: Option<AcceptMatch>)

  function PreferenceOf(parse: QualityParser, items: seq<string>): Preference {
    Preference(Best(Candidates(parse, items, OPENMETRICS)), Best(Candidates(parse, items, PROMETHEUS)))
  }

  lemma CandidatesStep(parse: QualityParser, items: seq<string>, i: nat, target: Target)
    requires i < |items|
    ensures Best(Candidates(parse, items[..i + 1], target)) ==
            Merged(Best(Candidates(parse, items[..i], target)), ItemMatch(parse, items[i], target))
  {
    var longer, shorter := Candidates(parse, items[..i + 1], target), Candidates(parse, items[..i], target);
    assert longer[..i] == shorter;
    assert Last(longer) == ItemMatch(parse, items[i], target);
  }

  method HeaderPreference(parse: QualityParser, value: string) returns (p: Preference)
    ensures p == PreferenceOf(parse, Split(value, ','))
  {
    hide ItemMatch, Best;
    p := Preference(None, None);
    var items := Split(value, ',');
    NoCandidates();
    assert items[..0] == [];
    for i := 0 to |items|
      invariant p == PreferenceOf(parse, items[..i])
    {
      CandidatesStep(parse, items, i, OPENMETRICS);
      CandidatesStep(parse, items, i, PROMETHEUS);
      var open := AcceptItemQuality(parse, items[i], OPENMETRICS);
      if open.Some? {
        p := p.(openmetrics := Merged(p.openmetrics, open));
      }
      var text := AcceptItemQuality(parse, items[i], PROMETHEUS);
      if text.Some? {
        p := p.(textPlain := Merged(p.textPlain, text));
      }
    }
    assert items[..|items|] == items;
  }

  lemma NoCandidates()
    ensures Best([]) == None
  {
  }

  /** All items of all `Accept` headers, in order. */
  function Items(values: seq<string>): seq<string> {
    if values == [] then [] else Items(values[..|values| - 1]) + Split(Last(values), ',')
  }

  lemma PreferenceConcat(parse: QualityParser, a: seq<string>, b: seq<string>)
    ensures var p, q := PreferenceOf(parse, a), PreferenceOf(parse, b);
            PreferenceOf(parse, a + b) ==
            Preference(Merged(p.openmetrics, q.openmetrics), Merged(p.textPlain, q.textPlain))
  {
    hide ItemMatch, Best, Merged;
    assert Candidates(parse, a + b, OPENMETRICS) ==
           Candidates(parse, a, OPENMETRICS) + Candidates(parse, b, OPENMETRICS);
    assert Candidates(parse, a + b, PROMETHEUS) ==
           Candidates(parse, a, PROMETHEUS) + Candidates(parse, b, PROMETHEUS);
    BestConcat(Candidates(parse, a, OPENMETRICS), Candidates(parse, b, OPENMETRICS));
    BestConcat(Candidates(parse, a, PROMETHEUS), Candidates(parse, b, PROMETHEUS));
  }

  predicate PrefersOpenMetrics(p: Preference) {
    && p.openmetrics.Some?
    && if p.textPlain.Some? then FinallyPreferred(p.openmetrics.value, p.textPlain.value)
       else p.openmetrics.value.quality > 0.0
  }

  function Choose(p: Preference, sawHeader: bool): Option<Format> {
    if PrefersOpenMetrics(p) then Some(OpenMetricsText)
    else if p.textPlain.Some? && p.textPlain.value.quality > 0.0 then Some(PrometheusText)
    else if !sawHeader then Some(PrometheusText)
    else None
  }

  /** The negotiated format for the values of the `Accept` headers of a request. */
  function Negotiated(parse: QualityParser, values: seq<string>): Option<Format> {
    Choose(PreferenceOf(parse, Items(values)), values != [])
  }

  predicate IsAccept(line: string) {
    var header := SplitOnce(line, ':');
    header.Some? && EqualIgnoringCase(header.value.0, "accept")
  }

  /** The values of the `Accept` headers, up to the blank line that ends the headers. */
  function AcceptValues(lines: seq<string>): seq<string> {
    if lines == [] then []
    else
      var line := TrimEndOf(lines[0], '\r');
      if line == "" then []
      else if IsAccept(line) then [SplitOnce(line, ':').value.1] + AcceptValues(lines[1..])
      else AcceptValues(lines[1..])
  }

  /** The headers of a request, after its request line, folded into one decision. */
  method RequestedFormat(parse: QualityParser, request: string) returns (format: Option<Format>)
    ensures format == Negotiated(parse, AcceptValues(Split(request, '\n')[1..]))
  {
    hide Split, SplitOnce, TrimEndOf, EqualIgnoringCase, PreferenceOf, Merged;
    var lines := Split(request, '\n')[1..];
    var preference, sawHeader := Preference(None, None), false;
    ghost var values: seq<string> := [];
    NoItemsNoPreference(parse);
    var i := 0;
    assert lines[0..] == lines;
    while i < |lines|
      invariant 0 <= i <= |lines|
      invariant AcceptValues(lines) == values + AcceptValues(lines[i..])
      invariant preference == PreferenceOf(parse, Items(values))
      invariant sawHeader == (values != [])
    {
      assert lines[i..][0] == lines[i] && lines[i..][1..] == lines[i + 1..];
      var line := TrimEndOf(lines[i], '\r');
      if line == "" {
        assert values + [] == values;
        break;
      }
      i := i + 1;
      var header := SplitOnce(line, ':');
      if header.None? || !EqualIgnoringCase(header.value.0, "accept") {
        continue;
      }
      sawHeader := true;
      var parsed := HeaderPreference(parse, header.value.1);
      preference := Preference(
        Merged(preference.openmetrics, parsed.openmetrics), Merged(preference.textPlain, parsed.textPlain));
      PreferenceConcat(parse, Items(values), Split(header.value.1, ','));
      ConcatAssociative(values, [header.value.1], AcceptValues(lines[i..]));
      assert (values + [header.value.1])[..|values|] == values;
      values := values + [header.value.1];
    }
    assert i == |lines| ==> lines[i..] == [] && values + [] == values;
    format := Choose(preference, sawHeader);
  }

  lemma NoItemsNoPreference(parse: QualityParser)
    ensures PreferenceOf(parse, []) == Preference(None, None)
  {
  }

  // ----- What the negotiation guarantees -----

  /** Reordering items, repeating them, or moving them to other header lines never changes the outcome. */
  lemma NegotiationOrderFree(parse: QualityParser, a: seq<string>, b: seq<string>)
    requires a == [] <==> b == []
    requires forall item :: item in Items(a) <==> item in Items(b)
    ensures Negotiated(parse, a) == Negotiated(parse, b)
  {
    hide ItemMatch, Best;
    SameCandidates(parse, Items(a), Items(b), OPENMETRICS);
    SameCandidates(parse, Items(a), Items(b), PROMETHEUS);
    BestOrderFree(Candidates(parse, Items(a), OPENMETRICS), Candidates(parse, Items(b), OPENMETRICS));
    BestOrderFree(Candidates(parse, Items(a), PROMETHEUS), Candidates(parse, Items(b), PROMETHEUS));
  }

  lemma SameCandidates(parse: QualityParser, a: seq<string>, b: seq<string>, target: Target)
    requires forall item :: item in a <==> item in b
    ensures forall c :: c in Candidates(parse, a, target) <==> c in Candidates(parse, b, target)
  {
    hide ItemMatch;
    forall c
      ensures c in Candidates(parse, a, target) <==> c in Candidates(parse, b, target)
    {
      if c in Candidates(parse, a, target) {
        CandidateFromItem(parse, a, b, target, c);
      }
      if c in Candidates(parse, b, target) {
        CandidateFromItem(parse, b, a, target, c);
      }
    }
  }

  lemma CandidateFromItem(
    parse: QualityParser, a: seq<string>, b: seq<string>, target: Target, c: Option<AcceptMatch>)
    requires c in Candidates(parse, a, target) && forall item :: item in a ==> item in b
    ensures c in Candidates(parse, b, target)
  {
    hide ItemMatch;
    var i :| 0 <= i < |a| && Candidates(parse, a, target)[i] == c;
    assert a[i] in b;
    var j :| 0 <= j < |b| && b[j] == a[i];
    assert Candidates(parse, b, target)[j] == c;
  }

  /** One header line with two lists means the same as two header lines. */
  lemma SplitAcrossLines(parse: QualityParser, before: seq<string>, x: string, y: string)
    ensures Negotiated(parse, before + [x + "," + y]) == Negotiated(parse, before + [x, y])
  {
    hide Split, PreferenceOf, Choose;
    SplitJoined(x, y, ',');
    var one, two := before + [x + "," + y], before + [x, y];
    assert one[..|before|] == before;
    assert two[..|two| - 1] == before + [x] && (before + [x])[..|before|] == before;
    ConcatAssociative(Items(before), Split(x, ','), Split(y, ','));
    assert Items(one) == Items(two);
  }

  function BestFor(p: Preference, f: Format): Option<AcceptMatch> {
    if f == OpenMetricsText then p.openmetrics else p.textPlain
  }

  function Other(f: Format): Format { if f == OpenMetricsText then PrometheusText else OpenMetricsText }

  /** The format's best match allows it. */
  predicate Acceptable(p: Preference, f: Format) {
    BestFor(p, f).Some? && BestFor(p, f).value.quality > 0.0
  }

  /** The choice is allowed and no worse than the alternative; nothing is chosen only when nothing is allowed. */
  predicate Respects(p: Preference, choice: Option<Format>) {
    if choice.None? then !Acceptable(p, PrometheusText) && !Acceptable(p, OpenMetricsText)
    else
      && Acceptable(p, choice.value)
      && (BestFor(p, Other(choice.value)).Some? ==>
            BestFor(p, Other(choice.value)).value.quality <= BestFor(p, choice.value).value.quality)
  }

  /** Both formats are refused, the one for OpenMetrics more specifically. */
  predicate BothRefused(p: Preference) {
    && p.openmetrics.Some? && p.textPlain.Some?
    && p.openmetrics.value.quality == 0.0 && p.textPlain.value.quality == 0.0
    && p.openmetrics.value.specificity > p.textPlain.value.specificity
  }

  lemma {:induction false} QualitiesInRange(parse: QualityParser, parameters: seq<string>)
    requires forall i :: 0 <= i < |parameters| ==> !Void(parse, parameters[i])
    ensures LastNamed(parameters, "q").Some? ==>
              parse(LastNamed(parameters, "q").value).Some?
    ensures 0.0 <= QualityOf(parse, parameters) <= 1.0
  {
    hide Named, ValueOf;
    if parameters != [] {
      QualitiesInRange(parse, parameters[..|parameters| - 1]);
    }
  }

  lemma BestInRange(parse: QualityParser, items: seq<string>, target: Target)
    ensures var best := Best(Candidates(parse, items, target));
            best.Some? ==> 0.0 <= best.value.quality <= 1.0
  {
    var candidates := Candidates(parse, items, target);
    BestIsBest(candidates);
    if Best(candidates).Some? {
      var i :| 0 <= i < |candidates| && candidates[i] == Best(candidates);
      var parameters := Split(items[i], ';')[1..];
      hide Best, Named, ValueOf, LastNamed, EqualIgnoringCase, Split, MediaMatch, QualityOf;
      QualitiesInRange(parse, parameters);
    }
  }

  /**
   Whatever the headers say, the outcome respects them, except exactly when both formats are refused and OpenMetrics
   the more specifically. Then it is served all the same.
   */
  lemma NegotiationExact(parse: QualityParser, values: seq<string>)
    requires values != []
    ensures var p := PreferenceOf(parse, Items(values));
            && (Respects(p, Negotiated(parse, values)) <==> !BothRefused(p))
            && (BothRefused(p) ==> Negotiated(parse, values) == Some(OpenMetricsText))
  {
    BestInRange(parse, Items(values), OPENMETRICS);
    BestInRange(parse, Items(values), PROMETHEUS);
    hide Best, Items;
  }

  /** Equally acceptable formats are told apart by specificity, in favour of the plain text; so is no header at all. */
  lemma TiesExactly(parse: QualityParser, values: seq<string>)
    ensures Negotiated(parse, []) == Some(PrometheusText)
    ensures var p := PreferenceOf(parse, Items(values));
            p.openmetrics.Some? && p.textPlain.Some?
            && p.openmetrics.value.quality == p.textPlain.value.quality > 0.0 ==>
              Negotiated(parse, values) ==
              Some(if p.openmetrics.value.specificity > p.textPlain.value.specificity then OpenMetricsText
                   else PrometheusText)
  {
    NoItemsNoPreference(parse);
    hide PreferenceOf;
    assert Items([]) == [];
  }

  // ----- What the texts mean -----

  lemma {:induction false} SplitOnceExactly(s: string, separator: char)
    ensures var split := SplitOnce(s, separator);
            && (split.None? <==> separator !in s)
            && (split.Some? ==>
                  separator !in split.value.0 && s == split.value.0 + [separator] + split.value.1)
  {
    if s != [] {
      SplitOnceExactly(s[1..], separator);
      assert s == [s[0]] + s[1..];
    }
  }

  /** Equal but for the case of the letters A to Z. */
  lemma EqualLetters(a: string, b: string)
    ensures EqualIgnoringCase(a, b) <==>
              |a| == |b| && forall i :: 0 <= i < |a| ==>
                || a[i] == b[i]
                || ('A' <= a[i] <= 'Z' && b[i] as int == a[i] as int + 32)
                || ('A' <= b[i] <= 'Z' && a[i] as int == b[i] as int + 32)
  {
  }

  lemma {:induction false} TrimEndExactly(s: string, c: char)
    ensures var n := |TrimEndOf(s, c)|;
            && n <= |s| && TrimEndOf(s, c) == s[..n]
            && (forall i :: n <= i < |s| ==> s[i] == c) && (n > 0 ==> s[n - 1] != c)
  {
    if s != [] && Last(s) == c {
      TrimEndExactly(s[..|s| - 1], c);
    }
  }

  lemma {:induction false} TrimStartExactly(s: string, c: char)
    ensures var n := |s| - |TrimStartOf(s, c)|;
            && 0 <= n <= |s| && TrimStartOf(s, c) == s[n..]
            && (forall i :: 0 <= i < n ==> s[i] == c) && (n < |s| ==> s[n] != c)
  {
    if s != [] && s[0] == c {
      TrimStartExactly(s[1..], c);
    }
  }

  /** A value loses exactly the quotes around it. */
  lemma UnquotedExactly(s: string) returns (i: nat, j: nat)
    ensures i <= j <= |s| && Unquoted(s) == s[i..j]
    ensures forall k :: 0 <= k < i || j <= k < |s| ==> s[k] == '"'
    ensures i < j ==> s[i] != '"' && s[j - 1] != '"'
  {
    TrimStartExactly(s, '"');
    var u := TrimStartOf(s, '"');
    TrimEndExactly(u, '"');
    i := |s| - |u|;
    j := i + |Unquoted(s)|;
    hide TrimStartOf, TrimEndOf;
    assert forall k :: 0 <= k < |u| ==> u[k] == s[i + k];
    assert forall k :: j <= k < |s| ==> s[k] == u[k - i];
  }

  /** The parameters of an item leave it valid for a version. */
  predicate ParametersFit(parse: QualityParser, parameters: seq<string>, version: string) {
    && (forall i :: 0 <= i < |parameters| ==> !Void(parse, parameters[i]))
    && (LastNamed(parameters, "version").Some? ==> LastNamed(parameters, "version").value == version)
    && (LastNamed(parameters, "charset").Some? ==> EqualIgnoringCase(LastNamed(parameters, "charset").value, "utf-8"))
  }

  /** What an item says about each of the two formats, by name and version. */
  lemma FormatsExactly(parse: QualityParser, item: string)
    ensures var parts := Split(item, ';');
            var range, parameters := Text.Trim(parts[0]), parts[1..];
            && (ItemMatch(parse, item, OPENMETRICS).Some? <==>
                  && MediaMatch(range, "application", "openmetrics-text").Some?
                  && ParametersFit(parse, parameters, "1.0.0"))
            && (ItemMatch(parse, item, PROMETHEUS).Some? <==>
                  MediaMatch(range, "text", "plain").Some? && ParametersFit(parse, parameters, "0.0.4"))
            && (ItemMatch(parse, item, OPENMETRICS).Some? ==>
                  ItemMatch(parse, item, OPENMETRICS).value ==
                  AcceptMatch(QualityOf(parse, parameters), MediaMatch(range, "application", "openmetrics-text").value))
            && (ItemMatch(parse, item, PROMETHEUS).Some? ==>
                  ItemMatch(parse, item, PROMETHEUS).value ==
                  AcceptMatch(QualityOf(parse, parameters), MediaMatch(range, "text", "plain").value))
  {
    hide Split, Text.Trim, MediaMatch, Void, LastNamed, EqualIgnoringCase, QualityOf;
  }

  // ----- The corner is reachable -----

  lemma {:induction false} SplitOnceAt(a: string, b: string, separator: char)
    requires separator !in a
    ensures SplitOnce(a + [separator] + b, separator) == Some((a, b))
  {
    var joined := a + [separator] + b;
    if a == [] {
      assert joined[1..] == b;
    } else {
      assert a[0] in a && joined[1..] == a[1..] + [separator] + b;
      assert separator !in a[1..] && joined[0] == a[0];
      SplitOnceAt(a[1..], b, separator);
      assert [a[0]] + a[1..] == a;
    }
  }

  lemma TrimFixed(s: string)
    requires s != [] && !Text.IsWhitespace(s[0]) && !Text.IsWhitespace(Last(s))
    ensures Text.Trim(s) == s
  {
  }

  function RangeMatch(mainType: string, subtype: string, target: Target): Option<nat> {
    if mainType == "*" && subtype == "*" then Some(0)
    else if subtype == "*" && EqualIgnoringCase(mainType, target.mainType) then Some(1)
    else if EqualIgnoringCase(mainType, target.mainType) && EqualIgnoringCase(subtype, target.subtype) then Some(2)
    else None
  }

  predicate PlainToken(s: string) {
    && s != [] && !Text.IsWhitespace(s[0]) && !Text.IsWhitespace(Last(s))
    && '/' !in s && ';' !in s && ',' !in s
  }

  lemma RangeMatches(mainType: string, subtype: string, target: Target)
    requires PlainToken(mainType) && PlainToken(subtype)
    ensures var range := mainType + "/" + subtype;
            && Text.Trim(range) == range
            && MediaMatch(range, target.mainType, target.subtype) == RangeMatch(mainType, subtype, target)
  {
    var range := mainType + "/" + subtype;
    SplitOnceAt(mainType, subtype, '/');
    TrimFixed(mainType);
    TrimFixed(subtype);
    assert range[0] == mainType[0] && Last(range) == Last(subtype);
    TrimFixed(range);
    hide EqualIgnoringCase, Text.Trim, SplitOnce;
    assert mainType + ['/'] + subtype == range;
  }

  lemma RefusedItem(parse: QualityParser, mainType: string, subtype: string, target: Target)
    requires parse("0") == Some(0.0) && PlainToken(mainType) && PlainToken(subtype)
    ensures var specificity := RangeMatch(mainType, subtype, target);
            ItemMatch(parse, mainType + "/" + subtype + ";q=0", target) ==
            if specificity.None? then None else Some(AcceptMatch(0.0, specificity.value))
  {
    var range := mainType + "/" + subtype;
    var parameters: seq<string> := ["q=0"];
    assert ';' !in range;
    RangeMatches(mainType, subtype, target);
    SplitJoined(range, "q=0", ';');
    SplitWhole(range, ';');
    SplitWhole("q=0", ';');
    QualityZero(parse);
    hide RangeMatch, MediaMatch, Text.Trim, Split, LastNamed, Void, QualityOf, PlainToken;
    assert range + [';'] + "q=0" == range + ";q=0";
    var parts := Split(range + ";q=0", ';');
    assert parts[0] == range && parts[1..] == parameters;
  }

  lemma QualityZero(parse: QualityParser)
    requires parse("0") == Some(0.0)
    ensures !Void(parse, "q=0") && QualityOf(parse, ["q=0"]) == 0.0
    ensures LastNamed(["q=0"], "version") == None && LastNamed(["q=0"], "charset") == None
  {
    var parameters: seq<string> := ["q=0"];
    SplitOnceAt("q", "0", '=');
    assert "q" + ['='] + "0" == "q=0";
    TrimFixed("q");
    TrimFixed("0");
    assert Unquoted("0") == "0";
    hide Text.Trim, SplitOnce, Unquoted;
    assert parameters[..0] == [];
    assert Named("q=0", "q") && !Named("q=0", "version") && !Named("q=0", "charset") && ValueOf("q=0") == "0";
  }

  const ANY := "*/*;q=0"
  const NO_APPLICATION := "application/*;q=0"

  lemma AnyRefused(parse: QualityParser, target: Target)
    requires parse("0") == Some(0.0)
    ensures ItemMatch(parse, ANY, target) == Some(AcceptMatch(0.0, 0))
  {
    hide ItemMatch;
    assert "*" + "/" + "*" + ";q=0" == ANY;
    RefusedItem(parse, "*", "*", target);
  }

  lemma ApplicationRefused(parse: QualityParser)
    requires parse("0") == Some(0.0)
    ensures ItemMatch(parse, NO_APPLICATION, OPENMETRICS) == Some(AcceptMatch(0.0, 1))
    ensures ItemMatch(parse, NO_APPLICATION, PROMETHEUS) == None
  {
    assert |"application"| != |"text"| && |"application"| != |"*"|;
    hide ItemMatch;
    assert "application" + "/" + "*" + ";q=0" == NO_APPLICATION;
    RefusedItem(parse, "application", "*", OPENMETRICS);
    RefusedItem(parse, "application", "*", PROMETHEUS);
  }

  lemma TwoItems(parse: QualityParser, a: string, b: string, target: Target)
    ensures Best(Candidates(parse, [a, b], target)) ==
            Merged(ItemMatch(parse, a, target), ItemMatch(parse, b, target))
  {
    var items: seq<string> := [a, b];
    assert items[..0] == [] && items[..1] == [a] && items[..2] == items;
    hide ItemMatch;
    CandidatesStep(parse, items, 0, target);
    CandidatesStep(parse, items, 1, target);
  }

  lemma TwoPlainValues(a: string, b: string)
    requires ',' !in a && ',' !in b
    ensures Items([a, b]) == [a, b]
  {
    var values: seq<string> := [a, b];
    var first: seq<string> := [a];
    SplitWhole(a, ',');
    SplitWhole(b, ',');
    hide Split;
    assert first[..0] == [] && Items(first) == [] + first == first;
    assert values[..1] == first && Items(values) == first + [b] == values;
  }

  /** Refusing everything, and the application types once more, gets OpenMetrics. */
  lemma EverythingRefused(parse: QualityParser)
    requires parse("0") == Some(0.0)
    ensures Negotiated(parse, [ANY, NO_APPLICATION]) == Some(OpenMetricsText)
  {
    TwoPlainValues(ANY, NO_APPLICATION);
    hide Items, ItemMatch, Best;
    AnyRefused(parse, OPENMETRICS);
    AnyRefused(parse, PROMETHEUS);
    ApplicationRefused(parse);
    TwoItems(parse, ANY, NO_APPLICATION, OPENMETRICS);
    TwoItems(parse, ANY, NO_APPLICATION, PROMETHEUS);
  }
}
