/** Operator-facing text: the bounded sanitiser, and the exact set of strings it can produce. */
module Text {
  import opened Prelude

  const ELLIPSIS := "..."

  /** Unicode general category Cc. */
  predicate IsControl(c: char) {
    c as int < 0x20 || 0x7F <= c as int <= 0x9F
  }

  /** Unicode property White_Space. */
  predicate IsWhitespace(c: char) {
    var n := c as int;
    || 0x09 <= n <= 0x0D || n == 0x20 || n == 0x85 || n == 0xA0 || n == 0x1680
    || 0x2000 <= n <= 0x200A || n == 0x2028 || n == 0x2029 || n == 0x202F || n == 0x205F || n == 0x3000
  }

  /** What one character is shown as. */
  function Shown(c: char): char {
    if IsWhitespace(c) then ' ' else if IsControl(c) then '?' else c
  }

  predicate Plain(c: char) {
    !IsControl(c) && (IsWhitespace(c) ==> c == ' ')
  }

  /** All characters shown, each run of whitespace as one space; no length bound. */
  function Collapsed(s: string, afterSpace: bool): string {
    if s == [] then []
    else
      var c := Shown(s[0]);
      if c == ' ' && afterSpace then Collapsed(s[1..], true)
      else [c] + Collapsed(s[1..], c == ' ')
  }

  function TrimStart(s: string): string {
    if s != [] && IsWhitespace(s[0]) then TrimStart(s[1..]) else s
  }

  function TrimEnd(s: string): string {
    if s != [] && IsWhitespace(Last(s)) then TrimEnd(s[..|s| - 1]) else s
  }

  function Trim(s: string): string { TrimEnd(TrimStart(s)) }

  function Sanitized(value: string, maxChars: nat): Option<string> {
    var full := Collapsed(value, false);
    var kept := Trim(FirstN(full, maxChars));
    if kept == [] then None
    else if |full| > maxChars && maxChars > |ELLIPSIS| then
      Some(FirstN(kept, maxChars - |ELLIPSIS|) + ELLIPSIS)
    else Some(kept)
  }

  function SanitizedOptional(value: Option<string>, maxChars: nat): Option<string> {
    if value.None? then None else Sanitized(value.value, maxChars)
  }

  function SanitizedEndpoint(value: Option<string>): Option<string> { SanitizedOptional(value, 128) }

  function SanitizedDisplayId(value: Option<string>): Option<string> { SanitizedOptional(value, 128) }

  function SanitizedCmdline(value: string): string {
    UnwrapOr(Sanitized(value, 1024), "unknown")
  }

  lemma CollapsedStep(value: string, i: nat, afterSpace: bool)
    requires i < |value|
    ensures Collapsed(value[i..], afterSpace) ==
            if Shown(value[i]) == ' ' && afterSpace then Collapsed(value[i + 1..], true)
            else [Shown(value[i])] + Collapsed(value[i + 1..], Shown(value[i]) == ' ')
  {
    assert value[i..][1..] == value[i + 1..];
  }

  /** The single pass over the input that stops as soon as the bound is known to be exceeded. */
  method SanitizeText(value: string, maxChars: nat) returns (result: Option<string>)
    ensures result == Sanitized(value, maxChars)
  {
    hide Trim;
    var sanitized := "";
    var truncated := false;
    var previousWasWhitespace := false;
    var i := 0;
    ghost var full := Collapsed(value, false);
    while i < |value|
      invariant 0 <= i <= |value|
      invariant |sanitized| <= maxChars
      invariant !truncated ==> full == sanitized + Collapsed(value[i..], previousWasWhitespace)
      invariant truncated ==> i == |value| && |full| > maxChars && sanitized == full[..maxChars]
    {
      var ch := value[i];
      CollapsedStep(value, i, previousWasWhitespace);
      var replacement := if IsControl(ch) then (if IsWhitespace(ch) then ' ' else '?') else ch;
      if IsWhitespace(replacement) {
        if previousWasWhitespace {
          i := i + 1;
          continue;
        }
        previousWasWhitespace := true;
        replacement := ' ';
      } else {
        previousWasWhitespace := false;
      }
      ghost var rest := Collapsed(value[i + 1..], previousWasWhitespace);
      assert full == sanitized + ([replacement] + rest);
      ConcatAssociative(sanitized, [replacement], rest);
      if |sanitized| >= maxChars {
        truncated := true;
        i := |value|;
      } else {
        sanitized := sanitized + [replacement];
        i := i + 1;
      }
    }
    assert sanitized == FirstN(full, maxChars);
    var kept := Trim(sanitized);
    if kept == [] {
      return None;
    }
    if truncated && maxChars > |ELLIPSIS| {
      return Some(FirstN(kept, maxChars - |ELLIPSIS|) + ELLIPSIS);
    }
    return Some(kept);
  }

  predicate NoDoubleSpace(s: string) {
    forall i :: 0 <= i < |s| - 1 && s[i] == ' ' ==> s[i + 1] != ' '
  }

  predicate AllPlain(s: string) {
    forall i :: 0 <= i < |s| ==> Plain(s[i])
  }

  /** The strings the sanitiser may return, described without reference to how it works. */
  predicate Presentable(s: string, maxChars: nat) {
    && 0 < |s| <= maxChars
    && AllPlain(s)
    && NoDoubleSpace(s)
    && s[0] != ' ' && Last(s) != ' '
  }

  lemma {:induction false} CollapsedShape(s: string, afterSpace: bool)
    ensures var t := Collapsed(s, afterSpace);
            AllPlain(t) && NoDoubleSpace(t) && (afterSpace && t != [] ==> t[0] != ' ')
  {
    if s != [] {
      var c := Shown(s[0]);
      CollapsedShape(s[1..], true);
      CollapsedShape(s[1..], c == ' ');
    }
  }

  lemma {:induction false} CollapsedIdentity(s: string, afterSpace: bool)
    requires AllPlain(s) && NoDoubleSpace(s) && (afterSpace && s != [] ==> s[0] != ' ')
    ensures Collapsed(s, afterSpace) == s
  {
    if s != [] {
      assert Plain(s[0]) && Shown(s[0]) == s[0];
      assert forall i :: 0 <= i < |s[1..]| ==> s[1..][i] == s[i + 1];
      CollapsedIdentity(s[1..], s[0] == ' ');
    }
  }

  /** Collapsed text carries at most one space at either end, so trimming drops at most two characters. */
  lemma TrimOfCollapsed(s: string)
    requires AllPlain(s) && NoDoubleSpace(s)
    ensures var t := Trim(s);
            && |s| - 2 <= |t| <= |s|
            && AllPlain(t) && NoDoubleSpace(t)
            && (t != [] ==> t[0] != ' ' && Last(t) != ' ')
            && (s != [] && s[0] != ' ' && Last(s) != ' ' ==> t == s)
            && (t == [] <==> s == [] || s == " ")
  {
    assert IsWhitespace(' ');
    var u := TrimStart(s);
    assert u == s || (s != [] && s[0] == ' ' && u == s[1..]) by {
      if s != [] && IsWhitespace(s[0]) {
        assert Plain(s[0]);
        if |s| > 1 { assert Plain(s[1]) && s[0 + 1] != ' ' && s[1..][0] == s[1]; }
        assert TrimStart(s[1..]) == s[1..];
      }
    }
    assert AllPlain(u) && NoDoubleSpace(u);
    assert u != [] ==> Plain(u[0]) && u[0] != ' ';
    if u != [] && IsWhitespace(Last(u)) {
      assert Plain(Last(u));
      var v := u[..|u| - 1];
      assert v != [] by {
        assert u[0] != ' ';
      }
      assert Last(v) == u[|u| - 2] && Plain(u[|u| - 2]);
      assert TrimEnd(v) == v;
      assert TrimEnd(u) == v;
    }
  }

  lemma SanitizedIsPresentable(value: string, maxChars: nat)
    ensures Sanitized(value, maxChars).Some? ==> Presentable(Sanitized(value, maxChars).value, maxChars)
  {
    var full := Collapsed(value, false);
    CollapsedShape(value, false);
    var cut := FirstN(full, maxChars);
    assert AllPlain(cut) && NoDoubleSpace(cut);
    TrimOfCollapsed(cut);
    var kept := Trim(cut);
    if kept != [] && |full| > maxChars && maxChars > |ELLIPSIS| {
      var keep := maxChars - |ELLIPSIS|;
      assert |cut| == maxChars && |kept| > keep;
      var out := kept[..keep] + ELLIPSIS;
      assert Plain('.');
      assert forall i :: 0 <= i < keep ==> out[i] == kept[i];
      assert forall i :: keep <= i < |out| ==> out[i] == '.';
    }
  }

  lemma PresentableIsFixed(value: string, maxChars: nat)
    requires Presentable(value, maxChars)
    ensures Sanitized(value, maxChars) == Some(value)
  {
    CollapsedIdentity(value, false);
    TrimOfCollapsed(value);
  }

  /** Sanitising twice is sanitising once, for every bound. */
  lemma SanitizedIdempotent(value: string, maxChars: nat)
    ensures var once := Sanitized(value, maxChars);
            SanitizedOptional(once, maxChars) == once
  {
    SanitizedIsPresentable(value, maxChars);
    var once := Sanitized(value, maxChars);
    if once.Some? {
      PresentableIsFixed(once.value, maxChars);
    }
  }

  predicate IsExactAndBounded(value: string, maxChars: nat) {
    var sanitized := Sanitized(value, maxChars);
    sanitized.Some? && sanitized.value == value
  }

  ghost predicate InImage(value: string, maxChars: nat) {
    exists source :: Sanitized(source, maxChars) == Some(value)
  }

  /** The exactness test accepts precisely the sanitiser's image, which is precisely the presentable strings. */
  lemma ExactAcceptsImage(value: string, maxChars: nat)
    ensures IsExactAndBounded(value, maxChars) <==> InImage(value, maxChars)
    ensures IsExactAndBounded(value, maxChars) <==> Presentable(value, maxChars)
  {
    if InImage(value, maxChars) {
      var source :| Sanitized(source, maxChars) == Some(value);
      SanitizedIsPresentable(source, maxChars);
    }
    if Presentable(value, maxChars) {
      PresentableIsFixed(value, maxChars);
    }
    if IsExactAndBounded(value, maxChars) {
      assert Sanitized(value, maxChars) == Some(value);
      SanitizedIsPresentable(value, maxChars);
    }
  }

  predicate Blank(s: string) {
    forall i :: 0 <= i < |s| ==> IsWhitespace(s[i])
  }

  lemma {:induction false} CollapsedBlank(s: string, afterSpace: bool)
    ensures var t := Collapsed(s, afterSpace);
            && (Blank(s) <==> t == [] || (!afterSpace && |t| == 1 && t[0] == ' '))
            && (s != [] && !afterSpace ==> t != [] && t[0] == Shown(s[0]))
  {
    if s != [] {
      CollapsedBlank(s[1..], true);
      assert Blank(s) <==> IsWhitespace(s[0]) && Blank(s[1..]) by {
        assert s == [s[0]] + s[1..];
      }
    }
  }

  /** A value is dropped exactly when it is blank, or the bound leaves room for nothing but its leading space. */
  lemma DroppedExactly(value: string, maxChars: nat)
    ensures Sanitized(value, maxChars).None? <==>
            || maxChars == 0
            || Blank(value)
            || (maxChars == 1 && IsWhitespace(value[0]))
  {
    var full := Collapsed(value, false);
    CollapsedShape(value, false);
    CollapsedBlank(value, false);
    var cut := FirstN(full, maxChars);
    assert AllPlain(cut) && NoDoubleSpace(cut);
    TrimOfCollapsed(cut);
  }

  /** Such a text: one visible character is within the bound, but the space before it is all that is kept. */
  lemma LeadingSpaceDropped()
    ensures Sanitized(" a", 1) == None
  {
    DroppedExactly(" a", 1);
  }

  lemma {:induction false} NotBlank(s: string)
    requires s != [] && !IsWhitespace(s[0])
    ensures Trim(s) != []
  {
    TrimEndKeepsFirst(s);
  }

  lemma {:induction false} TrimEndKeepsFirst(s: string)
    requires s != [] && !IsWhitespace(s[0])
    ensures TrimEnd(s) != []
  {
    if IsWhitespace(Last(s)) {
      TrimEndKeepsFirst(s[..|s| - 1]);
    }
  }

  lemma {:induction false} TrimmedBlank(s: string)
    ensures Trim(s) == [] <==> Blank(s)
  {
    TrimStartBlank(s);
    var u := TrimStart(s);
    if u != [] {
      TrimEndKeepsFirst(u);
    }
  }

  lemma {:induction false} TrimStartBlank(s: string)
    ensures TrimStart(s) == [] <==> Blank(s)
    ensures TrimStart(s) != [] ==> !IsWhitespace(TrimStart(s)[0])
  {
    if s != [] && IsWhitespace(s[0]) {
      TrimStartBlank(s[1..]);
      assert Blank(s) <==> Blank(s[1..]) by {
        assert s == [s[0]] + s[1..];
      }
    }
  }

  /** Neither a control character nor any space but the plain one. */
  predicate IsPrintable(c: char) {
    var n := c as int;
    && n >= 0x20 && !(0x7F <= n <= 0xA0) && !(0x2000 <= n <= 0x200A)
    && n !in {0x1680, 0x2028, 0x2029, 0x202F, 0x205F, 0x3000}
  }

  /** Presentable text is printable text with single spaces inside only. */
  lemma PresentableExactly(s: string, maxChars: nat)
    ensures Presentable(s, maxChars) <==>
              && 0 < |s| <= maxChars
              && (forall i :: 0 <= i < |s| ==> IsPrintable(s[i]))
              && (forall i :: 0 <= i < |s| && s[i] == ' ' ==> 0 < i < |s| - 1 && s[i + 1] != ' ')
  {
    assert forall c: char :: Plain(c) <==> IsPrintable(c);
  }

  /** Trimming takes off exactly the whitespace at either end. */
  lemma {:induction false} TrimExactly(s: string) returns (i: nat, j: nat)
    ensures i <= j <= |s| && Trim(s) == s[i..j]
    ensures forall k :: 0 <= k < i || j <= k < |s| ==> IsWhitespace(s[k])
    ensures i < j ==> !IsWhitespace(s[i]) && !IsWhitespace(s[j - 1])
  {
    TrimStartExactly(s);
    var u := TrimStart(s);
    TrimEndExactly(u);
    i := |s| - |u|;
    j := i + |Trim(s)|;
    hide TrimStart, TrimEnd, IsWhitespace;
    assert forall k :: 0 <= k < |u| ==> u[k] == s[i + k];
    assert forall k :: j <= k < |s| ==> s[k] == u[k - i];
  }

  lemma {:induction false} TrimStartExactly(s: string)
    ensures var n := |s| - |TrimStart(s)|;
            && 0 <= n <= |s| && TrimStart(s) == s[n..]
            && (forall i :: 0 <= i < n ==> IsWhitespace(s[i])) && (n < |s| ==> !IsWhitespace(s[n]))
  {
    if s != [] && IsWhitespace(s[0]) {
      TrimStartExactly(s[1..]);
    }
  }

  lemma {:induction false} TrimEndExactly(s: string)
    ensures var n := |TrimEnd(s)|;
            && n <= |s| && TrimEnd(s) == s[..n]
            && (forall i :: n <= i < |s| ==> IsWhitespace(s[i])) && (n > 0 ==> !IsWhitespace(s[n - 1]))
  {
    if s != [] && IsWhitespace(Last(s)) {
      TrimEndExactly(s[..|s| - 1]);
    }
  }

  /** Every kind of space is shown as a plain one, any other control character as a question mark. */
  lemma ShownExactly(c: char)
    ensures var n := c as int;
            var space := n in {0x20, 0x85, 0xA0, 0x1680, 0x2028, 0x2029, 0x202F, 0x205F, 0x3000}
                         || 0x09 <= n <= 0x0D || 0x2000 <= n <= 0x200A;
            && (space ==> Shown(c) == ' ')
            && (!space && (n < 0x20 || 0x7F <= n <= 0x9F) ==> Shown(c) == '?')
            && (!space && !(n < 0x20 || 0x7F <= n <= 0x9F) ==> Shown(c) == c)
  {
  }

  /** A text that has to be cut ends in three dots after a beginning of it, and is no longer than allowed. */
  lemma CutExactly(value: string, maxChars: nat) returns (i: nat)
    requires Sanitized(value, maxChars).Some? && |Collapsed(value, false)| > maxChars > 3
    ensures var full, r := Collapsed(value, false), Sanitized(value, maxChars).value;
            && 3 <= |r| <= maxChars && r[|r| - 3..] == "..."
            && i <= 1 && i + |r| - 3 <= |full| && r[..|r| - 3] == full[i..i + |r| - 3]
  {
    var full := Collapsed(value, false);
    CollapsedShape(value, false);
    var cut := FirstN(full, maxChars);
    assert AllPlain(cut) && NoDoubleSpace(cut);
    TrimOfCollapsed(cut);
    var j;
    i, j := TrimExactly(cut);
    var kept, r := Trim(cut), Sanitized(value, maxChars).value;
    var keep := maxChars - |ELLIPSIS|;
    CutPlace(cut, i);
    hide Collapsed, Trim;
    assert r == FirstN(kept, keep) + ELLIPSIS;
    assert |FirstN(kept, keep)| == keep;
    assert kept[..keep] == cut[i..j][..keep] == full[i..i + keep];
  }

  lemma CutPlace(cut: string, i: nat)
    requires AllPlain(cut) && NoDoubleSpace(cut) && i <= |cut|
    requires forall k :: 0 <= k < i ==> IsWhitespace(cut[k])
    ensures i <= 1
  {
    if |cut| > 1 {
      NoTwoSpaces(cut);
    }
  }

  lemma NoTwoSpaces(s: string)
    requires AllPlain(s) && NoDoubleSpace(s) && |s| > 1
    ensures !IsWhitespace(s[0]) || !IsWhitespace(s[1])
  {
    assert Plain(s[0]) && Plain(s[1]);
    assert s[0] == ' ' ==> s[0 + 1] != ' ';
  }
}
