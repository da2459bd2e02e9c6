/** Decimal formatting and parsing of integers, as used in session ids and day-file names. */
module Decimal {
  import opened Prelude

  function Digit(d: int): (c: char)
    requires 0 <= d < 10
    ensures IsDigit(c) && DigitValue(c) == d
  {
    ('0' as int + d) as char
  }

  predicate IsDigit(c: char) { '0' <= c <= '9' }

  function DigitValue(c: char): (d: int)
    requires IsDigit(c)
    ensures 0 <= d < 10
  {
    c as int - '0' as int
  }

  function Digits(n: nat): (s: string)
    ensures s != [] && forall i :: 0 <= i < |s| ==> IsDigit(s[i])
  {
    if n < 10 then [Digit(n)] else Digits(n / 10) + [Digit(n % 10)]
  }

  function Format(n: int): string {
    if n < 0 then "-" + Digits(-n) else Digits(n)
  }

  function ParseDigits(s: string): Option<nat> {
    if s == [] || !IsDigit(Last(s)) then None
    else if |s| == 1 then Some(DigitValue(s[0]))
    else
      var front := ParseDigits(s[..|s| - 1]);
      if front.None? then None else Some(10 * front.value + DigitValue(Last(s)))
  }

  /** An optional sign followed by at least one digit, within the i64 range. */
  function ParseI64(s: string): Option<int> {
    var negative := s != [] && s[0] == '-';
    var signed := s != [] && (s[0] == '-' || s[0] == '+');
    var magnitude := ParseDigits(if signed then s[1..] else s);
    if magnitude.None? then None
    else
      var m: int := magnitude.value;
      var n := if negative then -m else m;
      if -I64_LIMIT <= n < I64_LIMIT then Some(n) else None
  }

  lemma {:induction false} ParseDigitsInvertsDigits(n: nat)
    ensures ParseDigits(Digits(n)) == Some(n)
  {
    if n >= 10 {
      ParseDigitsInvertsDigits(n / 10);
      var s := Digits(n);
      assert s[..|s| - 1] == Digits(n / 10);
    }
  }

  lemma ParseInvertsFormat(n: int)
    requires -I64_LIMIT <= n < I64_LIMIT
    ensures ParseI64(Format(n)) == Some(n)
  {
    ParseDigitsInvertsDigits(if n < 0 then -n else n);
    if n < 0 {
      assert Format(n)[1..] == Digits(-n);
    } else {
      assert IsDigit(Format(n)[0]);
    }
  }

  lemma FormatInjective(m: int, n: int)
    requires Format(m) == Format(n)
    ensures m == n
  {
    ParseDigitsInvertsDigits(if m < 0 then -m else m);
    ParseDigitsInvertsDigits(if n < 0 then -n else n);
    assert IsDigit(Digits(if m < 0 then -m else m)[0]) && IsDigit(Digits(if n < 0 then -n else n)[0]);
    if m < 0 && n < 0 {
      assert Format(m)[1..] == Digits(-m) && Format(n)[1..] == Digits(-n);
    }
  }

  lemma FormatHasNoColon(n: int)
    ensures ':' !in Format(n)
  {
  }
}
