/** Python's `str(i)` on integers, and the reading of an integer literal in
    SQL text that undoes it. */
module Decimal {
  import opened Failures

  predicate IsDigit(c: char) {
    '0' <= c <= '9'
  }

  /** The value of a digit character; other characters count as zero. */
  function DigitValue(c: char): (d: nat)
    ensures d < 10
  {
    if IsDigit(c) then (c as int) - ('0' as int) else 0
  }

  function DigitChar(d: nat): (c: char)
    requires d < 10
    ensures IsDigit(c) && DigitValue(c) == d
  {
    (d + '0' as int) as char
  }

  /** The decimal digits of `n`, most significant first. */
  function Digits(n: nat): (r: string)
    ensures |r| > 0
    decreases n
  {
    if n < 10 then [DigitChar(n)] else Digits(n / 10) + [DigitChar(n % 10)]
  }

  /** Python's `str(i)` for an `int`: a `-` for negatives, then the digits. */
  function IntToString(i: int): string {
    if i < 0 then "-" + Digits(-i) else Digits(i)
  }

  /** The number a run of digits spells. */
  function DigitsValue(s: string): nat
    decreases |s|
  {
    if s == [] then 0 else DigitsValue(s[..|s| - 1]) * 10 + DigitValue(s[|s| - 1])
  }

  /** Length of the run of digits `s` begins with. */
  function DigitRun(s: string): (n: nat)
    ensures n <= |s|
    decreases |s|
  {
    if s == [] || !IsDigit(s[0]) then 0 else 1 + DigitRun(s[1..])
  }

  /** An integer literal at the start of SQL text: an optional `-` and the
      longest run of digits after it, with the number of characters read. */
  function ReadInt(s: string): (r: Option<(int, nat)>)
    ensures r.Some? ==> 0 < r.value.1 <= |s|
  {
    if s != [] && s[0] == '-' then
      var n := DigitRun(s[1..]);
      var v: int := 0 - DigitsValue(s[1..][..n]);
      if n == 0 then None else Some((v, 1 + n))
    else
      var n := DigitRun(s);
      if n == 0 then None else Some((DigitsValue(s[..n]), n))
  }

  /** `Digits` writes nothing but digits. */
  lemma {:induction false} DigitsAreDigits(n: nat)
    ensures forall k :: 0 <= k < |Digits(n)| ==> IsDigit(Digits(n)[k])
    decreases n
  {
    if n >= 10 {
      DigitsAreDigits(n / 10);
    }
  }

  /** A digit run holds digits only and ends before a non-digit. */
  lemma {:induction false} DigitRunIsMaximal(s: string)
    ensures forall k :: 0 <= k < DigitRun(s) ==> IsDigit(s[k])
    ensures DigitRun(s) < |s| ==> !IsDigit(s[DigitRun(s)])
    decreases |s|
  {
    if s != [] && IsDigit(s[0]) {
      DigitRunIsMaximal(s[1..]);
    }
  }

  /** The digits of `n` spell `n`. */
  lemma {:induction false} DigitsValueOfDigits(n: nat)
    ensures DigitsValue(Digits(n)) == n
    decreases n
  {
    if n >= 10 {
      DigitsValueOfDigits(n / 10);
      var d := Digits(n);
      assert d[..|d| - 1] == Digits(n / 10);
    }
  }

  /** A digit run stops exactly where the digits of `n` end. */
  lemma DigitRunOfDigits(n: nat, rest: string)
    requires rest == [] || !IsDigit(rest[0])
    ensures DigitRun(Digits(n) + rest) == |Digits(n)|
  {
    DigitsAreDigits(n);
    DigitRunPrefix(Digits(n), rest);
  }

  lemma {:induction false} DigitRunPrefix(ds: string, rest: string)
    requires forall k :: 0 <= k < |ds| ==> IsDigit(ds[k])
    requires rest == [] || !IsDigit(rest[0])
    ensures DigitRun(ds + rest) == |ds|
    decreases |ds|
  {
    if ds == [] {
      assert ds + rest == rest;
    } else {
      assert (ds + rest)[1..] == ds[1..] + rest;
      DigitRunPrefix(ds[1..], rest);
    }
  }

  /** `str(i)` read back as an SQL integer literal gives `i`, and the reading
      stops exactly at the end of the rendering whatever non-digit follows. */
  lemma ReadIntToString(i: int, rest: string)
    requires rest == [] || !IsDigit(rest[0])
    ensures ReadInt(IntToString(i) + rest) == Some((i, |IntToString(i)|))
  {
    if i < 0 {
      ReadNegative(-i, rest);
    } else {
      ReadNonNegative(i, rest);
    }
  }

  lemma ReadNonNegative(n: nat, rest: string)
    requires rest == [] || !IsDigit(rest[0])
    ensures ReadInt(Digits(n) + rest) == Some((n, |Digits(n)|))
  {
    var d := Digits(n);
    DigitRunOfDigits(n, rest);
    DigitsValueOfDigits(n);
    assert (d + rest)[0] == d[0];
    assert (d + rest)[..|d|] == d;
  }

  lemma ReadNegative(n: nat, rest: string)
    requires n > 0 && (rest == [] || !IsDigit(rest[0]))
    ensures ReadInt("-" + Digits(n) + rest) == Some((0 - n, 1 + |Digits(n)|))
  {
    var d := Digits(n);
    var s := "-" + d + rest;
    assert s[0] == '-' && s[1..] == d + rest;
    DigitRunOfDigits(n, rest);
    assert s[1..][..|d|] == d;
    DigitsValueOfDigits(n);
  }

  /** Different integers render differently. */
  lemma IntToStringInjective(i: int, j: int)
    requires IntToString(i) == IntToString(j)
    ensures i == j
  {
    ReadIntToString(i, []);
    ReadIntToString(j, []);
    assert IntToString(i) + [] == IntToString(i);
    assert IntToString(j) + [] == IntToString(j);
  }
}
