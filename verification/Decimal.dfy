/** Decimal numbers as an output stream prints them and `std::stoll` reads them. */
module Decimal {
  import opened Basics

  const INT64_MIN: int := -0x8000_0000_0000_0000
  const INT64_MAX: int := 0x7FFF_FFFF_FFFF_FFFF

  predicate IsInt64(n: int) {
    INT64_MIN <= n <= INT64_MAX
  }

  predicate IsDigit(c: char) {
    '0' <= c <= '9'
  }

  predicate IsSpace(c: char) {
    c == ' ' || '\t' <= c <= '\r'
  }

  function DigitChar(d: nat): (c: char)
    requires d < 10
    ensures IsDigit(c) && DigitValue(c) == d
  {
    '0' + d as char
  }

  function Digits(n: nat): (s: string)
    ensures |s| > 0 && forall i :: 0 <= i < |s| ==> IsDigit(s[i])
  {
    if n < 10 then [DigitChar(n)] else Digits(n / 10) + [DigitChar(n % 10)]
  }

  function Print(n: int): (s: string)
    ensures |s| > 0 && forall i :: 0 <= i < |s| ==> IsDigit(s[i]) || s[i] == '-'
  {
    if n < 0 then "-" + Digits(-n) else Digits(n)
  }

  function DigitValue(c: char): nat
    requires IsDigit(c)
  {
    c as int - '0' as int
  }

  /** The value of a run of digits. */
  function Value(s: string): nat
    requires forall i :: 0 <= i < |s| ==> IsDigit(s[i])
  {
    if s == [] then 0 else 10 * Value(s[..|s| - 1]) + DigitValue(s[|s| - 1])
  }

  /** The longest run of digits at the front. */
  function DigitRun(s: string): (r: string)
    ensures |r| <= |s| && forall i :: 0 <= i < |r| ==> IsDigit(r[i])
  {
    if s == [] || !IsDigit(s[0]) then [] else [s[0]] + DigitRun(s[1..])
  }

  function SkipSpace(s: string): string {
    if s != [] && IsSpace(s[0]) then SkipSpace(s[1..]) else s
  }

  /** White space, a sign, digits, and anything after them; None where `std::stoll` throws. */
  function Stoll(s: string): (r: Option<int>)
    ensures r.Some? ==> IsInt64(r.value)
  {
    var t := SkipSpace(s);
    var negative := t != [] && t[0] == '-';
    var run := DigitRun(if t != [] && (t[0] == '-' || t[0] == '+') then t[1..] else t);
    var n: int := if negative then 0 - Value(run) else Value(run);
    if run == [] || !IsInt64(n) then None else Some(n)
  }

  lemma {:induction false} ValueOfDigits(n: nat)
    ensures Value(Digits(n)) == n
  {
    if n >= 10 { ValueOfDigits(n / 10); }
  }

  lemma {:induction false} DigitRunOfDigits(s: string)
    requires forall i :: 0 <= i < |s| ==> IsDigit(s[i])
    ensures DigitRun(s) == s
  {
    if s != [] { DigitRunOfDigits(s[1..]); }
  }

  predicate AllDigits(s: string) {
    forall i :: 0 <= i < |s| ==> IsDigit(s[i])
  }

  lemma StollOfRun(s: string)
    requires AllDigits(s) && s != [] && IsInt64(Value(s))
    ensures Stoll(s) == Some(Value(s))
  {
    DigitRunOfDigits(s);
    assert IsDigit(s[0]);
    assert SkipSpace(s) == s;
  }

  lemma StollOfMinusRun(s: string)
    requires AllDigits(s) && s != [] && IsInt64(0 - Value(s))
    ensures Stoll("-" + s) == Some(0 - Value(s))
  {
    DigitRunOfDigits(s);
    var t := "-" + s;
    assert SkipSpace(t) == t;
    assert t[1..] == s;
  }

  /** A printed number reads back. */
  lemma StollOfPrint(n: int)
    requires IsInt64(n)
    ensures Stoll(Print(n)) == Some(n)
  {
    var m := if n < 0 then -n else n;
    ValueOfDigits(m);
    if n < 0 { StollOfMinusRun(Digits(m)); } else { StollOfRun(Digits(m)); }
  }

  /** Numbers are written in base ten. */
  lemma {:induction false} DigitsPush(n: nat, d: nat)
    requires n > 0 && d < 10
    ensures Digits(10 * n + d) == Digits(n) + [('0' as int + d) as char]
  {
    assert (10 * n + d) / 10 == n && (10 * n + d) % 10 == d;
  }

  lemma {:induction false} DigitsShort(n: nat, k: nat, limit: nat)
    requires n < limit && limit <= Ten(k) && k > 0
    ensures |Digits(n)| <= k
    decreases k
  {
    if n >= 10 { DigitsShort(n / 10, k - 1, Ten(k - 1)); }
  }

  function Ten(k: nat): nat {
    if k == 0 then 1 else 10 * Ten(k - 1)
  }

  lemma PrintShort(n: int)
    requires IsInt64(n)
    ensures |Print(n)| <= 20
  {
    assert Ten(7) == 10_000_000;
    assert Ten(13) == 10_000_000_000_000;
    assert Ten(19) == 10_000_000_000_000_000_000;
    DigitsShort(if n < 0 then -n else n, 19, 0x8000_0000_0000_0001);
  }
}
