/** Decimal text for integers, as the scenes store numbers in attribute
    files: std::to_string and std::stoi on a 32-bit `int`. */
module Decimal {
  import opened Util

  predicate IsDigit(c: char) {
    '0' <= c <= '9'
  }

  /** The characters std::isspace accepts in the "C" locale. */
  predicate IsSpace(c: char) {
    c == ' ' || c == '\t' || c == '\n' || c == '\U{B}' || c == '\U{C}' || c == '\r'
  }

  function DigitChar(d: nat): (c: char)
    requires d < 10
    ensures IsDigit(c)
  {
    ('0' as int + d) as char
  }

  function DigitValue(c: char): (d: nat)
    requires IsDigit(c)
    ensures d < 10 && DigitChar(d) == c
  {
    c as int - '0' as int
  }

  /** The decimal digits of n, most significant first, without leading
      zeros ("0" for zero). */
  function NatDigits(n: nat): (s: string)
    ensures |s| > 0 && forall i | 0 <= i < |s| :: IsDigit(s[i])
    ensures |s| > 1 ==> s[0] != '0'
    decreases n
  {
    if n < 10 then [DigitChar(n)] else NatDigits(n / 10) + [DigitChar(n % 10)]
  }

  /** std::to_string of an integer: a minus sign for negatives, then the
      digits of the magnitude. */
  function IntToString(n: int): (s: string)
    ensures |s| > 0 && ':' !in s && '\n' !in s
    ensures s == "0" <==> n == 0
  {
    if n < 0 then "-" + NatDigits(-n) else NatDigits(n)
  }

  /** The number an all-digit string denotes. */
  function DigitsValue(s: string): nat
    requires forall i | 0 <= i < |s| :: IsDigit(s[i])
  {
    if s == [] then 0 else DigitsValue(s[..|s| - 1]) * 10 + DigitValue(s[|s| - 1])
  }

  /** Reading back the digits gives the number. */
  lemma {:induction false} NatDigitsValue(n: nat)
    ensures DigitsValue(NatDigits(n)) == n
    decreases n
  {
    if n >= 10 {
      var s := NatDigits(n);
      NatDigitsValue(n / 10);
      assert s[..|s| - 1] == NatDigits(n / 10);
    }
  }

  /** Number of leading characters satisfying the digit test. */
  function DigitRun(s: string): (k: nat)
    ensures k <= |s|
    ensures forall i | 0 <= i < k :: IsDigit(s[i])
    ensures k < |s| ==> !IsDigit(s[k])
  {
    if s == [] || !IsDigit(s[0]) then 0 else 1 + DigitRun(s[1..])
  }

  /** Number of leading white-space characters. */
  function SpaceRun(s: string): (k: nat)
    ensures k <= |s|
    ensures forall i | 0 <= i < k :: IsSpace(s[i])
    ensures k < |s| ==> !IsSpace(s[k])
  {
    if s == [] || !IsSpace(s[0]) then 0 else 1 + SpaceRun(s[1..])
  }

  /** std::stoi: skips white space, takes an optional sign and the longest
      run of digits after it and ignores the rest.  `None` is the exception
      std::stoi throws when there is no digit or the value does not fit an
      `int`. */
  function Stoi(s: string): (r: Option<int>)
    ensures r.Some? ==> -TwoTo31 <= r.value < TwoTo31
  {
    var t := s[SpaceRun(s)..];
    var sign := if |t| > 0 && (t[0] == '-' || t[0] == '+') then 1 else 0;
    var u := t[sign..];
    var k := DigitRun(u);
    if k == 0 then None
    else
      var magnitude: int := DigitsValue(u[..k]);
      var v := if sign == 1 && t[0] == '-' then -magnitude else magnitude;
      if -TwoTo31 <= v < TwoTo31 then Some(v) else None
  }

  /** The digits of a number form one whole digit run. */
  lemma DigitRunAll(s: string)
    requires forall i | 0 <= i < |s| :: IsDigit(s[i])
    ensures DigitRun(s) == |s|
  {
  }

  /** std::stoi reads back what std::to_string wrote, for every `int`. */
  lemma StoiIntToString(n: int)
    requires -TwoTo31 <= n < TwoTo31
    ensures Stoi(IntToString(n)) == Some(n)
  {
    var s := IntToString(n);
    var d := if n < 0 then NatDigits(-n) else NatDigits(n);
    assert SpaceRun(s) == 0;
    assert s[0..] == s;
    DigitRunAll(d);
    assert d[..|d|] == d;
    NatDigitsValue(if n < 0 then -n else n);
    if n < 0 {
      assert s[1..] == d;
    } else {
      assert !(s[0] == '-' || s[0] == '+');
      assert s[0..] == d;
    }
  }
}
