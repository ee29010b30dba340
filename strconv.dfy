/** Go's strconv.Atoi on base-10 byte strings. */
module Strconv {
  import opened Wrappers

  const MIN_INT64 := -0x8000_0000_0000_0000
  const MAX_INT64 := 0x7fff_ffff_ffff_ffff

  predicate IsDigit(c: char)
  {
    '0' <= c <= '9'
  }

  predicate AllDigits(s: string)
  {
    forall i :: 0 <= i < |s| ==> IsDigit(s[i])
  }

  function Pow10(n: nat): (p: nat)
    ensures p >= 1
  {
    if n == 0 then 1 else 10 * Pow10(n - 1)
  }

  /** The value of a string of decimal digits, most significant first; it has
      fewer than |s| + 1 decimal places. */
  function DigitsValue(s: string): (v: nat)
    requires AllDigits(s)
    ensures v < Pow10(|s|)
  {
    if |s| == 0 then 0
    else DigitsValue(s[..|s| - 1]) * 10 + (s[|s| - 1] as int - '0' as int)
  }

  /** strconv.Atoi: an optional '+' or '-', then at least one decimal digit,
      and the value must fit a 64-bit int; anything else is a syntax or range
      error (None). */
  function Atoi(s: string): (r: Option<int>)
    // no sign: the digits' value, if it fits
    ensures |s| >= 1 && AllDigits(s) ==>
      r == (if DigitsValue(s) <= MAX_INT64 then Some(DigitsValue(s)) else None)
    // '+' then digits: their value, if it fits
    ensures |s| >= 2 && s[0] == '+' && AllDigits(s[1..]) ==>
      r == (if DigitsValue(s[1..]) <= MAX_INT64 then Some(DigitsValue(s[1..])) else None)
    // '-' then digits: minus their value, if it fits
    ensures |s| >= 2 && s[0] == '-' && AllDigits(s[1..]) ==>
      r == (if DigitsValue(s[1..]) <= -MIN_INT64 then Some(-(DigitsValue(s[1..]) as int)) else None)
    // every other string, the empty one included, is a syntax error
    ensures r.Some? ==>
      (|s| >= 1 && AllDigits(s)) || (|s| >= 2 && (s[0] == '+' || s[0] == '-') && AllDigits(s[1..]))
  {
    if |s| == 0 then None
    else
      var digits := if s[0] == '-' || s[0] == '+' then s[1..] else s;
      if |digits| == 0 || !AllDigits(digits) then None
      else
        var magnitude: int := DigitsValue(digits);
        var v := if s[0] == '-' then -magnitude else magnitude;
        if v < MIN_INT64 || v > MAX_INT64 then None else Some(v)
  }

  /** A four-byte field that Atoi reads as a number of at least 1000 is four
      plain digits: a sign leaves only three digits, worth at most 999. */
  lemma FourByteAtoi(s: string, v: int)
    requires |s| == 4 && Atoi(s) == Some(v) && (v >= 1000 || v <= -1000)
    ensures AllDigits(s) && v == DigitsValue(s)
  {
    if s[0] == '-' || s[0] == '+' {
      SignedFourByteAtoi(s, v);
    }
  }

  /** With a sign, a four-byte field is worth at most 999 in absolute value. */
  lemma SignedFourByteAtoi(s: string, v: int)
    requires |s| == 4 && Atoi(s) == Some(v) && (s[0] == '-' || s[0] == '+')
    ensures -999 <= v <= 999
  {
    assert Pow10(3) == 1000;
    assert DigitsValue(s[1..]) < Pow10(3);
  }
}
