module Wrappers {

  datatype Option<+T> = None | Some(value: T)
}

/**
 Python's `format(n, '+d')`: an explicit sign (`+` for zero and positive
 values, `-` for negative ones) followed by the decimal digits of `|n|`
 with no leading zeros. The delta label on the "Total Members" tile is
 produced this way.

 `ParseSigned` reads such a label back; the round trip
 `ParseSigned(FormatSigned(n)) == Some(n)` shows the label carries exactly
 the change it was made from.
 */
module SignedFormat {
  import opened Wrappers

  predicate IsDigit(c: char) {
    '0' <= c <= '9'
  }

  function DigitChar(d: nat): (c: char)
    requires d < 10
    ensures IsDigit(c)
  {
    (('0' as int) + d) as char
  }

  function DigitValue(c: char): (d: nat)
    requires IsDigit(c)
    ensures d < 10 && DigitChar(d) == c
  {
    (c as int) - ('0' as int)
  }

  predicate AllDigits(s: string) {
    forall i :: 0 <= i < |s| ==> IsDigit(s[i])
  }

  /** The decimal digits of `n`, most significant first, without leading zeros. */
  function Digits(n: nat): (s: string)
    ensures 1 <= |s|
    ensures AllDigits(s)
    ensures s[0] == '0' <==> n == 0
    ensures n == 0 ==> |s| == 1
    decreases n
  {
    if n < 10 then [DigitChar(n)] else Digits(n / 10) + [DigitChar(n % 10)]
  }

  /** The number a nonempty run of decimal digits denotes. */
  function DigitsValue(s: string): (n: nat)
    requires AllDigits(s)
    decreases |s|
  {
    if |s| == 0 then 0 else DigitsValue(s[..|s| - 1]) * 10 + DigitValue(s[|s| - 1])
  }

  /** Reading the digits of `n` back gives `n`. */
  lemma {:induction false} DigitsRoundTrip(n: nat)
    ensures DigitsValue(Digits(n)) == n
    decreases n
  {
    var s := Digits(n);
    if n < 10 {
      assert s[..0] == [];
    } else {
      var prefix := Digits(n / 10);
      assert s == prefix + [DigitChar(n % 10)];
      assert s[..|s| - 1] == prefix;
      DigitsRoundTrip(n / 10);
    }
  }

  /** `format(n, '+d')`. */
  function FormatSigned(n: int): (s: string)
    ensures 2 <= |s|
    ensures s[0] == '+' <==> n >= 0
    ensures s[0] == '-' <==> n < 0
    ensures AllDigits(s[1..])
  {
    (if n >= 0 then "+" else "-") + Digits(if n >= 0 then n else -n)
  }

  /** Reads a sign followed by decimal digits; `None` for anything else. */
  function ParseSigned(s: string): (r: Option<int>)
    ensures r.Some? ==> 2 <= |s| && (s[0] == '+' || s[0] == '-') && AllDigits(s[1..])
  {
    if |s| < 2 || !(s[0] == '+' || s[0] == '-') || !AllDigits(s[1..]) then None
    else
      var magnitude: int := DigitsValue(s[1..]);
      Some(if s[0] == '+' then magnitude else -magnitude)
  }

  /** A formatted change reads back as the same change. */
  lemma SignedRoundTrip(n: int)
    ensures ParseSigned(FormatSigned(n)) == Some(n)
  {
    var magnitude := if n >= 0 then n else -n;
    var s := FormatSigned(n);
    assert s[1..] == Digits(magnitude);
    DigitsRoundTrip(magnitude);
  }

  /** Different changes never share a label. */
  lemma FormatSignedInjective(m: int, n: int)
    requires FormatSigned(m) == FormatSigned(n)
    ensures m == n
  {
    SignedRoundTrip(m);
    SignedRoundTrip(n);
  }
}
