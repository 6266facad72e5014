/** The JavaScript built-ins the formatters rely on: `Math.round`, `toString()`
    of a non-negative integer and `padStart(2, "0")`, with the decimal reading
    that undoes them. */
module JsText {

  predicate IsDigit(c: char) {
    '0' <= c <= '9'
  }

  predicate IsDigits(s: string) {
    forall i :: 0 <= i < |s| ==> IsDigit(s[i])
  }

  function DigitChar(d: nat): (c: char)
    requires d < 10
    ensures IsDigit(c)
  {
    ('0' as int + d) as char
  }

  /** The integer a string of decimal digits denotes. */
  function DecimalValue(s: string): nat
    requires IsDigits(s)
  {
    if s == [] then 0 else DecimalValue(s[..|s| - 1]) * 10 + (s[|s| - 1] as int - '0' as int)
  }

  /** `n.toString()` for a non-negative integer: its shortest decimal form. */
  function NatToString(n: nat): (s: string)
    ensures IsDigits(s) && |s| >= 1
  {
    if n < 10 then [DigitChar(n)] else NatToString(n / 10) + [DigitChar(n % 10)]
  }

  /** `Math.round(x)`: the nearest integer, halves rounded up. */
  function Round(x: real): (r: int)
    ensures r as real <= x + 0.5 < r as real + 1.0
  {
    (x + 0.5).Floor
  }

  /** `s.padStart(2, "0")` */
  function PadStart2(s: string): string {
    if |s| >= 2 then s else seq(2 - |s|, i => '0') + s
  }

  /** Reading back the decimal form gives the number again; one digit below 10,
      two digits below 100. */
  lemma {:induction false} NatToStringRoundTrip(n: nat)
    ensures DecimalValue(NatToString(n)) == n
    ensures n < 10 ==> |NatToString(n)| == 1
    ensures 10 <= n < 100 ==> |NatToString(n)| == 2
  {
    if n >= 10 {
      NatToStringRoundTrip(n / 10);
      var s := NatToString(n);
      assert s[..|s| - 1] == NatToString(n / 10);
    }
  }

  /** A leading zero does not change the value. */
  lemma {:induction false} LeadingZero(s: string)
    requires IsDigits(s)
    ensures IsDigits("0" + s) && DecimalValue("0" + s) == DecimalValue(s)
  {
    if s != [] {
      var t := "0" + s;
      assert t[..|t| - 1] == "0" + s[..|s| - 1];
      LeadingZero(s[..|s| - 1]);
    }
  }

  /** A number below 100, padded, is exactly two digits that read back as it. */
  lemma TwoDigits(n: nat)
    requires n < 100
    ensures var p := PadStart2(NatToString(n)); |p| == 2 && IsDigits(p) && DecimalValue(p) == n
  {
    NatToStringRoundTrip(n);
    var s := NatToString(n);
    if |s| < 2 {
      assert PadStart2(s) == "0" + s;
      LeadingZero(s);
    }
  }

  /** Padding only ever adds leading zeros, so the value is kept for any number. */
  lemma PaddedValue(n: nat)
    ensures var p := PadStart2(NatToString(n)); |p| >= 2 && IsDigits(p) && DecimalValue(p) == n
  {
    NatToStringRoundTrip(n);
    if n < 100 {
      TwoDigits(n);
    }
  }
}
