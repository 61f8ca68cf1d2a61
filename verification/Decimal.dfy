/** Decimal text of a counter, as used in generated names. */
module Decimal {

  function Digit(d: nat): char
    requires d < 10
  {
    '0' + d as char
  }

  predicate IsDigit(c: char) { '0' <= c <= '9' }

  function ToDecimal(n: nat): (s: string)
    ensures s != "" && forall i | 0 <= i < |s| :: IsDigit(s[i])
  {
    if n < 10 then [Digit(n)] else ToDecimal(n / 10) + [Digit(n % 10)]
  }

  /** The number a string of digits stands for. */
  function FromDecimal(s: string): nat
    requires forall i | 0 <= i < |s| :: IsDigit(s[i])
  {
    if s == "" then 0
    else
      assert IsDigit(s[|s| - 1]);
      10 * FromDecimal(s[..|s| - 1]) + (s[|s| - 1] as int - '0' as int)
  }

  lemma {:induction false} DecimalRoundTrip(n: nat)
    ensures FromDecimal(ToDecimal(n)) == n
  {
    var s := ToDecimal(n);
    if n >= 10 {
      DecimalRoundTrip(n / 10);
      assert s[..|s| - 1] == ToDecimal(n / 10);
    } else {
      assert s[..|s| - 1] == "";
    }
  }

  /** Names that differ only in a counter are equal only for equal counters. */
  lemma NumberedNamesAreDistinct(prefix: string, suffix: string, m: nat, n: nat)
    requires prefix + ToDecimal(m) + suffix == prefix + ToDecimal(n) + suffix
    ensures m == n
  {
    var a, b := prefix + ToDecimal(m) + suffix, prefix + ToDecimal(n) + suffix;
    assert a[|prefix|..|a| - |suffix|] == ToDecimal(m);
    assert b[|prefix|..|b| - |suffix|] == ToDecimal(n);
    DecimalRoundTrip(m);
    DecimalRoundTrip(n);
  }

  /** Most significant digit first. */
  lemma DecimalReads()
    ensures ToDecimal(0) == "0" && ToDecimal(120) == "120" && ToDecimal(9876543) == "9876543"
  {
  }
}
