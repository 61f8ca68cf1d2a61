/** Case folding of ASCII text. */
module Ascii {

  function UpperChar(c: char): char {
    if 'a' <= c <= 'z' then c - 'a' + 'A' else c
  }

  function LowerChar(c: char): char {
    if 'A' <= c <= 'Z' then c - 'A' + 'a' else c
  }

  function Upper(s: string): (u: string)
    ensures |u| == |s|
  {
    if s == "" then "" else [UpperChar(s[0])] + Upper(s[1..])
  }

  function Lower(s: string): (l: string)
    ensures |l| == |s|
    ensures forall i | 0 <= i < |s| :: l[i] == LowerChar(s[i])
  {
    if s == "" then "" else [LowerChar(s[0])] + Lower(s[1..])
  }

  /** Comparison that ignores case. */
  predicate IEquals(a: string, b: string) { Upper(a) == Upper(b) }

  /** The same text up to the case of the 26 letters: every pair of characters is equal, or
      32 apart as a small letter and its capital are. */
  predicate SameUpToCase(a: string, b: string) {
    && |a| == |b|
    && forall i | 0 <= i < |a| ::
         || a[i] == b[i]
         || ('a' <= a[i] <= 'z' && a[i] as int - 32 == b[i] as int)
         || ('a' <= b[i] <= 'z' && b[i] as int - 32 == a[i] as int)
  }

  lemma {:induction false} UpperAt(s: string, i: nat)
    requires i < |s|
    ensures Upper(s)[i] == UpperChar(s[i])
  {
    if i > 0 { UpperAt(s[1..], i - 1); }
  }

  lemma IEqualsMeans(a: string, b: string)
    ensures IEquals(a, b) <==> SameUpToCase(a, b)
  {
    forall i | 0 <= i < |a| ensures Upper(a)[i] == UpperChar(a[i]) { UpperAt(a, i); }
    forall i | 0 <= i < |b| ensures Upper(b)[i] == UpperChar(b[i]) { UpperAt(b, i); }
    if SameUpToCase(a, b) {
      assert Upper(a) == Upper(b);
    }
    if IEquals(a, b) {
      forall i | 0 <= i < |a|
        ensures || a[i] == b[i]
                || ('a' <= a[i] <= 'z' && a[i] as int - 32 == b[i] as int)
                || ('a' <= b[i] <= 'z' && b[i] as int - 32 == a[i] as int)
      {
        assert Upper(a)[i] == Upper(b)[i];
      }
    }
  }

  /** Folding to small letters changes exactly the capitals, by 32. */
  lemma LowerMeans(s: string, i: nat)
    requires i < |s|
    ensures Lower(s)[i] as int == if 'A' <= s[i] <= 'Z' then s[i] as int + 32 else s[i] as int
  {
  }

  lemma UpperIsSame(s: string)
    ensures SameUpToCase(s, Upper(s))
  {
    forall i | 0 <= i < |s| ensures Upper(s)[i] == UpperChar(s[i]) { UpperAt(s, i); }
  }
}
