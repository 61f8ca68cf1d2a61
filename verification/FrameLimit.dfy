/** The frame limit setting: a decimal number of hertz, stored in millihertz. */
module FrameLimit {

  import opened Wrappers
  import opened Decimal

  const MAX_HERTZ := 1000
  const MAX_FRACTION := 999
  const MAX_MILLIHZ := 1_000_000

  predicate AllDigits(s: string) { forall i | 0 <= i < |s| :: IsDigit(s[i]) }

  /** The overflow-free guard refuses a further digit exactly when the number would exceed the maximum. */
  lemma GuardIsExact(parsed: nat, digit: nat, maximum: nat)
    requires digit < 10
    ensures digit > maximum || parsed > (maximum - digit) / 10 <==> 10 * parsed + digit > maximum
  {
  }

  /** More digits never make a number smaller. */
  lemma {:induction false} PrefixIsSmaller(s: string, n: nat)
    requires AllDigits(s) && n <= |s|
    ensures FromDecimal(s[..n]) <= FromDecimal(s)
    decreases |s| - n
  {
    if n < |s| {
      assert s[..n + 1][..n] == s[..n];
      PrefixIsSmaller(s, n + 1);
    } else {
      assert s[..n] == s;
    }
  }

  method ParseUnsigned(text: string, maximum: nat) returns (r: Option<nat>)
    ensures r.Some? <==> text != "" && AllDigits(text) && FromDecimal(text) <= maximum
    ensures r.Some? ==> r.value == FromDecimal(text)
  {
    if text == "" {
      return None;
    }
    var parsed: nat := 0;
    var n := 0;
    while n < |text|
      invariant n <= |text| && AllDigits(text[..n])
      invariant parsed == FromDecimal(text[..n]) <= maximum
    {
      var ch := text[n];
      if ch < '0' || ch > '9' {
        assert !IsDigit(text[n]);
        return None;
      }
      var digit := ch as int - '0' as int;
      assert text[..n + 1][..n] == text[..n];
      GuardIsExact(parsed, digit, maximum);
      if digit > maximum || parsed > (maximum - digit) / 10 {
        if AllDigits(text) { PrefixIsSmaller(text, n + 1); }
        return None;
      }
      parsed := parsed * 10 + digit;
      n := n + 1;
    }
    assert text[..n] == text;
    return Some(parsed);
  }

  /** `text` reads as the digits `whole`, optionally followed by a point and one to three digits `fraction`. */
  predicate Reads(text: string, whole: string, fraction: string)
    ensures Reads(text, whole, fraction) ==> AllDigits(whole) && AllDigits(fraction) && |fraction| <= 3
  {
    && AllDigits(whole) && AllDigits(fraction) && whole != "" && |fraction| <= 3
    && text == if fraction == "" then whole else whole + "." + fraction
  }

  /** Three decimals: the fraction filled up with zeros. */
  function Thousandths(fraction: string): (r: string)
    requires |fraction| <= 3
    ensures |r| == 3
  {
    fraction + "000"[|fraction|..]
  }

  /** A thousand times the number a text denotes: its digits to three decimals, without the point. */
  function Millihertz(whole: string, fraction: string): nat
    requires AllDigits(whole) && AllDigits(fraction) && |fraction| <= 3
  {
    FromDecimal(whole + Thousandths(fraction))
  }

  ghost predicate IsLimit(text: string, millihz: nat) {
    exists whole, fraction ::
      Reads(text, whole, fraction) && millihz == Millihertz(whole, fraction) <= MAX_MILLIHZ
  }

  lemma AppendDigit(s: string, c: char)
    requires AllDigits(s) && IsDigit(c)
    ensures AllDigits(s + [c]) && FromDecimal(s + [c]) == 10 * FromDecimal(s) + (c as int - '0' as int)
  {
  }

  lemma ThreeDigits(s: string, x: char, y: char, z: char)
    requires AllDigits(s) && IsDigit(x) && IsDigit(y) && IsDigit(z)
    ensures AllDigits(s + [x, y, z])
    ensures FromDecimal(s + [x, y, z]) ==
            1000 * FromDecimal(s) + 100 * (x as int - '0' as int) + 10 * (y as int - '0' as int) + (z as int - '0' as int)
  {
    AppendDigit(s, x);
    AppendDigit(s + [x], y);
    AppendDigit(s + [x] + [y], z);
    assert s + [x] + [y] + [z] == s + [x, y, z];
  }

  /** Whole hertz and padded fraction add up. */
  lemma WholeAndFraction(whole: string, fraction: string)
    requires AllDigits(whole) && AllDigits(fraction) && |fraction| <= 3
    ensures AllDigits(Thousandths(fraction)) && FromDecimal(Thousandths(fraction)) <= MAX_FRACTION
    ensures Millihertz(whole, fraction) == 1000 * FromDecimal(whole) + FromDecimal(Thousandths(fraction))
  {
    var d := Thousandths(fraction);
    assert d == [d[0], d[1], d[2]] == "" + [d[0], d[1], d[2]];
    ThreeDigits(whole, d[0], d[1], d[2]);
    ThreeDigits("", d[0], d[1], d[2]);
  }

  /** The tenths, hundredths or thousandths that the digits of a fraction stand for. */
  lemma FractionScales(fraction: string)
    requires AllDigits(fraction) && 1 <= |fraction| <= 3
    ensures FromDecimal(fraction) <= MAX_FRACTION
    ensures FromDecimal(Thousandths(fraction)) == FromDecimal(fraction) * (if |fraction| == 1 then 100 else if |fraction| == 2 then 10 else 1)
  {
    hide FromDecimal;
    var a := fraction[0];
    if |fraction| == 1 {
      assert fraction == [a] && Thousandths(fraction) == [a, '0', '0'];
      ShortNumbers(a, '0', '0');
    } else if |fraction| == 2 {
      assert fraction == [a, fraction[1]] && Thousandths(fraction) == [a, fraction[1], '0'];
      ShortNumbers(a, fraction[1], '0');
    } else {
      assert fraction == [a, fraction[1], fraction[2]] == Thousandths(fraction);
      ShortNumbers(a, fraction[1], fraction[2]);
    }
  }

  lemma ShortNumbers(x: char, y: char, z: char)
    requires IsDigit(x) && IsDigit(y) && IsDigit(z)
    ensures FromDecimal([x]) == x as int - '0' as int
    ensures FromDecimal([x, y]) == 10 * FromDecimal([x]) + (y as int - '0' as int)
    ensures FromDecimal([x, y, z]) == 10 * FromDecimal([x, y]) + (z as int - '0' as int)
  {
    assert [x][..0] == "" && [x, y][..1] == [x] && [x, y, z][..2] == [x, y];
  }

  /** The only point, if any, is right behind the whole part. */
  lemma PointAt(text: string, whole: string, fraction: string)
    requires Reads(text, whole, fraction)
    ensures forall i | 0 <= i < |text| :: text[i] == '.' <==> fraction != "" && i == |whole|
  {
  }

  /** First position of a point at or after `from`, else the length. */
  function FindPoint(text: string, from: nat): (k: nat)
    requires from <= |text|
    ensures from <= k <= |text| && (forall i | from <= i < k :: text[i] != '.') && (k < |text| ==> text[k] == '.')
    decreases |text| - from
  {
    if from == |text| || text[from] == '.' then from else FindPoint(text, from + 1)
  }

  /** The only reading a text can have: split at its first point. */
  lemma OnlyReading(text: string)
    ensures var p := FindPoint(text, 0);
            forall w, f | Reads(text, w, f) ::
              if p == |text| then w == text && f == ""
              else w == text[..p] && f == text[p + 1..] && f != "" && FindPoint(text, p + 1) == |text|
  {
    var p := FindPoint(text, 0);
    forall w, f | Reads(text, w, f)
      ensures if p == |text| then w == text && f == ""
              else w == text[..p] && f == text[p + 1..] && f != "" && FindPoint(text, p + 1) == |text|
    {
      PointAt(text, w, f);
      if f != "" { assert text[|w|] == '.'; }
    }
  }

  /** A text with a known reading denotes a limit exactly if its number is small enough. */
  lemma LimitOf(text: string, whole: string, fraction: string)
    requires Reads(text, whole, fraction)
    ensures forall m: nat :: IsLimit(text, m) <==> m == Millihertz(whole, fraction) <= MAX_MILLIHZ
  {
    forall m: nat ensures IsLimit(text, m) <==> m == Millihertz(whole, fraction) <= MAX_MILLIHZ {
      if IsLimit(text, m) {
        var w, f :| Reads(text, w, f) && m == Millihertz(w, f) <= MAX_MILLIHZ;
        OnlyReading(text);
      }
    }
  }

  /** Sets the limit exactly for texts that denote at most 1000 hertz with at most three
      decimals, to a thousand times what they denote; anything else leaves it alone. */
  method SetFrameLimit(text: string, current: nat) returns (millihz: nat)
    ensures (exists m: nat :: IsLimit(text, m)) ==> IsLimit(text, millihz)
    ensures !(exists m: nat :: IsLimit(text, m)) ==> millihz == current
  {
    OnlyReading(text);
    var point := FindPoint(text, 0);
    if point == |text| {
      millihz := SetWhole(text, current);
      return;
    }
    if FindPoint(text, point + 1) != |text| {
      return current;
    }
    var fraction := text[point + 1..];
    if fraction == "" || |fraction| > 3 {
      return current;
    }
    assert text == text[..point] + "." + fraction;
    millihz := SetSplit(text, text[..point], fraction, current);
  }

  /** The branch without a point. */
  method SetWhole(text: string, current: nat) returns (millihz: nat)
    requires forall w, f | Reads(text, w, f) :: w == text && f == ""
    ensures (exists m: nat :: IsLimit(text, m)) ==> IsLimit(text, millihz)
    ensures !(exists m: nat :: IsLimit(text, m)) ==> millihz == current
  {
    hide Reads, IsLimit, Millihertz;
    WholeLimit(text);
    var hertz := ParseUnsigned(text, MAX_HERTZ);
    if hertz.None? {
      return current;
    }
    millihz := hertz.value * 1000;
    if millihz > MAX_MILLIHZ {
      return current;
    }
    assert IsLimit(text, millihz);
  }

  lemma WholeLimit(text: string)
    requires forall w, f | Reads(text, w, f) :: w == text && f == ""
    ensures forall m: nat :: IsLimit(text, m) <==>
              text != "" && AllDigits(text) && m == 1000 * FromDecimal(text) <= MAX_MILLIHZ
  {
    if text != "" && AllDigits(text) {
      assert Reads(text, text, "");
      LimitOf(text, text, "");
      WholeAndFraction(text, "");
      ThreeZeros();
    } else {
      assert forall w, f :: !Reads(text, w, f);
    }
  }

  lemma ThreeZeros()
    ensures FromDecimal(Thousandths("")) == 0
  {
    assert Thousandths("") == "000" && "000"[..2] == "00" && "00"[..1] == "0" && "0"[..0] == "";
  }

  /** The branch with one point between `whole` and `fraction`. */
  method SetSplit(text: string, whole: string, fraction: string, current: nat) returns (millihz: nat)
    requires text == whole + "." + fraction && 1 <= |fraction| <= 3
    requires forall w, f | Reads(text, w, f) :: w == whole && f == fraction
    ensures (exists m: nat :: IsLimit(text, m)) ==> IsLimit(text, millihz)
    ensures !(exists m: nat :: IsLimit(text, m)) ==> millihz == current
  {
    hide Reads, IsLimit, Millihertz;
    SplitLimit(text, whole, fraction);
    var hertz := ParseUnsigned(whole, MAX_HERTZ);
    if hertz.None? {
      return current;
    }
    var part := ParseUnsigned(fraction, MAX_FRACTION);
    if part.None? {
      return current;
    }
    var scale := if |fraction| == 1 then 100 else if |fraction| == 2 then 10 else 1;
    millihz := hertz.value * 1000 + part.value * scale;
    if millihz > MAX_MILLIHZ {
      return current;
    }
    assert IsLimit(text, millihz);
  }

  lemma SplitLimit(text: string, whole: string, fraction: string)
    requires text == whole + "." + fraction && 1 <= |fraction| <= 3
    requires forall w, f | Reads(text, w, f) :: w == whole && f == fraction
    ensures forall m: nat :: IsLimit(text, m) <==>
              && whole != "" && AllDigits(whole) && AllDigits(fraction) && FromDecimal(fraction) <= MAX_FRACTION
              && m == 1000 * FromDecimal(whole) + FromDecimal(fraction) * (if |fraction| == 1 then 100 else if |fraction| == 2 then 10 else 1)
              && m <= MAX_MILLIHZ
  {
    if whole != "" && AllDigits(whole) && AllDigits(fraction) {
      assert Reads(text, whole, fraction);
      LimitOf(text, whole, fraction);
      WholeAndFraction(whole, fraction);
      FractionScales(fraction);
    } else {
      assert forall w, f :: !Reads(text, w, f);
    }
  }

  /** The limit a text denotes is unique. */
  lemma LimitIsUnique(text: string, m1: nat, m2: nat)
    requires IsLimit(text, m1) && IsLimit(text, m2)
    ensures m1 == m2
  {
    var w, f :| Reads(text, w, f) && m1 == Millihertz(w, f) <= MAX_MILLIHZ;
    LimitOf(text, w, f);
  }

  lemma {:induction false} LeadingZeros(zeros: string, digits: string)
    requires (forall i | 0 <= i < |zeros| :: zeros[i] == '0') && AllDigits(digits)
    ensures FromDecimal(zeros + digits) == FromDecimal(digits)
    decreases |digits|, |zeros|
  {
    if digits == "" {
      assert zeros + digits == zeros;
      if zeros != "" {
        assert zeros[..|zeros| - 1] + "" == zeros[..|zeros| - 1];
        LeadingZeros(zeros[..|zeros| - 1], "");
      }
    } else {
      var all := zeros + digits;
      assert all[..|all| - 1] == zeros + digits[..|digits| - 1];
      LeadingZeros(zeros, digits[..|digits| - 1]);
    }
  }

  /** Any number of leading zeros leaves the limit as it is, and refused texts refused. */
  lemma LeadingZerosDoNotMatter(zeros: string, text: string, m: nat)
    requires (forall i | 0 <= i < |zeros| :: zeros[i] == '0') && text != "" && text[0] != '.'
    ensures IsLimit(zeros + text, m) <==> IsLimit(text, m)
  {
    hide FromDecimal, Reads;
    if IsLimit(text, m) {
      var w, f :| Reads(text, w, f) && m == Millihertz(w, f) <= MAX_MILLIHZ;
      ReadingWithZeros(zeros, text, w, f);
      SameNumber(zeros, w, f);
    }
    if IsLimit(zeros + text, m) {
      var w, f :| Reads(zeros + text, w, f) && m == Millihertz(w, f) <= MAX_MILLIHZ;
      ReadingWithoutZeros(zeros, text, w, f);
      var rest := w[|zeros|..];
      assert w == zeros + rest;
      SameNumber(zeros, rest, f);
    }
  }

  lemma SameNumber(zeros: string, whole: string, fraction: string)
    requires (forall i | 0 <= i < |zeros| :: zeros[i] == '0') && AllDigits(whole) && AllDigits(fraction) && |fraction| <= 3
    ensures AllDigits(zeros + whole) && Millihertz(zeros + whole, fraction) == Millihertz(whole, fraction)
  {
    hide FromDecimal;
    WholeAndFraction(whole, fraction);
    LeadingZeros(zeros, whole + Thousandths(fraction));
    assert zeros + (whole + Thousandths(fraction)) == (zeros + whole) + Thousandths(fraction);
  }

  lemma ReadingWithZeros(zeros: string, text: string, whole: string, fraction: string)
    requires (forall i | 0 <= i < |zeros| :: zeros[i] == '0') && Reads(text, whole, fraction)
    ensures Reads(zeros + text, zeros + whole, fraction)
  {
  }

  /** The zeros can be taken off the whole part again, and leave something there. */
  lemma ReadingWithoutZeros(zeros: string, text: string, whole: string, fraction: string)
    requires (forall i | 0 <= i < |zeros| :: zeros[i] == '0') && text != "" && text[0] != '.'
    requires Reads(zeros + text, whole, fraction)
    ensures |whole| > |zeros| && whole[..|zeros|] == zeros && Reads(text, whole[|zeros|..], fraction)
  {
    PointAt(zeros + text, whole, fraction);
    assert fraction != "" ==> (zeros + text)[|whole|] == '.';
    assert (zeros + text)[|zeros|] == text[0];
    assert text == (zeros + text)[|zeros|..];
    assert whole == (zeros + text)[..|whole|];
  }

  /** A text that starts with the point is refused, and accepted with a zero before it. */
  lemma PointFirstIsRefused()
    ensures (forall m: nat :: !IsLimit(".5", m)) && IsLimit("0.5", 500)
  {
    OnlyReading(".5");
    assert FindPoint(".5", 0) == 0;
    assert "0.5" == "0" + "." + "5" && Thousandths("5") == "500" && Reads("0.5", "0", "5");
    WholeAndFraction("0", "5");
    FractionScales("5");
    assert "0"[..0] == "" && "5"[..0] == "";
  }

  /** The range ends at exactly 1000 hertz. */
  lemma EndOfRange()
    ensures IsLimit("1000", 1_000_000) && forall m: nat :: !IsLimit("1000.001", m)
  {
    ThousandIs();
    assert Reads("1000", "1000", "");
    LimitOf("1000", "1000", "");
    WholeAndFraction("1000", "");
    ThreeZeros();
    assert "1000.001" == "1000" + "." + "001" && Reads("1000.001", "1000", "001");
    LimitOf("1000.001", "1000", "001");
    WholeAndFraction("1000", "001");
    FractionScales("001");
    ShortNumbers('0', '0', '1');
  }

  lemma ThousandIs()
    ensures FromDecimal("1000") == 1000
  {
    assert "1" + ['0', '0', '0'] == "1000";
    ThreeDigits("1", '0', '0', '0');
    assert "1"[..0] == "";
  }
}
