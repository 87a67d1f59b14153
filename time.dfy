/** The duration codec of `src/core/helpers/time.ts`: a clock text such as
    "1:02:03" to a number of milliseconds. */
module Time {
  import opened Outcome
  import opened JsBuiltins

  /** Weights of the reversed parts: seconds, minutes, hours. */
  const Multipliers: seq<int> := [1000, 1000 * 60, 1000 * 60 * 60]

  /** The parts of the clock text, seconds first. */
  function ReversedParts(timeStr: string): seq<string> {
    Reverse(Split(timeStr, ':'))
  }

  /** What the part at reversed position `index` adds: nothing when
      `parseInt` gives NaN or when there is no multiplier for the position. */
  function Contribution(part: string, index: nat): int {
    var value := ParseInt(part);
    if value.Some? && index < |Multipliers| then value.value * Multipliers[index] else 0
  }

  /** The sum of the contributions of the first `k` reversed parts. */
  function ContributionSum(parts: seq<string>, k: nat): int
    requires k <= |parts|
  {
    if k == 0 then 0 else ContributionSum(parts, k - 1) + Contribution(parts[k - 1], k - 1)
  }

  /** The value `timeToMs` computes; falsy (empty) text is 0. */
  function Milliseconds(timeStr: string): int {
    if timeStr == [] then 0
    else
      var parts := ReversedParts(timeStr);
      ContributionSum(parts, |parts|)
  }

  /** `timeToMs`: falsy text is 0; otherwise the clock text is split at
      ':' and its parts are summed seconds first. */
  method TimeToMs(timeStr: string) returns (milliseconds: int)
    ensures milliseconds == Milliseconds(timeStr)
  {
    if timeStr == [] {
      return 0;
    }
    var parts := Reverse(Split(timeStr, ':'));
    milliseconds := SumParts(parts);
  }

  /** The accumulator loop of `timeToMs` over the reversed parts. */
  method SumParts(parts: seq<string>) returns (milliseconds: int)
    ensures milliseconds == ContributionSum(parts, |parts|)
  {
    milliseconds := 0;
    var index := 0;
    while index < |parts|
      invariant 0 <= index <= |parts|
      invariant milliseconds == ContributionSum(parts, index)
    {
      var part := parts[index];
      var value := ParseInt(part);
      ghost var before := milliseconds;
      if value.Some? && index < |Multipliers| {
        milliseconds := milliseconds + value.value * Multipliers[index];
      }
      assert milliseconds == before + Contribution(part, index);
      assert ContributionSum(parts, index + 1) == before + Contribution(part, index);
      index := index + 1;
    }
  }

  // ---------------------------------------------------------------- properties

  /** Parts from the fourth onward add nothing. */
  lemma {:induction false} ContributionSumCapped(parts: seq<string>, k: nat)
    requires 3 <= k <= |parts|
    ensures ContributionSum(parts, k) == ContributionSum(parts, 3)
  {
    if k > 3 {
      ContributionSumCapped(parts, k - 1);
    }
  }

  /** The sum only looks at the first `k` parts. */
  lemma {:induction false} ContributionSumPrefix(parts: seq<string>, parts': seq<string>, k: nat)
    requires k <= |parts| && k <= |parts'|
    requires forall i :: 0 <= i < k ==> parts[i] == parts'[i]
    ensures ContributionSum(parts, k) == ContributionSum(parts', k)
  {
    if k > 0 {
      ContributionSumPrefix(parts, parts', k - 1);
      assert parts[k - 1] == parts'[k - 1];
    }
  }

  /** The result is the capped sum over the reversed parts. */
  lemma MillisecondsCapped(timeStr: string)
    requires timeStr != []
    ensures var parts := ReversedParts(timeStr);
      Milliseconds(timeStr) ==
        ContributionSum(parts, if |parts| < 3 then |parts| else 3)
  {
    var parts := ReversedParts(timeStr);
    if |parts| >= 3 {
      ContributionSumCapped(parts, |parts|);
    }
  }

  /** Text without `:` is one part, read as seconds: "5" is 5000. */
  lemma Seconds(s: string)
    requires s != [] && ':' !in s
    ensures Milliseconds(s) == Contribution(s, 0)
  {
    SplitSingle(s, ':');
    var parts := ReversedParts(s);
    assert parts == [s];
    assert ContributionSum(parts, 1) == ContributionSum(parts, 0) + Contribution(s, 0);
  }

  /** "m:s" is minutes and seconds: "2:03" is 123000. */
  lemma MinutesSeconds(m: string, s: string)
    requires ':' !in m && ':' !in s
    ensures Milliseconds(m + ":" + s) == Contribution(m, 1) + Contribution(s, 0)
  {
    SplitConcat(m, s, ':');
    SplitSingle(m, ':');
    SplitSingle(s, ':');
    assert Split(m + ":" + s, ':') == [m, s];
    var parts := ReversedParts(m + ":" + s);
    assert parts == [s, m];
    assert ContributionSum(parts, 1) == ContributionSum(parts, 0) + Contribution(s, 0);
    assert ContributionSum(parts, 2) == ContributionSum(parts, 1) + Contribution(m, 1);
  }

  /** "h:m:s" is hours, minutes and seconds: "1:02:03" is 3723000. */
  lemma HoursMinutesSeconds(h: string, m: string, s: string)
    requires ':' !in h && ':' !in m && ':' !in s
    ensures Milliseconds(h + ":" + m + ":" + s)
         == Contribution(h, 2) + Contribution(m, 1) + Contribution(s, 0)
  {
    SplitThree(h, m, s);
    var parts := ReversedParts(h + ":" + m + ":" + s);
    assert parts == [s, m, h];
    assert ContributionSum(parts, 1) == ContributionSum(parts, 0) + Contribution(s, 0);
    assert ContributionSum(parts, 2) == ContributionSum(parts, 1) + Contribution(m, 1);
    assert ContributionSum(parts, 3) == ContributionSum(parts, 2) + Contribution(h, 2);
  }

  lemma SplitThree(h: string, m: string, s: string)
    requires ':' !in h && ':' !in m && ':' !in s
    ensures Split(h + ":" + m + ":" + s, ':') == [h, m, s]
  {
    SplitConcat(m, s, ':');
    SplitConcat(h, m + ":" + s, ':');
    SplitSingle(h, ':');
    SplitSingle(m, ':');
    SplitSingle(s, ':');
    assert h + ":" + m + ":" + s == h + [':'] + (m + ":" + s);
  }

  /** Whatever stands before three or more trailing parts is ignored:
      "9:1:02:03" is 3723000, like "1:02:03". */
  lemma HighPartsIgnored(high: string, rest: string)
    requires |Split(rest, ':')| >= 3
    ensures Milliseconds(high + ":" + rest) == Milliseconds(rest)
  {
    var whole := high + ":" + rest;
    var p, q := Split(high, ':'), Split(rest, ':');
    assert Split(whole, ':') == p + q by {
      assert whole == high + [':'] + rest;
      SplitConcat(high, rest, ':');
    }
    var all, tail := ReversedParts(whole), ReversedParts(rest);
    ReverseKeepsLast(p, q, 3);
    MillisecondsCapped(whole);
    MillisecondsCapped(rest);
    ContributionSumPrefix(all, tail, 3);
  }

  /** The first `k` elements of a reversed concatenation come from its
      second half. */
  lemma ReverseKeepsLast(p: seq<string>, q: seq<string>, k: nat)
    requires k <= |q|
    ensures forall i :: 0 <= i < k ==> Reverse(p + q)[i] == Reverse(q)[i]
  {
    var r, t := Reverse(p + q), Reverse(q);
    forall i | 0 <= i < k ensures r[i] == t[i] {
      assert (p + q)[|p + q| - 1 - i] == q[|q| - 1 - i];
    }
  }

  /** The part at a position is weighted by that position's multiplier when
      it is a plain digit string. */
  lemma DigitsContribution(d: string, index: nat)
    requires d != [] && IsDigits(d) && index < 3
    ensures Contribution(d, index) == DigitsValue(d) * Multipliers[index]
  {
    assert d + [] == d;
    ParseIntDigits(d, []);
  }

  /** A part that is NaN adds nothing. */
  lemma NaNContribution(part: string, index: nat)
    requires ParseInt(part).None?
    ensures Contribution(part, index) == 0
  {
  }

  lemma ContributionNonNegative(part: string, index: nat)
    requires '-' !in part
    ensures Contribution(part, index) >= 0
  {
    ParseIntNonNegative(part);
    var value := ParseInt(part);
    if value.Some? && index < |Multipliers| {
      var weight := Multipliers[index];
      assert weight == 1000 || weight == 60000 || weight == 3600000;
      assert value.value >= 0;
    }
  }

  lemma {:induction false} ContributionSumNonNegative(parts: seq<string>, k: nat)
    requires k <= |parts|
    requires forall i :: 0 <= i < |parts| ==> '-' !in parts[i]
    ensures ContributionSum(parts, k) >= 0
  {
    if k > 0 {
      ContributionNonNegative(parts[k - 1], k - 1);
      ContributionSumNonNegative(parts, k - 1);
    }
  }

  /** Text without a minus sign, in particular text made of digits and
      colons only, never gives a negative duration. */
  lemma NonNegative(timeStr: string)
    requires '-' !in timeStr
    ensures Milliseconds(timeStr) >= 0
  {
    if timeStr != [] {
      var split := Split(timeStr, ':');
      var parts := ReversedParts(timeStr);
      forall i | 0 <= i < |parts| ensures '-' !in parts[i] {
        var j := |split| - 1 - i;
        assert parts[i] == split[j];
        if '-' in split[j] {
          var k :| 0 <= k < |split[j]| && split[j][k] == '-';
          SplitChars(timeStr, ':', j, k);
        }
      }
      ContributionSumNonNegative(parts, |parts|);
    }
  }

  // ---------------------------------------------------------------- worked examples

  /** A single part counts as seconds, read by `parseInt`. */
  lemma ExampleSeconds()
    ensures Milliseconds("") == 0
    ensures Milliseconds("5") == 5000
    ensures Milliseconds("05") == 5000
    ensures Milliseconds("5s") == 5000
  {
    assert IsDigits("5") && IsDigits("05");
    assert DigitsValue("5") == 5;
    assert DigitsValue("05") == 5 by { assert "05"[..1] == "0"; }
    Seconds("5");
    DigitsContribution("5", 0);
    Seconds("05");
    DigitsContribution("05", 0);
    Seconds("5s");
    assert "5s" == "5" + "s";
    ParseIntDigits("5", "s");
  }

  lemma ExampleMinutesSeconds()
    ensures Milliseconds("2:03") == 123000
  {
    assert IsDigits("2") && IsDigits("03");
    assert DigitsValue("2") == 2;
    assert DigitsValue("03") == 3 by { assert "03"[..1] == "0"; }
    assert "2:03" == "2" + ":" + "03";
    assert Multipliers[0] == 1000 && Multipliers[1] == 60000;
    MinutesSeconds("2", "03");
    DigitsContribution("2", 1);
    DigitsContribution("03", 0);
  }

  lemma ExampleHoursMinutesSeconds()
    ensures Milliseconds("1:02:03") == 3723000
  {
    assert IsDigits("1") && IsDigits("02") && IsDigits("03");
    assert DigitsValue("1") == 1;
    assert DigitsValue("02") == 2 by { assert "02"[..1] == "0"; }
    assert DigitsValue("03") == 3 by { assert "03"[..1] == "0"; }
    assert "1:02:03" == "1" + ":" + "02" + ":" + "03";
    assert Multipliers[0] == 1000 && Multipliers[1] == 60000 && Multipliers[2] == 3600000;
    HoursMinutesSeconds("1", "02", "03");
    DigitsContribution("1", 2);
    DigitsContribution("02", 1);
    DigitsContribution("03", 0);
  }

  lemma ExampleHighPartIgnored()
    ensures Milliseconds("9:1:02:03") == 3723000
  {
    assert "1:02:03" == "1" + ":" + "02" + ":" + "03";
    SplitThree("1", "02", "03");
    assert "9:1:02:03" == "9" + ":" + "1:02:03";
    HighPartsIgnored("9", "1:02:03");
    ExampleHoursMinutesSeconds();
  }

  lemma ExampleNaNPart()
    ensures Milliseconds("x:5") == 5000
  {
    assert IsDigits("5") && DigitsValue("5") == 5;
    assert "x:5" == "x" + ":" + "5";
    MinutesSeconds("x", "5");
    ParseIntNoDigit("x");
    NaNContribution("x", 1);
    DigitsContribution("5", 0);
  }

  /** A part whose first character is not a digit is NaN even when digits
      follow: `"x5:10"` is 10000. */
  lemma ExampleLeadingNaN()
    ensures Milliseconds("x5:10") == 10000
  {
    assert IsDigits("10") && "10"[..1] == "1" && DigitsValue("10") == 10;
    assert Multipliers[0] == 1000;
    assert "x5:10" == "x5" + ":" + "10";
    MinutesSeconds("x5", "10");
    assert [] + "" + "x5" == "x5";
    ParseIntNoLeadingDigit([], "", "x5");
    NaNContribution("x5", 1);
    DigitsContribution("10", 0);
  }
}
