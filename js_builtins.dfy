/** The JavaScript built-ins the listing pipeline relies on, on strings of
    characters: `String.prototype.trim`, `split`, `indexOf`/`replace` with a
    string pattern, `Array.prototype.reverse`, `parseInt(s, 10)` and the
    conversion of a non-negative integer to its decimal text. */
module JsBuiltins {
  import opened Outcome

  /** ECMAScript WhiteSpace and LineTerminator code points: what `trim`
      removes and what `parseInt` skips before the number. */
  predicate IsSpace(c: char) {
    if c <= ' ' then
      c == ' ' || '\t' <= c <= '\r'  // tab, line feed, vertical tab, form feed, carriage return
    else
      '\U{A0}' <= c &&
      (|| c == '\U{A0}' || c == '\U{1680}' || ('\U{2000}' <= c <= '\U{200A}')
       || c == '\U{2028}' || c == '\U{2029}' || c == '\U{202F}' || c == '\U{205F}'
       || c == '\U{3000}' || c == '\U{FEFF}')
  }

  predicate IsDigit(c: char) {
    '0' <= c <= '9'
  }

  predicate IsDigits(s: string) {
    forall i :: 0 <= i < |s| ==> IsDigit(s[i])
  }

  predicate AllSpace(s: string) {
    forall i :: 0 <= i < |s| ==> IsSpace(s[i])
  }

  // ---------------------------------------------------------------- trim

  /** The number of white-space characters the text starts with. */
  function LeadingSpaces(s: string): (n: nat)
    ensures n <= |s|
    ensures forall i :: 0 <= i < n ==> IsSpace(s[i])
    ensures n < |s| ==> !IsSpace(s[n])
    decreases |s|
  {
    if s != [] && IsSpace(s[0]) then 1 + LeadingSpaces(s[1..]) else 0
  }

  /** The number of white-space characters the text ends with. */
  function TrailingSpaces(s: string): (n: nat)
    ensures n <= |s|
    ensures forall i :: |s| - n <= i < |s| ==> IsSpace(s[i])
    ensures n < |s| ==> !IsSpace(s[|s| - n - 1])
    decreases |s|
  {
    if s != [] && IsSpace(s[|s| - 1]) then 1 + TrailingSpaces(s[..|s| - 1]) else 0
  }

  /** Leading white space removed. */
  function TrimStart(s: string): string {
    s[LeadingSpaces(s)..]
  }

  /** Trailing white space removed. */
  function TrimEnd(s: string): string {
    s[..|s| - TrailingSpaces(s)]
  }

  /** `String.prototype.trim`. */
  function Trim(s: string): (r: string)
    ensures r != [] ==> !IsSpace(r[0]) && !IsSpace(r[|r| - 1])
  {
    var t := TrimStart(s);
    assert t != [] ==> t[0] == s[LeadingSpaces(s)];
    TrimEnd(t)
  }

  lemma {:induction false} LeadingSpacesPadded(w: string, t: string)
    requires AllSpace(w)
    requires t == [] || !IsSpace(t[0])
    ensures LeadingSpaces(w + t) == |w|
    decreases |w|
  {
    if w != [] {
      assert (w + t)[1..] == w[1..] + t;
      LeadingSpacesPadded(w[1..], t);
    } else {
      assert w + t == t;
    }
  }

  lemma {:induction false} TrailingSpacesPadded(t: string, w: string)
    requires AllSpace(w)
    requires t == [] || !IsSpace(t[|t| - 1])
    ensures TrailingSpaces(t + w) == |w|
    decreases |w|
  {
    if w != [] {
      assert (t + w)[..|t + w| - 1] == t + w[..|w| - 1];
      TrailingSpacesPadded(t, w[..|w| - 1]);
    } else {
      assert t + w == t;
    }
  }

  /** Trim gives back exactly the text between the surrounding white space. */
  lemma TrimPadded(w1: string, t: string, w2: string)
    requires AllSpace(w1) && AllSpace(w2)
    requires t != [] ==> !IsSpace(t[0]) && !IsSpace(t[|t| - 1])
    ensures Trim(w1 + t + w2) == t
  {
    var s := w1 + t + w2;
    if t == [] {
      assert s == w1 + w2;
      assert AllSpace(s) by {
        forall i | 0 <= i < |s| ensures IsSpace(s[i]) {
          if i < |w1| { assert s[i] == w1[i]; } else { assert s[i] == w2[i - |w1|]; }
        }
      }
      assert LeadingSpaces(s) == |s|;
    } else {
      assert s == w1 + (t + w2);
      assert (t + w2)[0] == t[0];
      LeadingSpacesPadded(w1, t + w2);
      assert TrimStart(s) == t + w2;
      TrailingSpacesPadded(t, w2);
      assert (t + w2)[..|t|] == t;
    }
  }

  /** Trimming twice is trimming once. */
  lemma TrimIdempotent(s: string)
    ensures Trim(Trim(s)) == Trim(s)
  {
    var t := Trim(s);
    assert [] + t + [] == t;
    TrimPadded([], t, []);
  }

  // ---------------------------------------------------------------- split / join

  /** `Array.prototype.join` with a one-character separator. */
  function Join(parts: seq<string>, sep: char): string
    decreases |parts|
  {
    if parts == [] then []
    else if |parts| == 1 then parts[0]
    else parts[0] + [sep] + Join(parts[1..], sep)
  }

  lemma JoinFirst(x: string, y: string, rest: seq<string>, sep: char)
    ensures Join([x + y] + rest, sep) == x + Join([y] + rest, sep)
  {
    assert ([x + y] + rest)[1..] == rest;
    assert ([y] + rest)[1..] == rest;
  }

  lemma {:induction false} JoinConcat(p: seq<string>, q: seq<string>, sep: char)
    requires p != [] && q != []
    ensures Join(p + q, sep) == Join(p, sep) + [sep] + Join(q, sep)
    decreases |p|
  {
    if |p| == 1 {
      assert (p + q)[1..] == q;
    } else {
      assert (p + q)[1..] == p[1..] + q;
      JoinConcat(p[1..], q, sep);
    }
  }

  lemma {:induction false} InJoin(parts: seq<string>, sep: char, i: nat, k: nat)
    requires i < |parts| && k < |parts[i]|
    ensures parts[i][k] in Join(parts, sep)
    decreases |parts|
  {
    if i > 0 {
      InJoin(parts[1..], sep, i - 1, k);
    }
  }

  /** `String.prototype.split` with a one-character separator: the pieces
      between the separators, an empty piece for each empty gap. */
  function Split(s: string, sep: char): (parts: seq<string>)
    ensures |parts| >= 1
    ensures Join(parts, sep) == s
    decreases |s|
  {
    if s == [] then [[]]
    else
      var rest := Split(s[1..], sep);
      if s[0] == sep then
        assert ([[]] + rest)[1..] == rest;
        [[]] + rest
      else
        JoinFirst([s[0]], rest[0], rest[1..], sep);
        assert [rest[0]] + rest[1..] == rest;
        [[s[0]] + rest[0]] + rest[1..]
  }

  predicate SeparatorFree(parts: seq<string>, sep: char) {
    forall i :: 0 <= i < |parts| ==> sep !in parts[i]
  }

  /** No piece holds the separator. */
  lemma {:induction false} SplitSeparatorFree(s: string, sep: char)
    ensures SeparatorFree(Split(s, sep), sep)
    decreases |s|
  {
    if s != [] {
      SplitSeparatorFree(s[1..], sep);
      var rest := Split(s[1..], sep);
      if s[0] != sep {
        var parts := Split(s, sep);
        assert parts[0] == [s[0]] + rest[0];
        forall i | 0 <= i < |parts| ensures sep !in parts[i] {
          if i > 0 { assert parts[i] == rest[i]; }
        }
      }
    }
  }

  /** Splitting a joined list of separator-free pieces gives the pieces back. */
  lemma {:induction false} SplitJoin(parts: seq<string>, sep: char)
    requires |parts| >= 1
    requires SeparatorFree(parts, sep)
    ensures Split(Join(parts, sep), sep) == parts
    decreases |Join(parts, sep)|
  {
    var s := Join(parts, sep);
    if parts[0] == [] {
      if |parts| > 1 {
        assert s == [sep] + Join(parts[1..], sep);
        assert s[1..] == Join(parts[1..], sep);
        SplitJoin(parts[1..], sep);
        assert [parts[0]] + parts[1..] == parts;
      }
    } else {
      var c, a := parts[0][0], parts[0][1..];
      assert parts[0] == [c] + a;
      var parts' := [a] + parts[1..];
      assert parts == [[c] + a] + parts[1..];
      JoinFirst([c], a, parts[1..], sep);
      assert s == [c] + Join(parts', sep);
      assert s[1..] == Join(parts', sep);
      assert c != sep by { assert c in parts[0]; }
      assert SeparatorFree(parts', sep) by {
        forall i | 0 <= i < |parts'| ensures sep !in parts'[i] {
          if i == 0 {
            assert forall k :: 0 <= k < |a| ==> a[k] == parts[0][k + 1];
          } else {
            assert parts'[i] == parts[i];
          }
        }
      }
      SplitJoin(parts', sep);
      assert parts'[1..] == parts[1..];
    }
  }

  /** A separator splits the text into the pieces of each side. */
  lemma SplitConcat(a: string, b: string, sep: char)
    ensures Split(a + [sep] + b, sep) == Split(a, sep) + Split(b, sep)
  {
    var p, q := Split(a, sep), Split(b, sep);
    var pq := p + q;
    JoinConcat(p, q, sep);
    assert Join(pq, sep) == a + [sep] + b;
    SplitSeparatorFree(a, sep);
    SplitSeparatorFree(b, sep);
    assert SeparatorFree(pq, sep) by {
      forall i | 0 <= i < |pq| ensures sep !in pq[i] {
        if i < |p| { assert pq[i] == p[i]; } else { assert pq[i] == q[i - |p|]; }
      }
    }
    SplitJoin(pq, sep);
  }

  /** Text without the separator is one piece. */
  lemma SplitSingle(s: string, sep: char)
    requires sep !in s
    ensures Split(s, sep) == [s]
  {
    SplitJoin([s], sep);
  }

  /** Every character of a piece is a character of the text. */
  lemma SplitChars(s: string, sep: char, i: nat, k: nat)
    requires i < |Split(s, sep)| && k < |Split(s, sep)[i]|
    ensures Split(s, sep)[i][k] in s
  {
    InJoin(Split(s, sep), sep, i, k);
  }

  // ---------------------------------------------------------------- reverse

  /** `Array.prototype.reverse`. */
  function Reverse<T>(s: seq<T>): (r: seq<T>)
    ensures |r| == |s|
    ensures forall i :: 0 <= i < |s| ==> r[i] == s[|s| - 1 - i]
  {
    if s == [] then [] else Reverse(s[1..]) + [s[0]]
  }

  // ---------------------------------------------------------------- indexOf / replace

  predicate OccursAt(s: string, pat: string, i: nat) {
    i + |pat| <= |s| && s[i..i + |pat|] == pat
  }

  function IndexFrom(s: string, pat: string, k: nat): (r: Option<nat>)
    ensures r.Some? ==> k <= r.value && OccursAt(s, pat, r.value)
    ensures r.Some? ==> forall j: nat :: k <= j < r.value ==> !OccursAt(s, pat, j)
    ensures r.None? ==> forall j: nat :: k <= j ==> !OccursAt(s, pat, j)
    decreases |s| - k
  {
    if k + |pat| > |s| then None
    else if s[k..k + |pat|] == pat then Some(k)
    else IndexFrom(s, pat, k + 1)
  }

  /** `String.prototype.indexOf`: the leftmost occurrence, if any. */
  function IndexOf(s: string, pat: string): (r: Option<nat>)
    ensures r.Some? ==> OccursAt(s, pat, r.value)
    ensures r.Some? ==> forall j: nat :: j < r.value ==> !OccursAt(s, pat, j)
    ensures r.None? <==> forall j: nat :: !OccursAt(s, pat, j)
  {
    IndexFrom(s, pat, 0)
  }

  /** `String.prototype.replace` with a string pattern and a replacement
      without `$` patterns: the first occurrence only. */
  function ReplaceFirst(s: string, pat: string, rep: string): (r: string)
    ensures (forall j: nat :: !OccursAt(s, pat, j)) ==> r == s
  {
    match IndexOf(s, pat)
    case None => s
    case Some(i) => s[..i] + rep + s[i + |pat|..]
  }

  /** The first occurrence is the one replaced, whatever follows it. */
  lemma ReplaceFirstAt(a: string, pat: string, b: string, rep: string)
    requires forall j: nat :: j < |a| ==> !OccursAt(a + pat + b, pat, j)
    ensures ReplaceFirst(a + pat + b, pat, rep) == a + rep + b
  {
    var s := a + pat + b;
    assert s[|a|..|a| + |pat|] == pat;
    assert OccursAt(s, pat, |a|);
    assert IndexOf(s, pat) == Some(|a|);
    assert s[..|a|] == a;
    assert s[|a| + |pat|..] == b;
  }

  // ---------------------------------------------------------------- numbers

  function DigitValue(c: char): nat
    requires IsDigit(c)
  {
    c as int - '0' as int
  }

  function DigitChar(k: nat): (c: char)
    requires k < 10
    ensures IsDigit(c) && DigitValue(c) == k
  {
    ('0' as int + k) as char
  }

  /** The value of a decimal digit string, most significant digit first. */
  function DigitsValue(d: string): nat
    requires IsDigits(d)
    decreases |d|
  {
    if d == [] then 0 else DigitsValue(d[..|d| - 1]) * 10 + DigitValue(d[|d| - 1])
  }

  /** The decimal text of a non-negative integer, as a template literal
      prints it. */
  function DecimalString(n: nat): (s: string)
    ensures s != [] && IsDigits(s) && DigitsValue(s) == n
    ensures n < 10 ==> s == [DigitChar(n)]
    ensures n >= 10 ==> s[0] != '0'
  {
    if n < 10 then [DigitChar(n)]
    else
      var s := DecimalString(n / 10) + [DigitChar(n % 10)];
      assert s[..|s| - 1] == DecimalString(n / 10);
      s
  }

  /** The length of the leading run of decimal digits. */
  function LeadingDigits(s: string): (n: nat)
    ensures n <= |s|
    ensures forall i :: 0 <= i < n ==> IsDigit(s[i])
    ensures n < |s| ==> !IsDigit(s[n])
    decreases |s|
  {
    if s != [] && IsDigit(s[0]) then 1 + LeadingDigits(s[1..]) else 0
  }

  lemma {:induction false} LeadingDigitsOf(d: string, rest: string)
    requires IsDigits(d)
    requires rest == [] || !IsDigit(rest[0])
    ensures LeadingDigits(d + rest) == |d|
    decreases |d|
  {
    if d != [] {
      assert (d + rest)[1..] == d[1..] + rest;
      LeadingDigitsOf(d[1..], rest);
    } else {
      assert d + rest == rest;
    }
  }

  /** `parseInt(s, 10)`: white space skipped, an optional sign, then the
      leading run of decimal digits; `None` (NaN) when there is no digit. */
  function ParseInt(s: string): Option<int>
  {
    ParseSigned(s[LeadingSpaces(s)..])
  }

  /** The part of `parseInt` after the white space: sign and digits. */
  function ParseSigned(t: string): Option<int>
  {
    var unsigned := if t != [] && (t[0] == '-' || t[0] == '+') then t[1..] else t;
    var n := LeadingDigits(unsigned);
    if n == 0 then None
    else
      var magnitude: int := DigitsValue(unsigned[..n]);
      if t[0] == '-' then Some(-magnitude) else Some(magnitude)
  }

  lemma ParseSignedDigits(d: string, rest: string)
    requires d != [] && IsDigits(d)
    requires rest == [] || !IsDigit(rest[0])
    ensures ParseSigned(d + rest) == Some(DigitsValue(d))
  {
    LeadingDigitsOf(d, rest);
    assert (d + rest)[0] == d[0];
    assert (d + rest)[..|d|] == d;
  }

  lemma ParseSignedSigned(sign: char, d: string, rest: string)
    requires sign == '-' || sign == '+'
    requires d != [] && IsDigits(d)
    requires rest == [] || !IsDigit(rest[0])
    ensures ParseSigned([sign] + (d + rest))
         == Some(if sign == '-' then -(DigitsValue(d) as int) else DigitsValue(d))
  {
    var t := [sign] + (d + rest);
    assert t[1..] == d + rest;
    LeadingDigitsOf(d, rest);
    assert (d + rest)[..|d|] == d;
  }

  /** A digit run is read up to the first character that is not a digit:
      "05" is 5 and "5s" is 5. */
  lemma ParseIntDigits(d: string, rest: string)
    requires d != [] && IsDigits(d)
    requires rest == [] || !IsDigit(rest[0])
    ensures ParseInt(d + rest) == Some(DigitsValue(d))
  {
    var s := d + rest;
    assert s[0] == d[0];
    assert LeadingSpaces(s) == 0;
    assert s[0..] == s;
    ParseSignedDigits(d, rest);
  }

  /** A leading minus sign negates the digit run. */
  lemma ParseIntNegative(d: string, rest: string)
    requires d != [] && IsDigits(d)
    requires rest == [] || !IsDigit(rest[0])
    ensures ParseInt("-" + d + rest) == Some(-(DigitsValue(d) as int))
  {
    var s := "-" + d + rest;
    assert s == ['-'] + (d + rest);
    assert LeadingSpaces(s) == 0;
    assert s[0..] == s;
    ParseSignedSigned('-', d, rest);
  }

  /** A leading plus sign is skipped. */
  lemma ParseIntPositive(d: string, rest: string)
    requires d != [] && IsDigits(d)
    requires rest == [] || !IsDigit(rest[0])
    ensures ParseInt("+" + d + rest) == Some(DigitsValue(d))
  {
    var s := "+" + d + rest;
    assert s == ['+'] + (d + rest);
    assert LeadingSpaces(s) == 0;
    assert s[0..] == s;
    ParseSignedSigned('+', d, rest);
  }

  /** Leading white space does not change the number read. */
  lemma ParseIntSkipsSpace(w: string, s: string)
    requires AllSpace(w)
    ensures ParseInt(w + s) == ParseInt(s)
  {
    var n := LeadingSpaces(s);
    var w' := w + s[..n];
    var t := s[n..];
    assert AllSpace(w') by {
      forall i | 0 <= i < |w'| ensures IsSpace(w'[i]) {
        if i >= |w| { assert w'[i] == s[i - |w|]; }
      }
    }
    assert w + s == w' + t;
    assert t != [] ==> t[0] == s[n];
    LeadingSpacesPadded(w', t);
    assert (w' + t)[|w'|..] == t;
  }

  /** Text without any digit is NaN. */
  lemma ParseIntNoDigit(s: string)
    requires forall i :: 0 <= i < |s| ==> !IsDigit(s[i])
    ensures ParseInt(s) == None
  {
    var t := s[LeadingSpaces(s)..];
    var unsigned := if t != [] && (t[0] == '-' || t[0] == '+') then t[1..] else t;
    if unsigned != [] {
      assert unsigned[0] == s[|s| - |unsigned|];
    }
  }

  /** NaN whenever no digit follows the white space and the optional sign:
      "x5", "-x", "+" and "--5" all read as NaN. */
  lemma ParseIntNoLeadingDigit(w: string, sign: string, rest: string)
    requires AllSpace(w)
    requires sign == "" || sign == "-" || sign == "+"
    requires rest == [] || !IsDigit(rest[0])
    requires sign == "" && rest != [] ==> !IsSpace(rest[0]) && rest[0] != '-' && rest[0] != '+'
    ensures ParseInt(w + sign + rest) == None
  {
    var t := sign + rest;
    assert w + sign + rest == w + t;
    ParseIntSkipsSpace(w, t);
    if sign == "" {
      assert t == rest;
      assert LeadingSpaces(t) == 0;
      assert t[0..] == t;
      assert LeadingDigits(rest) == 0;
    } else {
      assert t[0] == sign[0] && !IsSpace(t[0]);
      assert LeadingSpaces(t) == 0;
      assert t[0..] == t;
      assert t[1..] == rest;
      assert LeadingDigits(rest) == 0;
    }
  }

  /** Text without a minus sign never reads as a negative number. */
  lemma ParseIntNonNegative(s: string)
    requires '-' !in s
    ensures ParseInt(s).Some? ==> ParseInt(s).value >= 0
  {
    var t := s[LeadingSpaces(s)..];
    if t != [] {
      assert t[0] == s[LeadingSpaces(s)];
    }
  }

  /** Reading back a printed non-negative integer gives the integer. */
  lemma ParseIntDecimal(n: nat)
    ensures ParseInt(DecimalString(n)) == Some(n)
  {
    assert DecimalString(n) + [] == DecimalString(n);
    ParseIntDigits(DecimalString(n), []);
  }
}
