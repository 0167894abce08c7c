/**
  The string primitives of Python 3 that the repository's code leans on:
  `str.isspace`, `str.strip`, `str.rstrip(c)`, `str.startswith`, `str.upper`
  (on ASCII letters), `str.replace` of one character, `str.splitlines`,
  `"\n".join` and decimal digits for `int()` and `f"{n:02d}"`.
*/
module Text {

  /** Python's `str.isspace()`: the characters `strip()` removes and `\s` matches. */
  predicate IsSpace(c: char) {
    if c <= ' ' then '\t' <= c <= '\r' || '\U{1C}' <= c
    else if c < '\U{85}' then false
    else
      c == '\U{85}' || c == '\U{A0}' || c == '\U{1680}' || ('\U{2000}' <= c <= '\U{200A}')
      || c == '\U{2028}' || c == '\U{2029}' || c == '\U{202F}' || c == '\U{205F}' || c == '\U{3000}'
  }

  /** An ASCII decimal digit (`\d` on ASCII input). */
  predicate IsDigit(c: char) {
    '0' <= c <= '9'
  }

  /** A character of `\w` on ASCII input: a letter, a digit or `_`. */
  predicate IsWordChar(c: char) {
    ('a' <= c <= 'z') || ('A' <= c <= 'Z') || IsDigit(c) || c == '_'
  }

  predicate AllSpace(s: string) {
    forall i :: 0 <= i < |s| ==> IsSpace(s[i])
  }

  predicate AllDigits(s: string) {
    forall i :: 0 <= i < |s| ==> IsDigit(s[i])
  }

  predicate StartsWith(s: string, prefix: string) {
    |prefix| <= |s| && s[..|prefix|] == prefix
  }

  predicate EndsWith(s: string, suffix: string) {
    |suffix| <= |s| && s[|s| - |suffix|..] == suffix
  }

  /** A one-character suffix test looks at the last character only. */
  lemma EndsWithChar(s: string, c: char)
    ensures EndsWith(s, [c]) <==> s != [] && s[|s| - 1] == c
  {
    if s != [] {
      assert s[|s| - 1..] == [s[|s| - 1]];
    }
  }

  /** The number of whitespace characters `s` starts with. */
  function LeadingSpaces(s: string): (n: nat)
    ensures n <= |s|
    ensures forall k :: 0 <= k < n ==> IsSpace(s[k])
    ensures n < |s| ==> !IsSpace(s[n])
  {
    if s == [] || !IsSpace(s[0]) then 0 else 1 + LeadingSpaces(s[1..])
  }

  /** The number of whitespace characters `s` ends with. */
  function TrailingSpaces(s: string): (n: nat)
    ensures n <= |s|
    ensures forall k :: |s| - n <= k < |s| ==> IsSpace(s[k])
    ensures n < |s| ==> !IsSpace(s[|s| - 1 - n])
  {
    if s == [] || !IsSpace(s[|s| - 1]) then 0 else 1 + TrailingSpaces(s[..|s| - 1])
  }

  /**
    Python's `s.strip()`: the text between the leading and the trailing
    whitespace, which neither starts nor ends with whitespace.
  */
  function Strip(s: string): (r: string)
    ensures |r| <= |s|
    ensures |r| == 0 <==> AllSpace(s)
    ensures |r| > 0 ==> !IsSpace(r[0]) && !IsSpace(r[|r| - 1])
    ensures LeadingSpaces(s) + |r| <= |s|
    decreases |s|
  {
    if s == [] then s
    else if IsSpace(s[0]) then
      assert AllSpace(s) <==> AllSpace(s[1..]) by {
        assert forall k :: 0 < k < |s| ==> s[k] == s[1..][k - 1];
      }
      Strip(s[1..])
    else if IsSpace(s[|s| - 1]) then
      assert s[..|s| - 1][0] == s[0];
      Strip(s[..|s| - 1])
    else s
  }

  /** `strip()` keeps the text between the leading whitespace and the trailing whitespace. */
  lemma StripIsSlice(s: string)
    ensures Strip(s) == s[LeadingSpaces(s)..LeadingSpaces(s) + |Strip(s)|]
    ensures forall k :: LeadingSpaces(s) + |Strip(s)| <= k < |s| ==> IsSpace(s[k])
  {
    StripSlice(s);
    StripRest(s);
  }

  lemma {:induction false} StripSlice(s: string)
    ensures Strip(s) == s[LeadingSpaces(s)..LeadingSpaces(s) + |Strip(s)|]
    decreases |s|
  {
    if s != [] && IsSpace(s[0]) {
      var t := s[1..];
      StripSlice(t);
      StripDropsHead(s);
      SliceOfTail(s, LeadingSpaces(t), LeadingSpaces(t) + |Strip(t)|);
    } else if s != [] && IsSpace(s[|s| - 1]) {
      var t := s[..|s| - 1];
      StripSlice(t);
      StripDropsTail(s);
      SliceOfInit(s, |Strip(t)|);
    }
  }

  /** What follows the stripped text is whitespace. */
  lemma {:induction false} StripRest(s: string)
    ensures forall k :: LeadingSpaces(s) + |Strip(s)| <= k < |s| ==> IsSpace(s[k])
    decreases |s|
  {
    if s != [] && IsSpace(s[0]) {
      var t := s[1..];
      StripRest(t);
      StripDropsHead(s);
      forall k | LeadingSpaces(s) + |Strip(s)| <= k < |s| ensures IsSpace(s[k]) {
        assert s[k] == t[k - 1];
      }
    } else if s != [] && IsSpace(s[|s| - 1]) {
      var t := s[..|s| - 1];
      StripRest(t);
      StripDropsTail(s);
      forall k | |Strip(s)| <= k < |s| ensures IsSpace(s[k]) {
        if k < |t| {
          assert s[k] == t[k];
        }
      }
    }
  }

  /** A leading whitespace character is stripped. */
  lemma StripDropsHead(s: string)
    requires s != [] && IsSpace(s[0])
    ensures Strip(s) == Strip(s[1..]) && LeadingSpaces(s) == 1 + LeadingSpaces(s[1..])
  {
  }

  /** A trailing whitespace character after a non-whitespace one is stripped. */
  lemma StripDropsTail(s: string)
    requires s != [] && !IsSpace(s[0]) && IsSpace(s[|s| - 1])
    ensures Strip(s) == Strip(s[..|s| - 1]) && LeadingSpaces(s) == 0 && LeadingSpaces(s[..|s| - 1]) == 0
  {
    assert s[..|s| - 1][0] == s[0];
  }

  /** A slice of `s[1..]` is the slice of `s` one further on. */
  lemma SliceOfTail(s: string, i: nat, j: nat)
    requires s != [] && i <= j <= |s| - 1
    ensures s[1..][i..j] == s[1 + i..1 + j]
  {
  }

  /** A prefix of `s` without its last character is a prefix of `s`. */
  lemma SliceOfInit(s: string, n: nat)
    requires s != [] && n <= |s| - 1
    ensures s[..|s| - 1][0..n] == s[0..n]
  {
  }

  /** Text with no whitespace at either end is its own `strip()`. */
  lemma StripTrimmed(s: string)
    requires s != [] && !IsSpace(s[0]) && !IsSpace(s[|s| - 1])
    ensures Strip(s) == s
  {
  }

  /** Indentation in front of text with no whitespace at either end is what `strip()` removes. */
  lemma {:induction false} StripIndented(ind: string, s: string)
    requires AllSpace(ind)
    requires s != [] && !IsSpace(s[0]) && !IsSpace(s[|s| - 1])
    ensures Strip(ind + s) == s
    decreases |ind|
  {
    if ind != [] {
      var t := ind + s;
      assert t[0] == ind[0];
      assert t[1..] == ind[1..] + s;
      StripIndented(ind[1..], s);
    }
  }

  /** A suffix of `s` is its first character followed by the next suffix. */
  lemma SuffixCons(s: string, i: nat)
    requires i < |s|
    ensures s[i..] == [s[i]] + s[i + 1..]
  {
  }

  /** Python's `s.rstrip(c)`: `s` without the run of `c` it ends with. */
  function TrimRightChar(s: string, c: char): (r: string)
    ensures |r| <= |s| && r == s[..|r|]
    ensures forall i :: |r| <= i < |s| ==> s[i] == c
    ensures r != [] ==> r[|r| - 1] != c
  {
    if s == [] || s[|s| - 1] != c then s else TrimRightChar(s[..|s| - 1], c)
  }

  /** Python's `str.upper()` on one character, for ASCII letters. */
  function UpperChar(c: char): char {
    if 'a' <= c <= 'z' then (c as int - 32) as char else c
  }

  /** Python's `s.upper()` on ASCII letters (other characters are kept). */
  function Upper(s: string): (r: string)
    ensures |r| == |s|
  {
    seq(|s|, i requires 0 <= i < |s| => UpperChar(s[i]))
  }

  /** `s[i..]` starts with `word`, letters compared without regard to case (`re.IGNORECASE`). */
  predicate MatchesIgnoreCase(s: string, i: nat, word: string) {
    i + |word| <= |s| && forall k :: 0 <= k < |word| ==> UpperChar(s[i + k]) == UpperChar(word[k])
  }

  /** Text that holds `word` exactly at `i` matches it. */
  lemma MatchesExactly(s: string, i: nat, word: string)
    requires i + |word| <= |s| && s[i..i + |word|] == word
    ensures MatchesIgnoreCase(s, i, word)
  {
    forall k | 0 <= k < |word| ensures UpperChar(s[i + k]) == UpperChar(word[k]) {
      assert s[i + k] == s[i..i + |word|][k];
    }
  }

  /** Python's `s.upper().startswith(prefix)` for an upper-case prefix is the case-blind comparison. */
  lemma UpperStartsWith(s: string, prefix: string)
    requires forall k :: 0 <= k < |prefix| ==> UpperChar(prefix[k]) == prefix[k]
    ensures StartsWith(Upper(s), prefix) <==> MatchesIgnoreCase(s, 0, prefix)
  {
    if MatchesIgnoreCase(s, 0, prefix) {
      assert forall k :: 0 <= k < |prefix| ==> Upper(s)[..|prefix|][k] == prefix[k];
    }
    if StartsWith(Upper(s), prefix) {
      forall k | 0 <= k < |prefix| ensures UpperChar(s[k]) == UpperChar(prefix[k]) {
        assert Upper(s)[..|prefix|][k] == prefix[k];
      }
    }
  }

  /** Python's `s.replace(a, b)` for single characters. */
  function ReplaceChar(s: string, a: char, b: char): (r: string)
    ensures |r| == |s|
    ensures forall i :: 0 <= i < |s| ==> r[i] == (if s[i] == a then b else s[i])
  {
    seq(|s|, i requires 0 <= i < |s| => if s[i] == a then b else s[i])
  }

  /** After the replacement no `a` is left. */
  lemma ReplaceCharRemoves(s: string, a: char, b: char)
    requires a != b
    ensures a !in ReplaceChar(s, a, b)
  {
    var r := ReplaceChar(s, a, b);
    forall i | 0 <= i < |r| ensures r[i] != a {
    }
  }

  /** The line boundaries of Python's `str.splitlines()` (`\r\n` also counts as one). */
  predicate IsLineBreak(c: char) {
    if c <= '\r' then '\n' <= c
    else if c <= '\U{1E}' then '\U{1C}' <= c
    else c == '\U{85}' || c == '\U{2028}' || c == '\U{2029}'
  }

  predicate NoLineBreak(s: string) {
    forall i :: 0 <= i < |s| ==> !IsLineBreak(s[i])
  }

  /** The length of the first line of `s`: the index of its first line boundary, or `|s|`. */
  function LineLength(s: string): (n: nat)
    ensures n <= |s|
    ensures n < |s| ==> IsLineBreak(s[n])
  {
    if s == [] || IsLineBreak(s[0]) then 0 else 1 + LineLength(s[1..])
  }

  /**
    Python's `s.splitlines()`: the lines of `s` without their boundaries; a
    final boundary does not start another, empty, line.
  */
  function SplitLines(s: string): (lines: seq<string>)
    ensures |lines| == 0 <==> |s| == 0
    decreases |s|
  {
    if s == [] then []
    else
      var n := LineLength(s);
      if n == |s| then [s]
      else
        var next := if s[n] == '\r' && n + 1 < |s| && s[n + 1] == '\n' then n + 2 else n + 1;
        [s[..n]] + SplitLines(s[next..])
  }

  /** No character of the first line is a line boundary. */
  lemma {:induction false} LineLengthNoBreak(s: string)
    ensures NoLineBreak(s[..LineLength(s)])
    decreases |s|
  {
    if s != [] && !IsLineBreak(s[0]) {
      LineLengthNoBreak(s[1..]);
      var n := LineLength(s);
      forall k | 0 <= k < n ensures !IsLineBreak(s[..n][k]) {
        if k > 0 { assert s[..n][k] == s[1..][..n - 1][k - 1]; }
      }
    }
  }

  /** No line of `splitlines()` holds a line boundary. */
  lemma {:induction false} SplitLinesNoBreak(s: string)
    ensures forall k :: 0 <= k < |SplitLines(s)| ==> NoLineBreak(SplitLines(s)[k])
    decreases |s|
  {
    if s != [] {
      var n := LineLength(s);
      LineLengthNoBreak(s);
      if n < |s| {
        var next := if s[n] == '\r' && n + 1 < |s| && s[n + 1] == '\n' then n + 2 else n + 1;
        SplitLinesNoBreak(s[next..]);
        assert SplitLines(s) == [s[..n]] + SplitLines(s[next..]);
      }
    }
  }

  /** Python's `"\n".join(lines)`. */
  function JoinLines(lines: seq<string>): (s: string)
    decreases |lines|
  {
    if lines == [] then []
    else if |lines| == 1 then lines[0]
    else lines[0] + "\n" + JoinLines(lines[1..])
  }

  /**
    Splitting text into lines and joining them again with `\n` gives the text
    back when `\n` is its only kind of line boundary and it does not end with one.
  */
  lemma {:induction false} JoinSplitLines(s: string)
    requires NewlineBreaksOnly(s)
    requires s == [] || s[|s| - 1] != '\n'
    ensures JoinLines(SplitLines(s)) == s
    decreases |s|
  {
    if s != [] {
      var n := LineLength(s);
      if n < |s| {
        var rest := s[n + 1..];
        NewlineBreaksOnlySuffix(s, n);
        JoinSplitLines(rest);
        SplitLinesAtNewline(s, n);
        JoinLinesCons(s[..n], SplitLines(rest));
        SplitAround(s, n);
      }
    }
  }

  /** `\n` is the only line boundary `s` holds. */
  predicate NewlineBreaksOnly(s: string) {
    forall i :: 0 <= i < |s| ==> IsLineBreak(s[i]) ==> s[i] == '\n'
  }

  /** What follows the first line of such text is such text again, and not empty. */
  lemma NewlineBreaksOnlySuffix(s: string, n: nat)
    requires NewlineBreaksOnly(s) && (s == [] || s[|s| - 1] != '\n')
    requires n == LineLength(s) && n < |s|
    ensures s[n] == '\n' && NewlineBreaksOnly(s[n + 1..])
    ensures s[n + 1..] != [] && s[|s| - 1] == s[n + 1..][|s[n + 1..]| - 1]
  {
    var rest := s[n + 1..];
    forall i | 0 <= i < |rest| && IsLineBreak(rest[i]) ensures rest[i] == '\n' {
      assert rest[i] == s[n + 1 + i];
    }
  }

  lemma SplitAround(s: string, n: nat)
    requires n < |s| && s[n] == '\n'
    ensures s == s[..n] + "\n" + s[n + 1..]
  {
  }

  /** A first line ended by `\n` alone. */
  lemma SplitLinesAtNewline(s: string, n: nat)
    requires n == LineLength(s) && n < |s| && s[n] == '\n'
    ensures SplitLines(s) == [s[..n]] + SplitLines(s[n + 1..])
  {
    assert s != [] && n != |s| && s[n] != '\r';
  }

  lemma JoinLinesCons(line: string, lines: seq<string>)
    requires lines != []
    ensures JoinLines([line] + lines) == line + "\n" + JoinLines(lines)
  {
    assert ([line] + lines)[1..] == lines;
  }

  /** A character the text does not hold is in none of its slices. */
  lemma SliceAbsent(s: string, a: nat, b: nat, c: char)
    requires a <= b <= |s| && c !in s
    ensures c !in s[a..b]
  {
    forall k | 0 <= k < b - a ensures s[a..b][k] != c {
      assert s[a..b][k] == s[a + k];
    }
  }

  /** No line holds `c`. */
  predicate NoneContains(lines: seq<string>, c: char) {
    forall k :: 0 <= k < |lines| ==> c !in lines[k]
  }

  /** A character the text does not hold is in none of its lines. */
  lemma {:induction false} SplitLinesAbsent(s: string, c: char)
    requires c !in s
    ensures NoneContains(SplitLines(s), c)
    decreases |s|
  {
    if s != [] {
      var n := LineLength(s);
      SliceAbsent(s, 0, n, c);
      if n < |s| {
        var next := if s[n] == '\r' && n + 1 < |s| && s[n + 1] == '\n' then n + 2 else n + 1;
        SliceAbsent(s, next, |s|, c);
        SplitLinesAbsent(s[next..], c);
        assert SplitLines(s) == [s[..n]] + SplitLines(s[next..]);
      }
    }
  }

  /** Joining adds only `\n`: a character no line holds is not in the joined text. */
  lemma {:induction false} JoinLinesAbsent(lines: seq<string>, c: char)
    requires c != '\n' && NoneContains(lines, c)
    ensures c !in JoinLines(lines)
    decreases |lines|
  {
    if |lines| > 1 {
      assert c !in lines[0];
      JoinLinesAbsent(lines[1..], c);
    }
  }

  /** The value of a digit. */
  function DigitValue(c: char): nat
    requires IsDigit(c)
  {
    c as int - '0' as int
  }

  /** The digit of a value below ten. */
  function DigitChar(d: nat): (c: char)
    requires d < 10
    ensures IsDigit(c) && DigitValue(c) == d
  {
    (d + '0' as int) as char
  }

  /** Python's `int(s)` for a string of ASCII digits (leading zeros allowed). */
  function DecimalValue(s: string): nat
    requires AllDigits(s)
    decreases |s|
  {
    if s == [] then 0 else DecimalValue(s[..|s| - 1]) * 10 + DigitValue(s[|s| - 1])
  }

  /** Python's `str(n)` for a natural number: its digits, without leading zeros. */
  function Decimal(n: nat): (s: string)
    ensures AllDigits(s) && s != []
    ensures |s| == 1 <==> n < 10
    ensures s[0] == '0' ==> n == 0
  {
    if n < 10 then [DigitChar(n)] else Decimal(n / 10) + [DigitChar(n % 10)]
  }

  /** `int(str(n)) == n`. */
  lemma {:induction false} DecimalRoundTrip(n: nat)
    ensures DecimalValue(Decimal(n)) == n
  {
    if n >= 10 {
      DecimalRoundTrip(n / 10);
      var s := Decimal(n);
      assert s[..|s| - 1] == Decimal(n / 10);
    }
  }

  /** Leading zeros do not change the value of a digit string. */
  lemma {:induction false} DecimalValueLeadingZero(s: string)
    requires AllDigits(s)
    ensures AllDigits("0" + s) && DecimalValue("0" + s) == DecimalValue(s)
    decreases |s|
  {
    if s != [] {
      DecimalValueLeadingZero(s[..|s| - 1]);
      assert ("0" + s)[..|"0" + s| - 1] == "0" + s[..|s| - 1];
    }
  }

  /** The value of a string of digits grows with its length: `k` digits stay below `10^k`. */
  function Pow10(k: nat): (p: nat)
    ensures p >= 1
  {
    if k == 0 then 1 else 10 * Pow10(k - 1)
  }

  lemma {:induction false} DecimalValueBound(s: string)
    requires AllDigits(s)
    ensures DecimalValue(s) < Pow10(|s|)
    decreases |s|
  {
    if s != [] {
      DecimalValueBound(s[..|s| - 1]);
    }
  }

  /** Python's `str(n)` for any integer. */
  function IntText(n: int): string {
    if n < 0 then "-" + Decimal(-n) else Decimal(n)
  }

  /** Python's `f"{n:02d}"`: at least two characters, zeros after the sign. */
  function Pad2(n: int): string {
    if n < 0 then "-" + Decimal(-n)
    else if n < 10 then "0" + Decimal(n)
    else Decimal(n)
  }

  /** A non-negative number pads to digits, at least two of them, that read back as the number. */
  lemma Pad2Reads(n: nat)
    ensures AllDigits(Pad2(n)) && |Pad2(n)| >= 2 && DecimalValue(Pad2(n)) == n
  {
    DecimalRoundTrip(n);
    if n < 10 {
      DecimalValueLeadingZero(Decimal(n));
    }
  }

  /** A number below 60 pads to exactly two digits, the first of them at most 5. */
  lemma Pad2Below60(m: nat)
    requires m < 60
    ensures |Pad2(m)| == 2 && '0' <= Pad2(m)[0] <= '5' && IsDigit(Pad2(m)[1])
  {
    if m >= 10 {
      assert Decimal(m) == Decimal(m / 10) + [DigitChar(m % 10)];
    }
  }

  /** The number of ASCII digits `s` starts with. */
  function LeadingDigits(s: string): (n: nat)
    ensures n <= |s| && AllDigits(s[..n])
    ensures n < |s| ==> !IsDigit(s[n])
  {
    if s == [] || !IsDigit(s[0]) then 0
    else
      var n := 1 + LeadingDigits(s[1..]);
      assert s[..n] == [s[0]] + s[1..][..n - 1];
      n
  }
}
