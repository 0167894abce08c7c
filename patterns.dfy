/**
  The regular expressions `old_data/mysql_dump_to_sqlite.py` hands to
  `re.sub` in `normalize_types` and `convert_create_table`, each written out
  as a matcher, and `re.sub` itself as the replacement of leftmost,
  non-overlapping matches.

  Every pattern here is deterministic under Python's backtracking: each
  greedy repetition either stops at a character the next element of the
  pattern cannot accept, or gives back characters the next element cannot
  accept either, so the match found is the one built by taking every run to
  its end. The matchers below take every run to its end.
*/
module Patterns {
  import opened Text
  import opened Wrappers

  /** `\b` at position `j` of `s`: a word character on exactly one side. */
  predicate WordBoundary(s: string, j: nat)
    requires j <= |s|
  {
    (j > 0 && IsWordChar(s[j - 1])) != (j < |s| && IsWordChar(s[j]))
  }

  /** The length of the run of whitespace starting at `i`. */
  function SpaceRun(s: string, i: nat): (n: nat)
    requires i <= |s|
    ensures i + n <= |s|
    ensures forall k :: i <= k < i + n ==> IsSpace(s[k])
    ensures i + n < |s| ==> !IsSpace(s[i + n])
    decreases |s| - i
  {
    if i < |s| && IsSpace(s[i]) then 1 + SpaceRun(s, i + 1) else 0
  }

  /** The length of the run of digits starting at `i`. */
  function DigitRun(s: string, i: nat): (n: nat)
    requires i <= |s|
    ensures i + n <= |s|
    ensures forall k :: i <= k < i + n ==> IsDigit(s[k])
    ensures i + n < |s| ==> !IsDigit(s[i + n])
    decreases |s| - i
  {
    if i < |s| && IsDigit(s[i]) then 1 + DigitRun(s, i + 1) else 0
  }

  /**
    `[^)(]*\)` after the `(` of an inner pair: the position after its `)`,
    or None when a `(` or the end of the text comes first.
  */
  function InnerParen(s: string, j: nat): (r: Option<nat>)
    requires j <= |s|
    ensures r.Some? ==> j < r.value <= |s| && s[r.value - 1] == ')'
    decreases |s| - j
  {
    if j == |s| then None
    else if s[j] == ')' then Some(j + 1)
    else if s[j] == '(' then None
    else InnerParen(s, j + 1)
  }

  /**
    `(?:[^)(]|\([^)(]*\))*\)` after the opening `(`: the position after the
    closing `)`, or None. One level of nested parentheses is allowed in
    between.
  */
  function ParenGroup(s: string, j: nat): (r: Option<nat>)
    requires j <= |s|
    ensures r.Some? ==> j < r.value <= |s| && s[r.value - 1] == ')'
    decreases |s| - j
  {
    if j == |s| then None
    else if s[j] == ')' then Some(j + 1)
    else if s[j] == '(' then
      match InnerParen(s, j + 1)
      case None => None
      case Some(k) => ParenGroup(s, k)
    else ParenGroup(s, j + 1)
  }

  /** The patterns, with the keyword `w` they start with. */
  datatype Pattern =
    | Word(w: string)            // \bw\b
    | Parenthesised(w: string)   // \bw\s*\((?:[^)(]|\([^)(]*\))*\)
    | Width(w: string)           // \bw\s*\(\s*\d+\s*\)
    | AutoIncrementOption        // \bAUTO_INCREMENT\s*=\s*\d+\b
    | AutoIncrementModifier      // \s+AUTO_INCREMENT\b

  /** `\bw` at `i`, letters compared without regard to case (`re.IGNORECASE`). */
  predicate KeywordAt(s: string, i: nat, w: string)
    requires i <= |s|
  {
    WordBoundary(s, i) && MatchesIgnoreCase(s, i, w)
  }

  /** `\s*\(\s*\d+\s*\)` at `j`: the position after the `)`, or None. */
  function WidthFrom(s: string, j: nat): (r: Option<nat>)
    requires j <= |s|
    ensures r.Some? ==> j < r.value <= |s| && s[r.value - 1] == ')'
  {
    var k := j + SpaceRun(s, j);
    if k < |s| && s[k] == '(' then
      var d := k + 1 + SpaceRun(s, k + 1);
      var e := d + DigitRun(s, d);
      var f := e + SpaceRun(s, e);
      if e > d && f < |s| && s[f] == ')' then Some(f + 1) else None
    else None
  }

  /** `\bw\b` at `i`: the length of the match, or 0. */
  function WordMatch(s: string, i: nat, w: string): (n: nat)
    requires i <= |s|
    ensures i + n <= |s|
    ensures n > 0 ==> n == |w| && KeywordAt(s, i, w) && WordBoundary(s, i + n)
  {
    if w != [] && KeywordAt(s, i, w) && WordBoundary(s, i + |w|) then |w| else 0
  }

  /** `\bw\s*\((?:[^)(]|\([^)(]*\))*\)` at `i`: the length of the match, or 0. */
  function ParenthesisedMatch(s: string, i: nat, w: string): (n: nat)
    requires i <= |s|
    ensures i + n <= |s|
    ensures n > 0 ==> KeywordAt(s, i, w) && s[i + n - 1] == ')'
  {
    if KeywordAt(s, i, w) then
      var j := i + |w|;
      var k := j + SpaceRun(s, j);
      if k < |s| && s[k] == '(' then
        match ParenGroup(s, k + 1)
        case None => 0
        case Some(e) => e - i
      else 0
    else 0
  }

  /** `\bw\s*\(\s*\d+\s*\)` at `i`: the length of the match, or 0. */
  function WidthMatch(s: string, i: nat, w: string): (n: nat)
    requires i <= |s|
    ensures i + n <= |s|
    ensures n > 0 ==> KeywordAt(s, i, w) && s[i + n - 1] == ')'
  {
    if KeywordAt(s, i, w) then
      match WidthFrom(s, i + |w|)
      case None => 0
      case Some(e) => e - i
    else 0
  }

  /** `\bAUTO_INCREMENT\s*=\s*\d+\b` at `i`: the length of the match, or 0. */
  function AutoIncrementOptionMatch(s: string, i: nat): (n: nat)
    requires i <= |s|
    ensures i + n <= |s|
    ensures n > 0 ==> KeywordAt(s, i, "AUTO_INCREMENT") && WordBoundary(s, i + n)
  {
    if KeywordAt(s, i, "AUTO_INCREMENT") then
      var j := i + 14;
      var k := j + SpaceRun(s, j);
      if k < |s| && s[k] == '=' then
        var d := k + 1 + SpaceRun(s, k + 1);
        var e := d + DigitRun(s, d);
        if e > d && WordBoundary(s, e) then e - i else 0
      else 0
    else 0
  }

  /** `\s+AUTO_INCREMENT\b` at `i`: the length of the match, or 0. */
  function AutoIncrementModifierMatch(s: string, i: nat): (n: nat)
    requires i <= |s|
    ensures i + n <= |s|
    ensures n > 0 ==> n > 14 && IsSpace(s[i]) && MatchesIgnoreCase(s, i + n - 14, "AUTO_INCREMENT")
  {
    if i < |s| && IsSpace(s[i]) then
      var j := i + SpaceRun(s, i);
      if MatchesIgnoreCase(s, j, "AUTO_INCREMENT") && WordBoundary(s, j + 14) then j + 14 - i else 0
    else 0
  }

  /**
    The length of the match of `p` starting at `i` (0 when there is none;
    no pattern matches the empty text).
  */
  function MatchLen(p: Pattern, s: string, i: nat): (n: nat)
    requires i <= |s|
    ensures i + n <= |s|
  {
    match p
    case Word(w) => WordMatch(s, i, w)
    case Parenthesised(w) => ParenthesisedMatch(s, i, w)
    case Width(w) => WidthMatch(s, i, w)
    case AutoIncrementOption => AutoIncrementOptionMatch(s, i)
    case AutoIncrementModifier => AutoIncrementModifierMatch(s, i)
  }

  /** The match lengths of `p` at every position of `s`. */
  function Matches(p: Pattern, s: string): (lens: seq<nat>)
    ensures Fits(lens, s)
    ensures forall k :: 0 <= k < |s| ==> lens[k] == MatchLen(p, s, k)
  {
    seq(|s|, k requires 0 <= k < |s| => MatchLen(p, s, k))
  }

  /** `lens` gives, for every position of `s`, the length of a match that stays inside `s`. */
  predicate Fits(lens: seq<nat>, s: string) {
    |lens| == |s| && forall k :: 0 <= k < |s| ==> k + lens[k] <= |s|
  }

  /**
    `re.sub` from position `i` on, given the match length at each position:
    the leftmost match is replaced and the search resumes after it.
  */
  function Replace(lens: seq<nat>, s: string, repl: string, i: nat): string
    requires Fits(lens, s) && i <= |s|
    decreases |s| - i
  {
    if i == |s| then []
    else if lens[i] > 0 then repl + Replace(lens, s, repl, i + lens[i])
    else [s[i]] + Replace(lens, s, repl, i + 1)
  }

  /** `re.sub(p, repl, s)`. */
  function Sub(p: Pattern, s: string, repl: string): string {
    Replace(Matches(p, s), s, repl, 0)
  }

  /** Text in which nothing matches from `i` on comes out of the replacement unchanged. */
  lemma {:induction false} ReplaceNoMatch(lens: seq<nat>, s: string, repl: string, i: nat)
    requires Fits(lens, s) && i <= |s|
    requires forall k :: i <= k < |s| ==> lens[k] == 0
    ensures Replace(lens, s, repl, i) == s[i..]
    decreases |s| - i
  {
    if i < |s| {
      ReplaceNoMatch(lens, s, repl, i + 1);
      assert s[i..] == [s[i]] + s[i + 1..];
    }
  }

  lemma SubNoMatch(p: Pattern, s: string, repl: string)
    requires forall k :: 0 <= k < |s| ==> MatchLen(p, s, k) == 0
    ensures Sub(p, s, repl) == s
  {
    ReplaceNoMatch(Matches(p, s), s, repl, 0);
  }

  /**
    The leftmost match is the one replaced: text before it is copied, the
    match becomes `repl`, and the search resumes right after it.
  */
  lemma {:induction false} ReplaceFirstMatch(lens: seq<nat>, s: string, repl: string, i: nat, j: nat)
    requires Fits(lens, s) && i <= j < |s|
    requires forall k :: i <= k < j ==> lens[k] == 0
    requires lens[j] > 0
    ensures Replace(lens, s, repl, i) == s[i..j] + repl + Replace(lens, s, repl, j + lens[j])
    decreases j - i
  {
    if i < j {
      ReplaceFirstMatch(lens, s, repl, i + 1, j);
      ReplaceCopies(lens, s, repl, i);
      SliceCons(s, i, j);
    } else {
      assert s[i..j] == [];
    }
  }

  /** From the start of the text: everything before the leftmost match is copied. */
  lemma ReplaceFromStart(lens: seq<nat>, s: string, repl: string, j: nat)
    requires Fits(lens, s) && j < |s| && lens[j] > 0
    requires forall k :: 0 <= k < j ==> lens[k] == 0
    ensures Replace(lens, s, repl, 0) == s[..j] + repl + Replace(lens, s, repl, j + lens[j])
  {
    ReplaceFirstMatch(lens, s, repl, 0, j);
    assert s[0..j] == s[..j];
  }

  /**
    `re.sub` copies the text before the leftmost match of `p`, writes the
    replacement for it, and carries on after it; `lens` are the match
    lengths of `p` in `s`.
  */
  lemma SubFirstMatch(p: Pattern, s: string, repl: string, lens: seq<nat>, j: nat)
    requires lens == Matches(p, s)
    requires j < |s| && lens[j] > 0
    requires forall i :: 0 <= i < j ==> lens[i] == 0
    ensures Sub(p, s, repl) == s[..j] + repl + Replace(lens, s, repl, j + lens[j])
  {
    ReplaceFromStart(lens, s, repl, j);
  }

  /** A position where nothing matches is copied. */
  lemma ReplaceCopies(lens: seq<nat>, s: string, repl: string, i: nat)
    requires Fits(lens, s) && i < |s| && lens[i] == 0
    ensures Replace(lens, s, repl, i) == [s[i]] + Replace(lens, s, repl, i + 1)
  {
  }

  lemma SliceCons(s: string, i: nat, j: nat)
    requires i < j <= |s|
    ensures s[i..j] == [s[i]] + s[i + 1..j]
  {
  }

  /** A character found in neither the text nor the replacement is not in the result. */
  lemma {:induction false} ReplaceAbsent(lens: seq<nat>, s: string, repl: string, i: nat, c: char)
    requires Fits(lens, s) && i <= |s|
    requires forall k :: i <= k < |s| ==> s[k] != c
    requires c !in repl
    ensures c !in Replace(lens, s, repl, i)
    decreases |s| - i
  {
    if i < |s| {
      if lens[i] > 0 {
        ReplaceAbsent(lens, s, repl, i + lens[i], c);
      } else {
        ReplaceAbsent(lens, s, repl, i + 1, c);
      }
    }
  }

  lemma SubAbsent(p: Pattern, s: string, repl: string, c: char)
    requires c !in s && c !in repl
    ensures c !in Sub(p, s, repl)
  {
    ReplaceAbsent(Matches(p, s), s, repl, 0, c);
  }
}
