/**
  `convert_statement` and `extract_use_database` of
  `old_data/mysql_dump_to_sqlite.py`: what one split statement becomes in
  SQLite, or None when it is skipped, and the database a `USE` statement
  names.
*/
module Converter {
  import opened Text
  import opened Wrappers
  import opened Patterns
  import opened CreateTable

  /** Statements that have no SQLite counterpart and are skipped. */
  const IgnoredPrefixes: seq<string> := [
    "SET ",
    "LOCK TABLES",
    "UNLOCK TABLES",
    "DELIMITER",
    "START TRANSACTION",
    "COMMIT",
    "ROLLBACK",
    "CREATE DATABASE",
    "DROP DATABASE"
  ]

  /** Python's `s.startswith(prefixes)` for a tuple of prefixes. */
  predicate StartsWithAny(s: string, prefixes: seq<string>) {
    exists p :: p in prefixes && StartsWith(s, p)
  }

  /** `stmt.strip().rstrip(";").strip()`. */
  function Stripped(stmt: string): string {
    Strip(TrimRightChar(Strip(stmt), ';'))
  }

  /** The upper-cased prefixes for which `convert_statement` returns None. */
  predicate SkippedPrefix(upper: string) {
    StartsWith(upper, "/*!") || StartsWithAny(upper, IgnoredPrefixes) || StartsWith(upper, "ALTER TABLE")
  }

  /** `convert_statement`: the statement for SQLite, or None when it is skipped. */
  function ConvertStatement(stmt: string): Option<string> {
    var stripped := Stripped(stmt);
    var upper := Upper(stripped);
    if StartsWith(upper, "/*!") then None
    else if StartsWithAny(upper, IgnoredPrefixes) then None
    else if StartsWith(upper, "USE ") then Some(stripped)
    else if StartsWith(upper, "CREATE TABLE") || StartsWith(upper, "CREATE TEMPORARY TABLE") then
      Some(ConvertCreateTableSpec(stripped))
    else if StartsWith(upper, "INSERT INTO") then Some(ReplaceChar(stripped, '`', '"'))
    else if StartsWith(upper, "DROP TABLE") then Some(ReplaceChar(stripped, '`', '"'))
    else if StartsWith(upper, "ALTER TABLE") then None
    else Some(ReplaceChar(stripped, '`', '"'))
  }

  /** Two prefixes that differ at position `k` cannot both start the same text. */
  lemma PrefixClash(u: string, p: string, q: string, k: nat)
    requires k < |p| && k < |q| && p[k] != q[k] && StartsWith(u, p)
    ensures !StartsWith(u, q)
  {
    assert u[k] == u[..|p|][k];
  }

  /** `ALTER TABLE` starts none of the statements handled before it. */
  lemma AlterTableNotHandled(u: string)
    requires StartsWith(u, "ALTER TABLE")
    ensures !StartsWith(u, "USE ") && !StartsWith(u, "CREATE TABLE") && !StartsWith(u, "CREATE TEMPORARY TABLE")
    ensures !StartsWith(u, "INSERT INTO") && !StartsWith(u, "DROP TABLE")
  {
    PrefixClash(u, "ALTER TABLE", "USE ", 0);
    PrefixClash(u, "ALTER TABLE", "CREATE TABLE", 0);
    PrefixClash(u, "ALTER TABLE", "CREATE TEMPORARY TABLE", 0);
    PrefixClash(u, "ALTER TABLE", "INSERT INTO", 0);
    PrefixClash(u, "ALTER TABLE", "DROP TABLE", 0);
  }

  /** A statement is skipped exactly when its upper-cased text starts with one of the skipped prefixes. */
  lemma ConvertStatementSkips(stmt: string)
    ensures ConvertStatement(stmt).None? <==> SkippedPrefix(Upper(Stripped(stmt)))
  {
    var u := Upper(Stripped(stmt));
    if StartsWith(u, "ALTER TABLE") {
      AlterTableNotHandled(u);
    }
  }

  /** `USE` starts none of the skipped prefixes. */
  lemma UseNotSkipped(u: string)
    requires StartsWith(u, "USE ")
    ensures !SkippedPrefix(u)
  {
    PrefixClash(u, "USE ", "/*!", 0);
    PrefixClash(u, "USE ", "ALTER TABLE", 0);
    forall p | p in IgnoredPrefixes ensures !StartsWith(u, p) {
      if p == "UNLOCK TABLES" {
        PrefixClash(u, "USE ", p, 1);
      } else {
        assert p[0] != 'U';
        PrefixClash(u, "USE ", p, 0);
      }
    }
  }

  /** A `USE` statement is kept as its stripped text, backticks and all. */
  lemma ConvertStatementUse(stmt: string)
    requires StartsWith(Upper(Stripped(stmt)), "USE ")
    ensures ConvertStatement(stmt) == Some(Stripped(stmt))
  {
    UseNotSkipped(Upper(Stripped(stmt)));
  }

  /**
    `INSERT INTO`, `DROP TABLE` and every statement no branch recognises come
    out as the stripped text with each backtick turned into `"`.
  */
  lemma ConvertStatementPassthrough(stmt: string)
    requires var u := Upper(Stripped(stmt));
      !SkippedPrefix(u) && !StartsWith(u, "USE ")
      && !StartsWith(u, "CREATE TABLE") && !StartsWith(u, "CREATE TEMPORARY TABLE")
    ensures ConvertStatement(stmt) == Some(ReplaceChar(Stripped(stmt), '`', '"'))
  {
  }

  /** Apart from a kept `USE` statement, no converted statement holds a backtick. */
  lemma ConvertStatementNoBacktick(stmt: string)
    requires ConvertStatement(stmt).Some? && !StartsWith(Upper(Stripped(stmt)), "USE ")
    ensures '`' !in ConvertStatement(stmt).value
  {
    var stripped := Stripped(stmt);
    var upper := Upper(stripped);
    if StartsWith(upper, "CREATE TABLE") || StartsWith(upper, "CREATE TEMPORARY TABLE") {
      ConvertCreateTableNoBacktick(stripped);
    } else {
      ReplaceCharRemoves(stripped, '`', '"');
    }
  }

  /** Where the stripped statement starts in the statement. */
  function StrippedStart(stmt: string): nat {
    LeadingSpaces(stmt) + LeadingSpaces(TrimRightChar(Strip(stmt), ';'))
  }

  /** `r` is `s[lo..]` cut short, with only whitespace before it and only whitespace after it. */
  predicate SpaceAround(s: string, lo: nat, r: string) {
    lo + |r| <= |s| && r == s[lo..lo + |r|]
    && (forall k :: 0 <= k < lo ==> IsSpace(s[k]))
    && (forall k :: lo + |r| <= k < |s| ==> IsSpace(s[k]))
  }

  lemma StripAround(s: string)
    ensures SpaceAround(s, LeadingSpaces(s), Strip(s))
  {
    StripIsSlice(s);
  }

  /**
    The stripped statement is the slice of the statement at `StrippedStart`,
    with only whitespace before it and only whitespace and `;` after it, and no
    whitespace at either end of its own.
  */
  lemma StrippedSlice(stmt: string)
    ensures StatementSlice(stmt, StrippedStart(stmt), Stripped(stmt))
    ensures var r := Stripped(stmt); |r| > 0 ==> !IsSpace(r[0]) && !IsSpace(r[|r| - 1])
  {
    var t := Strip(stmt);
    var n := TrimRightChar(t, ';');
    StripAround(stmt);
    StripAround(n);
    NestedTrim(stmt, LeadingSpaces(stmt), t, n, LeadingSpaces(n), Strip(n));
  }

  /** `r` is `s[i..]` cut short, with only whitespace before it and only whitespace and `;` after it. */
  predicate StatementSlice(s: string, i: nat, r: string) {
    i + |r| <= |s| && r == s[i..i + |r|]
    && (forall k :: 0 <= k < i ==> IsSpace(s[k]))
    && (forall k :: i + |r| <= k < |s| ==> IsSpace(s[k]) || s[k] == ';')
  }

  /** A strip, then a trim of the right end, then a strip, as one slice of the text. */
  lemma NestedTrim(s: string, lo: nat, t: string, n: string, lo2: nat, r: string)
    requires SpaceAround(s, lo, t) && SpaceAround(n, lo2, r)
    requires |n| <= |t| && n == t[..|n|] && forall k :: |n| <= k < |t| ==> t[k] == ';'
    ensures StatementSlice(s, lo + lo2, r)
  {
    forall k | lo <= k < lo + |t| ensures s[k] == t[k - lo] {
      assert s[k] == s[lo..lo + |t|][k - lo];
    }
    forall k | 0 <= k < |n| ensures t[k] == n[k] {
      assert n[k] == t[..|n|][k];
    }
    forall k | 0 <= k < |r| ensures r[k] == s[lo + lo2 + k] {
      assert r[k] == n[lo2..lo2 + |r|][k] == n[lo2 + k];
    }
  }

  // ------------------------------------------------------------------ USE

  /** A character the database name pattern `[^`";\s]` accepts. */
  predicate IsNameChar(c: char) {
    c != '`' && c != '"' && c != ';' && !IsSpace(c)
  }

  predicate IsQuoteChar(c: char) {
    c == '`' || c == '"'
  }

  /** The length of the run of name characters starting at `i`. */
  function NameCharRun(s: string, i: nat): (n: nat)
    requires i <= |s|
    ensures i + n <= |s|
    ensures forall k :: i <= k < i + n ==> IsNameChar(s[k])
    ensures i + n < |s| ==> !IsNameChar(s[i + n])
    decreases |s| - i
  {
    if i < |s| && IsNameChar(s[i]) then 1 + NameCharRun(s, i + 1) else 0
  }

  /** `\s*;?$`: whitespace, at most one `;`, then the end of the text or a final `\n`. */
  predicate UseTail(t: string) {
    var rest := t[SpaceRun(t, 0)..];
    |rest| == 0 || (rest[0] == ';' && (|rest| == 1 || (|rest| == 2 && rest[1] == '\n')))
  }

  /**
    `re.match(r'^USE\s+[`"]?([^`";\s]+)[`"]?\s*;?$', stmt, re.IGNORECASE)`:
    the captured name, or None. Each repetition is taken to its end; giving
    characters back never lets the rest match.
  */
  function ExtractUseDatabase(stmt: string): (r: Option<string>)
    ensures r.Some? ==> r.value != [] && forall k :: 0 <= k < |r.value| ==> IsNameChar(r.value[k])
  {
    if !MatchesIgnoreCase(stmt, 0, "USE") then None
    else
      var b := 3 + SpaceRun(stmt, 3);
      var q := if b < |stmt| && IsQuoteChar(stmt[b]) then b + 1 else b;
      var e := q + NameCharRun(stmt, q);
      var f := if e < |stmt| && IsQuoteChar(stmt[e]) then e + 1 else e;
      if b > 3 && e > q && UseTail(stmt[f..]) then Some(stmt[q..e]) else None
  }

  predicate ValidName(name: string) {
    name != [] && forall k :: 0 <= k < |name| ==> IsNameChar(name[k])
  }

  /**
    A `USE` statement, in any letter case, naming a database bare or in
    backticks or double quotes, with or without its `;`, yields that name.
  */
  lemma ExtractUseDatabaseOf(kw: string, name: string, quote: string, semicolon: string)
    requires |kw| == 3 && MatchesIgnoreCase(kw, 0, "USE")
    requires ValidName(name) && (quote == "" || quote == "`" || quote == "\"")
    requires semicolon == "" || semicolon == ";"
    ensures ExtractUseDatabase(kw + " " + quote + name + quote + semicolon) == Some(name)
  {
    var head := kw + " " + quote;
    var tail := quote + semicolon;
    var s := kw + " " + quote + name + quote + semicolon;
    UseShapes(kw, quote, name, semicolon);
    UseHead(kw, quote + name + tail, s);
    UseName(head, name, tail, s);
    UseQuotes(kw, quote, name, semicolon, s);
    var e := |head| + |name|;
    ExtractUseDatabaseAt(s, |head|, e, e + |quote|);
  }

  lemma UseShapes(kw: string, quote: string, name: string, semicolon: string)
    ensures kw + " " + quote + name + quote + semicolon == (kw + " " + quote) + name + (quote + semicolon)
    ensures (kw + " " + quote) + name + (quote + semicolon) == kw + " " + (quote + name + (quote + semicolon))
  {
  }

  /** Around the name: the optional opening quote, the optional closing quote and what follows. */
  lemma UseQuotes(kw: string, quote: string, name: string, semicolon: string, s: string)
    requires |kw| == 3 && ValidName(name) && (quote == "" || quote == "`" || quote == "\"")
    requires semicolon == "" || semicolon == ";"
    requires s == (kw + " " + quote) + name + (quote + semicolon)
    ensures var q := 4 + |quote|; var e := q + |name|;
      e <= |s| && q == (if 4 < |s| && IsQuoteChar(s[4]) then 5 else 4) && s[q..e] == name
      && e + |quote| == (if e < |s| && IsQuoteChar(s[e]) then e + 1 else e)
      && UseTail(s[e + |quote|..])
  {
    UseOpening(kw + " ", quote, name, quote + semicolon, s);
    UseClosing((kw + " " + quote) + name, quote, semicolon, s);
  }

  /** The optional opening quote, then the name. */
  lemma UseOpening(head: string, quote: string, name: string, rest: string, s: string)
    requires |head| == 4 && name != [] && (quote == "" || quote == "`" || quote == "\"")
    requires !IsQuoteChar(name[0]) && s == (head + quote) + name + rest
    ensures var q := 4 + |quote|;
      q + |name| <= |s| && q == (if 4 < |s| && IsQuoteChar(s[4]) then 5 else 4) && s[q..q + |name|] == name
  {
    assert s[4..4 + |quote|] == quote;
    assert s[4 + |quote|..4 + |quote| + |name|] == name;
  }

  /** The optional closing quote, then at most a `;`. */
  lemma UseClosing(front: string, quote: string, semicolon: string, s: string)
    requires (quote == "" || quote == "`" || quote == "\"") && (semicolon == "" || semicolon == ";")
    requires s == front + (quote + semicolon)
    ensures var e := |front|;
      e + |quote| == (if e < |s| && IsQuoteChar(s[e]) then e + 1 else e) && UseTail(s[e + |quote|..])
  {
    var e := |front|;
    assert s[e..] == quote + semicolon;
    assert s[e + |quote|..] == semicolon;
    UseTailOf(s[e + |quote|..], semicolon);
  }

  /** The match, once each repetition has been measured. */
  lemma ExtractUseDatabaseAt(s: string, q: nat, e: nat, f: nat)
    requires MatchesIgnoreCase(s, 0, "USE") && 3 < |s| && SpaceRun(s, 3) == 1
    requires q == (if 4 < |s| && IsQuoteChar(s[4]) then 5 else 4)
    requires q < e <= |s| && NameCharRun(s, q) == e - q
    requires f == (if e < |s| && IsQuoteChar(s[e]) then e + 1 else e) && UseTail(s[f..])
    ensures ExtractUseDatabase(s) == Some(s[q..e])
  {
  }

  lemma UseHead(kw: string, rest: string, s: string)
    requires |kw| == 3 && MatchesIgnoreCase(kw, 0, "USE")
    requires rest != [] && !IsSpace(rest[0]) && s == kw + " " + rest
    ensures MatchesIgnoreCase(s, 0, "USE") && SpaceRun(s, 3) == 1
  {
    assert s[3] == ' ' && s[4] == rest[0];
    forall k | 0 <= k < 3 ensures UpperChar(s[k]) == UpperChar("USE"[k]) {
      assert s[k] == kw[k];
    }
  }

  lemma UseName(head: string, name: string, rest: string, s: string)
    requires ValidName(name)
    requires rest == [] || !IsNameChar(rest[0])
    requires s == head + name + rest
    ensures NameCharRun(s, |head|) == |name|
  {
    NameCharRunOf(s, |head|, |head| + |name|);
  }

  lemma {:induction false} NameCharRunOf(s: string, i: nat, j: nat)
    requires i <= j <= |s|
    requires forall k :: i <= k < j ==> IsNameChar(s[k])
    requires j == |s| || !IsNameChar(s[j])
    ensures NameCharRun(s, i) == j - i
    decreases j - i
  {
    if i < j {
      NameCharRunOf(s, i + 1, j);
    }
  }

  lemma UseTailOf(t: string, semicolon: string)
    requires t == semicolon && (semicolon == "" || semicolon == ";")
    ensures UseTail(t)
  {
  }
}
