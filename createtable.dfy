/**
  `convert_create_table` of `old_data/mysql_dump_to_sqlite.py`: backticks
  become double quotes, MySQL types are normalised, `AUTO_INCREMENT` is
  removed, key lines are rewritten one line at a time, the table options
  after the closing parenthesis are cut off and a comma left dangling before
  that parenthesis is removed.
*/
module CreateTable {
  import opened Text
  import opened Wrappers
  import opened Patterns
  import opened Normalize

  /** The length of the run of characters other than `"` starting at `i`. */
  function NameRun(s: string, i: nat): (n: nat)
    requires i <= |s|
    ensures i + n <= |s|
    ensures forall k :: i <= k < i + n ==> s[k] != '"'
    ensures i + n < |s| ==> s[i + n] == '"'
    decreases |s| - i
  {
    if i < |s| && s[i] != '"' then 1 + NameRun(s, i + 1) else 0
  }

  // ---------------------------------------------------------------- key lines

  /**
    `(.+)\)\s*,?$` from position `p` of a line: the greedy group ends at the
    last `)` that is followed only by whitespace and at most one final comma.
  */
  function ColumnsBeforeTail(t: string, p: nat): (r: Option<string>)
    requires p <= |t|
    ensures r.Some? ==> r.value != [] && p + |r.value| <= |t| && r.value == t[p..p + |r.value|]
  {
    var body := if EndsWith(t, ",") then t[..|t| - 1] else t;
    var e := |body| - TrailingSpaces(body);
    if e >= p + 2 && body[e - 1] == ')' then Some(t[p..e - 1]) else None
  }

  /**
    `^KEY\s+"[^"]+"\s*\((.+)\)\s*,?$` on a line, case-blind: the captured
    columns. A line never holds a `\n`, so `.` accepts every character of it.
  */
  function KeyColumns(t: string): (r: Option<string>)
    ensures r.Some? ==> r.value != []
  {
    if !MatchesIgnoreCase(t, 0, "KEY") then None
    else
      var b := 3 + SpaceRun(t, 3);
      if b == 3 || b == |t| || t[b] != '"' then None
      else
        var c := b + 1 + NameRun(t, b + 1);
        if c == b + 1 || c == |t| then None
        else
          var d := c + 1 + SpaceRun(t, c + 1);
          if d == |t| || t[d] != '(' then None
          else ColumnsBeforeTail(t, d + 1)
  }

  /** `^UNIQUE\s+KEY\s+"[^"]+"\s*\((.+)\)\s*,?$` on a line, case-blind: the captured columns. */
  function UniqueColumns(t: string): (r: Option<string>) {
    if MatchesIgnoreCase(t, 0, "UNIQUE") then
      var b := 6 + SpaceRun(t, 6);
      if b > 6 then KeyColumns(t[b..]) else None
    else None
  }

  /** The rewritten `UNIQUE` constraint line. */
  function UniqueLine(cols: string, stripped: string): string {
    "  UNIQUE (" + cols + ")" + (if EndsWith(stripped, ",") then "," else "")
  }

  /** One line of the loop: the line to keep, or None when the line is dropped. */
  function RewriteLine(line: string): Option<string> {
    var stripped := Strip(line);
    match UniqueColumns(stripped)
    case Some(cols) => Some(UniqueLine(cols, stripped))
    case None => if KeyColumns(stripped).Some? then None else Some(line)
  }

  /** One more line through the loop. */
  lemma RewriteKeyLinesSnoc(lines: seq<string>, i: nat)
    requires i < |lines|
    ensures RewriteKeyLines(lines[..i + 1]) ==
      RewriteKeyLines(lines[..i]) + (match RewriteLine(lines[i]) case Some(l) => [l] case None => [])
  {
    assert lines[..i + 1][..i] == lines[..i];
  }

  /** The lines that come out of the loop, in order. */
  function RewriteKeyLines(lines: seq<string>): (out: seq<string>)
    ensures |out| <= |lines|
    decreases |lines|
  {
    if lines == [] then []
    else
      var init := lines[..|lines| - 1];
      var last := lines[|lines| - 1];
      RewriteKeyLines(init) + (match RewriteLine(last) case Some(l) => [l] case None => [])
  }

  /** A `KEY "name" (cols)` line, with or without its trailing comma. */
  function KeyLine(name: string, cols: string, comma: string): string {
    "KEY \"" + name + "\" (" + cols + ")" + comma
  }

  predicate KeyLineParts(name: string, cols: string, comma: string) {
    name != [] && cols != [] && (forall k :: 0 <= k < |name| ==> name[k] != '"') && (comma == "" || comma == ",")
  }

  /** The key pattern captures exactly the column list of a key line. */
  lemma KeyColumnsOfKeyLine(name: string, cols: string, comma: string)
    requires KeyLineParts(name, cols, comma)
    ensures KeyColumns(KeyLine(name, cols, comma)) == Some(cols)
  {
    KeyLineName(name, cols, comma);
    KeyLineTail(name, cols, comma);
    KeyColumnsOfShape(KeyLine(name, cols, comma), |name|, cols);
  }

  /** The key pattern read off a line whose pieces sit at known places. */
  lemma KeyColumnsOfShape(t: string, n: nat, cols: string)
    requires |t| > 8 + n && MatchesIgnoreCase(t, 0, "KEY") && t[4] == '"' && t[5 + n] == '"' && t[7 + n] == '('
    requires SpaceRun(t, 3) == 1 && NameRun(t, 5) == n && SpaceRun(t, 6 + n) == 1 && n > 0
    requires ColumnsBeforeTail(t, 8 + n) == Some(cols)
    ensures KeyColumns(t) == Some(cols)
  {
  }

  /** The head of a key line: `KEY`, a space, the quoted name, a space and `(`. */
  lemma KeyLineName(name: string, cols: string, comma: string)
    requires KeyLineParts(name, cols, comma)
    ensures var t := KeyLine(name, cols, comma); var n := |name|;
      |t| > 8 + n && MatchesIgnoreCase(t, 0, "KEY") && t[4] == '"' && t[5 + n] == '"' && t[7 + n] == '('
      && SpaceRun(t, 3) == 1 && NameRun(t, 5) == n && SpaceRun(t, 6 + n) == 1
  {
    var t := KeyLine(name, cols, comma);
    var n := |name|;
    assert t[..3] == "KEY";
    assert t[3] == ' ' && t[4] == '"';
    forall k | 5 <= k < 5 + n ensures t[k] != '"' {
      assert t[k] == name[k - 5];
    }
    assert t[5 + n] == '"';
    assert t[6 + n] == ' ' && t[7 + n] == '(';
  }

  /** The tail of a key line: the columns, `)` and the optional comma. */
  lemma KeyLineTail(name: string, cols: string, comma: string)
    requires KeyLineParts(name, cols, comma)
    ensures ColumnsBeforeTail(KeyLine(name, cols, comma), 8 + |name|) == Some(cols)
  {
    var head := "KEY \"" + name + "\" (";
    assert KeyLine(name, cols, comma) == head + cols + ")" + comma;
    ColumnsBeforeTailOf(head, cols, comma);
  }

  lemma ColumnsBeforeTailOf(head: string, cols: string, comma: string)
    requires cols != [] && (comma == "" || comma == ",")
    ensures ColumnsBeforeTail(head + cols + ")" + comma, |head|) == Some(cols)
  {
    var u := head + cols + ")";
    ClosedGroup(head, cols);
    var t := u + comma;
    assert t[..|u|] == u;
    assert EndsWith(t, ",") <==> comma == "," by {
      assert t[|t| - 1] == (if comma == "" then ')' else ',');
    }
    assert (if EndsWith(t, ",") then t[..|t| - 1] else t) == u;
    assert t[|head|..|u| - 1] == u[|head|..|u| - 1];
  }

  lemma ClosedGroup(head: string, cols: string)
    requires cols != []
    ensures var u := head + cols + ")";
      TrailingSpaces(u) == 0 && u[|u| - 1] == ')' && u[|head|..|u| - 1] == cols && |u| >= |head| + 2
  {
    var u := head + cols + ")";
    assert u[|u| - 1] == ')';
    assert u[|head|..|u| - 1] == cols;
  }

  /** After `UNIQUE` and a space, the unique pattern is the key pattern. */
  lemma UniqueColumnsOfKey(key: string)
    requires key != [] && !IsSpace(key[0])
    ensures UniqueColumns("UNIQUE " + key) == KeyColumns(key)
  {
    var t := "UNIQUE " + key;
    assert t[7..] == key;
    assert t[..6] == "UNIQUE";
    assert t[6] == ' ' && t[7] == key[0];
    assert SpaceRun(t, 6) == 1;
  }

  /** `RewriteLine` in terms of the line's stripped text. */
  lemma RewriteLineOf(line: string, t: string)
    requires Strip(line) == t
    ensures RewriteLine(line) == match UniqueColumns(t)
      case Some(cols) => Some(UniqueLine(cols, t))
      case None => if KeyColumns(t).Some? then None else Some(line)
  {
  }

  /** A `UNIQUE KEY "name" (cols)` line becomes `  UNIQUE (cols)`, keeping its trailing comma. */
  lemma UniqueKeyLineRewritten(ind: string, name: string, cols: string, comma: string)
    requires AllSpace(ind) && KeyLineParts(name, cols, comma)
    ensures RewriteLine(ind + "UNIQUE " + KeyLine(name, cols, comma)) == Some("  UNIQUE (" + cols + ")" + comma)
  {
    var key := KeyLine(name, cols, comma);
    KeyColumnsOfKeyLine(name, cols, comma);
    assert key[0] == 'K' && key[|key| - 1] == (if comma == "" then ')' else ',');
    IndentedUniqueRewritten(ind, key, cols, comma);
  }

  lemma IndentedUniqueRewritten(ind: string, key: string, cols: string, comma: string)
    requires AllSpace(ind) && KeyColumns(key) == Some(cols) && (comma == "" || comma == ",")
    requires key != [] && key[0] == 'K' && key[|key| - 1] == (if comma == "" then ')' else ',')
    ensures RewriteLine(ind + "UNIQUE " + key) == Some("  UNIQUE (" + cols + ")" + comma)
  {
    var t := "UNIQUE " + key;
    assert ind + "UNIQUE " + key == ind + t;
    assert t[|t| - 1] == key[|key| - 1];
    StripIndented(ind, t);
    UniqueColumnsOfKey(key);
    RewriteUniqueOf(ind + t, t, cols);
    UniqueLineComma(cols, t, comma);
  }

  /** A line whose stripped text matches the unique pattern becomes the `UNIQUE` constraint line. */
  lemma RewriteUniqueOf(line: string, t: string, cols: string)
    requires Strip(line) == t && UniqueColumns(t) == Some(cols)
    ensures RewriteLine(line) == Some(UniqueLine(cols, t))
  {
  }

  /** The constraint line keeps the comma the key line ended with, and adds none. */
  lemma UniqueLineComma(cols: string, t: string, comma: string)
    requires comma == "" || comma == ","
    requires t != [] && t[|t| - 1] == (if comma == "" then ')' else ',')
    ensures UniqueLine(cols, t) == "  UNIQUE (" + cols + ")" + comma
  {
    EndsWithChar(t, ',');
  }

  /** A plain `KEY "name" (cols)` line is dropped. */
  lemma PlainKeyLineDropped(ind: string, name: string, cols: string, comma: string)
    requires AllSpace(ind) && KeyLineParts(name, cols, comma)
    ensures RewriteLine(ind + KeyLine(name, cols, comma)).None?
  {
    var key := KeyLine(name, cols, comma);
    KeyColumnsOfKeyLine(name, cols, comma);
    assert key[0] == 'K' && (key[|key| - 1] == ')' || key[|key| - 1] == ',');
    IndentedKeyDropped(ind, key);
  }

  lemma IndentedKeyDropped(ind: string, key: string)
    requires AllSpace(ind) && KeyColumns(key).Some?
    requires key != [] && key[0] == 'K' && !IsSpace(key[|key| - 1])
    ensures RewriteLine(ind + key).None?
  {
    StripIndented(ind, key);
    NotUnique(key);
    RewriteLineOf(ind + key, key);
  }

  /** A line starting with `K` is no `UNIQUE` line. */
  lemma NotUnique(key: string)
    requires key != [] && key[0] == 'K'
    ensures UniqueColumns(key).None?
  {
    assert UpperChar(key[0]) != UpperChar("UNIQUE"[0]);
  }

  /** A line whose text starts with neither `UNIQUE` nor `KEY`, in any case, is kept as it is. */
  lemma OtherLineKept(line: string)
    requires !MatchesIgnoreCase(Strip(line), 0, "UNIQUE") && !MatchesIgnoreCase(Strip(line), 0, "KEY")
    ensures RewriteLine(line) == Some(line)
  {
  }

  /** The captured columns are a slice of the line, so they hold no character the line does not. */
  lemma KeyColumnsAbsent(t: string, ch: char)
    requires ch !in t
    ensures KeyColumns(t).Some? ==> ch !in KeyColumns(t).value
  {
    if KeyColumns(t).Some? {
      var b := 3 + SpaceRun(t, 3);
      var c := b + 1 + NameRun(t, b + 1);
      var d := c + 1 + SpaceRun(t, c + 1);
      var v := ColumnsBeforeTail(t, d + 1).value;
      SliceAbsent(t, d + 1, d + 1 + |v|, ch);
    }
  }

  lemma UniqueColumnsAbsent(t: string, ch: char)
    requires ch !in t
    ensures UniqueColumns(t).Some? ==> ch !in UniqueColumns(t).value
  {
    if UniqueColumns(t).Some? {
      var b := 6 + SpaceRun(t, 6);
      SliceAbsent(t, b, |t|, ch);
      KeyColumnsAbsent(t[b..], ch);
    }
  }

  /** A character the rewritten `UNIQUE` line adds. */
  predicate UniqueLineChar(ch: char) {
    ch in "  UNIQUE (),"
  }

  lemma BacktickOutsideUniqueLine()
    ensures !UniqueLineChar('`')
  {
  }

  lemma UniqueLineAbsent(cols: string, t: string, ch: char)
    requires ch !in cols && !UniqueLineChar(ch)
    ensures ch !in UniqueLine(cols, t)
  {
  }

  /** A kept or rewritten line holds only characters of the line and of `  UNIQUE (),`. */
  lemma RewriteLineAbsent(line: string, ch: char)
    requires ch !in line && !UniqueLineChar(ch)
    ensures RewriteLine(line).Some? ==> ch !in RewriteLine(line).value
  {
    var t := Strip(line);
    StripIsSlice(line);
    SliceAbsent(line, LeadingSpaces(line), LeadingSpaces(line) + |t|, ch);
    UniqueColumnsAbsent(t, ch);
    match UniqueColumns(t)
    case Some(cols) =>
      UniqueLineAbsent(cols, t, ch);
      RewriteUniqueOf(line, t, cols);
    case None =>
  }

  lemma {:induction false} RewriteKeyLinesAbsent(lines: seq<string>, ch: char)
    requires NoneContains(lines, ch) && !UniqueLineChar(ch)
    ensures NoneContains(RewriteKeyLines(lines), ch)
    decreases |lines|
  {
    if lines != [] {
      var init := lines[..|lines| - 1];
      assert NoneContains(init, ch) by {
        forall k | 0 <= k < |init| ensures ch !in init[k] {
          assert init[k] == lines[k];
        }
      }
      RewriteKeyLinesAbsent(init, ch);
      RewriteLineAbsent(lines[|lines| - 1], ch);
    }
  }

  // ------------------------------------------------------------ table options

  /** `\)\s*(?:ENGINE|TYPE|DEFAULT|AUTO_INCREMENT|CHARSET|COLLATE)\b` at `i`, case-blind. */
  predicate TableOptionAt(s: string, i: nat)
    requires i <= |s|
  {
    i < |s| && s[i] == ')' &&
    var j := i + 1 + SpaceRun(s, i + 1);
    OptionWordAt(s, j, "ENGINE") || OptionWordAt(s, j, "TYPE") || OptionWordAt(s, j, "DEFAULT")
    || OptionWordAt(s, j, "AUTO_INCREMENT") || OptionWordAt(s, j, "CHARSET") || OptionWordAt(s, j, "COLLATE")
  }

  predicate OptionWordAt(s: string, j: nat, w: string)
    requires j <= |s|
  {
    MatchesIgnoreCase(s, j, w) && WordBoundary(s, j + |w|)
  }

  /** The first position at or after `i` where the table-option pattern matches. */
  function FirstTableOption(s: string, i: nat): (r: Option<nat>)
    requires i <= |s|
    ensures r.Some? ==> i <= r.value < |s| && TableOptionAt(s, r.value)
    ensures r.Some? ==> forall k :: i <= k < r.value ==> !TableOptionAt(s, k)
    ensures r.None? ==> forall k :: i <= k <= |s| ==> !TableOptionAt(s, k)
    decreases |s| - i
  {
    if i == |s| then None
    else if TableOptionAt(s, i) then Some(i)
    else FirstTableOption(s, i + 1)
  }

  /** The last position before `i` where the table-option pattern matches. */
  function LastTableOption(s: string, i: nat): (r: Option<nat>)
    requires i <= |s|
    ensures r.Some? ==> r.value < i && TableOptionAt(s, r.value)
    ensures r.Some? ==> forall k :: r.value < k < i ==> !TableOptionAt(s, k)
    ensures r.None? ==> forall k :: 0 <= k < i ==> !TableOptionAt(s, k)
    decreases i
  {
    if i == 0 then None
    else if TableOptionAt(s, i - 1) then Some(i - 1)
    else LastTableOption(s, i - 1)
  }

  /**
    The option strip as written: `.*$` under `re.DOTALL` takes the rest of
    the text, so everything from the FIRST match on becomes `)`.
  */
  function StripTableOptionsAsWritten(s: string): string {
    match FirstTableOption(s, 0)
    case None => s
    case Some(k) => s[..k] + ")"
  }

  /** The option strip as intended: only what follows the last closing parenthesis that starts an option clause. */
  function StripTableOptions(s: string): (r: string)
    ensures LastTableOption(s, |s|).None? ==> r == s
    ensures LastTableOption(s, |s|).Some? ==> r == s[..LastTableOption(s, |s|).value] + ")"
  {
    match LastTableOption(s, |s|)
    case None => s
    case Some(k) => s[..k] + ")"
  }

  /** When the option pattern matches at one position only, the two strips agree. */
  lemma StripTableOptionsAgree(s: string)
    requires forall i, j :: 0 <= i < j < |s| && TableOptionAt(s, i) ==> !TableOptionAt(s, j)
    ensures StripTableOptionsAsWritten(s) == StripTableOptions(s)
  {
    match FirstTableOption(s, 0)
    case None =>
    case Some(i) =>
      assert LastTableOption(s, |s|) == Some(i);
  }

  /** Cutting at the first match adds only `)`. */
  lemma StripTableOptionsAsWrittenAbsent(s: string, ch: char)
    requires ch !in s && ch != ')'
    ensures ch !in StripTableOptionsAsWritten(s)
  {
    match FirstTableOption(s, 0)
    case None =>
    case Some(k) => SliceAbsent(s, 0, k, ch);
  }

  /** Cutting at a match adds only `)`. */
  lemma StripTableOptionsAbsent(s: string, ch: char)
    requires ch !in s && ch != ')'
    ensures ch !in StripTableOptions(s)
  {
    match LastTableOption(s, |s|)
    case None =>
    case Some(k) => SliceAbsent(s, 0, k, ch);
  }

  /** The first match at or after `i` is `j` when no `)` comes before it. */
  lemma {:induction false} FirstTableOptionIs(s: string, i: nat, j: nat)
    requires i <= j < |s| && TableOptionAt(s, j)
    requires forall k :: i <= k < j ==> s[k] != ')'
    ensures FirstTableOption(s, i) == Some(j)
    decreases j - i
  {
    if i < j {
      NoOptionAt(s, i);
      FirstTableOptionIs(s, i + 1, j);
      assert FirstTableOption(s, i) == FirstTableOption(s, i + 1);
    }
  }

  /** The pattern can only match at a `)`. */
  lemma NoOptionAt(s: string, i: nat)
    requires i < |s| && s[i] != ')'
    ensures !TableOptionAt(s, i)
  {
  }

  /** The last match before `i` is `j` when no `)` comes after it. */
  lemma {:induction false} LastTableOptionIs(s: string, i: nat, j: nat)
    requires j < i <= |s| && TableOptionAt(s, j)
    requires forall k :: j < k < i ==> s[k] != ')'
    ensures LastTableOption(s, i) == Some(j)
    decreases i - j
  {
    if j < i - 1 {
      NoOptionAt(s, i - 1);
      LastTableOptionIs(s, i - 1, j);
      assert LastTableOption(s, i) == LastTableOption(s, i - 1);
    }
  }

  /** The option word `w` at the end of `pre`, followed by a non-word character. */
  lemma OptionWordOf(pre: string, w: string, rest: string)
    requires w != [] && IsWordChar(w[|w| - 1])
    requires rest == [] || !IsWordChar(rest[0])
    ensures OptionWordAt(pre + w + rest, |pre|, w)
  {
    var s := pre + w + rest;
    var j := |pre|;
    assert s[j..j + |w|] == w;
    MatchesExactly(s, j, w);
    assert s[j + |w| - 1] == w[|w| - 1];
    if j + |w| < |s| {
      assert s[j + |w|] == rest[0];
    }
  }

  /** `)` then a single space before a non-space character. */
  lemma ParenThenSpace(head: string, u: string)
    requires u != [] && !IsSpace(u[0])
    ensures var s := head + ")" + (" " + u); |head| < |s| && s[|head|] == ')' && SpaceRun(s, |head| + 1) == 1
  {
    var s := head + ")" + (" " + u);
    assert s[|head|] == ')' && s[|head| + 1] == ' ' && s[|head| + 2] == u[0];
  }

  /** `)`, one space and the option word `w`, followed by a non-word character. */
  lemma ParenOption(head: string, w: string, rest: string)
    requires w != [] && !IsSpace(w[0]) && IsWordChar(w[|w| - 1])
    requires rest == [] || !IsWordChar(rest[0])
    ensures var s := head + ")" + (" " + w + rest);
      |head| < |s| && s[|head|] == ')' && SpaceRun(s, |head| + 1) == 1 && OptionWordAt(s, |head| + 2, w)
  {
    ParenThenSpace(head, w + rest);
    OptionWordOf(head + ") ", w, rest);
    OptionShapes(head, w, rest);
  }

  lemma OptionShapes(head: string, w: string, rest: string)
    ensures head + ")" + (" " + (w + rest)) == head + ")" + (" " + w + rest)
    ensures head + ") " + w + rest == head + ")" + (" " + w + rest)
  {
  }

  lemma DefaultClauseAt(head: string, rest: string)
    requires rest == [] || !IsWordChar(rest[0])
    ensures TableOptionAt(head + ")" + (" " + "DEFAULT" + rest), |head|)
  {
    ParenOption(head, "DEFAULT", rest);
  }

  /** The table's own `) ENGINE=InnoDB` matches the table-option pattern. */
  lemma EngineClauseAt(head: string)
    ensures TableOptionAt(head + ")" + " ENGINE=InnoDB", |head|)
  {
    var s := head + ")" + " ENGINE=InnoDB";
    assert s == head + ")" + (" " + "ENGINE" + "=InnoDB");
    ParenOption(head, "ENGINE", "=InnoDB");
    assert OptionWordAt(s, |head| + 1 + SpaceRun(s, |head| + 1), "ENGINE");
  }

  /**
    As written, a column whose default follows a parenthesised type cuts the
    statement there: everything after `varchar(5` becomes `)`.
  */
  lemma StripTableOptionsAsWrittenCutsColumn(a: string, b: string)
    requires ')' !in a && (b == [] || !IsWordChar(b[0]))
    ensures StripTableOptionsAsWritten(a + ")" + (" DEFAULT" + b + ") ENGINE=InnoDB")) == a + ")"
  {
    var rest := b + ") ENGINE=InnoDB";
    var s := a + ")" + (" DEFAULT" + b + ") ENGINE=InnoDB");
    assert " DEFAULT" + rest == " DEFAULT" + b + ") ENGINE=InnoDB";
    assert rest != [] && rest[0] == (if b == [] then ')' else b[0]);
    assert " DEFAULT" + rest == " " + "DEFAULT" + rest;
    DefaultClauseAt(a, rest);
    forall k | 0 <= k < |a| ensures s[k] != ')' {
      assert s[k] == a[k];
    }
    FirstTableOptionIs(s, 0, |a|);
    assert s[..|a|] == a;
  }

  /** The corrected strip keeps everything up to the parenthesis before the last option clause. */
  lemma StripTableOptionsKeepsBody(body: string, opts: string)
    requires ')' !in opts && TableOptionAt(body + ")" + opts, |body|)
    ensures StripTableOptions(body + ")" + opts) == body + ")"
  {
    var s := body + ")" + opts;
    forall k | |body| < k < |s| ensures s[k] != ')' {
      assert s[k] == opts[k - |body| - 1];
    }
    LastTableOptionIs(s, |s|, |body|);
    assert s[..|body|] == body;
  }

  /** On the statement the as-written strip cuts short, the corrected one keeps the column. */
  lemma StripTableOptionsKeepsColumn(a: string, b: string)
    requires ')' !in b
    ensures StripTableOptions(a + ")" + (" DEFAULT" + b + ") ENGINE=InnoDB")) == a + ") DEFAULT" + b + ")"
  {
    var body := a + ") DEFAULT" + b;
    ColumnThenEngine(a, b);
    EngineClauseAt(body);
    StripTableOptionsKeepsBody(body, " ENGINE=InnoDB");
  }

  lemma ColumnThenEngine(a: string, b: string)
    ensures a + ")" + (" DEFAULT" + b + ") ENGINE=InnoDB") == a + ") DEFAULT" + b + ")" + " ENGINE=InnoDB"
  {
  }

  // ---------------------------------------------------------- dangling comma

  /** `,\s*\)\s*$` at `i`. */
  predicate DanglingCommaAt(s: string, i: nat)
    requires i <= |s|
  {
    i < |s| && s[i] == ',' &&
    var j := i + 1 + SpaceRun(s, i + 1);
    j < |s| && s[j] == ')' && j + 1 + SpaceRun(s, j + 1) == |s|
  }

  function FirstDanglingComma(s: string, i: nat): (r: Option<nat>)
    requires i <= |s|
    ensures r.Some? ==> i <= r.value < |s| && DanglingCommaAt(s, r.value)
    ensures r.None? ==> forall k :: i <= k <= |s| ==> !DanglingCommaAt(s, k)
    decreases |s| - i
  {
    if i == |s| then None
    else if DanglingCommaAt(s, i) then Some(i)
    else FirstDanglingComma(s, i + 1)
  }

  /** `re.sub(r",\s*\)\s*$", ")", s)`. */
  function DropDanglingComma(s: string): string {
    match FirstDanglingComma(s, 0)
    case None => s
    case Some(i) => s[..i] + ")"
  }

  predicate HasDanglingComma(s: string) {
    exists i :: 0 <= i < |s| && DanglingCommaAt(s, i)
  }

  /** The text ends with two commas separated only by whitespace, then `)` and whitespace. */
  predicate DoubleDanglingComma(s: string) {
    exists j, i :: 0 <= j < i < |s| && s[j] == ',' && AllSpace(s[j + 1..i]) && DanglingCommaAt(s, i)
  }

  /**
    After the removal no comma is left directly before the final `)`, unless
    the text had two commas there with only whitespace between them.
  */
  lemma DropDanglingCommaLeavesNone(s: string)
    requires !DoubleDanglingComma(s)
    ensures !HasDanglingComma(DropDanglingComma(s))
  {
    LeftDanglingIsDouble(s);
  }

  /** A dangling comma left after the removal was the first of two commas separated by whitespace only. */
  lemma LeftDanglingIsDouble(s: string)
    ensures HasDanglingComma(DropDanglingComma(s)) ==> DoubleDanglingComma(s)
  {
    var r := DropDanglingComma(s);
    match FirstDanglingComma(s, 0)
    case None =>
    case Some(i) =>
      assert r == s[..i] + ")";
      if HasDanglingComma(r) {
        var j :| 0 <= j < |r| && DanglingCommaAt(r, j);
        DanglingBeforeLast(r, j);
        assert s[j] == r[j];
        var gap := s[j + 1..i];
        forall k | 0 <= k < |gap| ensures IsSpace(gap[k]) {
          assert gap[k] == r[j + 1 + k];
        }
        assert 0 <= j < i < |s| && s[j] == ',' && AllSpace(s[j + 1..i]) && DanglingCommaAt(s, i);
      }
  }

  /** In a text that ends with `)`, a dangling comma's `)` is that last character. */
  lemma DanglingBeforeLast(r: string, j: nat)
    requires j < |r| && DanglingCommaAt(r, j) && r[|r| - 1] == ')'
    ensures j + 1 + SpaceRun(r, j + 1) == |r| - 1
    ensures forall k :: j < k < |r| - 1 ==> IsSpace(r[k])
  {
    assert !IsSpace(r[|r| - 1]);
  }

  /** Text without a dangling comma is left alone. */
  lemma DropDanglingCommaNoMatch(s: string)
    requires !HasDanglingComma(s)
    ensures DropDanglingComma(s) == s
  {
  }

  /** Removing the dangling comma adds only `)`. */
  lemma DropDanglingCommaAbsent(s: string, ch: char)
    requires ch !in s && ch != ')'
    ensures ch !in DropDanglingComma(s)
  {
    match FirstDanglingComma(s, 0)
    case None =>
    case Some(k) => SliceAbsent(s, 0, k, ch);
  }

  // ------------------------------------------------------------- the rewrite

  /** The text before the line loop: quotes, types and `AUTO_INCREMENT`. */
  function BeforeLines(stmt: string): string {
    var s1 := ReplaceChar(stmt, '`', '"');
    var s2 := NormalizeTypes(s1);
    var s3 := Sub(AutoIncrementOption, s2, "");
    Sub(AutoIncrementModifier, s3, "")
  }

  /** The text once the line loop has rewritten the key lines and joined them again. */
  function KeyLinesRewritten(stmt: string): string {
    JoinLines(RewriteKeyLines(SplitLines(BeforeLines(stmt))))
  }

  /** The text after the line loop: table options cut at the first match, then the dangling comma. */
  function AfterLines(s: string): string {
    DropDanglingComma(StripTableOptionsAsWritten(s))
  }

  /** `convert_create_table`, with the table-option strip as written. */
  function ConvertCreateTableSpec(stmt: string): string {
    AfterLines(KeyLinesRewritten(stmt))
  }

  /** The same pipeline with the table-option strip corrected to cut at the last match. */
  function ConvertCreateTableCorrected(stmt: string): string {
    DropDanglingComma(StripTableOptions(KeyLinesRewritten(stmt)))
  }

  /** `convert_create_table` step by step, as the source writes it. */
  method ConvertCreateTable(stmt: string) returns (r: string)
    ensures r == ConvertCreateTableSpec(stmt)
  {
    var s := BeforeLines(stmt);
    var lines := SplitLines(s);
    var convertedLines := ConvertLines(lines);
    s := JoinLines(convertedLines);
    s := StripTableOptionsAsWritten(s);
    r := DropDanglingComma(s);
  }

  /** The loop of `convert_create_table` over the lines of the statement. */
  method ConvertLines(lines: seq<string>) returns (convertedLines: seq<string>)
    ensures convertedLines == RewriteKeyLines(lines)
  {
    convertedLines := [];
    var i := 0;
    while i < |lines|
      invariant 0 <= i <= |lines|
      invariant convertedLines == RewriteKeyLines(lines[..i])
    {
      var line := lines[i];
      RewriteKeyLinesSnoc(lines, i);
      var stripped := Strip(line);
      var uniqueMatch := UniqueColumns(stripped);
      if uniqueMatch.Some? {
        convertedLines := convertedLines + [UniqueLine(uniqueMatch.value, stripped)];
      } else if KeyColumns(stripped).Some? {
      } else {
        convertedLines := convertedLines + [line];
      }
      i := i + 1;
    }
    assert lines[..i] == lines;
  }

  /** No backtick is left before the line loop: each becomes `"`, and no replacement writes one. */
  lemma BeforeLinesNoBacktick(stmt: string)
    ensures '`' !in BeforeLines(stmt)
  {
    var s1 := ReplaceChar(stmt, '`', '"');
    NormalizeTypesAbsent(s1, '`');
    var s2 := NormalizeTypes(s1);
    SubAbsent(AutoIncrementOption, s2, "", '`');
    SubAbsent(AutoIncrementModifier, Sub(AutoIncrementOption, s2, ""), "", '`');
  }

  /** No backtick is left once the key lines are rewritten: the UNIQUE line writes none. */
  lemma KeyLinesRewrittenNoBacktick(stmt: string)
    ensures '`' !in KeyLinesRewritten(stmt)
  {
    var lines := SplitLines(BeforeLines(stmt));
    BeforeLinesNoBacktick(stmt);
    SplitLinesAbsent(BeforeLines(stmt), '`');
    BacktickOutsideUniqueLine();
    RewriteKeyLinesAbsent(lines, '`');
    JoinLinesAbsent(RewriteKeyLines(lines), '`');
  }

  /** No backtick is left: each becomes `"`, and no later step writes one. */
  lemma ConvertCreateTableNoBacktick(stmt: string)
    ensures '`' !in ConvertCreateTableSpec(stmt)
  {
    var joined := KeyLinesRewritten(stmt);
    KeyLinesRewrittenNoBacktick(stmt);
    StripTableOptionsAsWrittenAbsent(joined, '`');
    DropDanglingCommaAbsent(StripTableOptionsAsWritten(joined), '`');
  }

  /** The same holds of the corrected pipeline. */
  lemma ConvertCreateTableCorrectedNoBacktick(stmt: string)
    ensures '`' !in ConvertCreateTableCorrected(stmt)
  {
    var joined := KeyLinesRewritten(stmt);
    KeyLinesRewrittenNoBacktick(stmt);
    StripTableOptionsAbsent(joined, '`');
    DropDanglingCommaAbsent(StripTableOptions(joined), '`');
  }
}
