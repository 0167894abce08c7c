# Legacy data import: a verified Dafny model

This project models the data-import core of a Django application that
manages irrigation turns (`Consorzio`, `Ramo`, `Giro`, `Turno`, `Persona`,
`TurnoProprietario`), and proves properties of the model with Dafny. It
covers three parts of the Python code:

- `old_data/mysql_dump_to_sqlite.py` loads a phpMyAdmin-style MySQL dump into
  SQLite. It drops full-line comments and versioned directives, then splits the
  text into statements, respecting quotes and backslash escapes. Each
  statement is converted to SQLite syntax: backticks become `"`, MySQL types
  are normalised, key lines and table options are rewritten, and some
  statements are skipped. `USE` statements set the active schema, which can
  exclude what follows. The remaining statements run in one transaction that
  is committed, or rolled back on the first error.
- `core/fields.py` holds the `hh:mm` duration widget and form field. The
  widget shows a duration as zero-padded hours and minutes, and the field reads
  such text back or refuses it with a validation error. Text too long for a
  `timedelta` raises `OverflowError` instead.
- `core/management/commands/import_chiamogna.py` is the `import_chiamogna`
  command. It turns the legacy `persona`, `giro` and `ruolo` tables into
  Persona, Ramo, Giro, Turno and TurnoProprietario records, in five loops:
  - type A gets ordine 1, type B ordine 2, and every other type the next
    number from 3 up;
  - a duplicate ordine within a giro is moved to the next free value;
  - rows whose persona, giro key or turno is missing are counted and skipped;
  - an `HH:MM:SS` time that does not parse stops the import with a
    `CommandError`, and one too long for a `timedelta` with an
    `OverflowError`.

Modules, one per file:

- `Wrappers`: Option and Result.
- `Text`: `str.strip`, `rstrip`, `upper`, `replace`, `splitlines`, `"\n".join`,
  `int()` and `f"{n:02d}"`, with Python's exact whitespace and line-boundary
  sets.
- `Sorting`: `sorted()` of a set of strings.
- `Splitter`: `split_sql_statements`.
- `Comments`: `strip_comment_lines`.
- `Patterns`: a matcher for each regular expression of `normalize_types` and
  of the `AUTO_INCREMENT` passes, plus `re.sub`.
- `Normalize`: `normalize_types`.
- `CreateTable`: `convert_create_table`.
- `Converter`: `convert_statement` and `extract_use_database`.
- `Loader`: the `import_dump` loop and transaction.
- `Timedelta`: the range of Python's `timedelta` and the `OverflowError`
  outside it.
- `Duration`: the `core/fields.py` widget and field.
- `Legacy`: `import_chiamogna`.
- `LegacyExample`: the fixture of the command's duplicate-ordine test, worked
  through the model.

Loops in the source are Dafny methods with loop invariants. Each is proved
equal to a reference function of its inputs, and the properties are lemmas
about those functions. The SQLite connection is a class whose `Execute`,
`Commit` and `Rollback` change its committed and pending statements. Whether
SQLite accepts a statement is an oracle, `accepts(history, sql)`: a function
parameter saying if `sql` succeeds after the statements of `history`.

## Behaviour followed where intent and code differ

- A statement starting with `USE ` that `extract_use_database` does not match
  (for example `USE a b`) is not consumed. `convert_statement` keeps it, and
  the loop executes it. Only matched `USE` statements set the schema and count
  as skipped.
- `UNIQUE KEY` and `KEY` lines are recognised line by line. A `CREATE TABLE`
  written on a single line keeps its key clauses.
- The table-option strip (`old_data/mysql_dump_to_sqlite.py`:161-166) cuts
  at the leftmost match, and the whole conversion follows it:
  `CreateTable.ConvertCreateTable`, `Converter.ConvertStatement` and
  `Loader.ImportDump` model that code. A column such as `varchar(5) DEFAULT
  NULL` therefore truncates the statement; see Findings.
- The dangling-comma pass removes one `,` before the final `)`. When the text
  ends with two commas separated only by whitespace, one of them is left.
  `CreateTable.DropDanglingCommaLeavesNone` states its property with that
  exception.

## Model

| member | source | states |
|---|---|---|
| Text.Strip | old_data/mysql_dump_to_sqlite.py:80 | `str.strip()`: the result is no longer than the text, is empty exactly when the text is all whitespace, and otherwise starts and ends with a non-whitespace character |
| Text.StripIsSlice | old_data/mysql_dump_to_sqlite.py:80 | `strip()` keeps exactly the text between the leading and the trailing whitespace, and what it drops at the end is whitespace |
| Text.StripTrimmed | old_data/mysql_dump_to_sqlite.py:96 | text with no whitespace at either end is its own `strip()` |
| Text.StripIndented | old_data/mysql_dump_to_sqlite.py:143 | whitespace indentation in front of such text is all that `strip()` removes |
| Text.TrimRightChar | old_data/mysql_dump_to_sqlite.py:173 | `rstrip(";")`: the result is a prefix of the text, everything dropped is `;`, and the result does not end with `;` |
| Text.UpperStartsWith | old_data/mysql_dump_to_sqlite.py:174-176 | `upper().startswith(p)` for an upper-case prefix `p` holds exactly when the text starts with `p` compared without regard to case |
| Text.ReplaceChar | old_data/mysql_dump_to_sqlite.py:133 | `replace("`", '"')`: same length; every occurrence of the old character becomes the new one, every other character is kept |
| Text.ReplaceCharRemoves | old_data/mysql_dump_to_sqlite.py:133 | after the replacement no backtick is left |
| Text.SplitLinesNoBreak | old_data/mysql_dump_to_sqlite.py:95 | no line produced by `splitlines()` contains a line boundary |
| Text.JoinSplitLines | old_data/mysql_dump_to_sqlite.py:107 | `"\n".join(s.splitlines()) == s` for text whose only line boundary is `\n` and which does not end with one |
| Text.SplitLinesAbsent | old_data/mysql_dump_to_sqlite.py:139 | a character the text does not contain appears in none of its lines |
| Text.JoinLinesAbsent | old_data/mysql_dump_to_sqlite.py:157 | joining lines adds only `\n` |
| Text.DecimalRoundTrip | core/management/commands/import_chiamogna.py:25-27 | `int(str(n)) == n` for a natural number |
| Text.DecimalValueLeadingZero | core/fields.py:48-49 | `int()` ignores leading zeros |
| Text.Pad2Reads | core/fields.py:25 | `f"{n:02d}"` of a natural number is at least two digits that `int()` reads back as `n` |
| Text.Pad2Below60 | core/fields.py:25 | a number below 60 pads to exactly two digits, the first at most 5, so it fits the `[0-5]?\d` minutes group |
| Text.LeadingDigits | core/fields.py:40 | the greedy `\d+` run at the start of the text: all digits, and followed by a non-digit or the end |
| Text.LeadingSpaces | old_data/mysql_dump_to_sqlite.py:80 | the whitespace run `strip()` removes at the start |
| Text.TrailingSpaces | old_data/mysql_dump_to_sqlite.py:80 | the whitespace run `strip()` removes at the end |
| Text.Upper | old_data/mysql_dump_to_sqlite.py:174 | `upper()` keeps the length |
| Text.SplitLines | old_data/mysql_dump_to_sqlite.py:95 | `splitlines()` gives no line exactly for the empty text |
| Text.Decimal | core/fields.py:25 | `str(n)`: digits only, one digit exactly below ten, no leading zero except for 0 itself |
| Sorting.LeastExists | core/management/commands/import_chiamogna.py:113 | a non-empty set of strings has a least element |
| Sorting.LeastUnique | core/management/commands/import_chiamogna.py:113 | it has only one |
| Sorting.SortedFirst | core/management/commands/import_chiamogna.py:113 | the first element of a sorted set comes before every other element |
| Splitter.Chunks | old_data/mysql_dump_to_sqlite.py:41-87 | the reference scan: the raw pieces the loop builds, at least one (the leftover) |
| Splitter.Statements | old_data/mysql_dump_to_sqlite.py:80-87 | at most one statement per piece |
| Splitter.CutStep | old_data/mysql_dump_to_sqlite.py:79-83 | a statement-ending `;` emits the statement read so far and starts a new one |
| Splitter.Step | old_data/mysql_dump_to_sqlite.py:44-77 | one character of the scan: a pending escape is consumed; a backslash sets it; inside a quoted region only its own quote character returns to normal mode; in normal mode a quote character enters its quoted mode |
| Splitter.Split | old_data/mysql_dump_to_sqlite.py:31-89 | `split_sql_statements`: the pieces of the reference scan, leftover included, each stripped, the empty ones dropped |
| Comments.KeptLines | old_data/mysql_dump_to_sqlite.py:95-106 | the kept lines are never more than the lines |
| Comments.IsCommentLine | old_data/mysql_dump_to_sqlite.py:96-105 | a line is dropped when its stripped text is non-empty and starts with `--` or `#`, or starts with `/*!` and ends with `*/;` |
| Comments.StripComments | old_data/mysql_dump_to_sqlite.py:92-107 | `strip_comment_lines`: the lines of the text, comment lines dropped, joined with `\n` |
| Legacy.TempiOf | core/management/commands/import_chiamogna.py:216-219 | one time reading per ruolo row |
| Sorting.SortSet | core/management/commands/import_chiamogna.py:113 | `sorted()` of a set of strings: strictly increasing, and holding exactly the elements of the set |
| Sorting.SortedUnique | core/management/commands/import_chiamogna.py:113 | there is only one strictly increasing sequence of a given set of strings, so `sorted()` is determined by the set |
| Sorting.BelowIrreflexive | core/management/commands/import_chiamogna.py:113 | Python string `<` is irreflexive |
| Sorting.BelowTransitive | core/management/commands/import_chiamogna.py:113 | Python string `<` is transitive |
| Sorting.BelowTotal | core/management/commands/import_chiamogna.py:113 | two different strings are ordered one way or the other |
| Sorting.SortedDistinct | core/management/commands/import_chiamogna.py:113 | a sorted set has no element twice |
| Splitter.SplitSqlStatements | old_data/mysql_dump_to_sqlite.py:31-89 | the character loop, with its quote and escape flags, returns exactly the reference scan `Split` of the text |
| Splitter.ChunksPartition | old_data/mysql_dump_to_sqlite.py:41-87 | the scan cuts the text into pieces that concatenate back to the text; each piece but the last ends at the one statement-ending `;` it contains and the last contains none; the statements are those pieces, stripped, with empty ones dropped |
| Splitter.ChunksShape | old_data/mysql_dump_to_sqlite.py:41-83 | from any point of the scan, the pieces still to come cut the rest of the text as above |
| Splitter.SplitStatementsTrimmed | old_data/mysql_dump_to_sqlite.py:80-87 | every returned statement is non-empty and has no whitespace at either end |
| Splitter.SplitStatementsEndWithSemicolon | old_data/mysql_dump_to_sqlite.py:79-87 | every returned statement except possibly the last ends with `;` |
| Splitter.Emit | old_data/mysql_dump_to_sqlite.py:80-82 | a piece yields at most one statement, trimmed, and none exactly when the piece is all whitespace |
| Splitter.StatementsTrimmed | old_data/mysql_dump_to_sqlite.py:80-87 | every statement emitted from any sequence of pieces is trimmed and non-empty |
| Splitter.StatementsSemicolons | old_data/mysql_dump_to_sqlite.py:79-87 | when every piece but the last ends with `;`, so does every statement but the last |
| Splitter.EmitKeepsSemicolon | old_data/mysql_dump_to_sqlite.py:80-82 | a piece ending with `;` yields one statement, which also ends with `;` |
| Splitter.InertRegion | old_data/mysql_dump_to_sqlite.py:44-65 | ordinary characters and backslash-escaped pairs never end a statement and leave the quote mode unchanged |
| Splitter.EscapedPair | old_data/mysql_dump_to_sqlite.py:44-50 | a backslash and the character after it never end a statement |
| Splitter.OrdinaryChar | old_data/mysql_dump_to_sqlite.py:52-77 | a character that neither closes the current quote nor is a top-level `;` or quote only joins the statement |
| Splitter.OrdinaryIsInert | old_data/mysql_dump_to_sqlite.py:52-77 | text made of such characters is inert |
| Splitter.QuotedRegion | old_data/mysql_dump_to_sqlite.py:52-77 | a single-, double- or backtick-quoted region returns the scan to normal mode, and no `;` or other quote character inside it cuts the statement |
| Splitter.PlainThenQuoted | old_data/mysql_dump_to_sqlite.py:41-77 | plain text followed by a quoted region joins the current statement as a whole |
| Splitter.TwoQuotedValuesChunks | old_data/mysql_dump_to_sqlite.py:41-83 | text with a single-quoted and a double-quoted value and one final `;` is one piece |
| Splitter.TwoQuotedValuesOneStatement | old_data/mysql_dump_to_sqlite.py:31-89 | such text splits into exactly one statement, whatever `;` the quoted values contain |
| Splitter.QuotedSemicolonsExample | old_data/mysql_dump_to_sqlite.py:31-89 | `INSERT INTO t VALUES ('a;b', "c;d");` splits into exactly that one statement |
| Comments.StripCommentLines | old_data/mysql_dump_to_sqlite.py:92-107 | the loop over the lines returns exactly the reference `StripComments` of the text |
| Comments.KeptLinesMembers | old_data/mysql_dump_to_sqlite.py:95-106 | no kept line is a comment line (`--`, `#` or a `/*!...*/;` directive after stripping), every kept line comes from the input, and no non-comment line is lost |
| Comments.KeptLinesAppend | old_data/mysql_dump_to_sqlite.py:95-106 | the pass is line by line, so lines keep their order |
| Comments.BlankLineKept | old_data/mysql_dump_to_sqlite.py:97-99 | an empty or whitespace-only line is never dropped |
| Comments.KeptLine | old_data/mysql_dump_to_sqlite.py:96-106 | a single line is dropped exactly when it is a comment line |
| Comments.KeptAllLines | old_data/mysql_dump_to_sqlite.py:95-106 | a list of lines with no comment line is kept whole |
| Comments.NoCommentLinesUnchanged | old_data/mysql_dump_to_sqlite.py:92-107 | text with no comment line, `\n` line ends only and no final `\n` comes out unchanged |
| Patterns.SpaceRun | old_data/mysql_dump_to_sqlite.py:118 | `\s*` at a position: the greedy whitespace run |
| Patterns.DigitRun | old_data/mysql_dump_to_sqlite.py:118 | `\d+` at a position: the greedy digit run |
| Patterns.InnerParen | old_data/mysql_dump_to_sqlite.py:115-116 | a nested parenthesis inside that list, holding no parenthesis: a match ends at a `)` |
| Patterns.ParenGroup | old_data/mysql_dump_to_sqlite.py:115-116 | the parenthesised list of `enum(...)` and `set(...)`, one level of nested parentheses allowed: a match ends at a `)` |
| Patterns.WidthFrom | old_data/mysql_dump_to_sqlite.py:118-123 | `\s*\(\s*\d+\s*\)`: a match ends at a `)` |
| Patterns.WordMatch | old_data/mysql_dump_to_sqlite.py:112-113 | `\bunsigned\b`, `\bzerofill\b`, `\bdouble\b`, `\bfloat\b`: a match is the word, case-blind, between two word boundaries |
| Patterns.ParenthesisedMatch | old_data/mysql_dump_to_sqlite.py:115-116 | `\benum\s*(...)` and `\bset\s*(...)`: a match starts with the keyword and ends at a `)` |
| Patterns.WidthMatch | old_data/mysql_dump_to_sqlite.py:118-123 | the integer widths `\bint\s*\(\s*\d+\s*\)` and the like: a match starts with the keyword and ends at a `)` |
| Patterns.AutoIncrementOptionMatch | old_data/mysql_dump_to_sqlite.py:136 | `\bAUTO_INCREMENT\s*=\s*\d+\b`: a match starts with the keyword and ends at a word boundary |
| Patterns.AutoIncrementModifierMatch | old_data/mysql_dump_to_sqlite.py:137 | `\s+AUTO_INCREMENT\b`: a match is whitespace followed by the keyword |
| Patterns.MatchLen | old_data/mysql_dump_to_sqlite.py:112-137 | the match of any of the patterns stays inside the text |
| Patterns.Matches | old_data/mysql_dump_to_sqlite.py:112-137 | the table of match lengths at every position of the text |
| Patterns.Replace | old_data/mysql_dump_to_sqlite.py:112-137 | `re.sub` from a position on: at a match the replacement is written and the scan resumes after the match; elsewhere the character is copied |
| Patterns.Sub | old_data/mysql_dump_to_sqlite.py:112-137 | `re.sub(pattern, repl, s)`: that replacement over the table of match lengths of the whole text, from its start |
| Patterns.ReplaceFirstMatch | old_data/mysql_dump_to_sqlite.py:112-137 | `re.sub` replaces the leftmost match, copies the text before it, and resumes scanning after the match |
| Patterns.SubFirstMatch | old_data/mysql_dump_to_sqlite.py:112-137 | `re.sub(pattern, repl, s)` keeps the text before the leftmost match of the pattern, writes `repl` for that match, and goes on scanning right after it |
| Patterns.ReplaceNoMatch | old_data/mysql_dump_to_sqlite.py:112-137 | where nothing matches the text is copied unchanged |
| Patterns.SubNoMatch | old_data/mysql_dump_to_sqlite.py:112-137 | `re.sub` with no match anywhere returns the text unchanged |
| Patterns.ReplaceAbsent | old_data/mysql_dump_to_sqlite.py:112-137 | a character in neither the text nor the replacement is not in the result |
| Patterns.SubAbsent | old_data/mysql_dump_to_sqlite.py:112-137 | the same for `re.sub` as a whole |
| Normalize.ApplyPassesAbsent | old_data/mysql_dump_to_sqlite.py:110-128 | running the passes in turn adds no character that neither the text nor any replacement contains |
| Normalize.NormalizeTypesAbsent | old_data/mysql_dump_to_sqlite.py:110-128 | `normalize_types` adds no character outside `TEXT`, `INTEGER` and `REAL`, so it never brings a backtick back |
| Normalize.ApplyPassesNoMatch | old_data/mysql_dump_to_sqlite.py:110-128 | passes that match nowhere leave the text unchanged |
| Normalize.NormalizeTypesNoMatch | old_data/mysql_dump_to_sqlite.py:110-128 | a statement with no MySQL type spelling in it comes out of `normalize_types` unchanged |
| Normalize.ApplyPasses | old_data/mysql_dump_to_sqlite.py:112-126 | the passes applied in turn, each to the result of the one before |
| Normalize.NormalizeTypes | old_data/mysql_dump_to_sqlite.py:110-128 | `normalize_types`: the twelve passes in the source's order: `unsigned` and `zerofill` removed, `enum(...)` and `set(...)` to `TEXT`, six integer widths to `INTEGER`, `double` and `float` to `REAL` |
| Normalize.ApplyPassesOne | old_data/mysql_dump_to_sqlite.py:112-126 | when no earlier pass matches the text and no later pass matches what pass `k` leaves, the passes together do what pass `k` does |
| Normalize.ApplyPassesReplaces | old_data/mysql_dump_to_sqlite.py:112-126 | then the text before the leftmost match of pass `k` is kept and that match becomes the pass's replacement |
| Normalize.NormalizeTypesReplaces | old_data/mysql_dump_to_sqlite.py:110-128 | the leftmost MySQL spelling of a pass (`int(11)`, `enum('a','b')`, `double`, ...) becomes its SQLite type, and the text before it is kept, when no earlier pass matches the statement and no later pass matches the result |
| CreateTable.ConvertCreateTable | old_data/mysql_dump_to_sqlite.py:131-169 | the conversion, step by step and with the table-option strip as written, returns `ConvertCreateTableSpec` of the statement |
| CreateTable.ConvertLines | old_data/mysql_dump_to_sqlite.py:139-155 | the loop over the lines returns exactly the reference `RewriteKeyLines` of the lines |
| CreateTable.RewriteKeyLines | old_data/mysql_dump_to_sqlite.py:139-155 | the loop never adds a line |
| CreateTable.RewriteKeyLinesSnoc | old_data/mysql_dump_to_sqlite.py:142-155 | each line is handled on its own and in order |
| CreateTable.ConvertCreateTableNoBacktick | old_data/mysql_dump_to_sqlite.py:131-169 | no backtick is left in what `convert_create_table` returns |
| CreateTable.ConvertCreateTableSpec | old_data/mysql_dump_to_sqlite.py:131-169 | `convert_create_table` as written: `BeforeLines`, the line loop, then `AfterLines` |
| CreateTable.BeforeLines | old_data/mysql_dump_to_sqlite.py:133-137 | backticks replaced by `"`, then `normalize_types`, then the two `AUTO_INCREMENT` removals |
| CreateTable.KeyLinesRewritten | old_data/mysql_dump_to_sqlite.py:133-157 | that text split into lines, rewritten line by line, and joined with `\n` |
| CreateTable.KeyLinesRewrittenNoBacktick | old_data/mysql_dump_to_sqlite.py:133-157 | no backtick is left there |
| CreateTable.AfterLines | old_data/mysql_dump_to_sqlite.py:159-168 | the table-option strip as written (leftmost match), then the dangling-comma removal |
| CreateTable.ConvertCreateTableCorrected | old_data/mysql_dump_to_sqlite.py:131-169 | the same pipeline with the corrected table-option strip of the Findings |
| CreateTable.ConvertCreateTableCorrectedNoBacktick | old_data/mysql_dump_to_sqlite.py:131-169 | no backtick is left by the corrected pipeline either |
| CreateTable.UniqueColumns | old_data/mysql_dump_to_sqlite.py:145 | `^UNIQUE\s+KEY\s+"[^"]+"\s*\((.+)\)\s*,?$`, case-blind: the captured columns, or None |
| CreateTable.UniqueLine | old_data/mysql_dump_to_sqlite.py:147-148 | `f"  UNIQUE ({cols}){suffix}"`, the suffix the comma the stripped line ends with |
| CreateTable.RewriteLine | old_data/mysql_dump_to_sqlite.py:142-155 | one line of the loop: the `UNIQUE` line for a unique-key match, dropped for a plain key match, otherwise kept as it is |
| CreateTable.BeforeLinesNoBacktick | old_data/mysql_dump_to_sqlite.py:133-137 | no backtick is left after the quoting, type and `AUTO_INCREMENT` passes |
| CreateTable.RewriteKeyLinesAbsent | old_data/mysql_dump_to_sqlite.py:142-157 | the line loop adds no character outside `  UNIQUE (),` |
| CreateTable.RewriteLineAbsent | old_data/mysql_dump_to_sqlite.py:145-155 | one rewritten or kept line holds only characters of the line and of `  UNIQUE (),` |
| CreateTable.UniqueLineAbsent | old_data/mysql_dump_to_sqlite.py:148 | the `UNIQUE` line holds only the columns and its own characters |
| CreateTable.BacktickOutsideUniqueLine | old_data/mysql_dump_to_sqlite.py:148 | the `UNIQUE` line adds no backtick |
| CreateTable.UniqueKeyLineRewritten | old_data/mysql_dump_to_sqlite.py:145-149 | an indented `UNIQUE KEY "name" (cols)` line becomes `  UNIQUE (cols)` and keeps its trailing comma |
| CreateTable.IndentedUniqueRewritten | old_data/mysql_dump_to_sqlite.py:145-149 | the same for any key text the key pattern accepts |
| CreateTable.RewriteUniqueOf | old_data/mysql_dump_to_sqlite.py:145-149 | a line whose stripped text matches the unique pattern becomes the `UNIQUE` line |
| CreateTable.UniqueLineComma | old_data/mysql_dump_to_sqlite.py:147-148 | the `UNIQUE` line keeps the comma the key line ended with and adds none |
| CreateTable.PlainKeyLineDropped | old_data/mysql_dump_to_sqlite.py:151-153 | an indented plain `KEY "name" (cols)` line is dropped |
| CreateTable.IndentedKeyDropped | old_data/mysql_dump_to_sqlite.py:151-153 | the same for any key text the key pattern accepts |
| CreateTable.NotUnique | old_data/mysql_dump_to_sqlite.py:145 | a line starting with `K` does not match the unique pattern |
| CreateTable.OtherLineKept | old_data/mysql_dump_to_sqlite.py:155 | a line whose stripped text starts with neither `UNIQUE` nor `KEY` in any case is kept unchanged |
| CreateTable.RewriteLineOf | old_data/mysql_dump_to_sqlite.py:143-155 | what happens to a line depends only on its stripped text: unique match, key match, or kept |
| CreateTable.KeyColumnsOfKeyLine | old_data/mysql_dump_to_sqlite.py:151 | the key pattern captures exactly the column list of a `KEY "name" (cols)` line, with or without its comma |
| CreateTable.KeyColumnsOfShape | old_data/mysql_dump_to_sqlite.py:151 | the key pattern, read off a line whose pieces sit at known places |
| CreateTable.KeyColumns | old_data/mysql_dump_to_sqlite.py:151 | a captured column list is never empty |
| CreateTable.UniqueColumnsOfKey | old_data/mysql_dump_to_sqlite.py:145 | after `UNIQUE` and a space the unique pattern is the key pattern |
| CreateTable.ColumnsBeforeTail | old_data/mysql_dump_to_sqlite.py:145 | `(.+)\)\s*,?$`: the captured group is a non-empty slice of the line |
| CreateTable.ColumnsBeforeTailOf | old_data/mysql_dump_to_sqlite.py:145 | on `cols)` with an optional comma the group captures exactly `cols`, backtracking to the last `)` |
| CreateTable.KeyColumnsAbsent | old_data/mysql_dump_to_sqlite.py:151 | the captured columns hold no character the line does not |
| CreateTable.UniqueColumnsAbsent | old_data/mysql_dump_to_sqlite.py:145 | the same for the unique pattern |
| CreateTable.NameRun | old_data/mysql_dump_to_sqlite.py:145 | `[^"]+`: the run of characters other than `"` |
| CreateTable.FirstTableOption | old_data/mysql_dump_to_sqlite.py:161-166 | the leftmost position where the table-option pattern matches, with none before it |
| CreateTable.FirstTableOptionIs | old_data/mysql_dump_to_sqlite.py:161-166 | with no `)` between the start and a match, that match is the leftmost |
| CreateTable.LastTableOption | old_data/mysql_dump_to_sqlite.py:161-166 | the rightmost position where the table-option pattern matches, with none after it |
| CreateTable.LastTableOptionIs | old_data/mysql_dump_to_sqlite.py:161-166 | with no `)` after a match, that match is the rightmost |
| CreateTable.NoOptionAt | old_data/mysql_dump_to_sqlite.py:162 | the table-option pattern can only match at a `)` |
| CreateTable.OptionWordOf | old_data/mysql_dump_to_sqlite.py:162 | an option keyword followed by a non-word character satisfies the `\b` after it |
| CreateTable.ParenThenSpace | old_data/mysql_dump_to_sqlite.py:162 | `)` then one space before a non-space: `\s*` takes exactly that space |
| CreateTable.ParenOption | old_data/mysql_dump_to_sqlite.py:162 | `)`, a space and an option keyword match the pattern |
| CreateTable.DefaultClauseAt | old_data/mysql_dump_to_sqlite.py:162 | `) DEFAULT` followed by a non-word character matches the table-option pattern |
| CreateTable.EngineClauseAt | old_data/mysql_dump_to_sqlite.py:160-162 | the table's own `) ENGINE=InnoDB` matches the table-option pattern |
| CreateTable.StripTableOptions | old_data/mysql_dump_to_sqlite.py:159-166 | corrected strip: the text is cut after the `)` of the last option clause and closed with `)`, and left alone when there is none |
| CreateTable.StripTableOptionsAbsent | old_data/mysql_dump_to_sqlite.py:159-166 | the corrected strip adds no character except `)` |
| CreateTable.StripTableOptionsKeepsBody | old_data/mysql_dump_to_sqlite.py:159-166 | with no `)` in the options, the corrected strip keeps the whole table body |
| CreateTable.StripTableOptionsKeepsColumn | old_data/mysql_dump_to_sqlite.py:159-166 | on a statement with a `) DEFAULT` column the corrected strip keeps the column and drops only `ENGINE=InnoDB` |
| CreateTable.StripTableOptionsAsWrittenCutsColumn | old_data/mysql_dump_to_sqlite.py:161-166 | as written, the same statement is cut at the column's `) DEFAULT`, losing the rest of the table |
| CreateTable.StripTableOptionsAsWritten | old_data/mysql_dump_to_sqlite.py:161-166 | the `re.sub` as written: everything from the leftmost option match on becomes `)` |
| CreateTable.StripTableOptionsAsWrittenAbsent | old_data/mysql_dump_to_sqlite.py:161-166 | the strip as written adds no character except `)` |
| CreateTable.StripTableOptionsAgree | old_data/mysql_dump_to_sqlite.py:161-166 | when the option pattern matches at one position only, the strip as written and the corrected one agree |
| CreateTable.FirstDanglingComma | old_data/mysql_dump_to_sqlite.py:168 | the leftmost position where `,\s*\)\s*$` matches, or none anywhere |
| CreateTable.DropDanglingCommaLeavesNone | old_data/mysql_dump_to_sqlite.py:168 | after the pass no `,` is left before the final `)` (unless two commas were separated by whitespace only) |
| CreateTable.DropDanglingCommaNoMatch | old_data/mysql_dump_to_sqlite.py:168 | text without a dangling comma is left alone |
| CreateTable.DropDanglingCommaAbsent | old_data/mysql_dump_to_sqlite.py:168 | the pass adds no character except `)` |
| CreateTable.DropDanglingComma | old_data/mysql_dump_to_sqlite.py:168 | `re.sub(r",\s*\)\s*$", ")", s)`: from the leftmost dangling comma on, the text becomes `)` |
| Converter.ConvertStatementSkips | old_data/mysql_dump_to_sqlite.py:172-195 | the statement is skipped (None) exactly when its stripped upper-case text starts with `/*!`, an ignored prefix or `ALTER TABLE` |
| Converter.ConvertStatementUse | old_data/mysql_dump_to_sqlite.py:182-183 | a `USE ` statement is returned as its stripped text, backticks and all |
| Converter.ConvertStatementPassthrough | old_data/mysql_dump_to_sqlite.py:188-197 | a statement that is not skipped, not `USE` and not `CREATE TABLE` comes back stripped with each backtick made `"` |
| Converter.ConvertStatementNoBacktick | old_data/mysql_dump_to_sqlite.py:185-197 | apart from a kept `USE`, no converted statement holds a backtick (the `CREATE TABLE` branch as written) |
| Converter.ConvertStatement | old_data/mysql_dump_to_sqlite.py:172-197 | `convert_statement`: None for `/*!`, an ignored prefix or `ALTER TABLE`; the stripped text for `USE `; `convert_create_table` of it for `CREATE TABLE` and `CREATE TEMPORARY TABLE`; otherwise the stripped text with backticks made `"` |
| Converter.Stripped | old_data/mysql_dump_to_sqlite.py:173 | `stmt.strip().rstrip(";").strip()` |
| Converter.UseNotSkipped | old_data/mysql_dump_to_sqlite.py:176-183 | a `USE ` statement matches no skipped prefix |
| Converter.AlterTableNotHandled | old_data/mysql_dump_to_sqlite.py:182-195 | `ALTER TABLE` starts none of the statements handled before it, so it reaches the `None` branch |
| Converter.PrefixClash | old_data/mysql_dump_to_sqlite.py:179-195 | two prefixes that differ at one position cannot start the same text |
| Converter.StrippedSlice | old_data/mysql_dump_to_sqlite.py:173 | `strip().rstrip(";").strip()` is a slice of the statement with only whitespace before it and only whitespace and `;` after it, and it has no whitespace at either end |
| Converter.NestedTrim | old_data/mysql_dump_to_sqlite.py:173 | a strip, a right trim of `;` and a strip compose into one such slice |
| Converter.StripAround | old_data/mysql_dump_to_sqlite.py:173 | `strip()` is a slice with only whitespace on either side |
| Converter.NameCharRun | old_data/mysql_dump_to_sqlite.py:201 | `[^`";\s]+`: the greedy run of name characters |
| Converter.ExtractUseDatabase | old_data/mysql_dump_to_sqlite.py:200-202 | a matched name is non-empty and holds no backtick, quote, `;` or whitespace |
| Converter.ExtractUseDatabaseOf | old_data/mysql_dump_to_sqlite.py:200-202 | `USE` in any case, a space, an optional backtick or quote, a valid name, the same quote and an optional `;` yields that name |
| Converter.ExtractUseDatabaseAt | old_data/mysql_dump_to_sqlite.py:201 | the match, once each repetition of the pattern has been measured |
| Loader.ReadAll | old_data/mysql_dump_to_sqlite.py:226-233 | one reading per statement |
| Loader.ReadAllAt | old_data/mysql_dump_to_sqlite.py:226-233 | reading `i` is what the two calls of the loop body give for statement `i` |
| Loader.ReadAllReads | old_data/mysql_dump_to_sqlite.py:226-233 | the readings of the whole list are those of each statement |
| Loader.RunSkips | old_data/mysql_dump_to_sqlite.py:228-244 | a statement the loop does not execute only adds one to `skipped` |
| Loader.RunExecutes | old_data/mysql_dump_to_sqlite.py:246-252 | an executed statement that SQLite accepts adds one to `executed` and goes on the history; one it refuses ends the run with its 1-based index, the active schema and the converted text |
| Loader.PlannedAndSkipped | old_data/mysql_dump_to_sqlite.py:226-252 | every statement is either planned for execution or skipped |
| Loader.RunDone | old_data/mysql_dump_to_sqlite.py:226-254 | a run that ends normally has applied exactly the planned statements, in order, and its counts are their number and the number skipped |
| Loader.RunDoneIff | old_data/mysql_dump_to_sqlite.py:246-254 | a run ends normally exactly when SQLite accepts every planned statement in turn |
| Loader.RunFailed | old_data/mysql_dump_to_sqlite.py:246-251 | a failed run names a statement the loop executes, with its 1-based index and the schema active when it was reached |
| Loader.ActiveIsLastUse | old_data/mysql_dump_to_sqlite.py:227-231 | the active schema is the name of the last matched `USE`, and None before any |
| Loader.ActiveSchemaName | old_data/mysql_dump_to_sqlite.py:227-231 | an active schema is a non-empty name with no backtick, quote, `;` or whitespace |
| Loader.ImportCounts | old_data/mysql_dump_to_sqlite.py:226-261 | on success `executed + skipped` is the number of statements |
| Loader.ReadStatement | old_data/mysql_dump_to_sqlite.py:227-233 | the two calls of the loop body: `extract_use_database(statement.strip())` and `convert_statement(statement)` |
| Loader.Classify | old_data/mysql_dump_to_sqlite.py:227-247 | the loop body's tests in order: a `USE` name sets the schema; an empty conversion, a schema outside the include set and a system schema are skipped; anything else is executed |
| Loader.ActiveAfter | old_data/mysql_dump_to_sqlite.py:218-231 | `active_schema` after the first `n` statements: the last `USE` name among them, None before any |
| Loader.RunFrom | old_data/mysql_dump_to_sqlite.py:226-252 | the loop from statement `i` on: skips are counted; accepted statements join the history and are counted; the first refused one ends the run with its 1-based index, active schema and text |
| Loader.Connection.constructor | old_data/mysql_dump_to_sqlite.py:220 | a new connection has nothing committed and nothing pending |
| Loader.Connection.Execute | old_data/mysql_dump_to_sqlite.py:247 | `conn.execute`: accepted exactly when the oracle accepts it on the history; an accepted statement joins the pending transaction, a refused one changes nothing |
| Loader.Connection.Commit | old_data/mysql_dump_to_sqlite.py:254 | `conn.commit()`: the pending statements become committed |
| Loader.Connection.Rollback | old_data/mysql_dump_to_sqlite.py:256 | `conn.rollback()`: the pending statements are dropped |
| Loader.ReadOne | old_data/mysql_dump_to_sqlite.py:227-233 | the two calls of the loop body on statement `i` |
| Loader.ImportStatements | old_data/mysql_dump_to_sqlite.py:226-252 | the loop returns the outcome of the reference run, leaves the committed state alone and, on success, has applied exactly the run's history |
| Loader.ImportDump | old_data/mysql_dump_to_sqlite.py:212-261 | `import_dump`: strip the comments, split, run the loop; on success the planned statements are committed, on failure the database is rolled back to its state before the call |
| Duration.FormatValue | core/fields.py:16-26 | `format_value`: None and `""` show as `""`, strings and other values unchanged, a duration as its `hh:mm` text |
| Duration.PrepareValue | core/fields.py:52-58 | `prepare_value`: a duration as `format_value` shows it, anything else unchanged |
| Duration.FormatHHMMSplits | core/fields.py:21-25 | a duration between `h:m` and one minute later shows as `Pad2(h):Pad2(m)` |
| Duration.MinuteFloor | core/fields.py:23-24 | the hours and minutes shown make up the duration less its seconds past the minute |
| Duration.MinuteOfHour | core/fields.py:23-24 | a non-negative duration shows non-negative hours and minutes from 0 to 59 |
| Duration.ParseHHMMExactly | core/fields.py:40-50 | the pattern `^(\d+):([0-5]?\d)$` accepts exactly the `hh:mm` texts and gives `hours * 3600 + minutes * 60` seconds |
| Duration.ParseHHMM | core/fields.py:40-49 | the pattern on stripped text: the seconds of its hours and minutes groups, or None |
| Duration.FormatHHMM | core/fields.py:21-25 | `f"{hours:02d}:{minutes:02d}"` of `total // 3600` and `(total % 3600) // 60` |
| Duration.ToPython | core/fields.py:33-50 | `to_python`: None and `""` give no duration, a duration is returned as it is, and an error is the validation message or the `OverflowError` of `timedelta` |
| Duration.Parsed | core/fields.py:41-46 | a text that parses gives a duration |
| Duration.ToPythonText | core/fields.py:39-50 | typed text is accepted exactly when its stripped form is `hh:mm` and fits a `timedelta`, and read as that many seconds; a longer `hh:mm` raises `OverflowError`; other text gets the validation error |
| Duration.ParsedOf | core/fields.py:41-50 | trimmed text that parses and fits a `timedelta` is returned as a duration |
| Duration.ParseJoined | core/fields.py:40-50 | hour digits, a colon and minute text read back as their two values |
| Duration.ParseParts | core/fields.py:40-50 | the text shown for `h` hours and `m` minutes parses back to `h * 3600 + m * 60` |
| Duration.PartsTrimmed | core/fields.py:25 | that text has no whitespace to strip |
| Duration.ToPythonParts | core/fields.py:33-50 | the form field reads that text back as `h * 3600 + m * 60` seconds when that fits a `timedelta` |
| Duration.FormatThenParse | core/fields.py:21-50 | a non-negative `timedelta` shown by the widget and read back by the field loses exactly its seconds past the minute |
| Duration.FormatReadBack | core/fields.py:21-50 | the same, given the hours and minutes shown |
| Duration.FormatNegativeRefused | core/fields.py:21-46 | a negative duration is shown with a sign, which the field then refuses |
| Duration.DivUnique | core/fields.py:23-24 | Euclidean (floor) division by a positive number is unique, as Python's `//` and `%` are |
| Timedelta.FromSeconds | core/fields.py:50 | `timedelta(...)` of whole seconds: the duration, or `OverflowError` once its days `n // 86400` pass 999999999 either way |
| Timedelta.FromSecondsRange | core/fields.py:50 | a `timedelta` holds exactly the durations from -999999999 days to the last second of day 999999999, unchanged; any other raises `OverflowError` |
| Timedelta.FromSecondsNat | core/management/commands/import_chiamogna.py:28 | a non-negative duration is held exactly when it ends before day 1000000000 |
| Legacy.ParseHHMMSS | core/management/commands/import_chiamogna.py:20-28 | an error is the `CommandError` message `Invalid time format '<raw>' for <context>. Expected HH:MM:SS.` or the `OverflowError` of `timedelta` |
| Legacy.ParseHHMMSSExactly | core/management/commands/import_chiamogna.py:17-28 | `_parse_hhmmss` accepts exactly the trimmed `\d+:[0-5]\d:[0-5]\d` texts that fit a `timedelta`, reading `h * 3600 + m * 60 + s` seconds; longer ones raise `OverflowError`; any other text is the `CommandError` |
| Legacy.ParseHHMMSSNone | core/management/commands/import_chiamogna.py:21-23 | a missing or empty time is refused |
| Legacy.ShownTimeParts | core/management/commands/import_chiamogna.py:17 | text written as `HH:MM:SS` matches the pattern and is worth `h * 3600 + m * 60 + s` seconds |
| Legacy.ShownTimeTrimmed | core/management/commands/import_chiamogna.py:21 | that text has no whitespace to strip |
| Legacy.ParsedTrimmed | core/management/commands/import_chiamogna.py:20-28 | trimmed text that matches and fits a `timedelta` reads as its value |
| Legacy.ParseHHMMSSShown | core/management/commands/import_chiamogna.py:20-28 | a time written as `HH:MM:SS` that fits a `timedelta` reads back as that many seconds |
| Legacy.LastIndexIs | core/management/commands/import_chiamogna.py:100-106 | a dict filled in order from `keys[i] -> i` holds exactly the keys, each mapped to its last position |
| Legacy.LastIndexDistinct | core/management/commands/import_chiamogna.py:122 | with no repeated key, each key maps to its own position |
| Legacy.LastIndexSnoc | core/management/commands/import_chiamogna.py:106 | one more assignment updates one key |
| Legacy.LastIndexBelow | core/management/commands/import_chiamogna.py:106 | every value of such a dict is a position of a created record |
| Legacy.PersonaIds | core/management/commands/import_chiamogna.py:103 | one legacy id per persona row, in order |
| Legacy.PersoneOfAre | core/management/commands/import_chiamogna.py:102-107 | one Persona per legacy row, at the row's position, named `-` with the trimmed legacy name (or `-`) as surname |
| Legacy.PersoneOfSnoc | core/management/commands/import_chiamogna.py:102-107 | the rows are handled one at a time, in order |
| Legacy.ImportPersone | core/management/commands/import_chiamogna.py:100-107 | the first loop returns the Persona records and `legacy_persona_to_new` from each legacy id to its Persona |
| Legacy.CognomeTrimmed | core/management/commands/import_chiamogna.py:104 | a surname is never empty and never has whitespace at either end |
| Legacy.Cognome | core/management/commands/import_chiamogna.py:104 | `(row["nome"] or "").strip() or "-"` |
| Legacy.RamoNamesAre | core/management/commands/import_chiamogna.py:113 | the ramo names are sorted, distinct, trimmed, and exactly the trimmed `ramo_bealera` values of the rows |
| Legacy.RamoNamesUnique | core/management/commands/import_chiamogna.py:113 | they are the only strictly sorted sequence of those names |
| Legacy.RamoNames | core/management/commands/import_chiamogna.py:113 | `sorted` of the set of the rows' trimmed ramo names |
| Legacy.StripIdempotent | core/management/commands/import_chiamogna.py:113 | a stripped name strips to itself |
| Legacy.CreateRami | core/management/commands/import_chiamogna.py:112-123 | the second loop creates one Ramo per name, in order, and `ramo_map` from each name to its Ramo |
| Legacy.Keyed | core/management/commands/import_chiamogna.py:136-153 | one ramo's keys are the ramo with each of its types, in order |
| Legacy.GiroKeysSnoc | core/management/commands/import_chiamogna.py:128-154 | the giro keys are created ramo by ramo |
| Legacy.GiroKeysMember | core/management/commands/import_chiamogna.py:128-153 | the giro keys are exactly the pairs of a ramo name and a type found among that ramo's rows |
| Legacy.GiroKeysDistinct | core/management/commands/import_chiamogna.py:128-153 | distinct ramo names give distinct keys: one Giro per ramo and type |
| Legacy.KeyedDistinct | core/management/commands/import_chiamogna.py:129-153 | one ramo's keys, made from its sorted types, hold no key twice |
| Legacy.KeyedMember | core/management/commands/import_chiamogna.py:136 | a key of one ramo is that ramo with one of its types |
| Legacy.KeyOfOtherRamo | core/management/commands/import_chiamogna.py:128-153 | a key of an earlier ramo is not a key of a later one |
| Legacy.GiroKeys | core/management/commands/import_chiamogna.py:128-153 | the keys of `giro_map` in creation order: ramo by ramo in sorted order, each ramo's trimmed types sorted |
| Legacy.OrdineAt | core/management/commands/import_chiamogna.py:137-143 | 1 for type A, 2 for type B, otherwise 3 plus the number of earlier keys that took a fallback ordine |
| Legacy.GiriForSnoc | core/management/commands/import_chiamogna.py:136-154 | one more giro keeps the giri in step with the keys |
| Legacy.FallbacksGrow | core/management/commands/import_chiamogna.py:141-143 | `tipo_order_fallback` grows by one for each type other than A and B |
| Legacy.FallbacksMonotone | core/management/commands/import_chiamogna.py:141-143 | `tipo_order_fallback` never decreases |
| Legacy.FallbackOrdini | core/management/commands/import_chiamogna.py:127-143 | types other than A and B get ordini from 3 up that strictly increase across all rami, so no two of them share one |
| Legacy.OrdineByType | core/management/commands/import_chiamogna.py:137-143 | the ordine is 1 exactly for type A, 2 exactly for type B, and `3 + ` the number of earlier fallback types otherwise |
| Legacy.RowKeysCovered | core/management/commands/import_chiamogna.py:128-153 | every giro row finds its key in `giro_map`, since the keys are made from the same rows |
| Legacy.CreateGiriOfRamo | core/management/commands/import_chiamogna.py:136-154 | the inner loop adds one giro per type of the ramo and keeps the loop invariant |
| Legacy.CreateGiri | core/management/commands/import_chiamogna.py:125-154 | the third loop creates one Giro per key, named `Giro <tipo>`, with its ordine and its Ramo, and `giro_map` from each key to it |
| Legacy.GiriOf | core/management/commands/import_chiamogna.py:145-153 | the giri of the keys, one per key, in order |
| Legacy.GiriForUnique | core/management/commands/import_chiamogna.py:145-153 | the giri are determined by the keys |
| Legacy.KeysInRami | core/management/commands/import_chiamogna.py:151 | every giro key's ramo has a Ramo |
| Legacy.AboveShrinks | core/management/commands/import_chiamogna.py:192-193 | each step of the `while` loop leaves fewer used values ahead, so the loop ends |
| Legacy.SmallestFree | core/management/commands/import_chiamogna.py:190-193 | the ordine chosen is the smallest value at or above the requested one that the giro does not use |
| Legacy.SmallestFreeUnique | core/management/commands/import_chiamogna.py:191-193 | that value is the only one with this property |
| Legacy.SmallestFreeKeeps | core/management/commands/import_chiamogna.py:191-194 | the requested ordine is kept exactly when the giro does not use it yet |
| Legacy.NextFree | core/management/commands/import_chiamogna.py:191-193 | the `while` loop returns that smallest free ordine |
| Legacy.TurniFromSnoc | core/management/commands/import_chiamogna.py:163-207 | the giro rows are handled one at a time, in order |
| Legacy.ImportTurno | core/management/commands/import_chiamogna.py:163-207 | one pass of the fourth loop computes the reference step |
| Legacy.ImportTurni | core/management/commands/import_chiamogna.py:156-207 | the fourth loop returns the reference state: turni, `legacy_giro_to_turno`, used ordini and counters |
| Legacy.TurnoStepCounts | core/management/commands/import_chiamogna.py:170-188 | each row adds exactly one to the turni or to one skip counter; no Turno is created exactly when the utilizzatore or the giro key is missing, and a skip changes nothing else |
| Legacy.TurniCounts | core/management/commands/import_chiamogna.py:163-207 | turni plus the two skip counts equal the number of rows, and at most every Turno is remapped |
| Legacy.TurnoStepRemaps | core/management/commands/import_chiamogna.py:190-206 | a created Turno gets the smallest free ordine at or above the requested one; only its giro's used set grows, by that ordine; the remap counter grows exactly when the ordine moved |
| Legacy.OrdiniOfSnoc | core/management/commands/import_chiamogna.py:199 | a new Turno adds its ordine to its own giro only |
| Legacy.TurnoStepValid | core/management/commands/import_chiamogna.py:190-206 | each step keeps the invariant that no two turni of a giro share an ordine and the used sets are exactly the ordini taken |
| Legacy.TurniFromValid | core/management/commands/import_chiamogna.py:163-207 | the whole loop keeps that invariant |
| Legacy.NoMissingGiroKey | core/management/commands/import_chiamogna.py:180-188 | when every row's key has a giro, no row is skipped for a missing giro key |
| Legacy.TurniRefer | core/management/commands/import_chiamogna.py:201-206 | every Turno names a created Persona and a created Giro |
| Legacy.TurnoStep | core/management/commands/import_chiamogna.py:163-207 | one pass of the turni loop: a missing utilizzatore, then a missing giro key, is counted and skipped; otherwise a Turno with the smallest free ordine, and its giro's used set and the remap counter updated |
| Legacy.TurniFrom | core/management/commands/import_chiamogna.py:156-207 | the turni loop over the rows, in order |
| Legacy.RuoloStepCounts | core/management/commands/import_chiamogna.py:212-246 | with a time that reads, each ruolo row adds exactly one to the TurnoProprietario records or to one skip counter: missing turno, or present turno and missing proprietario; otherwise the record links that turno, that persona and that time; a time that does not read stops with its error |
| Legacy.RuoliOverSnoc | core/management/commands/import_chiamogna.py:212-246 | the ruolo rows are handled one at a time, in order |
| Legacy.RuoliOverStep | core/management/commands/import_chiamogna.py:212-246 | the same, with the row's own time |
| Legacy.RuoliOverErrStays | core/management/commands/import_chiamogna.py:216-219 | once a row's time fails, the whole loop fails with that error |
| Legacy.RuoliOverOk | core/management/commands/import_chiamogna.py:212-246 | the loop succeeds exactly when every time reads |
| Legacy.RuoliOverCounts | core/management/commands/import_chiamogna.py:221-246 | a loop that succeeds counts every row once |
| Legacy.RuoliOverFirstError | core/management/commands/import_chiamogna.py:212-219 | a failed loop reports the error of the first time that does not read |
| Legacy.ImportRuolo | core/management/commands/import_chiamogna.py:213-246 | one pass of the fifth loop computes the reference step |
| Legacy.ImportRuoli | core/management/commands/import_chiamogna.py:209-246 | the fifth loop returns the reference result, stopping at the first time that does not read |
| Legacy.RuoliOutcome | core/management/commands/import_chiamogna.py:212-246 | the fifth loop succeeds exactly when every ruolo time reads; then every row is counted once; otherwise it reports the error of the first row whose time does not read (malformed or overflowing) |
| Legacy.RuoliRefer | core/management/commands/import_chiamogna.py:241-245 | every TurnoProprietario names a created Turno and a created Persona, with a time that is not negative |
| Legacy.RuoloStep | core/management/commands/import_chiamogna.py:212-246 | one pass of the ruoli loop: a time that does not read stops the loop; a missing turno, then a missing proprietario, is counted and skipped; otherwise a TurnoProprietario |
| Legacy.RuoliOver | core/management/commands/import_chiamogna.py:209-246 | the ruoli loop over the rows, in order, stopping at the first error |
| Legacy.TempiNonNegative | core/management/commands/import_chiamogna.py:17-28 | a time that reads is not negative |
| Legacy.Handle | core/management/commands/import_chiamogna.py:85-246 | the import part of `handle`: its five loops compute the reference `Import` of the three legacy tables |
| Legacy.Import | core/management/commands/import_chiamogna.py:100-246 | the five loops of `handle` over the three legacy tables: the records and counters, or the error that rolls the transaction back |
| Legacy.ImportFails | core/management/commands/import_chiamogna.py:212-219 | the import fails exactly when a ruolo time does not read, and then reports the error of the first such row |
| Legacy.TurniOutcome | core/management/commands/import_chiamogna.py:163-207 | every giro row becomes a Turno or is skipped for a missing utilizzatore; none is skipped for a missing giro key; the ordini are valid and every Turno refers to created records |
| Legacy.GiriOutcome | core/management/commands/import_chiamogna.py:125-154 | one Giro per giro key, each of a created Ramo |
| Legacy.ImportRecords | core/management/commands/import_chiamogna.py:100-154 | a successful import has one Persona per persona row; its rami are sorted and exactly the trimmed ramo names; every Giro belongs to a created Ramo |
| Legacy.ImportLinks | core/management/commands/import_chiamogna.py:156-246 | a successful import counts every giro row and every ruolo row once, never skips a giro row for a missing giro key, and keeps the ordini valid |
| LegacyExample.ExampleNames | core/tests.py:54-60 | the test's ramo names `BOSCHETTO` and `VARDA` are trimmed and in order |
| LegacyExample.ExamplePersonaOf | core/tests.py:45-52 | the three legacy persone map to the first three Persona records |
| LegacyExample.RowsAre | core/tests.py:54-60 | the four giro rows of the duplicate test |
| LegacyExample.ExampleRamoSet | core/tests.py:54-60 | the rows name exactly the two rami |
| LegacyExample.ExampleRami | core/tests.py:54-60 | the two rami are created in order |
| LegacyExample.ExampleTipiSet | core/tests.py:54-60 | the first ramo has type A only and the second type B only |
| LegacyExample.SortTwo | core/tests.py:54-60 | `sorted` of the two names is the two names in order |
| LegacyExample.KeysOfTwo | core/tests.py:54-60 | two rami with one type each give two keys |
| LegacyExample.ExampleKeys | core/tests.py:54-60 | the keys of `giro_map` are one giro per ramo |
| LegacyExample.ExampleGiroOf | core/tests.py:54-60 | `giro_map` maps those keys to the two giri |
| LegacyExample.Placed | core/management/commands/import_chiamogna.py:190-206 | one pass of the turni loop for a row whose persona and giro exist |
| LegacyExample.Step1 | core/tests.py:55 | the first row keeps ordine 30 in the first giro |
| LegacyExample.Step2 | core/tests.py:56 | the second row keeps ordine 60 in the first giro |
| LegacyExample.Step3 | core/tests.py:57 | the row of the other ramo goes to the second giro and leaves the first giro's ordini alone |
| LegacyExample.Step4 | core/tests.py:60 | the duplicate row asking for 60 in the first giro gets 61, and counts as remapped |
| LegacyExample.ExampleTurni | core/tests.py:54-60 | the turni loop over the four rows |
| LegacyExample.ExampleOrdini | core/tests.py:115-126 | the first giro's turni have ordini 30, 60 and 61, and one ordine is remapped |

## Left out

- Reading the dump file and decoding it, `sqlite3.connect`, the two PRAGMAs, `BEGIN` and `close` (`old_data/mysql_dump_to_sqlite.py`:212, 220-224, 259) are not modelled: the model starts from the decoded text and a connection.
- SQLite's own behaviour is not modelled. Whether a statement succeeds is the `accepts` oracle, and the exception message formatting (lines 249-251) is reduced to the index, schema and statement it reports.
- `parse_args` and `main` (`old_data/mysql_dump_to_sqlite.py`:264-307), argument parsing, the default schema set `{"chiamogna"}` and the printed summary are left out. The schema filter is a parameter of the loop.
- Regular expressions are modelled by a hand-written matcher per pattern, not by a regular-expression engine. Each matcher follows Python's backtracking result for its own pattern. `re.IGNORECASE`, `\w`, `\d` and `upper()` are modelled for ASCII letters and digits only. Non-ASCII case mappings such as `ß` → `SS` are left out.
- Patterns.ParenthesisedMatch: the contract states the shape of a match (the keyword at its start, `)` at its end), not its full agreement with the pattern; the body is the matcher.
- Patterns.WidthMatch: the contract states the shape of a match, as above.
- Patterns.AutoIncrementOptionMatch: the contract states the shape of a match, as above.
- Patterns.AutoIncrementModifierMatch: the contract states the shape of a match, as above.
- Duration.FormatValue: durations are whole seconds. Microseconds and the float `total_seconds()` are left out; for whole seconds `int()` of it is exact.
- Timedelta.FromSeconds: the text of the `OverflowError` is not modelled. The error carries the marker `OverflowError`, so it is told apart from the validation and `CommandError` messages, but not what Python prints.
- Duration.ToPython: a non-string, non-duration value is modelled by its `str()` text; how Python produces that text is left out.
- `DurationHHMMWidget.__init__` and `DurationHHMMField.formfield` (`core/fields.py`:10-14, 67-71) only set widget attributes and the form class, and are not modelled.
- In `import_chiamogna`, these are not modelled:
  - the source path and `--consorzio-name` checks (lines 52-63);
  - reading the three legacy tables (65-83): the rows are the parameters of `Legacy.Handle`;
  - the reset deletes (86-93) and the `get_or_create` of the Consorzio (95-98);
  - the `inizio_astratto` timestamp (109-110);
  - Giro descriptions (148-150) and the warnings written to stderr;
  - the `remapped_examples` texts (196-198) and the summary and durata checks written at the end (248-276).

  The ORM's `create` is modelled as appending to a sequence, so records are identified by their positions.
- Legacy rows hold already-typed values: ids and ordini are integers and names are strings. `int()` and `str()` of other database types are not modelled. A NULL ruolo time is shown as `None`, as the f-string shows it.
- Transactions in `import_chiamogna` (`transaction.atomic`) are modelled only through the `Result` of `Legacy.Import`: an error means nothing is kept.
- `core/admin.py` and `core/models.py` are not part of this model. `core/tests.py` is used only for the example in `LegacyExample`.

## Findings

| source | as written | input that shows it | evidently intended | confidence | as-written member | corrected member |
|---|---|---|---|---|---|---|
| old_data/mysql_dump_to_sqlite.py:161-166 | the table-option pattern `\)\s*(?:ENGINE…COLLATE)\b.*$` with `re.sub` cuts the statement at the FIRST `)` followed by an option keyword | `CREATE TABLE t (\n  a varchar(5) DEFAULT NULL,\n  b int\n) ENGINE=InnoDB` becomes `CREATE TABLE t (\n  a varchar(5)`, losing the column default and every later column | strip only the clause after the table's final closing parenthesis, as the comment at line 159 says | not executed | CreateTable.StripTableOptionsAsWrittenCutsColumn | CreateTable.StripTableOptionsKeepsColumn |

`CreateTable.StripTableOptionsAsWritten` models the code as written: the
leftmost match. `CreateTable.StripTableOptions` is the corrected definition:
the last match, stated by `CreateTable.LastTableOption`. The conversion
(`ConvertCreateTableSpec`, `ConvertCreateTable`, and through them
`Converter.ConvertStatement` and `Loader.ImportDump`) uses the strip as
written. `CreateTable.ConvertCreateTableCorrected` is the same pipeline with
the corrected strip. `CreateTable.StripTableOptionsAgree` shows that the two
strips agree whenever the option pattern matches at one position only.
