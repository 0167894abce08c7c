/**
  The comment stripper of `old_data/mysql_dump_to_sqlite.py`
  (`strip_comment_lines`): a line-oriented pass that drops full-line `--`
  and `#` comments and single-line version-conditional directives
  `/*! ... */;`, keeping every other line, blank ones included, in order.
  Comments that start after SQL text on a line, or span several lines, are
  left in place for the splitter, as in the source.
*/
module Comments {
  import opened Text

  /** A line the stripper drops, judged on its text without surrounding whitespace. */
  predicate IsCommentLine(line: string) {
    var t := Strip(line);
    t != [] && (StartsWith(t, "--") || StartsWith(t, "#") || (StartsWith(t, "/*!") && EndsWith(t, "*/;")))
  }

  /** The lines that survive, in their original order. */
  function KeptLines(lines: seq<string>): (kept: seq<string>)
    ensures |kept| <= |lines|
    decreases |lines|
  {
    if lines == [] then []
    else KeptLines(lines[..|lines| - 1]) + (if IsCommentLine(lines[|lines| - 1]) then [] else [lines[|lines| - 1]])
  }

  /** Exactly the non-comment lines survive: no survivor is a comment line or new, and no other line is lost. */
  lemma {:induction false} KeptLinesMembers(lines: seq<string>)
    ensures forall l :: l in KeptLines(lines) ==> !IsCommentLine(l) && l in lines
    ensures forall l :: l in lines && !IsCommentLine(l) ==> l in KeptLines(lines)
    decreases |lines|
  {
    if lines != [] {
      var init := lines[..|lines| - 1];
      var last := lines[|lines| - 1];
      KeptLinesMembers(init);
      assert lines == init + [last];
    }
  }

  /** `strip_comment_lines` on the whole text. */
  function StripComments(text: string): string {
    JoinLines(KeptLines(SplitLines(text)))
  }

  /** Dropping lines keeps their order: the pass over `a + b` is the pass over `a`, then over `b`. */
  lemma {:induction false} KeptLinesAppend(a: seq<string>, b: seq<string>)
    ensures KeptLines(a + b) == KeptLines(a) + KeptLines(b)
    decreases |b|
  {
    if b != [] {
      var init := b[..|b| - 1];
      KeptLinesAppend(a, init);
      assert (a + b)[..|a + b| - 1] == a + init;
      assert (a + b)[|a + b| - 1] == b[|b| - 1];
    } else {
      assert a + b == a;
    }
  }

  /** A blank line (empty or whitespace only) is never dropped. */
  lemma BlankLineKept(lines: seq<string>, k: nat)
    requires k < |lines| && AllSpace(lines[k])
    ensures lines[k] in KeptLines(lines)
  {
    assert Strip(lines[k]) == [];
    KeptLinesMembers(lines);
  }

  /** A single line is dropped exactly when it is a comment line. */
  lemma KeptLine(line: string)
    ensures KeptLines([line]) == if IsCommentLine(line) then [] else [line]
  {
    assert [line][..0] == [];
  }

  /** Text without comment lines, using `\n` alone to end lines and not ending with one, is unchanged. */
  lemma {:induction false} NoCommentLinesUnchanged(text: string)
    requires NewlineBreaksOnly(text)
    requires text == [] || text[|text| - 1] != '\n'
    requires forall k :: 0 <= k < |SplitLines(text)| ==> !IsCommentLine(SplitLines(text)[k])
    ensures StripComments(text) == text
  {
    KeptAllLines(SplitLines(text));
    JoinSplitLines(text);
  }

  lemma {:induction false} KeptAllLines(lines: seq<string>)
    requires forall k :: 0 <= k < |lines| ==> !IsCommentLine(lines[k])
    ensures KeptLines(lines) == lines
    decreases |lines|
  {
    if lines != [] {
      var init := lines[..|lines| - 1];
      var last := lines[|lines| - 1];
      assert lines == init + [last];
      assert forall k :: 0 <= k < |init| ==> !IsCommentLine(init[k]) by {
        forall k | 0 <= k < |init| ensures !IsCommentLine(init[k]) {
          assert init[k] == lines[k];
        }
      }
      KeptAllLines(init);
      assert !IsCommentLine(last);
      assert KeptLines(lines) == KeptLines(init) + [last];
    }
  }

  /** `strip_comment_lines`: the source's loop over the lines. */
  method StripCommentLines(sqlText: string) returns (r: string)
    ensures r == StripComments(sqlText)
  {
    var lines := SplitLines(sqlText);
    var keptLines: seq<string> := [];
    var i := 0;
    while i < |lines|
      invariant 0 <= i <= |lines|
      invariant keptLines == KeptLines(lines[..i])
    {
      var line := lines[i];
      assert lines[..i + 1][..i] == lines[..i];
      var stripped := Strip(line);
      if stripped == [] {
        keptLines := keptLines + [line];
      } else if StartsWith(stripped, "--") {
      } else if StartsWith(stripped, "#") {
      } else if StartsWith(stripped, "/*!") && EndsWith(stripped, "*/;") {
      } else {
        keptLines := keptLines + [line];
      }
      i := i + 1;
    }
    assert lines[..i] == lines;
    r := JoinLines(keptLines);
  }
}
