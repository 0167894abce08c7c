/**
  `normalize_types` of `old_data/mysql_dump_to_sqlite.py`: twelve
  replacements applied in order, each over the result of the previous one.
*/
module Normalize {
  import opened Text
  import opened Patterns

  /** One replacement: every match of the pattern becomes the text. */
  datatype Pass = Pass(pattern: Pattern, repl: string)

  /** The replacements of `normalize_types`, in the order the source applies them. */
  const TypePasses: seq<Pass> := [
    Pass(Word("unsigned"), ""),
    Pass(Word("zerofill"), ""),
    Pass(Parenthesised("enum"), "TEXT"),
    Pass(Parenthesised("set"), "TEXT"),
    Pass(Width("tinyint"), "INTEGER"),
    Pass(Width("smallint"), "INTEGER"),
    Pass(Width("mediumint"), "INTEGER"),
    Pass(Width("int"), "INTEGER"),
    Pass(Width("integer"), "INTEGER"),
    Pass(Width("bigint"), "INTEGER"),
    Pass(Word("double"), "REAL"),
    Pass(Word("float"), "REAL")
  ]

  /** The passes applied one after another. */
  function ApplyPasses(passes: seq<Pass>, s: string): string
    decreases |passes|
  {
    if passes == [] then s
    else ApplyPasses(passes[1..], Sub(passes[0].pattern, s, passes[0].repl))
  }

  function NormalizeTypes(stmt: string): string {
    ApplyPasses(TypePasses, stmt)
  }

  /** A character that neither the text nor any replacement contains does not appear. */
  lemma {:induction false} ApplyPassesAbsent(passes: seq<Pass>, s: string, c: char)
    requires c !in s
    requires forall p :: p in passes ==> c !in p.repl
    ensures c !in ApplyPasses(passes, s)
    decreases |passes|
  {
    if passes != [] {
      assert passes[0] in passes;
      SubAbsent(passes[0].pattern, s, passes[0].repl, c);
      assert forall p :: p in passes[1..] ==> p in passes;
      ApplyPassesAbsent(passes[1..], Sub(passes[0].pattern, s, passes[0].repl), c);
    }
  }

  /** Only the text and `TEXT`, `INTEGER` and `REAL` supply characters, so no backtick or quote is added. */
  lemma NormalizeTypesAbsent(stmt: string, c: char)
    requires c !in stmt && c !in "TEXT" && c !in "INTEGER" && c !in "REAL"
    ensures c !in NormalizeTypes(stmt)
  {
    forall p | p in TypePasses ensures c !in p.repl {
      assert p.repl in {"", "TEXT", "INTEGER", "REAL"};
    }
    ApplyPassesAbsent(TypePasses, stmt, c);
  }

  /** Text in which no pass matches anywhere goes through every pass unchanged. */
  lemma {:induction false} ApplyPassesNoMatch(passes: seq<Pass>, s: string)
    requires forall k, i :: 0 <= k < |passes| && 0 <= i < |s| ==> MatchLen(passes[k].pattern, s, i) == 0
    ensures ApplyPasses(passes, s) == s
    decreases |passes|
  {
    if passes != [] {
      SubNoMatch(passes[0].pattern, s, passes[0].repl);
      ApplyPassesNoMatch(passes[1..], s);
    }
  }

  /** A statement with no MySQL type spelling in it comes out of `normalize_types` as it went in. */
  lemma NormalizeTypesNoMatch(stmt: string)
    requires forall k, i :: 0 <= k < |TypePasses| && 0 <= i < |stmt| ==> MatchLen(TypePasses[k].pattern, stmt, i) == 0
    ensures NormalizeTypes(stmt) == stmt
  {
    ApplyPassesNoMatch(TypePasses, stmt);
  }

  /** No pass of `passes` matches anywhere in `s`. */
  predicate NoneMatch(passes: seq<Pass>, s: string) {
    forall q, i :: 0 <= q < |passes| && 0 <= i < |s| ==> MatchLen(passes[q].pattern, s, i) == 0
  }

  /**
    When pass `k` is the only one with work to do, before it and after it,
    the passes together do exactly what pass `k` does.
  */
  lemma {:induction false} ApplyPassesOne(passes: seq<Pass>, s: string, k: nat)
    requires k < |passes| && NoneMatch(passes[..k], s)
    requires NoneMatch(passes[k + 1..], Sub(passes[k].pattern, s, passes[k].repl))
    ensures ApplyPasses(passes, s) == Sub(passes[k].pattern, s, passes[k].repl)
    decreases k
  {
    if k == 0 {
      ApplyPassesNoMatch(passes[1..], Sub(passes[0].pattern, s, passes[0].repl));
    } else {
      NoneMatchDrop(passes, s, k);
      SubNoMatch(passes[0].pattern, s, passes[0].repl);
      var tail := passes[1..];
      assert tail[k - 1] == passes[k];
      assert tail[k..] == passes[k + 1..];
      ApplyPassesOne(tail, s, k - 1);
    }
  }

  /** Passes that match nowhere still match nowhere after the first of them is set aside. */
  lemma NoneMatchDrop(passes: seq<Pass>, s: string, k: nat)
    requires 0 < k <= |passes| && NoneMatch(passes[..k], s)
    ensures forall i :: 0 <= i < |s| ==> MatchLen(passes[0].pattern, s, i) == 0
    ensures NoneMatch(passes[1..][..k - 1], s)
  {
    var front := passes[1..][..k - 1];
    forall q, i | 0 <= q < k - 1 && 0 <= i < |s|
      ensures MatchLen(front[q].pattern, s, i) == 0
    {
      assert front[q] == passes[..k][q + 1];
    }
    assert passes[..k][0] == passes[0];
  }

  /** The same, with the leftmost match of pass `k` spelled out. */
  lemma ApplyPassesReplaces(passes: seq<Pass>, s: string, k: nat, lens: seq<nat>, j: nat)
    requires k < |passes| && NoneMatch(passes[..k], s)
    requires NoneMatch(passes[k + 1..], Sub(passes[k].pattern, s, passes[k].repl))
    requires lens == Matches(passes[k].pattern, s)
    requires j < |s| && lens[j] > 0
    requires forall i :: 0 <= i < j ==> lens[i] == 0
    ensures ApplyPasses(passes, s) == s[..j] + passes[k].repl + Replace(lens, s, passes[k].repl, j + lens[j])
  {
    ApplyPassesOne(passes, s, k);
    SubFirstMatch(passes[k].pattern, s, passes[k].repl, lens, j);
  }

  /**
    A MySQL spelling of pass `k` is rewritten: when no earlier pass matches
    the statement and no later one matches what pass `k` leaves, the text
    before the leftmost match of pass `k` is kept and the match becomes the
    pass's SQLite type (`TEXT`, `INTEGER` or `REAL`), or nothing for
    `unsigned` and `zerofill`.
  */
  lemma NormalizeTypesReplaces(stmt: string, k: nat, lens: seq<nat>, j: nat)
    requires k < |TypePasses| && NoneMatch(TypePasses[..k], stmt)
    requires NoneMatch(TypePasses[k + 1..], Sub(TypePasses[k].pattern, stmt, TypePasses[k].repl))
    requires lens == Matches(TypePasses[k].pattern, stmt)
    requires j < |stmt| && lens[j] > 0
    requires forall i :: 0 <= i < j ==> lens[i] == 0
    ensures NormalizeTypes(stmt) == stmt[..j] + TypePasses[k].repl + Replace(lens, stmt, TypePasses[k].repl, j + lens[j])
  {
    ApplyPassesReplaces(TypePasses, stmt, k, lens, j);
  }
}
