/**
  The loop of `import_dump` in `old_data/mysql_dump_to_sqlite.py`: each split
  statement either sets the active schema (`USE`), is skipped, or is executed
  inside one transaction; the first statement SQLite refuses stops the run and
  the transaction is rolled back, otherwise it is committed.

  SQLite itself is an oracle: `accepts(history, sql)` says whether `sql`
  succeeds on a database to which `history` has been applied.
*/
module Loader {
  import opened Text
  import opened Wrappers
  import opened Splitter
  import opened Comments
  import opened Converter

  const SystemSchemas: set<string> := {"information_schema", "mysql", "performance_schema", "sys"}

  /** `include_schemas` (None: every schema) and `exclude_system_schemas`. */
  datatype Filter = Filter(includeSchemas: Option<set<string>>, excludeSystem: bool)

  /** What the loop does with one statement. */
  datatype Action =
    | UseSchema(name: string)   // a matched USE: the schema becomes active, and the statement counts as skipped
    | SkipUnconverted           // `convert_statement` gave None or the empty text
    | SkipNotIncluded           // the active schema is not one of `include_schemas`
    | SkipSystem                // the active schema is a system schema and those are excluded
    | Execute(sql: string)

  /** How a run ends: both counts, or the 1-based index, schema and text of the refused statement. */
  datatype Outcome =
    | Done(executed: nat, skipped: nat)
    | Failed(index: nat, schema: Option<string>, statement: string)

  /** Python's truth value of `active_schema`. */
  predicate Truthy(active: Option<string>) {
    active.Some? && active.value != []
  }

  /** What the loop reads from one statement: the `USE` name, and the converted text. */
  datatype Reading = Reading(useName: Option<string>, converted: Option<string>)

  /** `extract_use_database(statement.strip())` and `convert_statement(statement)`. */
  function ReadStatement(statement: string): Reading {
    Reading(ExtractUseDatabase(Strip(statement)), ConvertStatement(statement))
  }

  /** The readings of all statements, in order. */
  function ReadAll(statements: seq<string>): (readings: seq<Reading>)
    ensures |readings| == |statements|
  {
    if statements == [] then [] else [ReadStatement(statements[0])] + ReadAll(statements[1..])
  }

  lemma {:induction false} ReadAllAt(statements: seq<string>, i: nat)
    requires i < |statements|
    ensures ReadAll(statements)[i] == ReadStatement(statements[i])
    decreases i
  {
    if i > 0 {
      ReadAllAt(statements[1..], i - 1);
    }
  }

  /**
    `readings` are the readings of `statements`. The trigger keeps the
    definition of a reading out of every proof that does not name it.
  */
  predicate ReadsAs(statements: seq<string>, readings: seq<Reading>) {
    |readings| == |statements|
    && forall i {:trigger ReadStatement(statements[i])} :: 0 <= i < |statements| ==> readings[i] == ReadStatement(statements[i])
  }

  lemma ReadAllReads(statements: seq<string>)
    ensures ReadsAs(statements, ReadAll(statements))
  {
    forall i | 0 <= i < |statements| {
      ReadAllAt(statements, i);
    }
  }

  /** The tests of the loop body, in the source's order. */
  function Classify(reading: Reading, active: Option<string>, filter: Filter): Action {
    match reading.useName
    case Some(name) => UseSchema(name)
    case None =>
      var converted := reading.converted;
      if converted.None? || converted.value == [] then SkipUnconverted
      else if Truthy(active) && filter.includeSchemas.Some? && active.value !in filter.includeSchemas.value then SkipNotIncluded
      else if Truthy(active) && filter.excludeSystem && active.value in SystemSchemas then SkipSystem
      else Execute(converted.value)
  }

  /** The active schema once the first `n` statements have been read: the name of the last `USE` among them. */
  function ActiveAfter(readings: seq<Reading>, n: nat): Option<string>
    requires n <= |readings|
  {
    if n == 0 then None
    else match readings[n - 1].useName
      case Some(name) => Some(name)
      case None => ActiveAfter(readings, n - 1)
  }

  /** What the loop does with statement `i`. */
  function ActionAt(readings: seq<Reading>, filter: Filter, i: nat): Action
    requires i < |readings|
  {
    Classify(readings[i], ActiveAfter(readings, i), filter)
  }

  /** The readings sent to SQLite from `i` on, in order, if none is refused. */
  function PlannedFrom(readings: seq<Reading>, filter: Filter, i: nat): seq<string>
    requires i <= |readings|
    decreases |readings| - i
  {
    if i == |readings| then []
    else match ActionAt(readings, filter, i)
      case Execute(sql) => [sql] + PlannedFrom(readings, filter, i + 1)
      case _ => PlannedFrom(readings, filter, i + 1)
  }

  /** The number of readings from `i` on that are not executed. */
  function SkippedFrom(readings: seq<Reading>, filter: Filter, i: nat): nat
    requires i <= |readings|
    decreases |readings| - i
  {
    if i == |readings| then 0
    else (if ActionAt(readings, filter, i).Execute? then 0 else 1) + SkippedFrom(readings, filter, i + 1)
  }

  /** SQLite accepts every statement of `sqls`, each applied after the ones before it. */
  predicate AllAccepted(accepts: (seq<string>, string) -> bool, history: seq<string>, sqls: seq<string>)
    decreases |sqls|
  {
    sqls == [] || (accepts(history, sqls[0]) && AllAccepted(accepts, history + [sqls[0]], sqls[1..]))
  }

  /** The end of a run and everything executed on the connection by then. */
  datatype Run = Run(outcome: Outcome, history: seq<string>)

  /** The loop from statement `i` on, with `executed` and `skipped` counted so far. */
  function RunFrom(accepts: (seq<string>, string) -> bool, readings: seq<Reading>, filter: Filter,
                   i: nat, history: seq<string>, executed: nat, skipped: nat): Run
    requires i <= |readings|
    decreases |readings| - i
  {
    if i == |readings| then Run(Done(executed, skipped), history)
    else match ActionAt(readings, filter, i)
      case Execute(sql) =>
        if accepts(history, sql) then RunFrom(accepts, readings, filter, i + 1, history + [sql], executed + 1, skipped)
        else Run(Failed(i + 1, ActiveAfter(readings, i), sql), history)
      case _ => RunFrom(accepts, readings, filter, i + 1, history, executed, skipped + 1)
  }

  /** A statement the loop does not execute only adds to `skipped`. */
  lemma RunSkips(accepts: (seq<string>, string) -> bool, readings: seq<Reading>, filter: Filter,
                 i: nat, history: seq<string>, executed: nat, skipped: nat)
    requires i < |readings| && !ActionAt(readings, filter, i).Execute?
    ensures RunFrom(accepts, readings, filter, i, history, executed, skipped)
      == RunFrom(accepts, readings, filter, i + 1, history, executed, skipped + 1)
  {
  }

  /** A statement the loop executes either goes on the history or ends the run. */
  lemma RunExecutes(accepts: (seq<string>, string) -> bool, readings: seq<Reading>, filter: Filter,
                    i: nat, history: seq<string>, executed: nat, skipped: nat, sql: string)
    requires i < |readings| && ActionAt(readings, filter, i) == Execute(sql)
    ensures RunFrom(accepts, readings, filter, i, history, executed, skipped)
      == if accepts(history, sql) then RunFrom(accepts, readings, filter, i + 1, history + [sql], executed + 1, skipped)
         else Run(Failed(i + 1, ActiveAfter(readings, i), sql), history)
  {
  }

  // ------------------------------------------------------------ properties

  /** Every statement is executed or skipped: the two counts add up to the readings read. */
  lemma {:induction false} PlannedAndSkipped(readings: seq<Reading>, filter: Filter, i: nat)
    requires i <= |readings|
    ensures |PlannedFrom(readings, filter, i)| + SkippedFrom(readings, filter, i) == |readings| - i
    decreases |readings| - i
  {
    if i < |readings| {
      PlannedAndSkipped(readings, filter, i + 1);
    }
  }

  /**
    A run that ends normally executed exactly the planned readings, in order,
    and skipped all the others.
  */
  lemma {:induction false} RunDone(accepts: (seq<string>, string) -> bool, readings: seq<Reading>, filter: Filter,
                                   i: nat, history: seq<string>, executed: nat, skipped: nat)
    requires i <= |readings|
    ensures var r := RunFrom(accepts, readings, filter, i, history, executed, skipped);
      r.outcome.Done? ==>
        r.history == history + PlannedFrom(readings, filter, i)
        && r.outcome.executed == executed + |PlannedFrom(readings, filter, i)|
        && r.outcome.skipped == skipped + SkippedFrom(readings, filter, i)
    decreases |readings| - i
  {
    if i < |readings| {
      RunDone(accepts, readings, filter, i + 1, history, executed, skipped + 1);
      match ActionAt(readings, filter, i)
      case Execute(sql) =>
        RunDone(accepts, readings, filter, i + 1, history + [sql], executed + 1, skipped);
        assert history + [sql] + PlannedFrom(readings, filter, i + 1) == history + PlannedFrom(readings, filter, i);
      case _ =>
    } else {
      assert history + [] == history;
    }
  }

  /** A run ends normally exactly when SQLite accepts every planned statement in turn. */
  lemma {:induction false} RunDoneIff(accepts: (seq<string>, string) -> bool, readings: seq<Reading>, filter: Filter,
                                      i: nat, history: seq<string>, executed: nat, skipped: nat)
    requires i <= |readings|
    ensures RunFrom(accepts, readings, filter, i, history, executed, skipped).outcome.Done?
      <==> AllAccepted(accepts, history, PlannedFrom(readings, filter, i))
    decreases |readings| - i
  {
    if i < |readings| {
      match ActionAt(readings, filter, i)
      case Execute(sql) =>
        RunDoneIff(accepts, readings, filter, i + 1, history + [sql], executed + 1, skipped);
        assert ([sql] + PlannedFrom(readings, filter, i + 1))[1..] == PlannedFrom(readings, filter, i + 1);
      case _ =>
        RunDoneIff(accepts, readings, filter, i + 1, history, executed, skipped + 1);
    }
  }

  /**
    A failed run names a statement of the dump, 1-based, that the loop was
    executing, together with the schema active at that point.
  */
  lemma {:induction false} RunFailed(accepts: (seq<string>, string) -> bool, readings: seq<Reading>, filter: Filter,
                                     i: nat, history: seq<string>, executed: nat, skipped: nat)
    requires i <= |readings|
    ensures var o := RunFrom(accepts, readings, filter, i, history, executed, skipped).outcome;
      o.Failed? ==>
        (i < o.index <= |readings|
         && ActionAt(readings, filter, o.index - 1) == Execute(o.statement)
         && o.schema == ActiveAfter(readings, o.index - 1))
    decreases |readings| - i
  {
    if i < |readings| {
      RunFailed(accepts, readings, filter, i + 1, history, executed, skipped + 1);
      match ActionAt(readings, filter, i)
      case Execute(sql) =>
        RunFailed(accepts, readings, filter, i + 1, history + [sql], executed + 1, skipped);
      case _ =>
    }
  }

  /** The active schema is the name given by the last `USE` read, and None before any. */
  lemma {:induction false} ActiveIsLastUse(readings: seq<Reading>, n: nat)
    requires n <= |readings|
    ensures ActiveAfter(readings, n).None? <==> forall j :: 0 <= j < n ==> readings[j].useName.None?
    ensures ActiveAfter(readings, n).Some? ==>
      exists j :: 0 <= j < n && readings[j].useName == ActiveAfter(readings, n)
        && forall k :: j < k < n ==> readings[k].useName.None?
    decreases n
  {
    if n > 0 {
      ActiveIsLastUse(readings, n - 1);
      if readings[n - 1].useName.None? && ActiveAfter(readings, n).Some? {
        var j :| 0 <= j < n - 1 && readings[j].useName == ActiveAfter(readings, n - 1)
          && forall k :: j < k < n - 1 ==> readings[k].useName.None?;
        assert forall k :: j < k < n ==> readings[k].useName.None?;
      }
    }
  }

  /** A schema set by `USE` is a non-empty name with no backtick, quote, semicolon or whitespace. */
  lemma ActiveSchemaName(statements: seq<string>, readings: seq<Reading>, n: nat)
    requires ReadsAs(statements, readings) && n <= |readings| && ActiveAfter(readings, n).Some?
    ensures ValidName(ActiveAfter(readings, n).value)
  {
    ActiveIsLastUse(readings, n);
    var j :| 0 <= j < n && readings[j].useName == ActiveAfter(readings, n)
      && forall k :: j < k < n ==> readings[k].useName.None?;
    assert readings[j] == ReadStatement(statements[j]);
  }

  /** For the whole dump: on success, executed plus skipped is the number of readings. */
  lemma ImportCounts(accepts: (seq<string>, string) -> bool, readings: seq<Reading>, filter: Filter, base: seq<string>)
    ensures var o := RunFrom(accepts, readings, filter, 0, base, 0, 0).outcome;
      o.Done? ==> o.executed + o.skipped == |readings|
  {
    RunDone(accepts, readings, filter, 0, base, 0, 0);
    PlannedAndSkipped(readings, filter, 0);
  }

  // ------------------------------------------------------------ the connection

  /** The SQLite connection: what earlier transactions committed, and the statements of the open one. */
  class Connection {
    const accepts: (seq<string>, string) -> bool
    var committed: seq<string>
    var pending: seq<string>

    constructor (accepts: (seq<string>, string) -> bool)
      ensures this.accepts == accepts && committed == [] && pending == []
    {
      this.accepts := accepts;
      committed := [];
      pending := [];
    }

    /** Everything applied so far, as the next statement sees it. */
    function History(): seq<string>
      reads this
    {
      committed + pending
    }

    /** `conn.execute(sql)`: a refused statement leaves the transaction as it was. */
    method Execute(sql: string) returns (ok: bool)
      modifies this
      ensures ok == accepts(old(History()), sql)
      ensures committed == old(committed)
      ensures pending == if ok then old(pending) + [sql] else old(pending)
    {
      ok := accepts(History(), sql);
      if ok {
        pending := pending + [sql];
      }
    }

    method Commit()
      modifies this
      ensures committed == old(committed) + old(pending) && pending == []
    {
      committed := committed + pending;
      pending := [];
    }

    method Rollback()
      modifies this
      ensures committed == old(committed) && pending == []
    {
      pending := [];
    }
  }

  /** `extract_use_database(statement.strip())` and `convert_statement(statement)` for statement `i`. */
  method ReadOne(statements: seq<string>, ghost readings: seq<Reading>, i: nat) returns (useDb: Option<string>, converted: Option<string>)
    requires ReadsAs(statements, readings) && i < |statements|
    ensures Reading(useDb, converted) == readings[i]
  {
    var statement := statements[i];
    assert readings[i] == ReadStatement(statement);
    useDb := ExtractUseDatabase(Strip(statement));
    converted := ConvertStatement(statement);
  }

  /** The loop over the statements, inside the transaction the caller has begun. */
  method ImportStatements(conn: Connection, statements: seq<string>, ghost readings: seq<Reading>, filter: Filter) returns (outcome: Outcome)
    requires ReadsAs(statements, readings) && conn.pending == []
    modifies conn
    ensures outcome == RunFrom(conn.accepts, readings, filter, 0, old(conn.committed), 0, 0).outcome
    ensures conn.committed == old(conn.committed)
    ensures outcome.Done? ==> conn.History() == RunFrom(conn.accepts, readings, filter, 0, old(conn.committed), 0, 0).history
  {
    assert conn.History() == old(conn.committed);
    ghost var run := RunFrom(conn.accepts, readings, filter, 0, conn.History(), 0, 0);
    var executed, skipped := 0, 0;
    var activeSchema: Option<string> := None;
    var index := 0;
    while index < |statements|
      invariant index <= |statements|
      invariant conn.committed == old(conn.committed)
      invariant activeSchema == ActiveAfter(readings, index)
      invariant run == RunFrom(conn.accepts, readings, filter, index, conn.History(), executed, skipped)
    {
      var useDb, converted := ReadOne(statements, readings, index);
      if useDb.Some? {
        RunSkips(conn.accepts, readings, filter, index, conn.History(), executed, skipped);
        activeSchema := useDb;
        skipped := skipped + 1;
        index := index + 1;
        continue;
      }
      if converted.None? || converted.value == [] {
        RunSkips(conn.accepts, readings, filter, index, conn.History(), executed, skipped);
        skipped := skipped + 1;
        index := index + 1;
        continue;
      }
      if Truthy(activeSchema) && filter.includeSchemas.Some? && activeSchema.value !in filter.includeSchemas.value {
        RunSkips(conn.accepts, readings, filter, index, conn.History(), executed, skipped);
        skipped := skipped + 1;
        index := index + 1;
        continue;
      }
      if Truthy(activeSchema) && filter.excludeSystem && activeSchema.value in SystemSchemas {
        RunSkips(conn.accepts, readings, filter, index, conn.History(), executed, skipped);
        skipped := skipped + 1;
        index := index + 1;
        continue;
      }
      assert ActionAt(readings, filter, index) == Execute(converted.value);
      ghost var before := conn.History();
      RunExecutes(conn.accepts, readings, filter, index, before, executed, skipped, converted.value);
      var ok := conn.Execute(converted.value);
      if !ok {
        assert conn.History() == before;
        return Failed(index + 1, activeSchema, converted.value);
      }
      assert conn.History() == before + [converted.value];
      executed := executed + 1;
      index := index + 1;
    }
    outcome := Done(executed, skipped);
  }

  /** `import_dump` once the dump is read: strip comments, split, run the loop, then commit or roll back. */
  method ImportDump(conn: Connection, rawText: string, filter: Filter) returns (outcome: Outcome)
    requires conn.pending == []
    modifies conn
    ensures var run := RunFrom(conn.accepts, ReadAll(Split(StripComments(rawText))), filter, 0, old(conn.committed), 0, 0);
      outcome == run.outcome
      && (outcome.Done? ==> conn.committed == run.history)
      && (outcome.Failed? ==> conn.committed == old(conn.committed))
      && conn.pending == []
  {
    var text := StripCommentLines(rawText);
    var statements := SplitSqlStatements(text);
    ReadAllReads(statements);
    outcome := ImportStatements(conn, statements, ReadAll(statements), filter);
    if outcome.Done? {
      conn.Commit();
    } else {
      conn.Rollback();
    }
  }
}
