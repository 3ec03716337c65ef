/** The migration runner over a database with a schema and a tracking table, where any statement may fail at any time. */
module MigrationRunner {
  import opened Options
  import opened Migrations

  datatype Error =
    | ChecksumMismatch(version: int)
    | NoDefinition(version: int)
    | StatementFailed

  class MigrationRunner<S(!new), D> {
    const execute: Engine<S, D>
    var schema: S
    /** The tracking table, in the order of insertion. */
    var table: seq<Record>
    /** What the open transaction would restore. */
    var savedSchema: S
    var savedTable: seq<Record>
    /** The schema before any migration, and the migrations that were recorded. */
    ghost const base: S
    ghost var history: seq<Migration<D>>

    /** The schema is what the recorded migrations make of the base. */
    ghost predicate Faithful()
      reads `schema, `table, `history
    {
      && table == Records(history)
      && UniqueVersions(table)
      && Applied(execute, base, history) == Some(schema)
    }

    constructor (execute: Engine<S, D>, schema: S)
      ensures Faithful() && table == [] && history == [] && this.schema == base == schema && this.execute == execute
    {
      this.execute, this.schema, base := execute, schema, schema;
      table, history, savedSchema, savedTable := [], [], schema, [];
    }

    // ------------------------------------------------- one transaction

    method Begin()
      modifies `savedSchema, `savedTable
      ensures savedSchema == schema && savedTable == table
    {
      savedSchema, savedTable := schema, table;
    }

    method RollBackTransaction()
      modifies `schema, `table
      ensures schema == savedSchema && table == savedTable
    {
      schema, table := savedSchema, savedTable;
    }

    /** One statement; it may also fail for reasons of its own. */
    method Execute(statement: D) returns (ok: bool)
      modifies `schema
      ensures ok ==> execute(old(schema), statement) == Some(schema)
      ensures !ok ==> schema == old(schema)
    {
      ok := *;
      var next := execute(schema, statement);
      ok := ok && next.Some?;
      if ok {
        schema := next.value;
      }
    }

    method ExecuteAll(statements: seq<D>) returns (ok: bool)
      modifies `schema
      ensures ok ==> RunAll(execute, old(schema), statements) == Some(schema)
    {
      ok := true;
      for i := 0 to |statements|
        invariant RunAll(execute, old(schema), statements[..i]) == Some(schema)
      {
        ok := Execute(statements[i]);
        if !ok {
          return;
        }
        assert statements[..i + 1][..i] == statements[..i];
      }
      assert statements[..|statements|] == statements;
    }

    /** up() and the record, in one transaction. */
    method ApplyMigration(m: Migration<D>) returns (r: Result<(), Error>)
      modifies `schema, `table, `savedSchema, `savedTable
      ensures r.Ok? ==>
        !HasVersion(old(table), m.version) && table == old(table) + [RecordOf(m)]
        && RunAll(execute, old(schema), m.up) == Some(schema)
      ensures r.Err? ==> r == Err(StatementFailed) && schema == old(schema) && table == old(table)
    {
      Begin();
      var ok := ExecuteAll(m.up);
      if ok && !HasVersion(table, m.version) {
        table := table + [RecordOf(m)];
        var committed := *;
        if committed {
          return Ok(());
        }
      }
      RollBackTransaction();
      r := Err(StatementFailed);
    }

    /** down() and the removal of the record, in one transaction. */
    method RevertMigration(m: Migration<D>) returns (r: Result<(), Error>)
      modifies `schema, `table, `savedSchema, `savedTable
      ensures r.Ok? ==> RunAll(execute, old(schema), m.down) == Some(schema) && table == Without(old(table), m.version)
      ensures r.Err? ==> r == Err(StatementFailed) && schema == old(schema) && table == old(table)
    {
      Begin();
      var ok := ExecuteAll(m.down);
      if ok {
        table := Without(table, m.version);
        var committed := *;
        if committed {
          return Ok(());
        }
      }
      RollBackTransaction();
      r := Err(StatementFailed);
    }

    // ------------------------------------------------------------- run

    /** Applied migrations must not have been modified. */
    method ValidateChecksums(migrations: seq<Migration<D>>) returns (r: Result<(), Error>)
      ensures r.Ok? <==> ChecksumsMatch(table, migrations)
      ensures r.Err? ==> r.error.ChecksumMismatch?
    {
      for k := 0 to |migrations|
        invariant ChecksumsMatch(table, migrations[..k])
      {
        if j: nat :| j < |table| && table[j].version == migrations[k].version && table[j].checksum != migrations[k].checksum {
          assert migrations[k] in migrations;
          return Err(ChecksumMismatch(migrations[k].version));
        }
      }
      r := Ok(());
    }

    /** Applies migrations one by one, each in its own transaction, and stops at the first failure. */
    method ApplyAll(pending: seq<Migration<D>>) returns (r: Result<(), Error>)
      requires Faithful()
      modifies `schema, `table, `savedSchema, `savedTable, `history
      ensures Faithful() && old(history) <= history <= old(history) + pending
      ensures if r.Ok? then history == old(history) + pending else r == Err(StatementFailed) && history < old(history) + pending
    {
      for i := 0 to |pending|
        invariant Faithful() && history == old(history) + pending[..i]
      {
        ghost var before := schema;
        r := ApplyMigration(pending[i]);
        if r.Err? {
          return;
        }
        AppliedSnoc(execute, base, history, pending[i], before);
        history := history + [pending[i]];
      }
      r := Ok(());
    }

    /** Applies what is pending, in version order; a second run finds nothing to do. */
    method Run(migrations: seq<Migration<D>>) returns (r: Result<(), Error>)
      requires Faithful()
      modifies `schema, `table, `savedSchema, `savedTable, `history
      ensures Faithful() && old(history) <= history <= old(history) + Pending(old(table), migrations)
      ensures r.Err? && r.error.ChecksumMismatch? <==> !ChecksumsMatch(old(table), migrations)
      ensures r.Err? && r.error.ChecksumMismatch? ==> history == old(history) && schema == old(schema)
      ensures r.Err? && !r.error.ChecksumMismatch? ==> history < old(history) + Pending(old(table), migrations)
      ensures r.Ok? ==> history == old(history) + Pending(old(table), migrations)
      ensures r.Ok? ==> Pending(table, migrations) == [] && ChecksumsMatch(table, migrations)
      ensures ChecksumsMatch(old(table), migrations) && Pending(old(table), migrations) == [] ==>
        r.Ok? && table == old(table) && schema == old(schema)
      ensures Increasing(old(table)) && InOrder(old(table), migrations) ==> Increasing(table)
    {
      hide ChecksumsMatch, UniqueVersions, Increasing, InOrder, Pending, Records, Applied;
      r := ValidateChecksums(migrations);
      if r.Err? {
        return;
      }
      ghost var table0, history0 := table, history;
      var pending := Pending(table, migrations);
      r := ApplyAll(pending);
      ghost var done := history[|history0|..];
      RecordsSplit(history0, done);
      assert history == history0 + done;
      assert pending == [] ==> history0 + pending == history0;
      if r.Ok? {
        NothingLeft(table0, migrations);
      }
      if Increasing(table0) && InOrder(table0, migrations) {
        PartStaysIncreasing(table0, migrations, done);
      }
    }

    static lemma RecordsSplit(a: seq<Migration<D>>, b: seq<Migration<D>>)
      ensures Records(a + b) == Records(a) + Records(b)
    {
    }

    // -------------------------------------------------------- rollback

    /** The definitions given are those that were recorded, and their down() undoes their up(). */
    ghost predicate Undoable(migrations: seq<Migration<D>>)
      reads `history
    {
      forall i :: 0 <= i < |history| ==>
        Reversible(execute, history[i]) && Definition(migrations, history[i].version) in {None, Some(history[i])}
    }

    /** Takes back one recorded migration. */
    method RevertOne(migrations: seq<Migration<D>>, record: Record) returns (r: Result<(), Error>)
      modifies `schema, `table, `savedSchema, `savedTable
      ensures r.Ok? ==> table == Without(old(table), record.version)
      ensures r.Ok? ==> Definition(migrations, record.version).Some?
      ensures r.Ok? ==> RunAll(execute, old(schema), Definition(migrations, record.version).value.down) == Some(schema)
      ensures r.Err? ==> schema == old(schema) && table == old(table)
      ensures r.Err? ==> r.error == if Definition(migrations, record.version).None? then NoDefinition(record.version) else StatementFailed
    {
      var definition := Definition(migrations, record.version);
      if definition.None? {
        return Err(NoDefinition(record.version));
      }
      DefinesVersion(migrations, record.version);
      r := RevertMigration(definition.value);
    }

    /** Takes back recorded migrations one by one, and stops at the first failure, after `done` of them. */
    method RevertAll(migrations: seq<Migration<D>>, records: seq<Record>) returns (r: Result<(), Error>, ghost done: nat)
      modifies `schema, `table, `savedSchema, `savedTable
      ensures done <= |records| && (r.Ok? <==> done == |records|)
      ensures table == Removed(old(table), records[..done])
      ensures Undone(execute, old(schema), migrations, records[..done]) == Some(schema)
      ensures r.Err? ==> r.error == if Definition(migrations, records[done].version).None? then NoDefinition(records[done].version) else StatementFailed
    {
      hide Definition, Without, RunAll;
      done := 0;
      for i := 0 to |records|
        invariant done == i && table == Removed(old(table), records[..i])
        invariant Undone(execute, old(schema), migrations, records[..i]) == Some(schema)
      {
        r := RevertOne(migrations, records[i]);
        if r.Err? {
          return;
        }
        assert records[..i + 1][..i] == records[..i];
        done := i + 1;
      }
      assert records[..|records|] == records;
      r := Ok(());
    }

    /** Takes back the last `steps` migrations in version order, the highest first. Where that is the order in which they were applied,
        the schema is that of the recorded ones again. */
    method Rollback(migrations: seq<Migration<D>>, steps: int) returns (r: Result<(), Error>, ghost done: nat)
      modifies `schema, `table, `savedSchema, `savedTable, `history
      ensures var order := Reversed(ByVersion(old(table))[SliceStart(|ByVersion(old(table))|, steps)..]);
        && done <= |order| && (r.Ok? <==> done == |order|)
        && (r.Err? ==> r.error == if Definition(migrations, order[done].version).None? then NoDefinition(order[done].version) else StatementFailed)
        && table == Removed(old(table), order[..done])
        && Undone(execute, old(schema), migrations, order[..done]) == Some(schema)
      ensures old(Faithful() && Undoable(migrations) && Increasing(table)) ==>
        && Faithful() && Increasing(table) && |table| + done == |old(table)|
        && table == old(table)[..|table|] && history == old(history)[..|table|]
        && (r.Ok? <==> |table| == SliceStart(|old(table)|, steps))
    {
      hide Definition, Applied, UniqueVersions, Reversed, ByVersion, Undone, Removed, Reversible;
      var applied := ByVersion(table);
      if |applied| == 0 {
        NoneApplied(table, execute, schema, migrations, SliceStart(|applied|, steps));
        return Ok(()), 0;
      }
      ghost var nice, schema0, table0 := Faithful() && Undoable(migrations) && Increasing(table), schema, table;
      var start := SliceStart(|applied|, steps);
      r, done := RevertAll(migrations, Reversed(applied[start..]));
      if nice {
        AlreadyByVersion(table0);
        Shortened(execute, base, history, schema0, table0, migrations, start, done, schema);
        history := history[..|history| - done];
      }
    }

    static lemma NoneApplied(table: seq<Record>, execute: Engine<S, D>, schema: S, migrations: seq<Migration<D>>, start: nat)
      requires |ByVersion(table)| == 0 && start == 0
      ensures Reversed(ByVersion(table)[start..]) == [] && Reversed([])[..0] == [] && table == []
      ensures Removed(table, Reversed([])[..0]) == table && Undone(execute, schema, migrations, Reversed([])[..0]) == Some(schema)
    {
      ByVersionAscends(table);
    }

    /** What is left of a table in version order when migrations were taken back from its end. */
    static lemma Shortened(execute: Engine<S, D>, base: S, history: seq<Migration<D>>, schema: S, table: seq<Record>,
                           migrations: seq<Migration<D>>, start: nat, done: nat, after: S)
      requires table == Records(history) && UniqueVersions(table) && Applied(execute, base, history) == Some(schema)
      requires forall i :: 0 <= i < |history| ==>
        Reversible(execute, history[i]) && Definition(migrations, history[i].version) in {None, Some(history[i])}
      requires start <= |table| && done <= |table| - start && Increasing(table)
      requires Undone(execute, schema, migrations, Reversed(table[start..])[..done]) == Some(after)
      ensures Applied(execute, base, history[..|history| - done]) == Some(after)
      ensures Removed(table, Reversed(table[start..])[..done]) == table[..|table| - done] == Records(history[..|history| - done])
      ensures UniqueVersions(table[..|table| - done]) && Increasing(table[..|table| - done])
    {
      hide Reversible, Definition, Applied, Undone, Removed, Reversed;
      UndoneIsPrefix(execute, base, history, schema, migrations, table[start..], done, after);
    }

    /** Takes back everything after a version, the highest first. Where that is the order of application, the schema is again
        what it was when the last version up to the target was recorded. */
    method RollbackTo(migrations: seq<Migration<D>>, version: int) returns (r: Result<(), Error>, ghost done: nat)
      modifies `schema, `table, `savedSchema, `savedTable, `history
      ensures var order := Reversed(After(ByVersion(old(table)), version));
        && done <= |order| && (r.Ok? <==> done == |order|)
        && (r.Err? ==> r.error == if Definition(migrations, order[done].version).None? then NoDefinition(order[done].version) else StatementFailed)
        && table == Removed(old(table), order[..done])
        && Undone(execute, old(schema), migrations, order[..done]) == Some(schema)
      ensures old(Faithful() && Undoable(migrations) && Increasing(table)) ==>
        && Faithful() && Increasing(table) && |table| + done == |old(table)|
        && table == old(table)[..|table|] && history == old(history)[..|table|]
        && (r.Ok? <==> |table| == CountUpTo(old(table), version))
        && (r.Ok? ==> Some(schema) == Applied(execute, base, old(history)[..CountUpTo(old(table), version)]))
    {
      hide Definition, Applied, UniqueVersions, Reversed, ByVersion, Undone, Removed, Reversible, After, CountUpTo;
      var applied := ByVersion(table);
      ghost var nice, schema0, table0 := Faithful() && Undoable(migrations) && Increasing(table), schema, table;
      var toRollback := Reversed(After(applied, version));
      if nice {
        AlreadyByVersion(table);
        AfterIsSuffix(table, version);
      }
      if |toRollback| == 0 {
        NothingUndone(execute, schema, migrations, table, toRollback);
        return Ok(()), 0;
      }
      r, done := RevertAll(migrations, toRollback);
      if nice {
        Shortened(execute, base, history, schema0, table0, migrations, CountUpTo(table0, version), done, schema);
        history := history[..|history| - done];
      }
    }

    static lemma NothingUndone(execute: Engine<S, D>, schema: S, migrations: seq<Migration<D>>, table: seq<Record>, records: seq<Record>)
      requires |records| == 0
      ensures Removed(table, records[..0]) == table && Undone(execute, schema, migrations, records[..0]) == Some(schema)
    {
    }
  }

  // --------------------------------------- migrations out of their order

  datatype Change = Add | Double

  function Arithmetic(n: int, change: Change): Option<int> {
    Some(match change case Add => n + 1 case Double => 2 * n)
  }

  /** A migration below a recorded version is still applied, after it. */
  lemma LateIsPending<D>(first: Migration<D>, late: Migration<D>)
    requires late.version < first.version
    ensures Pending([RecordOf(first)], [late]) == [late] && !InOrder([RecordOf(first)], [late])
  {
    var table, migrations := [RecordOf(first)], [late];
    assert table[0].version == first.version && migrations[0] in migrations && !HasVersion(table, late.version);
    assert migrations[..0] == [] && Pending(table, migrations[..0]) == [];
  }

  /** From whatever the schema was, it is then no longer what up() in version order makes. */
  lemma OutOfOrder(base: int, first: Migration<Change>, late: Migration<Change>)
    requires late.version < first.version && first.up == [Double] && late.up == [Add]
    ensures Pending([RecordOf(first)], [late]) == [late] && !InOrder([RecordOf(first)], [late])
    ensures Applied(Arithmetic, base, [first] + [late]) == Some(2 * base + 1)
    ensures Applied(Arithmetic, base, [late] + [first]) == Some(2 * base + 2)
  {
    hide Pending, InOrder;
    LateIsPending(first, late);
    assert Applied(Arithmetic, base, []) == Some(base);
    assert forall n :: RunAll(Arithmetic, n, []) == Some(n);
    assert forall n :: RunAll(Arithmetic, n, [Double]) == Some(2 * n) && RunAll(Arithmetic, n, [Add]) == Some(n + 1);
    AppliedSnoc(Arithmetic, base, [], first, base);
    assert [] + [first] == [first] && [] + [late] == [late];
    hide Applied, RunAll;
    AppliedSnoc(Arithmetic, base, [first], late, 2 * base);
    AppliedSnoc(Arithmetic, base, [], late, base);
    AppliedSnoc(Arithmetic, base, [late], first, base + 1);
  }
}
