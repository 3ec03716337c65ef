/** What down() makes of tables and columns after up(): what it does to each, and when it leads back. */
module SchemaDown {
  import opened Options
  import opened SqlTypes
  import opened SchemaChange
  import opened DdlGenerator
  import opened SchemaDiff
  import opened SchemaMigration

  /** The changes of down(), in any order. */
  ghost predicate DownChangesOf(entities: seq<Entity>, info: seq<TableInfo>, changes: seq<TableChange>) {
    DistinctTables(changes) && forall x :: x in changes <==> DownTable(entities, info, x.table) == Some(x)
  }

  /** Every table that down() names, all in the default schema, allows its change. */
  ghost predicate DownFitsAll(entities: seq<Entity>, info: seq<TableInfo>, dialect: Dialect, tables: Tables) {
    forall t :: DownTable(entities, info, t).Some? ==>
      TableAfter(dialect, At(tables, (dialect.default, t)), DownTable(entities, info, t).value).Some?
  }

  /** Tables and columns allow the changes exactly when every table allows its own; then each has it. */
  lemma ReshapesAnyOrder(entities: seq<Entity>, info: seq<TableInfo>, dialect: Dialect, after: Tables, changes: seq<TableChange>)
    requires DownChangesOf(entities, info, changes)
    ensures ReshapeAll(dialect, after, AllStatements(None, changes)).Some? <==> DownFitsAll(entities, info, dialect, after)
    ensures ReshapeAll(dialect, after, AllStatements(None, changes)).Some? ==>
      DownDone(entities, info, dialect, after, ReshapeAll(dialect, after, AllStatements(None, changes)).value)
  {
    hide AllStatements, ReshapeAll, DistinctTables, TableAfter, DownTable;
    ReshapesByName(dialect, after, None, changes);
    forall t | DownTable(entities, info, t).Some?
      ensures DownTable(entities, info, t).value in changes && DownTable(entities, info, t).value.table == t
    {
      UpTableNamed(entities, info, t);
    }
    if ReshapeAll(dialect, after, AllStatements(None, changes)).Some? {
      TablesHoldByName(dialect, after, None, changes);
      var back := ReshapeAll(dialect, after, AllStatements(None, changes)).value;
      forall t ensures ForTable(dialect, At(after, (dialect.default, t)), At(back, (dialect.default, t)), DownTable(entities, info, t)) {
        assert Key(None, dialect, t) == (dialect.default, t);
      }
    }
  }

  lemma DownTablesAre(entities: seq<Entity>, info: seq<TableInfo>)
    requires DistinctEntities(entities) && DistinctInfo(info)
    ensures DownChangesOf(entities, info, DownTables(DiffOf(entities, info)))
  {
    var changes := DownTables(DiffOf(entities, info));
    hide DownTables, DiffOf, DistinctTables, DownTable;
    TableChangesDistinct(entities, info);
    forall x: TableChange ensures x in changes <==> DownTable(entities, info, x.table) == Some(x) {
      TablesExactly(entities, info, x);
    }
  }

  lemma DownReshapesExactly(entities: seq<Entity>, info: seq<TableInfo>, dialect: Dialect, after: Tables)
    requires DistinctEntities(entities) && DistinctInfo(info)
    ensures ReshapeAll(dialect, after, DownStatements(entities, info)).Some? <==> DownFitsAll(entities, info, dialect, after)
    ensures ReshapeAll(dialect, after, DownStatements(entities, info)).Some? ==>
      DownDone(entities, info, dialect, after, ReshapeAll(dialect, after, DownStatements(entities, info)).value)
  {
    hide ReshapeAll, AllStatements, DownTables, DiffOf, DownChangesOf, DownFitsAll, DownDone;
    DownTablesAre(entities, info);
    ReshapesAnyOrder(entities, info, dialect, after, DownTables(DiffOf(entities, info)));
  }

  // ---------------------------------------------- in the same schema

  /** The columns of an entity's table are where down() expects them. */
  lemma DownFits(entities: seq<Entity>, info: seq<TableInfo>, dialect: Dialect, db: Tables, s: string, after: Tables, t: string)
    requires DistinctEntities(entities) && Introspects(info, dialect, db, s)
    requires ForTable(dialect, At(db, (s, t)), At(after, (s, t)), UpTable(entities, info, t))
    requires DownTable(entities, info, t).Some?
    ensures TableAfter(dialect, At(after, (s, t)), DownTable(entities, info, t).value).Some?
  {
    UpCells(entities, info, dialect, db, s, after, t);
    hide Compared, NoChange, DownChanges, ColumnsOf, CreatedColumns, ChangedAll, EntityOf, InfoOf, UpTable, UpChange, UpCell, DownChange;
    var e, listed := EntityOf(entities, t), InfoOf(info, t);
    if e.Some? && listed.Some? {
      EntityOfSome(entities, t);
      DownColumns(e.value, dialect, after[(s, t)], listed.value);
      forall c | DownChange(ColumnsOf(e.value), listed.value, c).Some?
        ensures Fits(after[(s, t)], DownChange(ColumnsOf(e.value), listed.value, c).value)
      {
        assert Cell(after, (s, t), c) == At(after[(s, t)], c);
        DownFitsColumn(e.value, dialect, listed.value, Cell(db, (s, t), c), after[(s, t)], c);
      }
    }
  }

  lemma DownFitsColumn(e: Entity, dialect: Dialect, listed: seq<Column>, before: Option<Stored>, after: Columns, c: string)
    requires At(after, c) == UpCell(e, dialect, Some(listed), before, c) && DownChange(ColumnsOf(e), listed, c).Some?
    ensures Fits(after, DownChange(ColumnsOf(e), listed, c).value)
  {
    hide NormalizeType, ColumnsOf, TypeIn;
  }

  /** After up() they always do. */
  lemma DownReshapes(entities: seq<Entity>, info: seq<TableInfo>, dialect: Dialect, db: Tables, after: Tables)
    returns (back: Tables)
    requires DistinctEntities(entities) && Introspects(info, dialect, db, dialect.default)
    requires UpDone(entities, info, dialect, db, after, dialect.default)
    ensures ReshapeAll(dialect, after, DownStatements(entities, info)) == Some(back)
    ensures DownDone(entities, info, dialect, after, back)
  {
    hide AllStatements, ReshapeAll, DownTables, DiffOf, TableAfter, DownTable, UpTable, ForTable;
    DownReshapesExactly(entities, info, dialect, after);
    forall t | DownTable(entities, info, t).Some?
      ensures TableAfter(dialect, At(after, (dialect.default, t)), DownTable(entities, info, t).value).Some?
    {
      DownFits(entities, info, dialect, db, dialect.default, after, t);
    }
    back := ReshapeAll(dialect, after, DownStatements(entities, info)).value;
  }

  lemma DownCells(entities: seq<Entity>, info: seq<TableInfo>, dialect: Dialect, db: Tables, s: string,
                  after: Tables, back: Tables, t: string)
    requires DistinctEntities(entities) && Introspects(info, dialect, db, s)
    requires ForTable(dialect, At(db, (s, t)), At(after, (s, t)), UpTable(entities, info, t))
    requires ForTable(dialect, At(after, (s, t)), At(back, (s, t)), DownTable(entities, info, t))
    ensures (s, t) in back <==> EntityOf(entities, t).Some? && InfoOf(info, t).Some?
    ensures (s, t) in back ==> forall c ::
      Cell(back, (s, t), c) == Then(dialect, Cell(after, (s, t), c), DownChange(ColumnsOf(EntityOf(entities, t).value), InfoOf(info, t).value, c))
  {
    UpCells(entities, info, dialect, db, s, after, t);
    hide NoChange, Compared, ColumnsOf, CreatedColumns, DownChanges, UpChange, DownChange, EntityOf, InfoOf, TypeIn, UpTable, UpCell;
    var e, listed := EntityOf(entities, t), InfoOf(info, t);
    if e.Some? && listed.Some? {
      EntityOfSome(entities, t);
      NoChangeExactly(e.value, listed.value);
      forall c ensures UpChange(ColumnsOf(e.value), listed.value, c).None? <==> DownChange(ColumnsOf(e.value), listed.value, c).None? {
        BothOrNeither(ColumnsOf(e.value), listed.value, c);
      }
      DownColumns(e.value, dialect, after[(s, t)], listed.value);
    }
  }

  /** A changed type is restored if what the introspector reports denotes it, a dropped column only if it had the type of a TEXT. */
  predicate ColumnRestored(e: Entity, dialect: Dialect, listed: seq<Column>, before: Option<Stored>, c: string) {
    match UpChange(ColumnsOf(e), listed, c)
    case Some(AlterType(_, _)) => before.Some? && dialect.denotes(dialect.report(before.value)) == before.value
    case Some(DropColumn(_)) => before == Some(dialect.denotes("TEXT"))
    case _ => true
  }

  lemma ColumnBack(e: Entity, listed: seq<Column>, columns: Columns, dialect: Dialect, c: string)
    requires Reports(dialect, listed, columns)
    ensures Then(dialect, UpCell(e, dialect, Some(listed), At(columns, c), c), DownChange(ColumnsOf(e), listed, c)) == At(columns, c)
      <==> ColumnRestored(e, dialect, listed, At(columns, c), c)
  {
    hide NormalizeType, ColumnsOf, TypeIn;
  }

  ghost predicate TableRestored(entities: seq<Entity>, info: seq<TableInfo>, dialect: Dialect, db: Tables, s: string, t: string) {
    InfoOf(info, t).Some? ==>
      EntityOf(entities, t).Some? &&
      forall c :: ColumnRestored(EntityOf(entities, t).value, dialect, InfoOf(info, t).value, Cell(db, (s, t), c), c)
  }

  lemma SameColumns(a: Columns, b: Columns)
    ensures a == b <==> forall c :: At(a, c) == At(b, c)
  {
    if forall c :: At(a, c) == At(b, c) {
      assert forall c :: c in a ==> At(b, c) == Some(a[c]);
      assert forall c :: c in b ==> At(a, c) == Some(b[c]);
    }
  }

  lemma TableBack(entities: seq<Entity>, info: seq<TableInfo>, dialect: Dialect, db: Tables, s: string,
                  after: Tables, back: Tables, t: string)
    requires DistinctEntities(entities) && Introspects(info, dialect, db, s)
    requires ForTable(dialect, At(db, (s, t)), At(after, (s, t)), UpTable(entities, info, t))
    requires ForTable(dialect, At(after, (s, t)), At(back, (s, t)), DownTable(entities, info, t))
    ensures At(back, (s, t)) == At(db, (s, t)) <==> TableRestored(entities, info, dialect, db, s, t)
  {
    UpCells(entities, info, dialect, db, s, after, t);
    DownCells(entities, info, dialect, db, s, after, back, t);
    hide ForTable, ColumnsOf, UpChange, DownChange, EntityOf, InfoOf, TypeIn, UpTable, DownTable, UpCell, ColumnRestored, Reports;
    if EntityOf(entities, t).Some? && InfoOf(info, t).Some? {
      var e, listed := EntityOf(entities, t).value, InfoOf(info, t).value;
      SameColumns(back[(s, t)], db[(s, t)]);
      forall c ensures At(back[(s, t)], c) == At(db[(s, t)], c) <==> ColumnRestored(e, dialect, listed, Cell(db, (s, t), c), c) {
        assert Cell(back, (s, t), c) == At(back[(s, t)], c) && Cell(db, (s, t), c) == At(db[(s, t)], c);
        ColumnBack(e, listed, db[(s, t)], dialect, c);
      }
    }
  }

  lemma SameTables(a: Tables, b: Tables, s: string)
    requires forall key: (string, string) :: key.0 != s ==> At(a, key) == At(b, key)
    ensures a == b <==> forall t :: At(a, (s, t)) == At(b, (s, t))
  {
    if forall t :: At(a, (s, t)) == At(b, (s, t)) {
      forall key: (string, string) ensures At(a, key) == At(b, key) {
        assert key == (key.0, key.1);
      }
      assert forall key :: key in a ==> At(b, key) == Some(a[key]);
      assert forall key :: key in b ==> At(a, key) == Some(b[key]);
    }
  }

  lemma RestoresHere(entities: seq<Entity>, info: seq<TableInfo>, dialect: Dialect, db: Tables, after: Tables)
    requires DistinctEntities(entities) && Introspects(info, dialect, db, dialect.default)
    requires UpDone(entities, info, dialect, db, after, dialect.default)
    ensures ReshapeAll(dialect, after, DownStatements(entities, info)) == Some(db)
      <==> forall t :: TableRestored(entities, info, dialect, db, dialect.default, t)
  {
    hide ReshapeAll, DownStatements, ForTable, UpTable, DownTable, Introspects, TableRestored;
    var back := DownReshapes(entities, info, dialect, db, after);
    forall t
      ensures At(back, (dialect.default, t)) == At(db, (dialect.default, t)) <==> TableRestored(entities, info, dialect, db, dialect.default, t)
    {
      TableBack(entities, info, dialect, db, dialect.default, after, back, t);
    }
    SameTables(back, db, dialect.default);
  }

  // -------------------------------------------------- in another schema

  /** What up() does to this column of the other schema changes nothing, and neither does down() to that of the default one:
      both have exactly the types that the statements set. */
  predicate ColumnStays(e: Entity, dialect: Dialect, listed: seq<Column>, here: Option<Stored>, there: Option<Stored>, c: string) {
    match UpChange(ColumnsOf(e), listed, c)
    case None => true
    case Some(AlterType(_, wanted)) => here == Some(dialect.denotes(wanted)) && there == Denoted(dialect, TypeIn(listed, c))
    case Some(_) => false
  }

  ghost predicate TableStays(entities: seq<Entity>, info: seq<TableInfo>, dialect: Dialect, db: Tables, s: string, t: string) {
    match (EntityOf(entities, t), InfoOf(info, t))
    case (None, None) => true
    case (Some(e), Some(listed)) => forall c :: ColumnStays(e, dialect, listed, Cell(db, (s, t), c), Cell(db, (dialect.default, t), c), c)
    case _ => false
  }

  lemma ColumnStaysExactly(e: Entity, listed: seq<Column>, here: Columns, there: Columns, dialect: Dialect, c: string)
    requires Reports(dialect, listed, here)
    ensures ColumnStays(e, dialect, listed, At(here, c), At(there, c), c) <==>
      && At(here, c) == Then(dialect, At(here, c), UpChange(ColumnsOf(e), listed, c))
      && At(there, c) == Then(dialect, At(there, c), DownChange(ColumnsOf(e), listed, c))
      && (DownChange(ColumnsOf(e), listed, c).Some? ==> Fits(there, DownChange(ColumnsOf(e), listed, c).value))
  {
    hide NormalizeType, ColumnsOf, TypeIn;
  }

  lemma UpKeeps(e: Entity, columns: Columns, listed: seq<Column>, dialect: Dialect)
    requires Distinct(ColumnsOf(e)) && Reports(dialect, listed, columns)
    ensures ChangedAll(dialect, columns, UpChanges(Compared(e, listed))) == Some(columns)
      <==> forall c :: At(columns, c) == Then(dialect, At(columns, c), UpChange(ColumnsOf(e), listed, c))
  {
    hide UpChange, ColumnsOf, Compared, UpChanges, ChangedAll;
    UpColumns(e, dialect, columns, listed);
    SameColumns(ChangedAll(dialect, columns, UpChanges(Compared(e, listed))).value, columns);
  }

  lemma DownKeeps(e: Entity, dialect: Dialect, columns: Columns, listed: seq<Column>)
    requires Distinct(ColumnsOf(e)) && Distinct(listed)
    ensures ChangedAll(dialect, columns, DownChanges(Compared(e, listed))) == Some(columns)
      <==> forall c ::
        && At(columns, c) == Then(dialect, At(columns, c), DownChange(ColumnsOf(e), listed, c))
        && (DownChange(ColumnsOf(e), listed, c).Some? ==> Fits(columns, DownChange(ColumnsOf(e), listed, c).value))
  {
    hide DownChange, ColumnsOf, Compared, DownChanges, ChangedAll;
    DownColumns(e, dialect, columns, listed);
    if ChangedAll(dialect, columns, DownChanges(Compared(e, listed))).Some? {
      SameColumns(ChangedAll(dialect, columns, DownChanges(Compared(e, listed))).value, columns);
    }
  }

  lemma ModifiedStays(e: Entity, listed: seq<Column>, here: Columns, there: Option<Columns>, dialect: Dialect)
    requires Distinct(ColumnsOf(e)) && Reports(dialect, listed, here) && !NoChange(Compared(e, listed))
    ensures (forall c :: ColumnStays(e, dialect, listed, At(here, c), if there.Some? then At(there.value, c) else None, c)) <==>
      && ChangedAll(dialect, here, UpChanges(Compared(e, listed))) == Some(here)
      && there.Some? && ChangedAll(dialect, there.value, DownChanges(Compared(e, listed))) == there
  {
    hide UpChange, DownChange, ColumnsOf, Compared, UpChanges, DownChanges, ChangedAll, NoChange, ColumnStays, Reports;
    ReportsDistinct(listed, here, dialect);
    UpKeeps(e, here, listed, dialect);
    NoChangeExactly(e, listed);
    var c0 :| UpChange(ColumnsOf(e), listed, c0).Some?;
    if there.Some? {
      DownKeeps(e, dialect, there.value, listed);
      forall c ensures ColumnStays(e, dialect, listed, At(here, c), At(there.value, c), c) <==>
        && At(here, c) == Then(dialect, At(here, c), UpChange(ColumnsOf(e), listed, c))
        && At(there.value, c) == Then(dialect, At(there.value, c), DownChange(ColumnsOf(e), listed, c))
        && (DownChange(ColumnsOf(e), listed, c).Some? ==> Fits(there.value, DownChange(ColumnsOf(e), listed, c).value))
      {
        ColumnStaysExactly(e, listed, here, there.value, dialect, c);
      }
    } else {
      NeverWithoutTable(e, dialect, listed, At(here, c0), c0);
    }
  }

  lemma NeverWithoutTable(e: Entity, dialect: Dialect, listed: seq<Column>, here: Option<Stored>, c: string)
    requires UpChange(ColumnsOf(e), listed, c).Some?
    ensures !ColumnStays(e, dialect, listed, here, None, c)
  {
    hide NormalizeType, ColumnsOf, TypeIn;
  }

  lemma TableStaysExactly(entities: seq<Entity>, info: seq<TableInfo>, dialect: Dialect, db: Tables, s: string, t: string)
    requires DistinctEntities(entities) && Introspects(info, dialect, db, s)
    ensures TableStays(entities, info, dialect, db, s, t) <==>
      && ForTable(dialect, At(db, (s, t)), At(db, (s, t)), UpTable(entities, info, t))
      && ForTable(dialect, At(db, (dialect.default, t)), At(db, (dialect.default, t)), DownTable(entities, info, t))
  {
    hide NoChange, Compared, ColumnsOf, CreatedColumns, UpChanges, DownChanges, UpChange, EntityOf, InfoOf, ChangedAll, ColumnStays;
    hide Reports, Distinct;
    if EntityOf(entities, t).Some? && InfoOf(info, t).Some? {
      var e, listed, here, there := EntityOf(entities, t).value, InfoOf(info, t).value, db[(s, t)], At(db, (dialect.default, t));
      EntityOfSome(entities, t);
      ReportsDistinct(listed, here, dialect);
      assert forall c :: Cell(db, (s, t), c) == At(here, c);
      assert forall c :: Cell(db, (dialect.default, t), c) == if there.Some? then At(there.value, c) else None;
      if NoChange(Compared(e, listed)) {
        NoChangeExactly(e, listed);
        forall c ensures ColumnStays(e, dialect, listed, Cell(db, (s, t), c), Cell(db, (dialect.default, t), c), c) {
          UntouchedStays(e, dialect, listed, Cell(db, (s, t), c), Cell(db, (dialect.default, t), c), c);
        }
      } else {
        SomethingChanged(e, listed);
        ModifiedStays(e, listed, here, there, dialect);
      }
    }
  }

  lemma UntouchedStays(e: Entity, dialect: Dialect, listed: seq<Column>, here: Option<Stored>, there: Option<Stored>, c: string)
    requires UpChange(ColumnsOf(e), listed, c).None?
    ensures ColumnStays(e, dialect, listed, here, there, c)
  {
    hide UpChange;
  }

  lemma SomethingChanged(e: Entity, listed: seq<Column>)
    requires !NoChange(Compared(e, listed))
    ensures |UpChanges(Compared(e, listed))| > 0 && |DownChanges(Compared(e, listed))| > 0
  {
  }

  lemma RestoresElsewhere(entities: seq<Entity>, info: seq<TableInfo>, dialect: Dialect, db: Tables, s: string, after: Tables)
    requires DistinctEntities(entities) && Introspects(info, dialect, db, s) && UpDone(entities, info, dialect, db, after, s) && s != dialect.default
    ensures ReshapeAll(dialect, after, DownStatements(entities, info)) == Some(db)
      <==> forall t :: TableStays(entities, info, dialect, db, s, t)
  {
    hide ReshapeAll, DownStatements, UpTable, DownTable, TableStays, TableAfter;
    var down := DownStatements(entities, info);
    DownReshapesExactly(entities, info, dialect, after);
    forall t ensures TableStays(entities, info, dialect, db, s, t) <==>
      && ForTable(dialect, At(db, (s, t)), At(db, (s, t)), UpTable(entities, info, t))
      && ForTable(dialect, At(db, (dialect.default, t)), At(db, (dialect.default, t)), DownTable(entities, info, t))
    {
      TableStaysExactly(entities, info, dialect, db, s, t);
    }
    hide Introspects;
    if forall t :: TableStays(entities, info, dialect, db, s, t) {
      assert after == db by { SameTables(after, db, s); }
      SameTables(ReshapeAll(dialect, after, down).value, db, dialect.default);
    }
    if ReshapeAll(dialect, after, down) == Some(db) {
      forall t ensures TableStays(entities, info, dialect, db, s, t) {
        assert At(db, (s, t)) == At(after, (s, t)) && At(db, (dialect.default, t)) == At(after, (dialect.default, t));
      }
    }
  }
}
