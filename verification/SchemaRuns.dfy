/** Migrations one after another: which diffs become empty, and which never do. */
module SchemaRuns {
  import opened Options
  import opened SqlTypes
  import opened SchemaChange
  import opened SchemaLinks
  import opened DdlGenerator
  import opened SchemaDiff
  import opened SchemaMigration

  /** Each database comes out of up() of the diff against the one before; the entities stay. */
  ghost predicate MigrationRun(entities: seq<Entity>, schema: Option<string>, dialect: Dialect,
                               dbs: seq<Database>, infos: seq<seq<TableInfo>>)
  {
    && |dbs| == |infos|
    && (forall i :: 0 <= i < |dbs| ==> Introspects(infos[i], dialect, dbs[i].tables, Home(schema, dialect)))
    && forall i :: 0 <= i < |dbs| - 1 ==>
      Run(dialect, dbs[i], UpStatements(entities, infos[i], schema)) == Some(dbs[i + 1])
  }

  predicate Alters(diff: SchemaDiff, table: string, column: ColumnModification) {
    exists m :: m in diff.modified && m.table == table && column in m.altered
  }

  predicate Drops(diff: SchemaDiff, table: string, column: Column) {
    exists m :: m in diff.modified && m.table == table && column in m.removed
  }

  // -------------------------------------------------- what a diff alters

  lemma InModified(entities: seq<Entity>, info: seq<TableInfo>, e: Entity, c: string)
    requires DistinctEntities(entities) && e in entities
    requires InfoOf(info, e.table).Some? && Distinct(InfoOf(info, e.table).value)
    requires UpChange(ColumnsOf(e), InfoOf(info, e.table).value, c).Some?
    ensures Compared(e, InfoOf(info, e.table).value) in DiffOf(entities, info).modified
  {
    hide AddedTables, RemovedTables, ModifiedTables, Compared, NoChange, UpChange, ColumnsOf, EntityOf, InfoOf;
    MembersByTable(entities, info);
    ByTable(entities, info, e.table);
    NoChangeExactly(e, InfoOf(info, e.table).value);
    ComparedTable(e, InfoOf(info, e.table).value);
  }

  lemma ComparedTable(e: Entity, listed: seq<Column>)
    ensures Compared(e, listed).table == e.table
  {
  }

  /** A column stored with another type than the wanted one is altered, from the reported to the wanted type. */
  lemma AltersStored(entities: seq<Entity>, info: seq<TableInfo>, dialect: Dialect, db: Tables, s: string,
                     e: Entity, f: Field, stored: Stored)
    requires DistinctEntities(entities) && Introspects(info, dialect, db, s) && e in entities && f in e.fields
    requires Cell(db, (s, e.table), f.column) == Some(stored) && NormalizeType(WantedType(f)) != NormalizeType(dialect.report(stored))
    ensures Alters(DiffOf(entities, info), e.table, ColumnModification(f.column, dialect.report(stored), WantedType(f)))
    ensures InfoOf(info, e.table).Some?
    ensures UpChange(ColumnsOf(e), InfoOf(info, e.table).value, f.column) == Some(AlterType(f.column, WantedType(f)))
  {
    var listed := InfoOf(info, e.table).value;
    hide DiffOf, Missing, Retyped, InfoOf, NormalizeType, TypeIn, ColumnsOf, WantedType, UpChanges;
    ReportsDistinct(listed, db[(s, e.table)], dialect);
    WantedTypes(e, f.column);
    TypeInExactly(ColumnsOf(e));
    assert Column(f.column, WantedType(f)) in ColumnsOf(e) by {
      var i :| 0 <= i < |e.fields| && e.fields[i] == f;
      assert TypeIn(ColumnsOf(e), e.fields[i].column) == Some(WantedType(f));
      assert Column(f.column, WantedType(f)).name == f.column;
    }
    RetypedMembers(ColumnsOf(e), listed);
    assert ColumnModification(f.column, dialect.report(stored), WantedType(f)) in Compared(e, listed).altered;
    InModified(entities, info, e, f.column);
  }

  lemma DropsStored(entities: seq<Entity>, info: seq<TableInfo>, dialect: Dialect, db: Tables, s: string,
                    e: Entity, c: string, stored: Stored)
    requires DistinctEntities(entities) && Introspects(info, dialect, db, s) && e in entities
    requires Cell(db, (s, e.table), c) == Some(stored) && TypeIn(ColumnsOf(e), c).None?
    ensures Drops(DiffOf(entities, info), e.table, Column(c, dialect.report(stored)))
  {
    var listed := InfoOf(info, e.table).value;
    hide DiffOf, Missing, Retyped, InfoOf, NormalizeType, TypeIn, ColumnsOf, UpChanges;
    ReportsDistinct(listed, db[(s, e.table)], dialect);
    TypeInExactly(listed);
    assert Column(c, dialect.report(stored)) in listed by {
      assert Column(c, dialect.report(stored)).name == c;
    }
    MissingMembers(listed, ColumnsOf(e));
    assert Column(c, dialect.report(stored)) in Compared(e, listed).removed;
    InModified(entities, info, e, c);
  }

  /** The diff after up() alters every column of a created table whose type was read off its initial value or its embeddable, if the
      database tells that type from TEXT, and drops every join column. */
  lemma CreatedIsAltered(entities: seq<Entity>, info: seq<TableInfo>, dialect: Dialect, db: Database, schema: Option<string>,
                         after: Database, again: seq<TableInfo>, e: Entity)
    requires DistinctEntities(entities) && Introspects(info, dialect, db.tables, Home(schema, dialect))
    requires Run(dialect, db, UpStatements(entities, info, schema)) == Some(after)
    requires Introspects(again, dialect, after.tables, Home(schema, dialect))
    requires e in entities && InfoOf(info, e.table).None?
    ensures forall f :: f in e.fields && NormalizeType(WantedType(f)) != NormalizeType(ReadBack(dialect, CreatedType(f))) ==>
      Alters(DiffOf(entities, again), e.table, ColumnModification(f.column, ReadBack(dialect, CreatedType(f)), WantedType(f)))
    ensures forall j :: j in JoinColumns(e) ==> Drops(DiffOf(entities, again), e.table, Column(j.name, ReadBack(dialect, "INTEGER")))
  {
    var s := Home(schema, dialect);
    hide DiffOf, UpStatements, ReshapeAll, Run, ColumnsOf, CreatedColumns, JoinColumns, InfoOf, EntityOf, TypeIn, WantedType, CreatedType;
    hide NormalizeType, Alters, Drops, UpTable, ForTable;
    RunReshapes(dialect, db, UpStatements(entities, info, schema));
    UpReshapes(entities, info, dialect, db.tables, schema);
    MembersByTable(entities, info);
    UpCells(entities, info, dialect, db.tables, s, after.tables, e.table);
    hide Introspects;
    forall f | f in e.fields && NormalizeType(WantedType(f)) != NormalizeType(ReadBack(dialect, CreatedType(f)))
      ensures Alters(DiffOf(entities, again), e.table, ColumnModification(f.column, ReadBack(dialect, CreatedType(f)), WantedType(f)))
    {
      CreatedTypes(e, f.column);
      var i :| 0 <= i < |e.fields| && e.fields[i] == f;
      AltersStored(entities, again, dialect, after.tables, s, e, f, dialect.denotes(CreatedType(f)));
    }
    forall j | j in JoinColumns(e) ensures Drops(DiffOf(entities, again), e.table, Column(j.name, ReadBack(dialect, "INTEGER"))) {
      CreatedTypes(e, j.name);
      WantedTypes(e, j.name);
      DropsStored(entities, again, dialect, after.tables, s, e, j.name, dialect.denotes("INTEGER"));
    }
  }

  // ------------------------------------------------------ whole runs

  lemma RunStep(entities: seq<Entity>, schema: Option<string>, dialect: Dialect,
                dbs: seq<Database>, infos: seq<seq<TableInfo>>, i: nat)
    requires DistinctEntities(entities) && MigrationRun(entities, schema, dialect, dbs, infos) && i + 1 < |dbs|
    ensures EmptyDiff(DiffOf(entities, infos[i + 1])) <==> forall e :: e in entities ==> AllReadBack(e, InfoOf(infos[i], e.table), dialect)
    ensures forall e :: e in entities ==> InfoOf(infos[i + 1], e.table).Some?
  {
    hide DiffOf, UpStatements, ReshapeAll, Run, AllReadBack, ForTable, UpTable, InfoOf, EntityOf;
    var s := Home(schema, dialect);
    assert Run(dialect, dbs[i], UpStatements(entities, infos[i], schema)) == Some(dbs[i + 1]);
    Converges(entities, infos[i], dialect, dbs[i], schema, dbs[i + 1], infos[i + 1]);
    RunReshapes(dialect, dbs[i], UpStatements(entities, infos[i], schema));
    UpReshapes(entities, infos[i], dialect, dbs[i].tables, schema);
    MembersByTable(entities, infos[i]);
    forall e | e in entities ensures InfoOf(infos[i + 1], e.table).Some? {
      UpCells(entities, infos[i], dialect, dbs[i].tables, s, dbs[i + 1].tables, e.table);
    }
  }

  lemma StableReadsBack(e: Entity, listed: seq<Column>, dialect: Dialect)
    requires Distinct(ColumnsOf(e)) && forall f :: f in e.fields ==> Stable(WantedType(f), dialect)
    ensures AllReadBack(e, Some(listed), dialect)
  {
    hide UpChange, ColumnsOf, TypeIn, Stable;
    forall c ensures ReadsBack(e, listed, dialect, c) {
      WantedTypes(e, c);
    }
  }

  /** Where every wanted type is read back as an equal one, two migrations are enough: every later diff is empty. */
  lemma TwoMigrationsSettle(entities: seq<Entity>, schema: Option<string>, dialect: Dialect,
                            dbs: seq<Database>, infos: seq<seq<TableInfo>>)
    requires DistinctEntities(entities) && MigrationRun(entities, schema, dialect, dbs, infos)
    requires forall e, f :: e in entities && f in e.fields ==> Stable(WantedType(f), dialect)
    ensures forall i :: 2 <= i < |infos| ==> EmptyDiff(DiffOf(entities, infos[i]))
  {
    hide DiffOf, Stable, MigrationRun, AllReadBack, InfoOf, ColumnsOf;
    forall i | 2 <= i < |infos| ensures EmptyDiff(DiffOf(entities, infos[i])) {
      assert |dbs| == |infos| by { SameLength(entities, schema, dialect, dbs, infos); }
      RunStep(entities, schema, dialect, dbs, infos, i - 2);
      RunStep(entities, schema, dialect, dbs, infos, i - 1);
      forall e | e in entities ensures AllReadBack(e, InfoOf(infos[i - 1], e.table), dialect) {
        StableReadsBack(e, InfoOf(infos[i - 1], e.table).value, dialect);
      }
    }
  }

  lemma SameLength(entities: seq<Entity>, schema: Option<string>, dialect: Dialect,
                   dbs: seq<Database>, infos: seq<seq<TableInfo>>)
    requires MigrationRun(entities, schema, dialect, dbs, infos)
    ensures |dbs| == |infos|
  {
  }

  /** Where the database reports types by their normal forms, one migration is enough for entities whose tables exist, or whose created
      types are those that the diff compares with and which have no join column; two are always enough. */
  lemma NormalReportsConverge(entities: seq<Entity>, schema: Option<string>, dialect: Dialect,
                              dbs: seq<Database>, infos: seq<seq<TableInfo>>)
    requires DistinctEntities(entities) && MigrationRun(entities, schema, dialect, dbs, infos)
    requires forall t :: ReadBack(dialect, t) == NormalizeType(t)
    ensures |infos| > 1 ==> (EmptyDiff(DiffOf(entities, infos[1])) <==> forall e :: e in entities && InfoOf(infos[0], e.table).None? ==>
      JoinColumns(e) == [] && forall f :: f in e.fields ==> NormalizeType(WantedType(f)) == NormalizeType(CreatedType(f)))
    ensures forall i :: 2 <= i < |infos| ==> EmptyDiff(DiffOf(entities, infos[i]))
  {
    hide DiffOf, NormalizeType, WantedType, CreatedType, JoinColumns, ColumnsOf, InfoOf, MigrationRun;
    forall t ensures NormalizeType(ReadBack(dialect, t)) == NormalizeType(t) {
      NormalizeTwice(t);
    }
    TwoMigrationsSettle(entities, schema, dialect, dbs, infos);
    if |infos| > 1 {
      SameLength(entities, schema, dialect, dbs, infos);
      RunStep(entities, schema, dialect, dbs, infos, 0);
      hide ReadsBack;
      forall e | e in entities && InfoOf(infos[0], e.table).Some? ensures AllReadBack(e, InfoOf(infos[0], e.table), dialect) {
        StableReadsBack(e, InfoOf(infos[0], e.table).value, dialect);
      }
    }
  }

  /** up() sets this column: it creates the table with the wanted type, or adds or alters the column. */
  predicate Sets(e: Entity, f: Field, listed: Option<seq<Column>>) {
    if listed.None? then CreatedType(f) == WantedType(f) else UpChange(ColumnsOf(e), listed.value, f.column).Some?
  }

  lemma SetIsStored(entities: seq<Entity>, info: seq<TableInfo>, dialect: Dialect, db: Database, schema: Option<string>,
                    after: Database, e: Entity, f: Field)
    requires DistinctEntities(entities) && Introspects(info, dialect, db.tables, Home(schema, dialect))
    requires Run(dialect, db, UpStatements(entities, info, schema)) == Some(after)
    requires e in entities && f in e.fields && Sets(e, f, InfoOf(info, e.table))
    ensures Cell(after.tables, (Home(schema, dialect), e.table), f.column) == Some(dialect.denotes(WantedType(f)))
  {
    var s := Home(schema, dialect);
    hide DiffOf, UpStatements, ReshapeAll, Run, ColumnsOf, CreatedColumns, InfoOf, EntityOf, TypeIn, WantedType, CreatedType, NormalizeType;
    hide UpTable, ForTable;
    RunReshapes(dialect, db, UpStatements(entities, info, schema));
    UpReshapes(entities, info, dialect, db.tables, schema);
    MembersByTable(entities, info);
    UpCells(entities, info, dialect, db.tables, s, after.tables, e.table);
    WantedTypes(e, f.column);
    var i :| 0 <= i < |e.fields| && e.fields[i] == f;
    if InfoOf(info, e.table).None? {
      CreatedTypes(e, f.column);
    }
  }

  /** A column whose type is read back as another one is altered to it again by every migration after the first that set it. */
  lemma {:induction false} NeverSettles(entities: seq<Entity>, schema: Option<string>, dialect: Dialect,
                                        dbs: seq<Database>, infos: seq<seq<TableInfo>>, e: Entity, f: Field, i: nat)
    requires DistinctEntities(entities) && MigrationRun(entities, schema, dialect, dbs, infos)
    requires e in entities && f in e.fields && !Stable(WantedType(f), dialect)
    requires 1 <= i < |infos| && Sets(e, f, InfoOf(infos[0], e.table))
    ensures Alters(DiffOf(entities, infos[i]), e.table, ColumnModification(f.column, ReadBack(dialect, WantedType(f)), WantedType(f)))
    ensures Sets(e, f, InfoOf(infos[i], e.table))
  {
    hide DiffOf, UpStatements, ReshapeAll, Run, ColumnsOf, InfoOf, WantedType, CreatedType, NormalizeType, Alters, Introspects, UpChange;
    var s := Home(schema, dialect);
    if i > 1 {
      NeverSettles(entities, schema, dialect, dbs, infos, e, f, i - 1);
    }
    assert Run(dialect, dbs[i - 1], UpStatements(entities, infos[i - 1], schema)) == Some(dbs[i - 1 + 1]);
    SetIsStored(entities, infos[i - 1], dialect, dbs[i - 1], schema, dbs[i], e, f);
    AltersStored(entities, infos[i], dialect, dbs[i].tables, s, e, f, dialect.denotes(WantedType(f)));
  }

  /** PostgreSQL reports `timestamp` by its full name: once a migration has set such a column, every later one alters it again. */
  lemma TimestampNeverConverges(entities: seq<Entity>, schema: Option<string>, dialect: Dialect,
                                dbs: seq<Database>, infos: seq<seq<TableInfo>>, e: Entity, f: Field, i: nat)
    requires DistinctEntities(entities) && MigrationRun(entities, schema, dialect, dbs, infos)
    requires e in entities && f in e.fields && WantedType(f) == "timestamp" && ReadBack(dialect, "timestamp") == "timestamp without time zone"
    requires 1 <= i < |infos|
    requires InfoOf(infos[0], e.table).Some? ==> UpChange(ColumnsOf(e), InfoOf(infos[0], e.table).value, f.column).Some?
    ensures Alters(DiffOf(entities, infos[i]), e.table, ColumnModification(f.column, "timestamp without time zone", "timestamp"))
  {
    hide DiffOf, MigrationRun, ColumnsOf, InfoOf, NormalizeType, Alters, UpChange;
    TimestampDiffers();
    assert CreatedType(f) == WantedType(f);
    NeverSettles(entities, schema, dialect, dbs, infos, e, f, i);
  }
}
