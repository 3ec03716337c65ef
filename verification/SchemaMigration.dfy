/** What up() of a generated migration does to tables and columns, and when the next diff after it is empty. */
module SchemaMigration {
  import opened Options
  import opened SqlTypes
  import opened SchemaChange
  import opened SchemaLinks
  import opened DdlGenerator
  import opened SchemaDiff

  predicate DistinctEntities(entities: seq<Entity>) {
    && (forall i, j :: 0 <= i < j < |entities| ==> entities[i].table != entities[j].table)
    && forall i :: 0 <= i < |entities| ==> Distinct(ColumnsOf(entities[i]))
  }

  predicate DistinctInfo(info: seq<TableInfo>) {
    forall i, j :: 0 <= i < j < |info| ==> info[i].table != info[j].table
  }

  /** The introspector lists the tables of one schema, each with its columns. */
  ghost predicate Introspects(info: seq<TableInfo>, dialect: Dialect, db: Tables, schema: string) {
    && DistinctInfo(info)
    && (forall t :: InfoOf(info, t).Some? <==> (schema, t) in db)
    && forall t :: InfoOf(info, t).Some? ==> Reports(dialect, InfoOf(info, t).value, db[(schema, t)])
  }

  // -------------------------------------------- members of the lists

  lemma {:induction false} EntityOfSome(entities: seq<Entity>, table: string)
    requires EntityOf(entities, table).Some?
    ensures EntityOf(entities, table).value in entities && EntityOf(entities, table).value.table == table
  {
    if entities[|entities| - 1].table != table {
      EntityOfSome(entities[..|entities| - 1], table);
    }
  }

  lemma {:induction false} EntityOfAt(entities: seq<Entity>, i: nat)
    requires DistinctEntities(entities) && i < |entities|
    ensures EntityOf(entities, entities[i].table) == Some(entities[i])
  {
    if i < |entities| - 1 {
      EntityOfAt(entities[..|entities| - 1], i);
    }
  }

  lemma {:induction false} InfoOfSome(info: seq<TableInfo>, table: string) returns (i: nat)
    requires InfoOf(info, table).Some?
    ensures i < |info| && info[i].table == table
  {
    if info[|info| - 1].table == table {
      i := |info| - 1;
    } else {
      i := InfoOfSome(info[..|info| - 1], table);
    }
  }

  predicate DistinctAdded(added: seq<TableDiff>) {
    forall i, j :: 0 <= i < j < |added| ==> added[i].table != added[j].table
  }

  lemma {:induction false} AddedMembers(entities: seq<Entity>, info: seq<TableInfo>)
    ensures forall d :: d in AddedTables(entities, info) <==>
      exists e :: e in entities && InfoOf(info, e.table).None? && d == AddedTable(e)
    ensures DistinctEntities(entities) ==> DistinctAdded(AddedTables(entities, info))
  {
    hide CreatedColumns;
    if |entities| > 0 {
      var n := |entities| - 1;
      AddedMembers(entities[..n], info);
      assert entities == entities[..n] + [entities[n]];
      if DistinctEntities(entities) {
        forall d | d in AddedTables(entities[..n], info) ensures d.table != entities[n].table {
          var e :| e in entities[..n] && InfoOf(info, e.table).None? && d == AddedTable(e);
        }
      }
    }
  }

  predicate DistinctNames(names: seq<string>) {
    forall i, j :: 0 <= i < j < |names| ==> names[i] != names[j]
  }

  lemma {:induction false} RemovedMembers(info: seq<TableInfo>, entities: seq<Entity>)
    ensures forall t :: t in RemovedTables(info, entities) <==> InfoOf(info, t).Some? && EntityOf(entities, t).None?
    ensures DistinctInfo(info) ==> DistinctNames(RemovedTables(info, entities))
  {
    if |info| > 0 {
      var n := |info| - 1;
      RemovedMembers(info[..n], entities);
      if DistinctInfo(info) {
        forall t | t in RemovedTables(info[..n], entities) ensures t != info[n].table {
          var i := InfoOfSome(info[..n], t);
        }
      }
    }
  }

  predicate DistinctModified(ms: seq<TableModification>) {
    forall i, j :: 0 <= i < j < |ms| ==> ms[i].table != ms[j].table
  }

  lemma {:induction false} ModifiedMembers(entities: seq<Entity>, info: seq<TableInfo>)
    ensures forall m :: m in ModifiedTables(entities, info) <==>
      exists e :: e in entities && IsModified(e, info) && m == Compared(e, InfoOf(info, e.table).value)
    ensures DistinctEntities(entities) ==> DistinctModified(ModifiedTables(entities, info))
  {
    hide Missing, Retyped;
    if |entities| > 0 {
      var n := |entities| - 1;
      ModifiedMembers(entities[..n], info);
      assert entities == entities[..n] + [entities[n]];
      if DistinctEntities(entities) {
        forall m | m in ModifiedTables(entities[..n], info) ensures m.table != entities[n].table {
          var e :| e in entities[..n] && IsModified(e, info) && m == Compared(e, InfoOf(info, e.table).value);
        }
      }
    }
  }

  // ----------------------------------------------- changes by table

  /** What up() does to a table, from the entity and the report alone. */
  function UpTable(entities: seq<Entity>, info: seq<TableInfo>, t: string): Option<TableChange> {
    match (EntityOf(entities, t), InfoOf(info, t))
    case (Some(e), None) => Some(Create(t, CreatedColumns(e), References(e)))
    case (Some(e), Some(db)) => if NoChange(Compared(e, db)) then None else Some(Modify(t, UpChanges(Compared(e, db))))
    case (None, Some(_)) => Some(Drop(t))
    case (None, None) => None
  }

  function DownTable(entities: seq<Entity>, info: seq<TableInfo>, t: string): Option<TableChange> {
    match (EntityOf(entities, t), InfoOf(info, t))
    case (Some(e), None) => Some(Drop(t))
    case (Some(e), Some(db)) => if NoChange(Compared(e, db)) then None else Some(Modify(t, DownChanges(Compared(e, db))))
    case (None, Some(_)) => Some(Leave(t))
    case (None, None) => None
  }

  lemma MembersByTable(entities: seq<Entity>, info: seq<TableInfo>)
    requires DistinctEntities(entities)
    ensures forall e :: e in entities <==> EntityOf(entities, e.table) == Some(e)
  {
    forall e ensures e in entities <==> EntityOf(entities, e.table) == Some(e) {
      if e in entities {
        var i :| 0 <= i < |entities| && entities[i] == e;
        EntityOfAt(entities, i);
      }
      if EntityOf(entities, e.table) == Some(e) {
        EntityOfSome(entities, e.table);
      }
    }
  }

  lemma TableSegments(added: seq<TableDiff>, ms: seq<TableModification>, removed: seq<string>, x: TableChange)
    ensures x in Creates(added) <==> exists d :: d in added && x == Create(d.table, d.columns, d.references)
    ensures x in Undone(added) <==> exists d :: d in added && x == Drop(d.table)
    ensures x in ModifiesUp(ms) <==> exists m :: m in ms && x == Modify(m.table, UpChanges(m))
    ensures x in ModifiesDown(ms) <==> exists m :: m in ms && x == Modify(m.table, DownChanges(m))
    ensures x in Drops(removed) <==> x.Drop? && x.table in removed
    ensures x in Leaves(removed) <==> x.Leave? && x.table in removed
  {
    hide UpChanges, DownChanges;
    forall d | d in added ensures Create(d.table, d.columns, d.references) in Creates(added) && Drop(d.table) in Undone(added) {
      var i :| 0 <= i < |added| && added[i] == d;
      assert Creates(added)[i] == Create(d.table, d.columns, d.references) && Undone(added)[i] == Drop(d.table);
    }
    forall m | m in ms
      ensures Modify(m.table, UpChanges(m)) in ModifiesUp(ms) && Modify(m.table, DownChanges(m)) in ModifiesDown(ms)
    {
      var i :| 0 <= i < |ms| && ms[i] == m;
      assert ModifiesUp(ms)[i] == Modify(m.table, UpChanges(m)) && ModifiesDown(ms)[i] == Modify(m.table, DownChanges(m));
    }
    forall t | t in removed ensures Drop(t) in Drops(removed) && Leave(t) in Leaves(removed) {
      var i :| 0 <= i < |removed| && removed[i] == t;
      assert Drops(removed)[i] == Drop(t) && Leaves(removed)[i] == Leave(t);
    }
  }

  lemma ByTable(entities: seq<Entity>, info: seq<TableInfo>, t: string)
    requires DistinctEntities(entities)
    ensures forall d :: d in AddedTables(entities, info) && d.table == t <==>
      && EntityOf(entities, t).Some? && InfoOf(info, t).None?
      && d == AddedTable(EntityOf(entities, t).value)
    ensures forall m :: m in ModifiedTables(entities, info) && m.table == t <==>
      && EntityOf(entities, t).Some? && InfoOf(info, t).Some?
      && m == Compared(EntityOf(entities, t).value, InfoOf(info, t).value) && !NoChange(m)
    ensures t in RemovedTables(info, entities) <==> InfoOf(info, t).Some? && EntityOf(entities, t).None?
  {
    hide NoChange, AddedTables, RemovedTables, ModifiedTables, ColumnsOf, CreatedColumns, EntityOf, InfoOf, Missing, Retyped, DistinctEntities;
    AddedMembers(entities, info);
    RemovedMembers(info, entities);
    ModifiedMembers(entities, info);
    MembersByTable(entities, info);
    if EntityOf(entities, t).Some? {
      EntityOfSome(entities, t);
    }
  }

  /** The generated table changes are exactly those. */
  lemma TablesExactly(entities: seq<Entity>, info: seq<TableInfo>, x: TableChange)
    requires DistinctEntities(entities)
    ensures x in UpTables(DiffOf(entities, info)) <==> UpTable(entities, info, x.table) == Some(x)
    ensures x in DownTables(DiffOf(entities, info)) <==> DownTable(entities, info, x.table) == Some(x)
  {
    var diff := DiffOf(entities, info);
    hide UpChanges, DownChanges, NoChange, AddedTables, RemovedTables, ModifiedTables, ColumnsOf, CreatedColumns, EntityOf, InfoOf, Missing, Retyped;
    hide Creates, Undone, ModifiesUp, ModifiesDown, Drops, Leaves, DistinctEntities;
    ByTable(entities, info, x.table);
    TableSegments(diff.added, diff.modified, diff.removed, x);
    assert x in UpTables(diff) <==> x in Creates(diff.added) || x in ModifiesUp(diff.modified) || x in Drops(diff.removed);
    assert x in DownTables(diff) <==> x in Undone(diff.added) || x in ModifiesDown(diff.modified) || x in Leaves(diff.removed);
    var e, db := EntityOf(entities, x.table), InfoOf(info, x.table);
    if e.Some? && db.Some? {
      assert Compared(e.value, db.value).table == x.table by { EntityOfSome(entities, x.table); }
    } else if e.Some? {
      assert AddedTable(e.value).table == x.table by { EntityOfSome(entities, x.table); }
    }
  }

  lemma TableSegmentsDistinct(added: seq<TableDiff>, ms: seq<TableModification>, removed: seq<string>)
    requires DistinctAdded(added) && DistinctModified(ms) && DistinctNames(removed)
    ensures DistinctTables(Creates(added)) && DistinctTables(Undone(added)) && DistinctTables(Drops(removed))
    ensures DistinctTables(ModifiesUp(ms)) && DistinctTables(ModifiesDown(ms)) && DistinctTables(Leaves(removed))
  {
    hide UpChanges, DownChanges;
  }

  lemma TablesConcat(a: seq<TableChange>, b: seq<TableChange>)
    requires DistinctTables(a) && DistinctTables(b) && forall x, y :: x in a && y in b ==> x.table != y.table
    ensures DistinctTables(a + b)
  {
  }

  lemma TableChangesDistinct(entities: seq<Entity>, info: seq<TableInfo>)
    requires DistinctEntities(entities) && DistinctInfo(info)
    ensures DistinctTables(UpTables(DiffOf(entities, info))) && DistinctTables(DownTables(DiffOf(entities, info)))
  {
    var diff := DiffOf(entities, info);
    AddedMembers(entities, info);
    RemovedMembers(info, entities);
    ModifiedMembers(entities, info);
    TableSegmentsDistinct(diff.added, diff.modified, diff.removed);
    hide UpTable, DownTable, AddedTables, RemovedTables, ModifiedTables, Creates, Undone, ModifiesUp, ModifiesDown, Drops, Leaves, DistinctTables;
    var a, b, c := Creates(diff.added), ModifiesUp(diff.modified), Drops(diff.removed);
    Kinds(diff.added, diff.modified, diff.removed);
    forall x, y | x in UpTables(diff) && y in UpTables(diff) && x.table == y.table ensures x == y {
      TablesExactly(entities, info, x);
      TablesExactly(entities, info, y);
    }
    TablesConcat(a, b);
    TablesConcat(a + b, c);
    var d, e, f := Undone(diff.added), ModifiesDown(diff.modified), Leaves(diff.removed);
    forall x, y | x in DownTables(diff) && y in DownTables(diff) && x.table == y.table ensures x == y {
      TablesExactly(entities, info, x);
      TablesExactly(entities, info, y);
    }
    TablesConcat(d, e);
    TablesConcat(d + e, f);
  }

  lemma Kinds(added: seq<TableDiff>, ms: seq<TableModification>, removed: seq<string>)
    ensures forall x :: x in Creates(added) ==> x.Create?
    ensures forall x :: x in Undone(added) || x in Drops(removed) ==> x.Drop?
    ensures forall x :: x in ModifiesUp(ms) || x in ModifiesDown(ms) ==> x.Modify?
    ensures forall x :: x in Leaves(removed) ==> x.Leave?
  {
  }

  lemma ReshapesByName(dialect: Dialect, db: Tables, schema: Option<string>, changes: seq<TableChange>)
    requires DistinctTables(changes)
    ensures ReshapeAll(dialect, db, AllStatements(schema, changes)).Some?
      <==> forall x :: x in changes ==> TableAfter(dialect, At(db, Key(schema, dialect, x.table)), x).Some?
  {
    hide AllStatements, ReshapeAll, TableAfter, Key;
    ReshapesExactly(dialect, db, schema, changes);
  }

  lemma TablesHoldByName(dialect: Dialect, db: Tables, schema: Option<string>, changes: seq<TableChange>)
    requires DistinctTables(changes)
    requires forall x :: x in changes ==> TableAfter(dialect, At(db, Key(schema, dialect, x.table)), x).Some?
    ensures ReshapeAll(dialect, db, AllStatements(schema, changes)).Some?
    ensures forall x :: x in changes ==>
      Some(At(ReshapeAll(dialect, db, AllStatements(schema, changes)).value, Key(schema, dialect, x.table)))
      == TableAfter(dialect, At(db, Key(schema, dialect, x.table)), x)
    ensures forall key :: (forall x :: x in changes ==> key != Key(schema, dialect, x.table)) ==>
      At(ReshapeAll(dialect, db, AllStatements(schema, changes)).value, key) == At(db, key)
  {
    hide AllStatements, ReshapeAll, TableAfter, Key;
    TablesHold(dialect, db, schema, changes);
  }

  /** No difference in the lists is no difference in any column. */
  lemma NoChangeExactly(e: Entity, db: seq<Column>)
    requires Distinct(ColumnsOf(e)) && Distinct(db)
    ensures NoChange(Compared(e, db)) <==> forall c :: UpChange(ColumnsOf(e), db, c).None?
  {
    var changes := UpChanges(Compared(e, db));
    assert NoChange(Compared(e, db)) <==> |changes| == 0;
    hide Compared, UpChanges, UpChange, ColumnsOf;
    forall c | UpChange(ColumnsOf(e), db, c).Some? ensures |changes| > 0 {
      UpChangeNamed(ColumnsOf(e), db, c);
      UpChangesExactly(e, db, UpChange(ColumnsOf(e), db, c).value);
    }
    if |changes| > 0 {
      UpChangesExactly(e, db, changes[0]);
    }
  }

  lemma UpChangeNamed(wanted: seq<Column>, db: seq<Column>, c: string)
    ensures UpChange(wanted, db, c).Some? ==> UpChange(wanted, db, c).value.name == c
  {
  }

  // --------------------------------------------------------- up and down

  function Cell(db: Tables, key: (string, string), c: string): Option<Stored> {
    if key in db then At(db[key], c) else None
  }

  ghost predicate ForTable(dialect: Dialect, before: Option<Columns>, after: Option<Columns>, change: Option<TableChange>) {
    if change.None? then after == before else TableAfter(dialect, before, change.value) == Some(after)
  }

  /** Every table of the schema went the way up() says, and those of other schemas stayed. */
  ghost predicate UpDone(entities: seq<Entity>, info: seq<TableInfo>, dialect: Dialect, db: Tables, after: Tables, s: string) {
    && (forall t :: ForTable(dialect, At(db, (s, t)), At(after, (s, t)), UpTable(entities, info, t)))
    && forall key: (string, string) :: key.0 != s ==> At(after, key) == At(db, key)
  }

  ghost predicate DownDone(entities: seq<Entity>, info: seq<TableInfo>, dialect: Dialect, after: Tables, back: Tables) {
    && (forall t :: ForTable(dialect, At(after, (dialect.default, t)), At(back, (dialect.default, t)), DownTable(entities, info, t)))
    && forall key: (string, string) :: key.0 != dialect.default ==> At(back, key) == At(after, key)
  }

  /** No table to create is given two columns of one name, as by a field mapped to a join column. */
  ghost predicate Creatable(entities: seq<Entity>, info: seq<TableInfo>) {
    forall e :: e in entities && InfoOf(info, e.table).None? ==> Distinct(CreatedColumns(e))
  }

  lemma BothOrNeither(wanted: seq<Column>, listed: seq<Column>, c: string)
    ensures UpChange(wanted, listed, c).None? <==> DownChange(wanted, listed, c).None?
  {
  }

  lemma UpTableNamed(entities: seq<Entity>, info: seq<TableInfo>, t: string)
    ensures UpTable(entities, info, t).Some? ==> UpTable(entities, info, t).value.table == t
    ensures DownTable(entities, info, t).Some? ==> DownTable(entities, info, t).value.table == t
  {
  }

  lemma UpFits(entities: seq<Entity>, info: seq<TableInfo>, dialect: Dialect, db: Tables, s: string, x: TableChange)
    requires DistinctEntities(entities) && Introspects(info, dialect, db, s)
    requires x in UpTables(DiffOf(entities, info))
    ensures TableAfter(dialect, At(db, (s, x.table)), x).Some? <==> (x.Create? ==> Distinct(x.columns))
  {
    TablesExactly(entities, info, x);
    hide UpTables, DiffOf, Compared, NoChange, UpChanges, ColumnsOf, CreatedColumns, ChangedAll, EntityOf, InfoOf;
    var e, listed := EntityOf(entities, x.table), InfoOf(info, x.table);
    if e.Some? && listed.Some? {
      EntityOfSome(entities, x.table);
      UpColumns(e.value, dialect, db[(s, x.table)], listed.value);
    }
  }

  /** Which tables up() creates. */
  lemma CreateChangesExactly(entities: seq<Entity>, info: seq<TableInfo>)
    requires DistinctEntities(entities)
    ensures Creatable(entities, info) <==> forall x :: x in UpTables(DiffOf(entities, info)) && x.Create? ==> Distinct(x.columns)
  {
    hide UpTables, DiffOf, CreatedColumns, EntityOf, InfoOf, Compared, NoChange, UpChanges;
    MembersByTable(entities, info);
    forall e | e in entities && InfoOf(info, e.table).None?
      ensures Create(e.table, CreatedColumns(e), References(e)) in UpTables(DiffOf(entities, info))
    {
      TablesExactly(entities, info, Create(e.table, CreatedColumns(e), References(e)));
    }
    forall x | x in UpTables(DiffOf(entities, info)) && x.Create?
      ensures exists e :: e in entities && InfoOf(info, e.table).None? && x.columns == CreatedColumns(e)
    {
      TablesExactly(entities, info, x);
      EntityOfSome(entities, x.table);
    }
  }

  /** Tables and columns allow up() exactly when no table to create names a column twice; then every table is as the comparison says. */
  lemma UpReshapes(entities: seq<Entity>, info: seq<TableInfo>, dialect: Dialect, db: Tables, schema: Option<string>)
    requires DistinctEntities(entities) && Introspects(info, dialect, db, Home(schema, dialect))
    ensures ReshapeAll(dialect, db, UpStatements(entities, info, schema)).Some? <==> Creatable(entities, info)
    ensures Creatable(entities, info) ==>
      UpDone(entities, info, dialect, db, ReshapeAll(dialect, db, UpStatements(entities, info, schema)).value, Home(schema, dialect))
  {
    var changes, s := UpTables(DiffOf(entities, info)), Home(schema, dialect);
    hide AllStatements, ReshapeAll, UpTables, DiffOf, DistinctTables, Creatable;
    TableChangesDistinct(entities, info);
    ReshapesByName(dialect, db, schema, changes);
    CreateChangesExactly(entities, info);
    forall x | x in changes
      ensures TableAfter(dialect, At(db, Key(schema, dialect, x.table)), x).Some? <==> (x.Create? ==> Distinct(x.columns))
    {
      UpFits(entities, info, dialect, db, s, x);
    }
    hide TableAfter, Introspects, UpTable;
    if Creatable(entities, info) {
      TablesHoldByName(dialect, db, schema, changes);
      var after := ReshapeAll(dialect, db, AllStatements(schema, changes)).value;
      forall t ensures ForTable(dialect, At(db, (s, t)), At(after, (s, t)), UpTable(entities, info, t)) {
        UpByName(entities, info, dialect, schema, db, after, t);
      }
    }
  }

  function UpStatements(entities: seq<Entity>, info: seq<TableInfo>, schema: Option<string>): seq<Statement> {
    AllStatements(schema, UpTables(DiffOf(entities, info)))
  }

  /** The down statements leave the schema out. */
  function DownStatements(entities: seq<Entity>, info: seq<TableInfo>): seq<Statement> {
    AllStatements(None, DownTables(DiffOf(entities, info)))
  }

  lemma UpByName(entities: seq<Entity>, info: seq<TableInfo>, dialect: Dialect, schema: Option<string>, db: Tables, after: Tables, t: string)
    requires DistinctEntities(entities)
    requires forall x :: x in UpTables(DiffOf(entities, info)) ==>
      Some(At(after, Key(schema, dialect, x.table))) == TableAfter(dialect, At(db, Key(schema, dialect, x.table)), x)
    requires forall key :: (forall x :: x in UpTables(DiffOf(entities, info)) ==> key != Key(schema, dialect, x.table)) ==>
      At(after, key) == At(db, key)
    ensures ForTable(dialect, At(db, Key(schema, dialect, t)), At(after, Key(schema, dialect, t)), UpTable(entities, info, t))
  {
    hide UpTables, DiffOf, UpTable, TableAfter;
    var expected := UpTable(entities, info, t);
    UpTableNamed(entities, info, t);
    if expected.Some? {
      TablesExactly(entities, info, expected.value);
    } else {
      forall x | x in UpTables(DiffOf(entities, info)) ensures x.table != t {
        TablesExactly(entities, info, x);
      }
    }
  }

  /** A column of an entity's table after up(). */
  function UpCell(e: Entity, dialect: Dialect, listed: Option<seq<Column>>, before: Option<Stored>, c: string): Option<Stored> {
    if listed.None? then Denoted(dialect, TypeIn(CreatedColumns(e), c)) else Then(dialect, before, UpChange(ColumnsOf(e), listed.value, c))
  }

  /** After up() there is a table for every entity and no other: a new one with the created columns,
      an old one with every column's old type if that was right, else with the wanted one. */
  lemma UpCells(entities: seq<Entity>, info: seq<TableInfo>, dialect: Dialect, db: Tables, s: string, after: Tables, t: string)
    requires DistinctEntities(entities) && Introspects(info, dialect, db, s)
    requires ForTable(dialect, At(db, (s, t)), At(after, (s, t)), UpTable(entities, info, t))
    ensures (s, t) in after <==> EntityOf(entities, t).Some?
    ensures EntityOf(entities, t).Some? ==> forall c ::
      Cell(after, (s, t), c) == UpCell(EntityOf(entities, t).value, dialect, InfoOf(info, t), Cell(db, (s, t), c), c)
  {
    hide NoChange, Compared, ColumnsOf, CreatedColumns, UpChanges, UpChange, EntityOf, InfoOf, TypeIn;
    var e, listed := EntityOf(entities, t), InfoOf(info, t);
    if e.Some? && listed.Some? {
      EntityOfSome(entities, t);
      NoChangeExactly(e.value, listed.value);
      UpColumns(e.value, dialect, db[(s, t)], listed.value);
    } else if e.Some? {
      forall c ensures Cell(after, (s, t), c) == Denoted(dialect, TypeIn(CreatedColumns(e.value), c)) {
        ColumnMapAt(dialect, CreatedColumns(e.value), c);
      }
    }
  }

  predicate EmptyDiff(diff: SchemaDiff) {
    diff.added == [] && diff.removed == [] && diff.modified == []
  }

  lemma EmptyExactly(entities: seq<Entity>, info: seq<TableInfo>)
    requires DistinctEntities(entities)
    ensures EmptyDiff(DiffOf(entities, info)) <==> forall t :: UpTable(entities, info, t).None?
  {
    var changes := UpTables(DiffOf(entities, info));
    assert EmptyDiff(DiffOf(entities, info)) <==> |changes| == 0;
    hide DiffOf, UpTables, UpTable;
    forall t | UpTable(entities, info, t).Some? ensures |changes| > 0 {
      UpTableNamed(entities, info, t);
      TablesExactly(entities, info, UpTable(entities, info, t).value);
    }
    if |changes| > 0 {
      TablesExactly(entities, info, changes[0]);
    }
  }

  // ------------------------------------------------------- convergence

  /** The comparison is equal when the type, once applied, is read back. */
  predicate Stable(sqlType: string, dialect: Dialect) {
    NormalizeType(sqlType) == NormalizeType(ReadBack(dialect, sqlType))
  }

  /** How the introspector spells a type that was spelled like this. */
  function ReadBack(dialect: Dialect, sqlType: string): string {
    dialect.report(dialect.denotes(sqlType))
  }

  /** If up() gives this column of an existing table the entity's type, it is a stable one. */
  predicate ReadsBack(e: Entity, listed: seq<Column>, dialect: Dialect, c: string) {
    TypeIn(ColumnsOf(e), c).Some? && UpChange(ColumnsOf(e), listed, c).Some? ==> Stable(TypeIn(ColumnsOf(e), c).value, dialect)
  }

  /** A created table compares equal: it has no join column, and each field's created type is reported as equal to its wanted one. */
  predicate CreatedReadsBack(e: Entity, dialect: Dialect) {
    && JoinColumns(e) == []
    && forall f :: f in e.fields ==> NormalizeType(WantedType(f)) == NormalizeType(ReadBack(dialect, CreatedType(f)))
  }

  ghost predicate AllReadBack(e: Entity, listed: Option<seq<Column>>, dialect: Dialect) {
    if listed.None? then CreatedReadsBack(e, dialect) else forall c :: ReadsBack(e, listed.value, dialect, c)
  }

  /** Read back after up(), a column compares equal exactly when it was not touched or has a stable type. */
  lemma ColumnConverges(e: Entity, listed: seq<Column>, db: Columns, again: seq<Column>, after: Columns, dialect: Dialect, c: string)
    requires Reports(dialect, listed, db) && Reports(dialect, again, after)
    requires At(after, c) == Then(dialect, At(db, c), UpChange(ColumnsOf(e), listed, c))
    ensures UpChange(ColumnsOf(e), again, c).None? <==> ReadsBack(e, listed, dialect, c)
  {
    hide NormalizeType, ColumnsOf, TypeIn;
  }

  lemma WantedTypes(e: Entity, c: string)
    requires Distinct(ColumnsOf(e))
    ensures forall i :: 0 <= i < |e.fields| ==> TypeIn(ColumnsOf(e), e.fields[i].column) == Some(WantedType(e.fields[i]))
    ensures TypeIn(ColumnsOf(e), c).Some? <==> exists i :: 0 <= i < |e.fields| && e.fields[i].column == c
  {
    var columns := ColumnsOf(e);
    hide TypeIn;
    forall i | 0 <= i < |e.fields| ensures TypeIn(columns, e.fields[i].column) == Some(WantedType(e.fields[i])) {
      TypeInAt(columns, i);
    }
    if TypeIn(columns, c).Some? {
      var i := TypeInSome(columns, c);
      assert e.fields[i].column == c;
    }
  }

  function FieldChange(f: Field, dialect: Dialect): Option<Change> {
    if NormalizeType(WantedType(f)) == NormalizeType(ReadBack(dialect, CreatedType(f))) then None else Some(AlterType(f.column, WantedType(f)))
  }

  /** What the next diff does to a created table: exactly the fields whose type was read off something else are altered, and join columns dropped. */
  lemma CreatedCompared(e: Entity, again: seq<Column>, after: Columns, dialect: Dialect)
    requires Distinct(ColumnsOf(e)) && Distinct(CreatedColumns(e)) && Reports(dialect, again, after)
    requires forall c :: At(after, c) == Denoted(dialect, TypeIn(CreatedColumns(e), c))
    ensures forall f :: f in e.fields ==> UpChange(ColumnsOf(e), again, f.column) == FieldChange(f, dialect)
    ensures forall j :: j in JoinColumns(e) ==> UpChange(ColumnsOf(e), again, j.name) == Some(DropColumn(j.name))
    ensures forall c :: (forall f :: f in e.fields ==> f.column != c) && (forall j :: j in JoinColumns(e) ==> j.name != c) ==>
      UpChange(ColumnsOf(e), again, c).None?
  {
    hide NormalizeType, ColumnsOf, CreatedColumns, JoinColumns, TypeIn, WantedType, CreatedType;
    forall f | f in e.fields
      ensures TypeIn(ColumnsOf(e), f.column) == Some(WantedType(f)) && TypeIn(again, f.column) == Some(ReadBack(dialect, CreatedType(f)))
    {
      var i :| 0 <= i < |e.fields| && e.fields[i] == f;
      WantedTypes(e, f.column);
      CreatedTypes(e, f.column);
      assert At(after, f.column) == Some(dialect.denotes(CreatedType(f)));
    }
    forall j | j in JoinColumns(e) ensures TypeIn(ColumnsOf(e), j.name).None? && TypeIn(again, j.name).Some? {
      WantedTypes(e, j.name);
      CreatedTypes(e, j.name);
      assert At(after, j.name) == Some(dialect.denotes("INTEGER"));
    }
    forall c | (forall f :: f in e.fields ==> f.column != c) && (forall j :: j in JoinColumns(e) ==> j.name != c)
      ensures TypeIn(ColumnsOf(e), c).None? && TypeIn(again, c).None?
    {
      WantedTypes(e, c);
      CreatedTypes(e, c);
      assert At(after, c).None?;
    }
  }

  lemma CreatedConverges(e: Entity, again: seq<Column>, after: Columns, dialect: Dialect)
    requires Distinct(ColumnsOf(e)) && Distinct(CreatedColumns(e)) && Reports(dialect, again, after)
    requires forall c :: At(after, c) == Denoted(dialect, TypeIn(CreatedColumns(e), c))
    ensures (forall c :: UpChange(ColumnsOf(e), again, c).None?) <==> CreatedReadsBack(e, dialect)
  {
    CreatedCompared(e, again, after, dialect);
    hide NormalizeType, ColumnsOf, CreatedColumns, JoinColumns, TypeIn, WantedType, CreatedType, UpChange, Reports;
    if CreatedReadsBack(e, dialect) {
      forall c ensures UpChange(ColumnsOf(e), again, c).None? {
        if f :| f in e.fields && f.column == c {
          assert UpChange(ColumnsOf(e), again, f.column).None?;
        }
      }
    }
    if |JoinColumns(e)| > 0 {
      assert JoinColumns(e)[0] in JoinColumns(e);
    }
  }

  ghost predicate TableReadsBack(entities: seq<Entity>, info: seq<TableInfo>, dialect: Dialect, t: string) {
    EntityOf(entities, t).Some? ==> AllReadBack(EntityOf(entities, t).value, InfoOf(info, t), dialect)
  }

  lemma TableConverges(entities: seq<Entity>, info: seq<TableInfo>, dialect: Dialect, db: Tables, s: string,
                       after: Tables, again: seq<TableInfo>, t: string)
    requires DistinctEntities(entities) && Introspects(info, dialect, db, s) && Introspects(again, dialect, after, s)
    requires ForTable(dialect, At(db, (s, t)), At(after, (s, t)), UpTable(entities, info, t))
    ensures UpTable(entities, again, t).None? <==> TableReadsBack(entities, info, dialect, t)
  {
    hide EntityOf, InfoOf, ColumnsOf, CreatedColumns, ReadsBack, CreatedReadsBack, UpChange, ForTable, NoChange, Compared, UpChanges, Reports;
    UpCells(entities, info, dialect, db, s, after, t);
    if EntityOf(entities, t).Some? {
      var e, listed := EntityOf(entities, t).value, InfoOf(info, t);
      EntityOfSome(entities, t);
      var next := InfoOf(again, t).value;
      ReportsDistinct(next, after[(s, t)], dialect);
      NoChangeExactly(e, next);
      assert forall c :: Cell(after, (s, t), c) == At(after[(s, t)], c);
      if listed.None? {
        CreatedDistinct(entities, info, dialect, At(db, (s, t)), At(after, (s, t)), t);
        CreatedConverges(e, next, after[(s, t)], dialect);
      } else {
        forall c ensures UpChange(ColumnsOf(e), next, c).None? <==> ReadsBack(e, listed.value, dialect, c) {
          assert Cell(db, (s, t), c) == At(db[(s, t)], c);
          ColumnConverges(e, listed.value, db[(s, t)], next, after[(s, t)], dialect, c);
        }
      }
    }
  }

  lemma CreatedDistinct(entities: seq<Entity>, info: seq<TableInfo>, dialect: Dialect, before: Option<Columns>, after: Option<Columns>, t: string)
    requires EntityOf(entities, t).Some? && InfoOf(info, t).None? && ForTable(dialect, before, after, UpTable(entities, info, t))
    ensures Distinct(CreatedColumns(EntityOf(entities, t).value))
  {
    hide EntityOf, InfoOf, CreatedColumns, Distinct;
  }

  lemma ReportsDistinct(listed: seq<Column>, columns: Columns, dialect: Dialect)
    requires Reports(dialect, listed, columns)
    ensures Distinct(listed)
  {
  }

  /** The next diff after up() is empty exactly when every type that up() applied to an existing table is read back as an equal one,
      no created table has a join column and each created type is read back as the one the diff compares with. */
  lemma Converges(entities: seq<Entity>, info: seq<TableInfo>, dialect: Dialect, db: Database, schema: Option<string>,
                  after: Database, again: seq<TableInfo>)
    requires DistinctEntities(entities) && Introspects(info, dialect, db.tables, Home(schema, dialect))
    requires Run(dialect, db, UpStatements(entities, info, schema)) == Some(after)
    requires Introspects(again, dialect, after.tables, Home(schema, dialect))
    ensures EmptyDiff(DiffOf(entities, again)) <==> forall e :: e in entities ==> AllReadBack(e, InfoOf(info, e.table), dialect)
  {
    var s := Home(schema, dialect);
    hide DiffOf, UpStatements, ReshapeAll, Run, Creatable;
    EmptyExactly(entities, again);
    RunReshapes(dialect, db, UpStatements(entities, info, schema));
    UpReshapes(entities, info, dialect, db.tables, schema);
    MembersByTable(entities, info);
    hide UpTable, EntityOf, InfoOf, ForTable, AllReadBack, Introspects;
    forall t ensures UpTable(entities, again, t).None? <==> TableReadsBack(entities, info, dialect, t) {
      TableConverges(entities, info, dialect, db.tables, s, after.tables, again, t);
    }
    forall e | e in entities ensures TableReadsBack(entities, info, dialect, e.table) <==> AllReadBack(e, InfoOf(info, e.table), dialect) {}
    forall t | EntityOf(entities, t).Some? ensures EntityOf(entities, t).value in entities && EntityOf(entities, t).value.table == t {
      EntityOfSome(entities, t);
    }
  }
}
