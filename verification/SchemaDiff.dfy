/** The schema diff: what separates the database from the entities, and the migration that follows from it. */
module SchemaDiff {
  import opened Options
  import opened SqlTypes
  import opened SchemaChange
  import opened DdlGenerator

  /** A table as the introspector reports it. */
  datatype TableInfo = TableInfo(table: string, columns: seq<Column>)

  datatype ColumnModification = ColumnModification(name: string, oldType: string, newType: string)

  datatype TableModification = TableModification(
    table: string, added: seq<Column>, altered: seq<ColumnModification>, removed: seq<Column>)

  /** A table to create, with the columns its statement names and what they refer to. */
  datatype TableDiff = TableDiff(table: string, columns: seq<Column>, references: seq<Reference>)

  datatype SchemaDiff = SchemaDiff(added: seq<TableDiff>, removed: seq<string>, modified: seq<TableModification>)

  /** The type a field is compared with: unlike a created column's, it is not read off the initial value,
      and @Column of an embeddable is not looked up. */
  function WantedType(field: Field): string {
    match field
    case Own(_, entry, _) => ResolveColumnType(entry, Nothing)
    case Embedded(_, _) => "TEXT"
  }

  function ColumnsOf(e: Entity): (columns: seq<Column>)
    ensures |columns| == |e.fields|
  {
    seq(|e.fields|, i requires 0 <= i < |e.fields| => Column(e.fields[i].column, WantedType(e.fields[i])))
  }

  // ------------------------------------------------------ one table

  /** The columns whose names the other list lacks. */
  function Missing(columns: seq<Column>, other: seq<Column>): seq<Column> {
    if |columns| == 0 then []
    else
      var n := |columns| - 1;
      Missing(columns[..n], other) + if TypeIn(other, columns[n].name).None? then [columns[n]] else []
  }

  predicate Differs(column: Column, db: seq<Column>) {
    TypeIn(db, column.name).Some? && NormalizeType(column.sqlType) != NormalizeType(TypeIn(db, column.name).value)
  }

  function Retyped(columns: seq<Column>, db: seq<Column>): seq<ColumnModification> {
    if |columns| == 0 then []
    else
      var n := |columns| - 1;
      Retyped(columns[..n], db)
      + if Differs(columns[n], db) then [ColumnModification(columns[n].name, TypeIn(db, columns[n].name).value, columns[n].sqlType)] else []
  }

  function Compared(e: Entity, db: seq<Column>): TableModification {
    TableModification(e.table, Missing(ColumnsOf(e), db), Retyped(ColumnsOf(e), db), Missing(db, ColumnsOf(e)))
  }

  predicate NoChange(m: TableModification) {
    m.added == [] && m.altered == [] && m.removed == []
  }

  lemma {:induction false} MissingMembers(columns: seq<Column>, other: seq<Column>)
    ensures forall c :: c in Missing(columns, other) <==> c in columns && TypeIn(other, c.name).None?
    ensures Distinct(columns) ==> Distinct(Missing(columns, other))
  {
    if |columns| > 0 {
      var n := |columns| - 1;
      MissingMembers(columns[..n], other);
      assert columns == columns[..n] + [columns[n]];
      if Distinct(columns) {
        forall c | c in Missing(columns[..n], other) ensures c.name != columns[n].name {
          assert c in columns[..n];
        }
      }
    }
  }

  predicate DistinctRetyped(ms: seq<ColumnModification>) {
    forall i, j :: 0 <= i < j < |ms| ==> ms[i].name != ms[j].name
  }

  lemma {:induction false} RetypedMembers(columns: seq<Column>, db: seq<Column>)
    ensures forall m :: m in Retyped(columns, db) <==>
      Column(m.name, m.newType) in columns && Differs(Column(m.name, m.newType), db) && TypeIn(db, m.name) == Some(m.oldType)
    ensures Distinct(columns) ==> DistinctRetyped(Retyped(columns, db))
  {
    hide NormalizeType, TypeIn;
    if |columns| > 0 {
      var n := |columns| - 1;
      RetypedMembers(columns[..n], db);
      assert columns == columns[..n] + [columns[n]];
      if Distinct(columns) {
        forall m | m in Retyped(columns[..n], db) ensures m.name != columns[n].name {
          assert Column(m.name, m.newType) in columns[..n];
        }
      }
    }
  }

  // ------------------------------------------------------ migrations

  function Additions(columns: seq<Column>): seq<Change> {
    seq(|columns|, i requires 0 <= i < |columns| => AddColumn(columns[i].name, columns[i].sqlType))
  }

  function TextAdditions(columns: seq<Column>): seq<Change> {
    seq(|columns|, i requires 0 <= i < |columns| => AddColumn(columns[i].name, "TEXT"))
  }

  function Removals(columns: seq<Column>): seq<Change> {
    seq(|columns|, i requires 0 <= i < |columns| => DropColumn(columns[i].name))
  }

  function ToNew(ms: seq<ColumnModification>): seq<Change> {
    seq(|ms|, i requires 0 <= i < |ms| => AlterType(ms[i].name, ms[i].newType))
  }

  function ToOld(ms: seq<ColumnModification>): seq<Change> {
    seq(|ms|, i requires 0 <= i < |ms| => AlterType(ms[i].name, ms[i].oldType))
  }

  function UpChanges(m: TableModification): seq<Change> {
    Additions(m.added) + ToNew(m.altered) + Removals(m.removed)
  }

  /** In the same order: no column is touched twice. */
  function DownChanges(m: TableModification): seq<Change> {
    Removals(m.added) + ToOld(m.altered) + TextAdditions(m.removed)
  }

  lemma DistinctConcat(a: seq<Change>, b: seq<Change>)
    requires DistinctChanges(a) && DistinctChanges(b) && forall x, y :: x in a && y in b ==> x.name != y.name
    ensures DistinctChanges(a + b)
  {
  }

  lemma ChangesHoldByName(dialect: Dialect, columns: Columns, changes: seq<Change>)
    requires DistinctChanges(changes) && forall x :: x in changes ==> Fits(columns, x)
    ensures ChangedAll(dialect, columns, changes).Some?
    ensures forall x :: x in changes ==> At(ChangedAll(dialect, columns, changes).value, x.name) == Outcome(dialect, x)
    ensures forall c :: (forall x :: x in changes ==> x.name != c) ==> At(ChangedAll(dialect, columns, changes).value, c) == At(columns, c)
  {
    ChangesHold(dialect, columns, changes);
  }

  /** In a list of distinct names, membership is the same as having that type. */
  lemma TypeInExactly(columns: seq<Column>)
    requires Distinct(columns)
    ensures forall c :: c in columns <==> TypeIn(columns, c.name) == Some(c.sqlType)
  {
    forall c ensures c in columns <==> TypeIn(columns, c.name) == Some(c.sqlType) {
      if c in columns {
        var i :| 0 <= i < |columns| && columns[i] == c;
        TypeInAt(columns, i);
      }
      if TypeIn(columns, c.name) == Some(c.sqlType) {
        var i := TypeInSome(columns, c.name);
      }
    }
  }

  /** What up() does to a column, from the two types alone. */
  function UpChange(wanted: seq<Column>, db: seq<Column>, c: string): Option<Change> {
    match (TypeIn(wanted, c), TypeIn(db, c))
    case (Some(t), None) => Some(AddColumn(c, t))
    case (Some(t), Some(d)) => if NormalizeType(t) != NormalizeType(d) then Some(AlterType(c, t)) else None
    case (None, Some(_)) => Some(DropColumn(c))
    case (None, None) => None
  }

  function DownChange(wanted: seq<Column>, db: seq<Column>, c: string): Option<Change> {
    match (TypeIn(wanted, c), TypeIn(db, c))
    case (Some(_), None) => Some(DropColumn(c))
    case (Some(t), Some(d)) => if NormalizeType(t) != NormalizeType(d) then Some(AlterType(c, d)) else None
    case (None, Some(_)) => Some(AddColumn(c, "TEXT"))
    case (None, None) => None
  }

  lemma Segments(columns: seq<Column>, ms: seq<ColumnModification>)
    ensures forall x :: x in Additions(columns) <==> x.AddColumn? && Column(x.name, x.sqlType) in columns
    ensures forall x :: x in TextAdditions(columns) <==> x.AddColumn? && x.sqlType == "TEXT" && exists c :: c in columns && c.name == x.name
    ensures forall x :: x in Removals(columns) <==> x.DropColumn? && exists c :: c in columns && c.name == x.name
    ensures forall x :: x in ToNew(ms) <==> x.AlterType? && exists m :: m in ms && m.name == x.name && m.newType == x.sqlType
    ensures forall x :: x in ToOld(ms) <==> x.AlterType? && exists m :: m in ms && m.name == x.name && m.oldType == x.sqlType
  {
    forall c | c in columns
      ensures AddColumn(c.name, c.sqlType) in Additions(columns)
      ensures AddColumn(c.name, "TEXT") in TextAdditions(columns) && DropColumn(c.name) in Removals(columns)
    {
      var i :| 0 <= i < |columns| && columns[i] == c;
      assert Additions(columns)[i] == AddColumn(c.name, c.sqlType) && Removals(columns)[i] == DropColumn(c.name);
      assert TextAdditions(columns)[i] == AddColumn(c.name, "TEXT");
    }
    forall m | m in ms ensures AlterType(m.name, m.newType) in ToNew(ms) && AlterType(m.name, m.oldType) in ToOld(ms) {
      var i :| 0 <= i < |ms| && ms[i] == m;
      assert ToNew(ms)[i] == AlterType(m.name, m.newType) && ToOld(ms)[i] == AlterType(m.name, m.oldType);
    }
  }

  lemma MissingByType(columns: seq<Column>, other: seq<Column>, c: string)
    requires Distinct(columns)
    ensures forall t :: Column(c, t) in Missing(columns, other) <==> TypeIn(columns, c) == Some(t) && TypeIn(other, c).None?
    ensures (exists x :: x in Missing(columns, other) && x.name == c) <==> TypeIn(columns, c).Some? && TypeIn(other, c).None?
  {
    hide Missing, TypeIn;
    MissingMembers(columns, other);
    TypeInExactly(columns);
    forall t ensures Column(c, t) in Missing(columns, other) <==> TypeIn(columns, c) == Some(t) && TypeIn(other, c).None? {
      assert Column(c, t) in columns <==> TypeIn(columns, c) == Some(t);
    }
    if TypeIn(columns, c).Some? && TypeIn(other, c).None? {
      assert Column(c, TypeIn(columns, c).value) in Missing(columns, other);
    }
  }

  lemma RetypedByType(columns: seq<Column>, db: seq<Column>, c: string, t: string)
    requires Distinct(columns)
    ensures (exists m :: m in Retyped(columns, db) && m.name == c && m.newType == t) <==>
      TypeIn(columns, c) == Some(t) && Differs(Column(c, t), db)
    ensures (exists m :: m in Retyped(columns, db) && m.name == c && m.oldType == t) <==>
      TypeIn(columns, c).Some? && Differs(Column(c, TypeIn(columns, c).value), db) && TypeIn(db, c) == Some(t)
  {
    hide Retyped, TypeIn, NormalizeType;
    RetypedMembers(columns, db);
    TypeInExactly(columns);
    assert forall t :: Column(c, t) in columns <==> TypeIn(columns, c) == Some(t) by {
      forall t ensures Column(c, t) in columns <==> TypeIn(columns, c) == Some(t) {
        assert Column(c, t).name == c && Column(c, t).sqlType == t;
      }
    }
    if TypeIn(columns, c).Some? && Differs(Column(c, TypeIn(columns, c).value), db) {
      assert ColumnModification(c, TypeIn(db, c).value, TypeIn(columns, c).value) in Retyped(columns, db);
    }
  }

  /** The generated changes are exactly those, each column at most once. */
  lemma UpChangesExactly(e: Entity, db: seq<Column>, x: Change)
    requires Distinct(ColumnsOf(e)) && Distinct(db)
    ensures x in UpChanges(Compared(e, db)) <==> UpChange(ColumnsOf(e), db, x.name) == Some(x)
  {
    var m := Compared(e, db);
    hide Missing, Retyped, TypeIn, Additions, Removals, ToNew, NormalizeType, ColumnsOf;
    MissingByType(ColumnsOf(e), db, x.name);
    MissingByType(db, ColumnsOf(e), x.name);
    RetypedByType(ColumnsOf(e), db, x.name, if x.DropColumn? then "" else x.sqlType);
    Segments(m.added, m.altered);
    Segments(m.removed, m.altered);
    assert x in UpChanges(m) <==> x in Additions(m.added) || x in ToNew(m.altered) || x in Removals(m.removed);
  }

  lemma DownChangesExactly(e: Entity, db: seq<Column>, x: Change)
    requires Distinct(ColumnsOf(e)) && Distinct(db)
    ensures x in DownChanges(Compared(e, db)) <==> DownChange(ColumnsOf(e), db, x.name) == Some(x)
  {
    var m := Compared(e, db);
    hide Missing, Retyped, TypeIn, TextAdditions, Removals, ToOld, NormalizeType, ColumnsOf;
    MissingByType(ColumnsOf(e), db, x.name);
    MissingByType(db, ColumnsOf(e), x.name);
    RetypedByType(ColumnsOf(e), db, x.name, if x.DropColumn? then "" else x.sqlType);
    Segments(m.added, m.altered);
    Segments(m.removed, m.altered);
    assert x in DownChanges(m) <==> x in Removals(m.added) || x in ToOld(m.altered) || x in TextAdditions(m.removed);
  }

  lemma SegmentsDistinct(added: seq<Column>, ms: seq<ColumnModification>, removed: seq<Column>)
    requires Distinct(added) && DistinctRetyped(ms) && Distinct(removed)
    ensures DistinctChanges(Additions(added)) && DistinctChanges(Removals(added)) && DistinctChanges(TextAdditions(removed))
    ensures DistinctChanges(ToNew(ms)) && DistinctChanges(ToOld(ms)) && DistinctChanges(Removals(removed))
  {
  }

  lemma UpDistinct(e: Entity, db: seq<Column>)
    requires Distinct(ColumnsOf(e)) && Distinct(db)
    ensures DistinctChanges(UpChanges(Compared(e, db)))
  {
    var m := Compared(e, db);
    MissingMembers(ColumnsOf(e), db);
    MissingMembers(db, ColumnsOf(e));
    RetypedMembers(ColumnsOf(e), db);
    SegmentsDistinct(m.added, m.altered, m.removed);
    hide Missing, Retyped, TypeIn, ColumnsOf, UpChange;
    forall x, y | x in UpChanges(m) && y in UpChanges(m) && x.name == y.name ensures x == y {
      UpChangesExactly(e, db, x);
      UpChangesExactly(e, db, y);
    }
    DistinctConcat(Additions(m.added), ToNew(m.altered));
    DistinctConcat(Additions(m.added) + ToNew(m.altered), Removals(m.removed));
  }

  lemma DownDistinct(e: Entity, db: seq<Column>)
    requires Distinct(ColumnsOf(e)) && Distinct(db)
    ensures DistinctChanges(DownChanges(Compared(e, db)))
  {
    var m := Compared(e, db);
    MissingMembers(ColumnsOf(e), db);
    MissingMembers(db, ColumnsOf(e));
    RetypedMembers(ColumnsOf(e), db);
    SegmentsDistinct(m.added, m.altered, m.removed);
    hide Missing, Retyped, TypeIn, ColumnsOf, DownChange;
    forall x, y | x in DownChanges(m) && y in DownChanges(m) && x.name == y.name ensures x == y {
      DownChangesExactly(e, db, x);
      DownChangesExactly(e, db, y);
    }
    DistinctConcat(Removals(m.added), ToOld(m.altered));
    DistinctConcat(Removals(m.added) + ToOld(m.altered), TextAdditions(m.removed));
  }

  /** The introspector lists every column, with the database's own name of its type. */
  ghost predicate Reports(dialect: Dialect, db: seq<Column>, columns: Columns) {
    Distinct(db) && forall c :: TypeIn(db, c) == if c in columns then Some(dialect.report(columns[c])) else None
  }

  function Then(dialect: Dialect, before: Option<Stored>, change: Option<Change>): Option<Stored> {
    if change.Some? then Outcome(dialect, change.value) else before
  }

  /** The columns of one table after up(). */
  lemma UpColumns(e: Entity, dialect: Dialect, columns: Columns, db: seq<Column>)
    requires Distinct(ColumnsOf(e)) && Reports(dialect, db, columns)
    ensures ChangedAll(dialect, columns, UpChanges(Compared(e, db))).Some?
    ensures forall c ::
      At(ChangedAll(dialect, columns, UpChanges(Compared(e, db))).value, c) == Then(dialect, At(columns, c), UpChange(ColumnsOf(e), db, c))
  {
    var changes := UpChanges(Compared(e, db));
    hide Compared, UpChanges, TypeIn, ColumnsOf, ChangedAll, NormalizeType;
    UpDistinct(e, db);
    forall x | x in changes ensures Fits(columns, x) {
      UpChangesExactly(e, db, x);
    }
    ChangesHoldByName(dialect, columns, changes);
    forall c ensures At(ChangedAll(dialect, columns, changes).value, c) == Then(dialect, At(columns, c), UpChange(ColumnsOf(e), db, c)) {
      var expected := UpChange(ColumnsOf(e), db, c);
      if expected.Some? {
        UpChangesExactly(e, db, expected.value);
      } else {
        forall x | x in changes ensures x.name != c {
          UpChangesExactly(e, db, x);
        }
      }
    }
  }

  lemma DownChangeNamed(wanted: seq<Column>, db: seq<Column>, c: string)
    ensures DownChange(wanted, db, c).Some? ==> DownChange(wanted, db, c).value.name == c
  {
  }

  /** down() applies to the columns of one table exactly when every single change fits, and then each has its effect. */
  lemma DownColumns(e: Entity, dialect: Dialect, columns: Columns, db: seq<Column>)
    requires Distinct(ColumnsOf(e)) && Distinct(db)
    ensures ChangedAll(dialect, columns, DownChanges(Compared(e, db))).Some?
      <==> forall c :: DownChange(ColumnsOf(e), db, c).Some? ==> Fits(columns, DownChange(ColumnsOf(e), db, c).value)
    ensures ChangedAll(dialect, columns, DownChanges(Compared(e, db))).Some? ==> forall c ::
      At(ChangedAll(dialect, columns, DownChanges(Compared(e, db))).value, c) == Then(dialect, At(columns, c), DownChange(ColumnsOf(e), db, c))
  {
    var changes := DownChanges(Compared(e, db));
    hide Compared, DownChanges, TypeIn, ColumnsOf, ChangedAll, NormalizeType, DownChange;
    DownDistinct(e, db);
    ChangesExactly(dialect, columns, changes);
    forall x | x in changes ensures DownChange(ColumnsOf(e), db, x.name) == Some(x) {
      DownChangesExactly(e, db, x);
    }
    forall c | DownChange(ColumnsOf(e), db, c).Some? ensures DownChange(ColumnsOf(e), db, c).value in changes {
      DownChangeNamed(ColumnsOf(e), db, c);
      DownChangesExactly(e, db, DownChange(ColumnsOf(e), db, c).value);
    }
    if ChangedAll(dialect, columns, changes).Some? {
      ChangesHoldByName(dialect, columns, changes);
      forall c ensures At(ChangedAll(dialect, columns, changes).value, c) == Then(dialect, At(columns, c), DownChange(ColumnsOf(e), db, c)) {
        DownChangeNamed(ColumnsOf(e), db, c);
      }
    }
  }

  // ------------------------------------------------------ all tables

  function EntityOf(entities: seq<Entity>, table: string): Option<Entity> {
    if |entities| == 0 then None
    else if entities[|entities| - 1].table == table then Some(entities[|entities| - 1])
    else EntityOf(entities[..|entities| - 1], table)
  }

  function InfoOf(info: seq<TableInfo>, table: string): Option<seq<Column>> {
    if |info| == 0 then None
    else if info[|info| - 1].table == table then Some(info[|info| - 1].columns)
    else InfoOf(info[..|info| - 1], table)
  }

  function AddedTable(e: Entity): TableDiff {
    TableDiff(e.table, CreatedColumns(e), References(e))
  }

  function AddedTables(entities: seq<Entity>, info: seq<TableInfo>): seq<TableDiff> {
    if |entities| == 0 then []
    else
      var n := |entities| - 1;
      AddedTables(entities[..n], info)
      + if InfoOf(info, entities[n].table).None? then [AddedTable(entities[n])] else []
  }

  function RemovedTables(info: seq<TableInfo>, entities: seq<Entity>): seq<string> {
    if |info| == 0 then []
    else
      var n := |info| - 1;
      RemovedTables(info[..n], entities) + if EntityOf(entities, info[n].table).None? then [info[n].table] else []
  }

  predicate IsModified(e: Entity, info: seq<TableInfo>) {
    InfoOf(info, e.table).Some? && !NoChange(Compared(e, InfoOf(info, e.table).value))
  }

  function ModifiedTables(entities: seq<Entity>, info: seq<TableInfo>): seq<TableModification> {
    if |entities| == 0 then []
    else
      var n := |entities| - 1;
      ModifiedTables(entities[..n], info)
      + if IsModified(entities[n], info) then [Compared(entities[n], InfoOf(info, entities[n].table).value)] else []
  }

  function DiffOf(entities: seq<Entity>, info: seq<TableInfo>): SchemaDiff {
    SchemaDiff(AddedTables(entities, info), RemovedTables(info, entities), ModifiedTables(entities, info))
  }

  // ---------------------------------------------------- the methods

  /** Compares one table's columns. */
  method CompareTable(e: Entity, db: seq<Column>) returns (m: TableModification)
    ensures m == Compared(e, db)
  {
    hide TypeIn, NormalizeType, ColumnsOf;
    var columns := ColumnsOf(e);
    var added: seq<Column>, altered: seq<ColumnModification>, removed: seq<Column> := [], [], [];
    for i := 0 to |columns|
      invariant added == Missing(columns[..i], db)
    {
      if TypeIn(db, columns[i].name).None? {
        added := added + [columns[i]];
      }
      assert columns[..i + 1][..i] == columns[..i];
    }
    for i := 0 to |db|
      invariant removed == Missing(db[..i], columns)
    {
      if TypeIn(columns, db[i].name).None? {
        removed := removed + [db[i]];
      }
      assert db[..i + 1][..i] == db[..i];
    }
    for i := 0 to |columns|
      invariant altered == Retyped(columns[..i], db)
    {
      var reported := TypeIn(db, columns[i].name);
      if reported.Some? && NormalizeType(columns[i].sqlType) != NormalizeType(reported.value) {
        altered := altered + [ColumnModification(columns[i].name, reported.value, columns[i].sqlType)];
      }
      assert columns[..i + 1][..i] == columns[..i];
    }
    assert columns[..|columns|] == columns && db[..|db|] == db;
    m := TableModification(e.table, added, altered, removed);
  }

  method Diff(entities: seq<Entity>, info: seq<TableInfo>) returns (diff: SchemaDiff)
    ensures diff == DiffOf(entities, info)
  {
    hide CreatedColumns, References;
    var added: seq<TableDiff>, removed: seq<string>, modified: seq<TableModification> := [], [], [];
    for i := 0 to |entities|
      invariant added == AddedTables(entities[..i], info)
    {
      if InfoOf(info, entities[i].table).None? {
        var columns, references := GenerateCreateTable(entities[i]);
        added := added + [TableDiff(entities[i].table, columns, references)];
      }
      assert entities[..i + 1][..i] == entities[..i];
    }
    for i := 0 to |info|
      invariant removed == RemovedTables(info[..i], entities)
    {
      if EntityOf(entities, info[i].table).None? {
        removed := removed + [info[i].table];
      }
      assert info[..i + 1][..i] == info[..i];
    }
    for i := 0 to |entities|
      invariant modified == ModifiedTables(entities[..i], info)
    {
      hide Compared;
      assert entities[..i + 1][..i] == entities[..i];
      var columns := InfoOf(info, entities[i].table);
      if columns.None? {
        continue;
      }
      var m := CompareTable(entities[i], columns.value);
      if !NoChange(m) {
        modified := modified + [m];
      }
    }
    assert entities[..|entities|] == entities && info[..|info|] == info;
    diff := SchemaDiff(added, removed, modified);
  }

  // -------------------------------------------- what follows from a diff

  function Creates(added: seq<TableDiff>): seq<TableChange> {
    seq(|added|, i requires 0 <= i < |added| => Create(added[i].table, added[i].columns, added[i].references))
  }

  function Undone(added: seq<TableDiff>): seq<TableChange> {
    seq(|added|, i requires 0 <= i < |added| => Drop(added[i].table))
  }

  function ModifiesUp(ms: seq<TableModification>): seq<TableChange> {
    seq(|ms|, i requires 0 <= i < |ms| => Modify(ms[i].table, UpChanges(ms[i])))
  }

  function ModifiesDown(ms: seq<TableModification>): seq<TableChange> {
    seq(|ms|, i requires 0 <= i < |ms| => Modify(ms[i].table, DownChanges(ms[i])))
  }

  function Drops(tables: seq<string>): seq<TableChange> {
    seq(|tables|, i requires 0 <= i < |tables| => Drop(tables[i]))
  }

  function Leaves(tables: seq<string>): seq<TableChange> {
    seq(|tables|, i requires 0 <= i < |tables| => Leave(tables[i]))
  }

  function UpTables(diff: SchemaDiff): seq<TableChange> {
    Creates(diff.added) + ModifiesUp(diff.modified) + Drops(diff.removed)
  }

  function DownTables(diff: SchemaDiff): seq<TableChange> {
    Undone(diff.added) + ModifiesDown(diff.modified) + Leaves(diff.removed)
  }

  lemma {:induction false} StatementsSnoc(schema: Option<string>, changes: seq<TableChange>, change: TableChange)
    ensures AllStatements(schema, changes + [change]) == AllStatements(schema, changes) + StatementsOf(schema, change)
  {
    if |changes| == 0 {
      assert changes + [change] == [change] && [change][1..] == [];
      assert AllStatements(schema, []) == [];
      assert StatementsOf(schema, change) + [] == StatementsOf(schema, change);
    } else {
      StatementsSnoc(schema, changes[1..], change);
      assert changes + [change] == [changes[0]] + (changes[1..] + [change]);
      Associative(StatementsOf(schema, changes[0]), AllStatements(schema, changes[1..]), StatementsOf(schema, change));
    }
  }

  lemma Associative(a: seq<Statement>, b: seq<Statement>, c: seq<Statement>)
    ensures a + (b + c) == (a + b) + c
  {
  }

  lemma AlteredSnoc(schema: Option<string>, table: string, changes: seq<Change>, change: Change)
    ensures Altered(schema, table, changes + [change]) == Altered(schema, table, changes) + [AlterTable(schema, table, change)]
  {
  }

  /** The statements for one modified table, forth and back. */
  method ModificationStatements(m: TableModification, schema: Option<string>) returns (up: seq<Statement>, down: seq<Statement>)
    ensures up == Altered(schema, m.table, UpChanges(m)) && down == Altered(None, m.table, DownChanges(m))
  {
    hide Altered;
    up, down := [], [];
    ghost var ups: seq<Change>, downs: seq<Change> := [], [];
    EmptyAltered(schema, m.table);
    EmptyAltered(None, m.table);
    for i := 0 to |m.added|
      invariant ups == Additions(m.added[..i]) && downs == Removals(m.added[..i])
      invariant up == Altered(schema, m.table, ups) && down == Altered(None, m.table, downs)
    {
      var forth, back := AddColumn(m.added[i].name, m.added[i].sqlType), DropColumn(m.added[i].name);
      AlteredSnoc(schema, m.table, ups, forth);
      AlteredSnoc(None, m.table, downs, back);
      up, down := up + [AlterTable(schema, m.table, forth)], down + [AlterTable(None, m.table, back)];
      ups, downs := ups + [forth], downs + [back];
    }
    assert m.added[..|m.added|] == m.added;
    for i := 0 to |m.altered|
      invariant ups == Additions(m.added) + ToNew(m.altered[..i]) && downs == Removals(m.added) + ToOld(m.altered[..i])
      invariant up == Altered(schema, m.table, ups) && down == Altered(None, m.table, downs)
    {
      var x := m.altered[i];
      var forth, back := AlterType(x.name, x.newType), AlterType(x.name, x.oldType);
      AlteredSnoc(schema, m.table, ups, forth);
      AlteredSnoc(None, m.table, downs, back);
      up, down := up + [AlterTable(schema, m.table, forth)], down + [AlterTable(None, m.table, back)];
      ups, downs := ups + [forth], downs + [back];
    }
    assert m.altered[..|m.altered|] == m.altered;
    for i := 0 to |m.removed|
      invariant ups == Additions(m.added) + ToNew(m.altered) + Removals(m.removed[..i])
      invariant downs == Removals(m.added) + ToOld(m.altered) + TextAdditions(m.removed[..i])
      invariant up == Altered(schema, m.table, ups) && down == Altered(None, m.table, downs)
    {
      var forth, back := DropColumn(m.removed[i].name), AddColumn(m.removed[i].name, "TEXT");
      AlteredSnoc(schema, m.table, ups, forth);
      AlteredSnoc(None, m.table, downs, back);
      up, down := up + [AlterTable(schema, m.table, forth)], down + [AlterTable(None, m.table, back)];
      ups, downs := ups + [forth], downs + [back];
    }
    assert m.removed[..|m.removed|] == m.removed;
  }

  lemma EmptyAltered(schema: Option<string>, table: string)
    ensures Altered(schema, table, []) == []
  {
  }

  method GenerateMigration(diff: SchemaDiff, schema: Option<string>) returns (up: seq<Statement>, down: seq<Statement>)
    ensures up == AllStatements(schema, UpTables(diff)) && down == AllStatements(None, DownTables(diff))
  {
    hide AllStatements, UpChanges, DownChanges;
    up, down := [], [];
    ghost var ups: seq<TableChange>, downs: seq<TableChange> := [], [];
    NoStatements(schema);
    NoStatements(None);
    for i := 0 to |diff.added|
      invariant ups == Creates(diff.added[..i]) && downs == Undone(diff.added[..i])
      invariant up == AllStatements(schema, ups) && down == AllStatements(None, downs)
    {
      var e := diff.added[i];
      StatementsSnoc(schema, ups, Create(e.table, e.columns, e.references));
      StatementsSnoc(None, downs, Drop(e.table));
      up, down := up + [CreateTable(schema, e.table, e.columns, e.references)], down + [DropTable(None, e.table)];
      ups, downs := ups + [Create(e.table, e.columns, e.references)], downs + [Drop(e.table)];
    }
    assert diff.added[..|diff.added|] == diff.added;
    for i := 0 to |diff.modified|
      invariant ups == Creates(diff.added) + ModifiesUp(diff.modified[..i])
      invariant downs == Undone(diff.added) + ModifiesDown(diff.modified[..i])
      invariant up == AllStatements(schema, ups) && down == AllStatements(None, downs)
    {
      var m := diff.modified[i];
      var forth, back := ModificationStatements(m, schema);
      StatementsSnoc(schema, ups, Modify(m.table, UpChanges(m)));
      StatementsSnoc(None, downs, Modify(m.table, DownChanges(m)));
      up, down := up + forth, down + back;
      ups, downs := ups + [Modify(m.table, UpChanges(m))], downs + [Modify(m.table, DownChanges(m))];
    }
    assert diff.modified[..|diff.modified|] == diff.modified;
    for i := 0 to |diff.removed|
      invariant ups == Creates(diff.added) + ModifiesUp(diff.modified) + Drops(diff.removed[..i])
      invariant downs == Undone(diff.added) + ModifiesDown(diff.modified) + Leaves(diff.removed[..i])
      invariant up == AllStatements(schema, ups) && down == AllStatements(None, downs)
    {
      var table := diff.removed[i];
      StatementsSnoc(schema, ups, Drop(table));
      StatementsSnoc(None, downs, Leave(table));
      up, down := up + [DropTable(schema, table)], down + [Comment(table)];
      ups, downs := ups + [Drop(table)], downs + [Leave(table)];
    }
    assert diff.removed[..|diff.removed|] == diff.removed;
  }

  lemma NoStatements(schema: Option<string>)
    ensures AllStatements(schema, []) == []
  {
  }
}
