/** Tables with typed columns, and what a list of statements makes of them. */
module SchemaChange {
  import opened Options

  datatype Column = Column(name: string, sqlType: string)

  /** A type as the database holds it, whichever way it was spelled. */
  datatype Stored = Stored(name: string)

  /** The schema of tables named without one, what a spelled type denotes, and how the introspector spells a held one. */
  datatype Dialect = Dialect(default: string, denotes: string -> Stored, report: Stored -> string)

  type Columns = map<string, Stored>

  /** Tables by schema and name. */
  type Tables = map<(string, string), Columns>

  /** A join column that refers to a column of another table. */
  datatype Reference = Reference(column: string, target: string, key: string)

  datatype Change = AddColumn(name: string, sqlType: string) | AlterType(name: string, sqlType: string) | DropColumn(name: string)

  /** Statements name a table in a schema, or in the one the connection defaults to. */
  datatype Statement =
    | CreateTable(schema: Option<string>, table: string, columns: seq<Column>, references: seq<Reference>)
    | DropTable(schema: Option<string>, table: string)
    | AlterTable(schema: Option<string>, table: string, change: Change)
    | Comment(table: string)

  predicate Distinct(columns: seq<Column>) {
    forall i, j :: 0 <= i < j < |columns| ==> columns[i].name != columns[j].name
  }

  function ColumnMap(dialect: Dialect, columns: seq<Column>): Columns {
    if |columns| == 0 then map[]
    else
      var n := |columns| - 1;
      ColumnMap(dialect, columns[..n])[columns[n].name := dialect.denotes(columns[n].sqlType)]
  }

  /** The type a list of columns gives to a name. */
  function TypeIn(columns: seq<Column>, name: string): Option<string> {
    if |columns| == 0 then None
    else if columns[|columns| - 1].name == name then Some(columns[|columns| - 1].sqlType)
    else TypeIn(columns[..|columns| - 1], name)
  }

  function At<K, V>(m: map<K, V>, k: K): Option<V> {
    if k in m then Some(m[k]) else None
  }

  function Denoted(dialect: Dialect, sqlType: Option<string>): Option<Stored> {
    if sqlType.Some? then Some(dialect.denotes(sqlType.value)) else None
  }

  lemma {:induction false} ColumnMapAt(dialect: Dialect, columns: seq<Column>, name: string)
    ensures At(ColumnMap(dialect, columns), name) == Denoted(dialect, TypeIn(columns, name))
  {
    if |columns| > 0 { ColumnMapAt(dialect, columns[..|columns| - 1], name); }
  }

  lemma {:induction false} TypeInSome(columns: seq<Column>, name: string) returns (i: nat)
    requires TypeIn(columns, name).Some?
    ensures i < |columns| && columns[i] == Column(name, TypeIn(columns, name).value)
  {
    if columns[|columns| - 1].name == name {
      i := |columns| - 1;
    } else {
      i := TypeInSome(columns[..|columns| - 1], name);
    }
  }

  lemma {:induction false} TypeInAt(columns: seq<Column>, i: nat)
    requires Distinct(columns) && i < |columns|
    ensures TypeIn(columns, columns[i].name) == Some(columns[i].sqlType)
  {
    if i < |columns| - 1 {
      assert columns[|columns| - 1].name != columns[i].name;
      TypeInAt(columns[..|columns| - 1], i);
    }
  }

  // -------------------------------------------------------- one table

  predicate Fits(columns: Columns, change: Change) {
    change.AddColumn? <==> change.name !in columns
  }

  /** The type the changed column has afterwards. */
  function Outcome(dialect: Dialect, change: Change): Option<Stored> {
    if change.DropColumn? then None else Some(dialect.denotes(change.sqlType))
  }

  function Changed(dialect: Dialect, columns: Columns, change: Change): Option<Columns> {
    if !Fits(columns, change) then None
    else if change.DropColumn? then Some(columns - {change.name})
    else Some(columns[change.name := dialect.denotes(change.sqlType)])
  }

  function ChangedAll(dialect: Dialect, columns: Columns, changes: seq<Change>): Option<Columns>
    decreases |changes|
  {
    if |changes| == 0 then Some(columns)
    else match Changed(dialect, columns, changes[0])
      case None => None
      case Some(next) => ChangedAll(dialect, next, changes[1..])
  }

  predicate DistinctChanges(changes: seq<Change>) {
    forall i, j :: 0 <= i < j < |changes| ==> changes[i].name != changes[j].name
  }

  /** Changes of different columns that each fit: every one has its effect, and the other columns stay. */
  lemma {:induction false} ChangesHold(dialect: Dialect, columns: Columns, changes: seq<Change>)
    requires DistinctChanges(changes) && forall i :: 0 <= i < |changes| ==> Fits(columns, changes[i])
    ensures ChangedAll(dialect, columns, changes).Some?
    ensures forall i :: 0 <= i < |changes| ==> At(ChangedAll(dialect, columns, changes).value, changes[i].name) == Outcome(dialect, changes[i])
    ensures forall c :: (forall i :: 0 <= i < |changes| ==> changes[i].name != c) ==>
      At(ChangedAll(dialect, columns, changes).value, c) == At(columns, c)
    decreases |changes|
  {
    if |changes| > 0 {
      var rest, next := changes[1..], Changed(dialect, columns, changes[0]).value;
      assert forall i :: 0 <= i < |rest| ==> rest[i] == changes[i + 1];
      ChangesHold(dialect, next, rest);
      var result := ChangedAll(dialect, columns, changes).value;
      forall i | 0 <= i < |changes| ensures At(result, changes[i].name) == Outcome(dialect, changes[i]) {
        if i > 0 {
          assert changes[i] == rest[i - 1];
        }
      }
      forall c | forall i :: 0 <= i < |changes| ==> changes[i].name != c ensures At(result, c) == At(columns, c) {
        assert changes[0].name != c;
      }
    }
  }

  /** Changes of different columns all apply exactly when each fits the columns as they were. */
  lemma {:induction false} ChangesExactly(dialect: Dialect, columns: Columns, changes: seq<Change>)
    requires DistinctChanges(changes)
    ensures ChangedAll(dialect, columns, changes).Some? <==> forall i :: 0 <= i < |changes| ==> Fits(columns, changes[i])
    decreases |changes|
  {
    if |changes| > 0 && Fits(columns, changes[0]) {
      var rest, next := changes[1..], Changed(dialect, columns, changes[0]).value;
      assert forall i :: 0 <= i < |rest| ==> rest[i] == changes[i + 1];
      assert forall i :: 0 < i < |changes| ==> changes[i] == rest[i - 1];
      forall i | 0 < i < |changes| ensures Fits(next, changes[i]) <==> Fits(columns, changes[i]) {
        assert changes[i].name != changes[0].name;
      }
      ChangesExactly(dialect, next, rest);
    }
  }

  // ------------------------------------------------------ all tables

  /** The schema that statements name, or the default one. */
  function Home(schema: Option<string>, dialect: Dialect): string {
    if schema.Some? then schema.value else dialect.default
  }

  function Key(schema: Option<string>, dialect: Dialect, table: string): (string, string) {
    (Home(schema, dialect), table)
  }

  /** What a statement does to tables and their columns; None where these do not allow it. */
  function Reshape(dialect: Dialect, db: Tables, statement: Statement): Option<Tables> {
    match statement
    case Comment(_) => Some(db)
    case CreateTable(schema, table, columns, _) =>
      var key := Key(schema, dialect, table);
      if key in db || !Distinct(columns) then None else Some(db[key := ColumnMap(dialect, columns)])
    case DropTable(schema, table) =>
      var key := Key(schema, dialect, table);
      if key in db then Some(db - {key}) else None
    case AlterTable(schema, table, change) =>
      var key := Key(schema, dialect, table);
      if key !in db then None
      else match Changed(dialect, db[key], change)
        case None => None
        case Some(columns) => Some(db[key := columns])
  }

  function ReshapeAll(dialect: Dialect, db: Tables, statements: seq<Statement>): Option<Tables>
    decreases |statements|
  {
    if |statements| == 0 then Some(db)
    else match Reshape(dialect, db, statements[0])
      case None => None
      case Some(next) => ReshapeAll(dialect, next, statements[1..])
  }

  lemma {:induction false} ReshapeConcat(dialect: Dialect, db: Tables, a: seq<Statement>, b: seq<Statement>)
    ensures ReshapeAll(dialect, db, a + b) == match ReshapeAll(dialect, db, a) case None => None case Some(next) => ReshapeAll(dialect, next, b)
    decreases |a|
  {
    if |a| == 0 {
      assert a + b == b;
    } else {
      assert a + b == [a[0]] + (a[1..] + b);
      var next := Reshape(dialect, db, a[0]);
      if next.Some? {
        ReshapeConcat(dialect, next.value, a[1..], b);
      }
    }
  }

  /** What happens to one table. */
  datatype TableChange =
    | Create(table: string, columns: seq<Column>, references: seq<Reference>)
    | Drop(table: string)
    | Modify(table: string, changes: seq<Change>)
    | Leave(table: string)

  function Altered(schema: Option<string>, table: string, changes: seq<Change>): seq<Statement> {
    seq(|changes|, i requires 0 <= i < |changes| => AlterTable(schema, table, changes[i]))
  }

  function StatementsOf(schema: Option<string>, change: TableChange): seq<Statement> {
    match change
    case Create(table, columns, references) => [CreateTable(schema, table, columns, references)]
    case Drop(table) => [DropTable(schema, table)]
    case Modify(table, changes) => Altered(schema, table, changes)
    case Leave(table) => [Comment(table)]
  }

  function AllStatements(schema: Option<string>, changes: seq<TableChange>): seq<Statement> {
    if |changes| == 0 then [] else StatementsOf(schema, changes[0]) + AllStatements(schema, changes[1..])
  }

  /** The table afterwards; None where the statements do not apply. */
  function TableAfter(dialect: Dialect, before: Option<Columns>, change: TableChange): Option<Option<Columns>> {
    match change
    case Leave(_) => Some(before)
    case Create(_, columns, _) => if before.None? && Distinct(columns) then Some(Some(ColumnMap(dialect, columns))) else None
    case Drop(_) => if before.Some? then Some(None) else None
    case Modify(_, changes) =>
      if |changes| == 0 then Some(before)
      else if before.None? then None
      else match ChangedAll(dialect, before.value, changes) case None => None case Some(after) => Some(Some(after))
  }

  function Replaced(db: Tables, key: (string, string), table: Option<Columns>): Tables {
    if table.Some? then db[key := table.value] else db - {key}
  }

  /** The database after a change of one table, if it applies. */
  function Reached(dialect: Dialect, db: Tables, key: (string, string), change: TableChange): Option<Tables> {
    match TableAfter(dialect, At(db, key), change)
    case None => None
    case Some(table) => Some(Replaced(db, key, table))
  }

  lemma {:induction false} AlteredReshape(dialect: Dialect, db: Tables, schema: Option<string>, table: string, changes: seq<Change>)
    requires Key(schema, dialect, table) in db
    ensures var key := Key(schema, dialect, table);
      ReshapeAll(dialect, db, Altered(schema, table, changes))
      == match ChangedAll(dialect, db[key], changes) case None => None case Some(columns) => Some(db[key := columns])
  {
    var key := Key(schema, dialect, table);
    if |changes| == 0 {
      assert db[key := db[key]] == db;
    } else if Changed(dialect, db[key], changes[0]).Some? {
      var next := db[key := Changed(dialect, db[key], changes[0]).value];
      AlteredReshape(dialect, next, schema, table, changes[1..]);
      assert Altered(schema, table, changes)[1..] == Altered(schema, table, changes[1..]);
      var rest := ChangedAll(dialect, next[key], changes[1..]);
      assert rest.Some? ==> next[key := rest.value] == db[key := rest.value];
    }
  }

  lemma ChangeReshape(dialect: Dialect, db: Tables, schema: Option<string>, change: TableChange)
    ensures ReshapeAll(dialect, db, StatementsOf(schema, change)) == Reached(dialect, db, Key(schema, dialect, change.table), change)
  {
    var key := Key(schema, dialect, change.table);
    if change.Modify? {
      assert change.changes == [] ==> Replaced(db, key, At(db, key)) == db;
      if key in db {
        AlteredReshape(dialect, db, schema, change.table, change.changes);
      }
    } else {
      assert key !in db ==> db - {key} == db;
      assert key in db ==> db[key := db[key]] == db;
      assert forall s :: ReshapeAll(dialect, db, [s]) == Reshape(dialect, db, s) by {
        forall s ensures ReshapeAll(dialect, db, [s]) == Reshape(dialect, db, s) {
          assert [s][1..] == [];
        }
      }
    }
  }

  predicate DistinctTables(changes: seq<TableChange>) {
    forall i, j :: 0 <= i < j < |changes| ==> changes[i].table != changes[j].table
  }

  /** Where a table's statements apply to it, and what they leave. */
  ghost predicate Holds(dialect: Dialect, before: Tables, after: Tables, key: (string, string), change: TableChange) {
    Some(At(after, key)) == TableAfter(dialect, At(before, key), change)
  }

  lemma OneTable(dialect: Dialect, db: Tables, schema: Option<string>, changes: seq<TableChange>)
    requires |changes| > 0
    ensures ReshapeAll(dialect, db, AllStatements(schema, changes))
      == match Reached(dialect, db, Key(schema, dialect, changes[0].table), changes[0])
         case None => None
         case Some(next) => ReshapeAll(dialect, next, AllStatements(schema, changes[1..]))
  {
    hide ReshapeAll, Reached;
    ChangeReshape(dialect, db, schema, changes[0]);
    ReshapeConcat(dialect, db, StatementsOf(schema, changes[0]), AllStatements(schema, changes[1..]));
  }

  /** The statements for different tables can all be applied exactly when each change applies to its own table. */
  lemma {:induction false} ReshapesExactly(dialect: Dialect, db: Tables, schema: Option<string>, changes: seq<TableChange>)
    requires DistinctTables(changes)
    ensures ReshapeAll(dialect, db, AllStatements(schema, changes)).Some?
      <==> forall i :: 0 <= i < |changes| ==> TableAfter(dialect, At(db, Key(schema, dialect, changes[i].table)), changes[i]).Some?
    decreases |changes|
  {
    if |changes| == 0 {
      assert AllStatements(schema, changes) == [];
    } else {
      var rest, key0 := changes[1..], Key(schema, dialect, changes[0].table);
      OneTable(dialect, db, schema, changes);
      hide ReshapeAll, AllStatements, TableAfter;
      if Reached(dialect, db, key0, changes[0]).Some? {
        var next := Reached(dialect, db, key0, changes[0]).value;
        RestUntouched(dialect, db, next, schema, changes);
        ReshapesExactly(dialect, next, schema, rest);
        assert forall i :: 0 < i < |changes| ==> changes[i] == rest[i - 1];
        assert forall i :: 0 <= i < |rest| ==> rest[i] == changes[i + 1];
      }
    }
  }

  /** Changes of different tables that each apply: every one has its effect, and all other tables stay. */
  lemma {:induction false} TablesHold(dialect: Dialect, db: Tables, schema: Option<string>, changes: seq<TableChange>)
    requires DistinctTables(changes)
    requires forall i :: 0 <= i < |changes| ==> TableAfter(dialect, At(db, Key(schema, dialect, changes[i].table)), changes[i]).Some?
    ensures ReshapeAll(dialect, db, AllStatements(schema, changes)).Some?
    ensures forall i :: 0 <= i < |changes| ==>
      Holds(dialect, db, ReshapeAll(dialect, db, AllStatements(schema, changes)).value, Key(schema, dialect, changes[i].table), changes[i])
    ensures forall key :: (forall i :: 0 <= i < |changes| ==> key != Key(schema, dialect, changes[i].table)) ==>
      At(ReshapeAll(dialect, db, AllStatements(schema, changes)).value, key) == At(db, key)
    decreases |changes|
  {
    if |changes| == 0 {
      assert AllStatements(schema, changes) == [];
    } else {
      var rest, key0 := changes[1..], Key(schema, dialect, changes[0].table);
      OneTable(dialect, db, schema, changes);
      hide ReshapeAll, AllStatements, TableAfter;
      var next := Replaced(db, key0, TableAfter(dialect, At(db, key0), changes[0]).value);
      RestUntouched(dialect, db, next, schema, changes);
      TablesHold(dialect, next, schema, rest);
      Assembled(dialect, db, next, ReshapeAll(dialect, next, AllStatements(schema, rest)).value, schema, changes);
    }
  }

  /** The first table's change leaves those of the others. */
  lemma RestUntouched(dialect: Dialect, db: Tables, next: Tables, schema: Option<string>, changes: seq<TableChange>)
    requires DistinctTables(changes) && |changes| > 0
    requires forall key :: key != Key(schema, dialect, changes[0].table) ==> At(next, key) == At(db, key)
    ensures forall i :: 0 <= i < |changes[1..]| ==>
      At(next, Key(schema, dialect, changes[1..][i].table)) == At(db, Key(schema, dialect, changes[1..][i].table))
  {
    forall i | 0 <= i < |changes[1..]| ensures changes[1..][i].table != changes[0].table {
      assert changes[1..][i] == changes[i + 1];
    }
  }

  lemma Assembled(dialect: Dialect, db: Tables, next: Tables, result: Tables, schema: Option<string>, changes: seq<TableChange>)
    requires DistinctTables(changes) && |changes| > 0
    requires forall key :: key != Key(schema, dialect, changes[0].table) ==> At(next, key) == At(db, key)
    requires Holds(dialect, db, next, Key(schema, dialect, changes[0].table), changes[0])
    requires forall i :: 0 <= i < |changes[1..]| ==> Holds(dialect, next, result, Key(schema, dialect, changes[1..][i].table), changes[1..][i])
    requires forall key :: (forall i :: 0 <= i < |changes[1..]| ==> key != Key(schema, dialect, changes[1..][i].table)) ==>
      At(result, key) == At(next, key)
    ensures forall i :: 0 <= i < |changes| ==> Holds(dialect, db, result, Key(schema, dialect, changes[i].table), changes[i])
    ensures forall key :: (forall i :: 0 <= i < |changes| ==> key != Key(schema, dialect, changes[i].table)) ==> At(result, key) == At(db, key)
  {
    hide TableAfter;
    var rest, key0 := changes[1..], Key(schema, dialect, changes[0].table);
    assert forall j :: 0 <= j < |rest| ==> rest[j] == changes[j + 1];
    forall i | 0 <= i < |changes| ensures Holds(dialect, db, result, Key(schema, dialect, changes[i].table), changes[i]) {
      if i == 0 {
        forall j | 0 <= j < |rest| ensures key0 != Key(schema, dialect, rest[j].table) {
          assert rest[j].table == changes[j + 1].table;
        }
      } else {
        assert changes[i] == rest[i - 1] && changes[i].table != changes[0].table;
      }
    }
    forall key | forall i :: 0 <= i < |changes| ==> key != Key(schema, dialect, changes[i].table) ensures At(result, key) == At(db, key) {
      assert key != key0;
    }
  }
}
