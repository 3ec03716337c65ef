/** up() on a database whose tables refer to each other: new tables must find what they refer to, and nothing may go that is referred to. */
module SchemaReferences {
  import opened Options
  import opened SchemaChange
  import opened SchemaLinks
  import opened DdlGenerator
  import opened SchemaDiff
  import opened SchemaMigration

  /** The entities whose tables the diff adds, in its order. */
  function NewEntities(entities: seq<Entity>, info: seq<TableInfo>): seq<Entity> {
    if |entities| == 0 then []
    else
      var n := |entities| - 1;
      NewEntities(entities[..n], info) + if InfoOf(info, entities[n].table).None? then [entities[n]] else []
  }

  predicate Differing(created: seq<Entity>) {
    forall i, j :: 0 <= i < j < |created| ==> created[i].table != created[j].table
  }

  lemma {:induction false} NewMembers(entities: seq<Entity>, info: seq<TableInfo>)
    ensures forall e :: e in NewEntities(entities, info) <==> e in entities && InfoOf(info, e.table).None?
    ensures DistinctEntities(entities) ==> Differing(NewEntities(entities, info))
  {
    hide ColumnsOf, Distinct, InfoOf;
    if |entities| > 0 {
      var n := |entities| - 1;
      NewMembers(entities[..n], info);
      assert entities == entities[..n] + [entities[n]];
      if DistinctEntities(entities) {
        assert DistinctEntities(entities[..n]);
        forall e | e in NewEntities(entities[..n], info) ensures e.table != entities[n].table {
          assert e in entities[..n];
        }
      }
    }
  }

  lemma {:induction false} AddedAreNew(entities: seq<Entity>, info: seq<TableInfo>)
    ensures |AddedTables(entities, info)| == |NewEntities(entities, info)|
    ensures forall i :: 0 <= i < |AddedTables(entities, info)| ==>
      AddedTables(entities, info)[i] == AddedTable(NewEntities(entities, info)[i])
  {
    hide AddedTable, InfoOf;
    if |entities| > 0 {
      AddedAreNew(entities[..|entities| - 1], info);
    }
  }

  // ----------------------------------------------- the statements of a diff

  function Creation(schema: Option<string>, e: Entity): Statement {
    CreateTable(schema, e.table, CreatedColumns(e), References(e))
  }

  function Creations(schema: Option<string>, created: seq<Entity>): seq<Statement> {
    seq(|created|, i requires 0 <= i < |created| => Creation(schema, created[i]))
  }

  function Droppings(created: seq<Entity>): seq<Statement> {
    seq(|created|, i requires 0 <= i < |created| => DropTable(None, created[i].table))
  }

  lemma {:induction false} SingleStatements(schema: Option<string>, changes: seq<TableChange>, statements: seq<Statement>)
    requires |statements| == |changes| && forall i :: 0 <= i < |changes| ==> StatementsOf(schema, changes[i]) == [statements[i]]
    ensures AllStatements(schema, changes) == statements
  {
    if |changes| > 0 {
      var rest := changes[1..];
      forall i | 0 <= i < |rest| ensures StatementsOf(schema, rest[i]) == [statements[1..][i]] {
        assert rest[i] == changes[i + 1];
      }
      SingleStatements(schema, rest, statements[1..]);
      assert statements == [statements[0]] + statements[1..];
    }
  }

  lemma {:induction false} StatementsConcat(schema: Option<string>, a: seq<TableChange>, b: seq<TableChange>)
    ensures AllStatements(schema, a + b) == AllStatements(schema, a) + AllStatements(schema, b)
  {
    hide StatementsOf;
    if |a| == 0 {
      assert a + b == b && AllStatements(schema, a) == [];
    } else {
      StatementsConcat(schema, a[1..], b);
      assert a + b == [a[0]] + (a[1..] + b);
      Associative(StatementsOf(schema, a[0]), AllStatements(schema, a[1..]), AllStatements(schema, b));
    }
  }

  /** What up() does after it has created the new tables. */
  function LaterUp(entities: seq<Entity>, info: seq<TableInfo>): seq<TableChange> {
    var diff := DiffOf(entities, info);
    ModifiesUp(diff.modified) + Drops(diff.removed)
  }

  function LaterDown(entities: seq<Entity>, info: seq<TableInfo>): seq<TableChange> {
    var diff := DiffOf(entities, info);
    ModifiesDown(diff.modified) + Leaves(diff.removed)
  }

  /** up() creates the new entities' tables first, and down() drops them first, both in the order of the entities. */
  lemma SameOrder(entities: seq<Entity>, info: seq<TableInfo>, schema: Option<string>)
    ensures UpStatements(entities, info, schema)
      == Creations(schema, NewEntities(entities, info)) + AllStatements(schema, LaterUp(entities, info))
    ensures DownStatements(entities, info) == Droppings(NewEntities(entities, info)) + AllStatements(None, LaterDown(entities, info))
  {
    var diff, created := DiffOf(entities, info), NewEntities(entities, info);
    AddedAreNew(entities, info);
    hide AddedTables, RemovedTables, ModifiedTables, ModifiesUp, ModifiesDown, Drops, Leaves, NewEntities, CreatedColumns, References;
    forall i | 0 <= i < |diff.added|
      ensures StatementsOf(schema, Creates(diff.added)[i]) == [Creations(schema, created)[i]]
      ensures StatementsOf(None, Undone(diff.added)[i]) == [Droppings(created)[i]]
    {
      assert diff.added[i] == AddedTable(created[i]);
    }
    SingleStatements(schema, Creates(diff.added), Creations(schema, created));
    SingleStatements(None, Undone(diff.added), Droppings(created));
    hide Creates, Undone, Creations, Droppings, AllStatements;
    StatementsConcat(schema, Creates(diff.added), LaterUp(entities, info));
    StatementsConcat(None, Undone(diff.added), LaterDown(entities, info));
    assert UpTables(diff) == Creates(diff.added) + LaterUp(entities, info);
    assert DownTables(diff) == Undone(diff.added) + LaterDown(entities, info);
  }

  lemma {:induction false} OnlyCreatesCreate(schema: Option<string>, changes: seq<TableChange>)
    requires forall x :: x in changes ==> !x.Create?
    ensures NoCreates(AllStatements(schema, changes))
  {
    if |changes| > 0 {
      OnlyCreatesCreate(schema, changes[1..]);
    }
  }

  lemma LaterOnlyRemoves(entities: seq<Entity>, info: seq<TableInfo>, schema: Option<string>)
    ensures NoCreates(AllStatements(schema, LaterUp(entities, info))) && NoCreates(AllStatements(None, LaterDown(entities, info)))
  {
    var diff := DiffOf(entities, info);
    hide AddedTables, RemovedTables, ModifiedTables, ModifiesUp, ModifiesDown, Drops, Leaves, AllStatements;
    Kinds(diff.added, diff.modified, diff.removed);
    OnlyCreatesCreate(schema, LaterUp(entities, info));
    OnlyCreatesCreate(None, LaterDown(entities, info));
  }

  // ------------------------------------------------ creating in order

  /** One of the tables has the column. */
  predicate Offers(created: seq<Entity>, table: string, c: string) {
    exists e :: e in created && e.table == table && TypeIn(CreatedColumns(e), c).Some?
  }

  /** The column referred to is there already or belongs to one of the new tables, which are found only in the default schema. */
  predicate Provided(dialect: Dialect, tables: Tables, home: string, created: seq<Entity>, r: Reference) {
    || Has(tables, (dialect.default, r.target), r.key)
    || (home == dialect.default && Offers(created, r.target, r.key))
  }

  /** The i-th new table names no column twice and finds everything that it refers to among the tables there were, those created
      before it and itself. */
  predicate CreatableAt(dialect: Dialect, tables: Tables, home: string, created: seq<Entity>, i: nat)
    requires i < |created|
  {
    && Distinct(CreatedColumns(created[i]))
    && forall r :: r in References(created[i]) ==> Provided(dialect, tables, home, created[..i + 1], r)
  }

  function NewLinks(dialect: Dialect, home: string, created: seq<Entity>): set<Link> {
    set e, r | e in created && r in References(e) :: LinkOf(dialect, (home, e.table), r)
  }

  /** The new tables have their columns, the others are as they were. */
  ghost predicate Grown(dialect: Dialect, before: Tables, after: Tables, home: string, created: seq<Entity>) {
    && (forall i :: 0 <= i < |created| ==> At(after, (home, created[i].table)) == Some(ColumnMap(dialect, CreatedColumns(created[i]))))
    && forall key :: (forall i :: 0 <= i < |created| ==> key != (home, created[i].table)) ==> At(after, key) == At(before, key)
  }

  predicate Absent(tables: Tables, home: string, created: seq<Entity>) {
    forall i :: 0 <= i < |created| ==> (home, created[i].table) !in tables
  }

  lemma GrownHas(dialect: Dialect, before: Tables, after: Tables, home: string, created: seq<Entity>, key: (string, string), c: string)
    requires Absent(before, home, created) && Grown(dialect, before, after, home, created)
    ensures Has(after, key, c) <==> Has(before, key, c) || (key.0 == home && Offers(created, key.1, c))
  {
    hide CreatedColumns, TypeIn;
    if i :| 0 <= i < |created| && key == (home, created[i].table) {
      forall j | 0 <= j < |created| && key == (home, created[j].table)
        ensures TypeIn(CreatedColumns(created[j]), c).Some? <==> Has(after, key, c)
      {
        ColumnMapAt(dialect, CreatedColumns(created[j]), c);
        assert At(after, key) == Some(ColumnMap(dialect, CreatedColumns(created[j])));
      }
      assert TypeIn(CreatedColumns(created[i]), c).Some? <==> Has(after, key, c);
    } else {
      assert At(after, key) == At(before, key);
      forall e | e in created ensures key != (home, e.table) {}
    }
  }

  lemma JoinNamed(e: Entity, r: Reference)
    requires r in References(e)
    ensures TypeIn(CreatedColumns(e), r.column).Some?
  {
    hide References;
    var i :| 0 <= i < |References(e)| && References(e)[i] == r;
    var columns, k := CreatedColumns(e), |e.fields| + i;
    assert columns[k] == JoinColumns(e)[i] && columns[k].name == r.column;
    NamedIsTyped(columns, k);
  }

  lemma {:induction false} NamedIsTyped(columns: seq<Column>, k: nat)
    requires k < |columns|
    ensures TypeIn(columns, columns[k].name).Some?
  {
    if k < |columns| - 1 { NamedIsTyped(columns[..|columns| - 1], k); }
  }

  /** One more table. */
  lemma CreationExecutes(dialect: Dialect, db: Database, mid: Database, schema: Option<string>, created: seq<Entity>)
    requires Sound(mid) && |created| > 0 && Differing(created) && Absent(db.tables, Home(schema, dialect), created)
    requires Grown(dialect, db.tables, mid.tables, Home(schema, dialect), created[..|created| - 1])
    ensures Execute(dialect, mid, Creation(schema, created[|created| - 1])).Some?
      <==> CreatableAt(dialect, db.tables, Home(schema, dialect), created, |created| - 1)
    ensures Execute(dialect, mid, Creation(schema, created[|created| - 1])).Some? ==>
      var after := Execute(dialect, mid, Creation(schema, created[|created| - 1])).value;
      && Grown(dialect, db.tables, after.tables, Home(schema, dialect), created)
      && after.links == mid.links + LinksOf(dialect, (Home(schema, dialect), created[|created| - 1].table), References(created[|created| - 1]))
  {
    var n, home := |created| - 1, Home(schema, dialect);
    var e := created[n];
    var statement := Creation(schema, e);
    assert created[..n + 1] == created;
    assert (home, e.table) !in mid.tables by {
      forall i | 0 <= i < n ensures created[..n][i].table != e.table {}
      assert At(mid.tables, (home, e.table)) == At(db.tables, (home, e.table));
    }
    hide CreatedColumns, References, TypeIn, ColumnMap;
    ExecutesExactly(dialect, mid, statement);
    forall r | r in References(e)
      ensures TypeIn(CreatedColumns(e), r.column).Some?
      ensures Provided(dialect, db.tables, home, created, r) <==>
        Has(mid.tables, (dialect.default, r.target), r.key)
        || ((home, e.table) == (dialect.default, r.target) && TypeIn(CreatedColumns(e), r.key).Some?)
    {
      JoinNamed(e, r);
      GrownHas(dialect, db.tables, mid.tables, home, created[..n], (dialect.default, r.target), r.key);
      OffersMore(created, r.target, r.key);
    }
    hide Provided, Has, Execute;
    if Execute(dialect, mid, statement).Some? {
      CreateExecutes(dialect, mid, statement);
      Executed(dialect, mid, statement);
      GrownOnce(dialect, db.tables, mid.tables, home, created);
    }
  }

  lemma Executed(dialect: Dialect, db: Database, statement: Statement)
    requires Execute(dialect, db, statement).Some?
    ensures Reshape(dialect, db.tables, statement) == Some(Execute(dialect, db, statement).value.tables)
    ensures Execute(dialect, db, statement).value.links == LinksAfter(dialect, db.links, statement)
  {
  }

  lemma GrownOnce(dialect: Dialect, before: Tables, mid: Tables, home: string, created: seq<Entity>)
    requires |created| > 0 && Differing(created) && Grown(dialect, before, mid, home, created[..|created| - 1])
    ensures var e := created[|created| - 1];
      Grown(dialect, before, mid[(home, e.table) := ColumnMap(dialect, CreatedColumns(e))], home, created)
  {
    hide CreatedColumns, ColumnMap;
    var n := |created| - 1;
    assert forall i :: 0 <= i < n ==> created[..n][i] == created[i];
  }

  lemma OffersMore(created: seq<Entity>, table: string, c: string)
    requires |created| > 0
    ensures var e := created[|created| - 1];
      Offers(created, table, c) <==>
        Offers(created[..|created| - 1], table, c) || (e.table == table && TypeIn(CreatedColumns(e), c).Some?)
  {
    hide CreatedColumns, TypeIn;
    assert created == created[..|created| - 1] + [created[|created| - 1]];
  }

  /** Tables are created one after another exactly when each finds what it refers to; every other table and reference stays. */
  lemma {:induction false} CreatesExactly(dialect: Dialect, db: Database, schema: Option<string>, created: seq<Entity>)
    requires Sound(db) && Differing(created) && Absent(db.tables, Home(schema, dialect), created)
    ensures Run(dialect, db, Creations(schema, created)).Some?
      <==> forall i :: 0 <= i < |created| ==> CreatableAt(dialect, db.tables, Home(schema, dialect), created, i)
    ensures Run(dialect, db, Creations(schema, created)).Some? ==>
      var after := Run(dialect, db, Creations(schema, created)).value;
      && Grown(dialect, db.tables, after.tables, Home(schema, dialect), created)
      && after.links == db.links + NewLinks(dialect, Home(schema, dialect), created)
  {
    var home := Home(schema, dialect);
    hide CreatedColumns, References, Execute, Sound, ColumnMap, Creation;
    if |created| == 0 {
      assert NewLinks(dialect, home, created) == {};
    } else {
      var n := |created| - 1;
      var earlier, last := created[..n], Creation(schema, created[n]);
      assert Creations(schema, created) == Creations(schema, earlier) + [last];
      RunConcat(dialect, db, Creations(schema, earlier), [last]);
      CreatesExactly(dialect, db, schema, earlier);
      forall i | 0 <= i < n
        ensures CreatableAt(dialect, db.tables, home, earlier, i) <==> CreatableAt(dialect, db.tables, home, created, i)
      {
        assert earlier[..i + 1] == created[..i + 1];
      }
      hide CreatableAt, Creations;
      if Run(dialect, db, Creations(schema, earlier)).Some? {
        var mid := Run(dialect, db, Creations(schema, earlier)).value;
        RunReshapes(dialect, db, Creations(schema, earlier));
        CreationExecutes(dialect, db, mid, schema, created);
        RunOne(dialect, mid, last);
        NewLinksMore(dialect, home, created);
      }
    }
  }

  lemma RunOne(dialect: Dialect, db: Database, statement: Statement)
    ensures Run(dialect, db, [statement]) == Execute(dialect, db, statement)
  {
    assert [statement][1..] == [];
  }

  lemma NewLinksMore(dialect: Dialect, home: string, created: seq<Entity>)
    requires |created| > 0
    ensures var e := created[|created| - 1];
      NewLinks(dialect, home, created)
      == NewLinks(dialect, home, created[..|created| - 1]) + LinksOf(dialect, (home, e.table), References(e))
  {
    hide References, LinkOf;
    assert created == created[..|created| - 1] + [created[|created| - 1]];
  }

  // --------------------------------------------------------- the whole up()

  lemma CreationsRemoveNothing(dialect: Dialect, links: set<Link>, schema: Option<string>, created: seq<Entity>, statements: seq<Statement>)
    ensures LetGo(dialect, links, Creations(schema, created) + statements) <==> LetGo(dialect, links, statements)
    ensures Staying(dialect, links, Creations(schema, created) + statements) == Staying(dialect, links, statements)
  {
    var a, n := Creations(schema, created), |created|;
    hide CreatedColumns, References;
    forall table, column ensures Gone(dialect, a + statements, table, column) <==> Gone(dialect, statements, table, column) {
      GoneAfterCreations(dialect, schema, created, statements, table, column);
    }
    forall p, table, column | 0 <= p < n ensures !Removes(dialect, (a + statements)[p], table, column) {
      assert (a + statements)[p] == Creation(schema, created[p]);
    }
    hide Gone, Removes, Creations;
    if LetGo(dialect, links, a + statements) {
      forall l, p | l in links && 0 <= p < |statements| && Removes(dialect, statements[p], l.target, l.key)
        ensures Gone(dialect, statements[..p + 1], l.source, l.column)
      {
        assert (a + statements)[p + n] == statements[p] && (a + statements)[..p + n + 1] == a + statements[..p + 1];
        GoneAfterCreations(dialect, schema, created, statements[..p + 1], l.source, l.column);
        assert Gone(dialect, (a + statements)[..p + n + 1], l.source, l.column);
      }
    }
    if LetGo(dialect, links, statements) {
      forall l, p | l in links && 0 <= p < |a + statements| && Removes(dialect, (a + statements)[p], l.target, l.key)
        ensures Gone(dialect, (a + statements)[..p + 1], l.source, l.column)
      {
        assert p >= n && (a + statements)[p] == statements[p - n] && (a + statements)[..p + 1] == a + statements[..p - n + 1];
        GoneAfterCreations(dialect, schema, created, statements[..p - n + 1], l.source, l.column);
        assert Gone(dialect, statements[..p - n + 1], l.source, l.column);
      }
    }
  }

  lemma GoneAfterCreations(dialect: Dialect, schema: Option<string>, created: seq<Entity>, statements: seq<Statement>,
                           table: (string, string), column: string)
    ensures Gone(dialect, Creations(schema, created) + statements, table, column) <==> Gone(dialect, statements, table, column)
  {
    hide CreatedColumns, References;
    forall statement | statement in Creations(schema, created) ensures !Removes(dialect, statement, table, column) {}
  }

  lemma NewAreAbsent(entities: seq<Entity>, info: seq<TableInfo>, dialect: Dialect, tables: Tables, home: string)
    requires DistinctEntities(entities) && Introspects(info, dialect, tables, home)
    ensures Differing(NewEntities(entities, info)) && Absent(tables, home, NewEntities(entities, info))
  {
    NewMembers(entities, info);
    hide NewEntities, InfoOf, Reports;
  }

  /** up() runs exactly when every new table names no column twice and finds what it refers to, in the order of the entities, and every
      table and column is only taken away after whatever refers to it. Then every table is as the comparison says, and the references
      are the old and the new ones, without those whose columns were taken away. */
  lemma UpRuns(entities: seq<Entity>, info: seq<TableInfo>, dialect: Dialect, db: Database, schema: Option<string>)
    requires DistinctEntities(entities) && Introspects(info, dialect, db.tables, Home(schema, dialect)) && Sound(db)
    ensures Run(dialect, db, UpStatements(entities, info, schema)).Some? <==> UpAllowed(entities, info, dialect, db, schema)
    ensures Run(dialect, db, UpStatements(entities, info, schema)).Some? ==>
      var after := Run(dialect, db, UpStatements(entities, info, schema)).value;
      && UpDone(entities, info, dialect, db.tables, after.tables, Home(schema, dialect))
      && after.links == Staying(dialect, AllLinks(entities, info, dialect, db, schema), UpStatements(entities, info, schema))
      && Sound(after)
  {
    var home, created, later := Home(schema, dialect), NewEntities(entities, info), AllStatements(schema, LaterUp(entities, info));
    var up := UpStatements(entities, info, schema);
    SameOrder(entities, info, schema);
    LaterOnlyRemoves(entities, info, schema);
    NewAreAbsent(entities, info, dialect, db.tables, home);
    RunConcat(dialect, db, Creations(schema, created), later);
    CreatesExactly(dialect, db, schema, created);
    CreationsRemoveNothing(dialect, AllLinks(entities, info, dialect, db, schema), schema, created, later);
    hide NewEntities, LaterUp, UpStatements, Creations, AllStatements, Run, Sound, CreatableAt, LetGo, Staying, ReshapeAll, NoCreates, Introspects;
    hide NewLinks, UpDone, Grown;
    if Run(dialect, db, Creations(schema, created)).Some? {
      var mid := Run(dialect, db, Creations(schema, created)).value;
      RunReshapes(dialect, db, Creations(schema, created));
      RemovesExactly(dialect, mid, later);
      ReshapeConcat(dialect, db.tables, Creations(schema, created), later);
      UpReshapes(entities, info, dialect, db.tables, schema);
      assert Creatable(entities, info) by {
        NewMembers(entities, info);
        AllCreatable(entities, info, dialect, db, schema);
      }
      if Run(dialect, mid, later).Some? {
        RunReshapes(dialect, mid, later);
      }
    }
  }

  /** The references there were and those of the new tables. */
  function AllLinks(entities: seq<Entity>, info: seq<TableInfo>, dialect: Dialect, db: Database, schema: Option<string>): set<Link> {
    db.links + NewLinks(dialect, Home(schema, dialect), NewEntities(entities, info))
  }

  predicate UpAllowed(entities: seq<Entity>, info: seq<TableInfo>, dialect: Dialect, db: Database, schema: Option<string>) {
    && AllCreatableAt(entities, info, dialect, db, schema)
    && LetGo(dialect, AllLinks(entities, info, dialect, db, schema), UpStatements(entities, info, schema))
  }

  predicate AllCreatableAt(entities: seq<Entity>, info: seq<TableInfo>, dialect: Dialect, db: Database, schema: Option<string>) {
    var created := NewEntities(entities, info);
    forall i :: 0 <= i < |created| ==> CreatableAt(dialect, db.tables, Home(schema, dialect), created, i)
  }

  lemma AllCreatable(entities: seq<Entity>, info: seq<TableInfo>, dialect: Dialect, db: Database, schema: Option<string>)
    requires AllCreatableAt(entities, info, dialect, db, schema)
    ensures Creatable(entities, info)
  {
    NewMembers(entities, info);
    hide NewEntities, InfoOf, CreatedColumns, References, Distinct, Provided;
    var created := NewEntities(entities, info);
    forall e | e in entities && InfoOf(info, e.table).None? ensures Distinct(CreatedColumns(e)) {
      var i :| 0 <= i < |created| && created[i] == e;
      assert CreatableAt(dialect, db.tables, Home(schema, dialect), created, i);
    }
  }

  // ------------------------------------------------- what is taken away

  /** A change of a table takes its column away. */
  predicate Takes(x: TableChange, column: string) {
    x.Drop? || (x.Modify? && DropColumn(column) in x.changes)
  }

  lemma {:induction false} GoneExactly(dialect: Dialect, schema: Option<string>, changes: seq<TableChange>, table: (string, string), column: string)
    ensures Gone(dialect, AllStatements(schema, changes), table, column) <==>
      exists x :: x in changes && table == Key(schema, dialect, x.table) && Takes(x, column)
  {
    if |changes| > 0 {
      var first, rest := StatementsOf(schema, changes[0]), AllStatements(schema, changes[1..]);
      GoneExactly(dialect, schema, changes[1..], table, column);
      GoneOne(dialect, schema, changes[0], table, column);
      hide Removes, StatementsOf, Takes;
      assert Gone(dialect, first + rest, table, column) <==> Gone(dialect, first, table, column) || Gone(dialect, rest, table, column);
      assert changes == [changes[0]] + changes[1..];
    }
  }

  lemma GoneOne(dialect: Dialect, schema: Option<string>, x: TableChange, table: (string, string), column: string)
    ensures Gone(dialect, StatementsOf(schema, x), table, column) <==> table == Key(schema, dialect, x.table) && Takes(x, column)
  {
    if x.Modify? {
      var statements := StatementsOf(schema, x);
      if DropColumn(column) in x.changes && table == Key(schema, dialect, x.table) {
        var i :| 0 <= i < |x.changes| && x.changes[i] == DropColumn(column);
        assert statements[i] == AlterTable(schema, x.table, DropColumn(column));
        assert Removes(dialect, statements[i], table, column);
      }
    } else {
      assert x.Drop? && table == Key(schema, dialect, x.table) ==> Removes(dialect, StatementsOf(schema, x)[0], table, column);
    }
  }

  /** up() takes the column away: its table has no entity, or no field is mapped to it. */
  predicate TakenUp(entities: seq<Entity>, info: seq<TableInfo>, t: string, c: string) {
    match (EntityOf(entities, t), InfoOf(info, t))
    case (None, Some(_)) => true
    case (Some(e), Some(listed)) => UpChange(ColumnsOf(e), listed, c) == Some(DropColumn(c))
    case _ => false
  }

  /** down() takes it away: up() added it, alone or with its table. */
  predicate TakenDown(entities: seq<Entity>, info: seq<TableInfo>, t: string, c: string) {
    match (EntityOf(entities, t), InfoOf(info, t))
    case (Some(_), None) => true
    case (Some(e), Some(listed)) => DownChange(ColumnsOf(e), listed, c) == Some(DropColumn(c))
    case _ => false
  }

  ghost predicate Listed(info: seq<TableInfo>) {
    forall t :: InfoOf(info, t).Some? ==> Distinct(InfoOf(info, t).value)
  }

  lemma TakesExactly(entities: seq<Entity>, info: seq<TableInfo>, t: string, c: string)
    requires DistinctEntities(entities) && Listed(info)
    ensures UpTable(entities, info, t).Some? && Takes(UpTable(entities, info, t).value, c) <==> TakenUp(entities, info, t, c)
    ensures DownTable(entities, info, t).Some? && Takes(DownTable(entities, info, t).value, c) <==> TakenDown(entities, info, t, c)
  {
    hide Compared, NoChange, UpChanges, DownChanges, ColumnsOf, CreatedColumns, References, EntityOf, InfoOf, UpChange, DownChange, Distinct;
    var e, listed := EntityOf(entities, t), InfoOf(info, t);
    if e.Some? && listed.Some? {
      EntityOfSome(entities, t);
      NoChangeExactly(e.value, listed.value);
      BothOrNeither(ColumnsOf(e.value), listed.value, c);
      UpChangesExactly(e.value, listed.value, DropColumn(c));
      DownChangesExactly(e.value, listed.value, DropColumn(c));
    }
  }

  lemma GoneByName(entities: seq<Entity>, info: seq<TableInfo>, dialect: Dialect, schema: Option<string>, table: (string, string), c: string)
    requires DistinctEntities(entities) && Listed(info)
    ensures Gone(dialect, UpStatements(entities, info, schema), table, c)
      <==> table.0 == Home(schema, dialect) && TakenUp(entities, info, table.1, c)
    ensures Gone(dialect, DownStatements(entities, info), table, c)
      <==> table.0 == dialect.default && TakenDown(entities, info, table.1, c)
  {
    GoneExactly(dialect, schema, UpTables(DiffOf(entities, info)), table, c);
    GoneExactly(dialect, None, DownTables(DiffOf(entities, info)), table, c);
    TakesExactly(entities, info, table.1, c);
    hide UpTables, DownTables, DiffOf, UpTable, DownTable, Takes, TakenUp, TakenDown, Gone, AllStatements, Listed;
    UpTableNamed(entities, info, table.1);
    forall x: TableChange
      ensures x in UpTables(DiffOf(entities, info)) <==> UpTable(entities, info, x.table) == Some(x)
      ensures x in DownTables(DiffOf(entities, info)) <==> DownTable(entities, info, x.table) == Some(x)
    {
      TablesExactly(entities, info, x);
    }
    assert table == (table.0, table.1);
  }

  lemma ListedBy(info: seq<TableInfo>, dialect: Dialect, tables: Tables, home: string)
    requires Introspects(info, dialect, tables, home)
    ensures Listed(info)
  {
    hide InfoOf, Distinct;
    forall t | InfoOf(info, t).Some? ensures Distinct(InfoOf(info, t).value) {
      ReportsDistinct(InfoOf(info, t).value, tables[(home, t)], dialect);
    }
  }
}
