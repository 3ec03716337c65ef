/** Databases with the references between their tables, and when statements run on them. */
module SchemaLinks {
  import opened Options
  import opened SchemaChange

  /** A column of one table that refers to a column of the same or another one. */
  datatype Link = Link(source: (string, string), column: string, target: (string, string), key: string)

  datatype Database = Database(tables: Tables, links: set<Link>)

  predicate Has(tables: Tables, table: (string, string), column: string) {
    table in tables && column in tables[table]
  }

  /** Both ends of every reference are there. */
  predicate Sound(db: Database) {
    forall l :: l in db.links ==> Has(db.tables, l.source, l.column) && Has(db.tables, l.target, l.key)
  }

  /** REFERENCES names no schema: its target is looked up in the default one, wherever the table itself goes. */
  function LinkOf(dialect: Dialect, table: (string, string), r: Reference): Link {
    Link(table, r.column, (dialect.default, r.target), r.key)
  }

  function LinksOf(dialect: Dialect, table: (string, string), references: seq<Reference>): set<Link> {
    set r | r in references :: LinkOf(dialect, table, r)
  }

  /** The statement takes this column away, alone or with its table. */
  predicate Removes(dialect: Dialect, statement: Statement, table: (string, string), column: string) {
    match statement
    case DropTable(schema, name) => table == Key(schema, dialect, name)
    case AlterTable(schema, name, change) => change == DropColumn(column) && table == Key(schema, dialect, name)
    case _ => false
  }

  /** A reference goes with its column. */
  function LinksAfter(dialect: Dialect, links: set<Link>, statement: Statement): set<Link> {
    (set l | l in links && !Removes(dialect, statement, l.source, l.column))
    + if statement.CreateTable? then LinksOf(dialect, Key(statement.schema, dialect, statement.table), statement.references) else {}
  }

  /** A statement is refused if the tables and columns do not allow it, or if a reference would lose one of its ends. */
  function Execute(dialect: Dialect, db: Database, statement: Statement): Option<Database> {
    match Reshape(dialect, db.tables, statement)
    case None => None
    case Some(tables) =>
      var next := Database(tables, LinksAfter(dialect, db.links, statement));
      if Sound(next) then Some(next) else None
  }

  /** What the references ask of a statement: the targets of a new table are there or are its own columns, no other table refers to
      a dropped one, and no other column to a dropped one. */
  predicate Allowed(dialect: Dialect, db: Database, statement: Statement) {
    match statement
    case CreateTable(schema, name, columns, references) =>
      forall r :: r in references ==>
        && TypeIn(columns, r.column).Some?
        && (Has(db.tables, (dialect.default, r.target), r.key)
            || (Key(schema, dialect, name) == (dialect.default, r.target) && TypeIn(columns, r.key).Some?))
    case DropTable(schema, name) =>
      forall l :: l in db.links && l.target == Key(schema, dialect, name) ==> l.source == l.target
    case AlterTable(schema, name, change) =>
      change.DropColumn? ==> forall l :: l in db.links && l.target == Key(schema, dialect, name) && l.key == change.name ==>
        l.source == l.target && l.column == l.key
    case Comment(_) => true
  }

  /** Columns that a statement other than CREATE TABLE leaves are those it does not remove. */
  lemma HasAfter(dialect: Dialect, tables: Tables, statement: Statement, table: (string, string), column: string)
    requires !statement.CreateTable? && Reshape(dialect, tables, statement).Some? && Has(tables, table, column)
    ensures Has(Reshape(dialect, tables, statement).value, table, column) <==> !Removes(dialect, statement, table, column)
  {
  }

  lemma HasCreated(dialect: Dialect, tables: Tables, statement: Statement, table: (string, string), column: string)
    requires statement.CreateTable? && Reshape(dialect, tables, statement).Some?
    ensures Has(Reshape(dialect, tables, statement).value, table, column) <==>
      Has(tables, table, column) || (table == Key(statement.schema, dialect, statement.table) && TypeIn(statement.columns, column).Some?)
  {
    ColumnMapAt(dialect, statement.columns, column);
  }

  lemma ExecutesExactly(dialect: Dialect, db: Database, statement: Statement)
    requires Sound(db)
    ensures Execute(dialect, db, statement).Some? <==> Reshape(dialect, db.tables, statement).Some? && Allowed(dialect, db, statement)
  {
    if Reshape(dialect, db.tables, statement).Some? {
      if statement.CreateTable? {
        CreateExecutes(dialect, db, statement);
      } else {
        RestExecutes(dialect, db, statement);
      }
    }
  }

  lemma CreateExecutes(dialect: Dialect, db: Database, statement: Statement)
    requires Sound(db) && statement.CreateTable? && Reshape(dialect, db.tables, statement).Some?
    ensures Execute(dialect, db, statement).Some? <==> Allowed(dialect, db, statement)
    ensures LinksAfter(dialect, db.links, statement)
      == db.links + LinksOf(dialect, Key(statement.schema, dialect, statement.table), statement.references)
  {
    var tables, table := Reshape(dialect, db.tables, statement).value, Key(statement.schema, dialect, statement.table);
    forall l | l in db.links ensures Has(tables, l.source, l.column) && Has(tables, l.target, l.key) {
      HasCreated(dialect, db.tables, statement, l.source, l.column);
      HasCreated(dialect, db.tables, statement, l.target, l.key);
    }
    forall r | r in statement.references
      ensures Has(tables, table, r.column) <==> TypeIn(statement.columns, r.column).Some?
      ensures Has(tables, (dialect.default, r.target), r.key) <==>
        Has(db.tables, (dialect.default, r.target), r.key) || (table == (dialect.default, r.target) && TypeIn(statement.columns, r.key).Some?)
      ensures LinkOf(dialect, table, r) in LinksAfter(dialect, db.links, statement)
    {
      HasCreated(dialect, db.tables, statement, table, r.column);
      HasCreated(dialect, db.tables, statement, (dialect.default, r.target), r.key);
    }
    hide Reshape, Has, TypeIn, Key;
    var next := Database(tables, LinksAfter(dialect, db.links, statement));
    if Sound(next) {
      forall r | r in statement.references ensures Has(tables, table, r.column) && Has(tables, (dialect.default, r.target), r.key) {
        var l := LinkOf(dialect, table, r);
        assert l in next.links;
      }
    }
  }

  /** Nothing is left behind exactly when whatever loses its target loses its own column too. */
  lemma RestExecutes(dialect: Dialect, db: Database, statement: Statement)
    requires Sound(db) && !statement.CreateTable? && Reshape(dialect, db.tables, statement).Some?
    ensures Execute(dialect, db, statement).Some? <==> forall l :: l in db.links && Removes(dialect, statement, l.target, l.key) ==>
      Removes(dialect, statement, l.source, l.column)
    ensures Execute(dialect, db, statement).Some? <==> Allowed(dialect, db, statement)
  {
    var tables, links := Reshape(dialect, db.tables, statement).value, LinksAfter(dialect, db.links, statement);
    forall l | l in db.links
      ensures Has(tables, l.source, l.column) <==> !Removes(dialect, statement, l.source, l.column)
      ensures Has(tables, l.target, l.key) <==> !Removes(dialect, statement, l.target, l.key)
      ensures l in links <==> !Removes(dialect, statement, l.source, l.column)
    {
      HasAfter(dialect, db.tables, statement, l.source, l.column);
      HasAfter(dialect, db.tables, statement, l.target, l.key);
    }
    hide Reshape, Has;
  }

  // ----------------------------------------------- lists of statements

  function Run(dialect: Dialect, db: Database, statements: seq<Statement>): Option<Database>
    decreases |statements|
  {
    if |statements| == 0 then Some(db)
    else match Execute(dialect, db, statements[0])
      case None => None
      case Some(next) => Run(dialect, next, statements[1..])
  }

  lemma {:induction false} RunConcat(dialect: Dialect, db: Database, a: seq<Statement>, b: seq<Statement>)
    ensures Run(dialect, db, a + b) == match Run(dialect, db, a) case None => None case Some(next) => Run(dialect, next, b)
    decreases |a|
  {
    hide Execute;
    if |a| == 0 {
      assert a + b == b;
    } else {
      assert a + b == [a[0]] + (a[1..] + b);
      var next := Execute(dialect, db, a[0]);
      if next.Some? {
        RunConcat(dialect, next.value, a[1..], b);
      }
    }
  }

  /** A run goes through the same tables as it would without references, and keeps every reference whole. */
  lemma {:induction false} RunReshapes(dialect: Dialect, db: Database, statements: seq<Statement>)
    requires Run(dialect, db, statements).Some?
    ensures ReshapeAll(dialect, db.tables, statements) == Some(Run(dialect, db, statements).value.tables)
    ensures Sound(db) ==> Sound(Run(dialect, db, statements).value)
    decreases |statements|
  {
    if |statements| > 0 {
      hide Reshape, Sound, LinksAfter;
      RunReshapes(dialect, Execute(dialect, db, statements[0]).value, statements[1..]);
    }
  }

  // ------------------------------------------- statements that only remove

  /** One of the statements takes the column away. */
  predicate Gone(dialect: Dialect, statements: seq<Statement>, table: (string, string), column: string) {
    exists statement :: statement in statements && Removes(dialect, statement, table, column)
  }

  /** Whatever takes a target away comes no earlier than what takes away the column that refers to it. */
  predicate LetGo(dialect: Dialect, links: set<Link>, statements: seq<Statement>) {
    forall l, p :: l in links && 0 <= p < |statements| && Removes(dialect, statements[p], l.target, l.key) ==>
      Gone(dialect, statements[..p + 1], l.source, l.column)
  }

  function Staying(dialect: Dialect, links: set<Link>, statements: seq<Statement>): set<Link> {
    set l | l in links && !Gone(dialect, statements, l.source, l.column)
  }

  predicate NoCreates(statements: seq<Statement>) {
    forall statement :: statement in statements ==> !statement.CreateTable?
  }

  lemma GoneFirst(dialect: Dialect, statements: seq<Statement>, n: nat, table: (string, string), column: string)
    requires n < |statements|
    ensures Gone(dialect, statements[..n + 1], table, column) <==>
      Removes(dialect, statements[0], table, column) || Gone(dialect, statements[1..][..n], table, column)
  {
    hide Removes;
    assert statements[..n + 1] == [statements[0]] + statements[1..][..n];
  }

  lemma LetGoFirst(dialect: Dialect, links: set<Link>, statements: seq<Statement>)
    requires |statements| > 0 && !statements[0].CreateTable?
    ensures LetGo(dialect, links, statements) <==>
      && (forall l :: l in links && Removes(dialect, statements[0], l.target, l.key) ==> Removes(dialect, statements[0], l.source, l.column))
      && LetGo(dialect, LinksAfter(dialect, links, statements[0]), statements[1..])
  {
    hide Removes, Gone;
    var rest, next := statements[1..], LinksAfter(dialect, links, statements[0]);
    NothingGone(dialect, rest[..0]);
    forall l | l in links && LetGo(dialect, links, statements) && Removes(dialect, statements[0], l.target, l.key)
      ensures Removes(dialect, statements[0], l.source, l.column)
    {
      GoneFirst(dialect, statements, 0, l.source, l.column);
      assert Gone(dialect, statements[..0 + 1], l.source, l.column);
    }
    if LetGo(dialect, links, statements) {
      forall l, p | l in next && 0 <= p < |rest| && Removes(dialect, rest[p], l.target, l.key)
        ensures Gone(dialect, rest[..p + 1], l.source, l.column)
      {
        GoneFirst(dialect, statements, p + 1, l.source, l.column);
        assert statements[p + 1] == rest[p];
      }
    }
    if (forall l :: l in links && Removes(dialect, statements[0], l.target, l.key) ==> Removes(dialect, statements[0], l.source, l.column))
       && LetGo(dialect, next, rest) {
      forall l, p | l in links && 0 <= p < |statements| && Removes(dialect, statements[p], l.target, l.key)
        ensures Gone(dialect, statements[..p + 1], l.source, l.column)
      {
        GoneFirst(dialect, statements, p, l.source, l.column);
        if p > 0 && l in next {
          assert statements[p] == rest[p - 1];
          assert Gone(dialect, rest[..p - 1 + 1], l.source, l.column);
        }
      }
    }
  }

  lemma NothingGone(dialect: Dialect, statements: seq<Statement>)
    requires |statements| == 0
    ensures forall table, column :: !Gone(dialect, statements, table, column)
  {
  }

  lemma StayingFirst(dialect: Dialect, links: set<Link>, statements: seq<Statement>)
    requires |statements| > 0 && !statements[0].CreateTable?
    ensures Staying(dialect, links, statements) == Staying(dialect, LinksAfter(dialect, links, statements[0]), statements[1..])
  {
    hide Removes, Gone;
    var n := |statements| - 1;
    assert statements[..n + 1] == statements && statements[1..][..n] == statements[1..];
    forall l | l in links
      ensures Gone(dialect, statements, l.source, l.column) <==>
        Removes(dialect, statements[0], l.source, l.column) || Gone(dialect, statements[1..], l.source, l.column)
    {
      GoneFirst(dialect, statements, n, l.source, l.column);
    }
  }

  /** Without CREATE TABLE, statements run exactly when they reshape the tables and every reference is let go in time; what remains
      are the references whose columns none of them takes away. */
  lemma {:induction false} RemovesExactly(dialect: Dialect, db: Database, statements: seq<Statement>)
    requires Sound(db) && NoCreates(statements)
    ensures Run(dialect, db, statements).Some?
      <==> ReshapeAll(dialect, db.tables, statements).Some? && LetGo(dialect, db.links, statements)
    ensures Run(dialect, db, statements).Some? ==>
      Run(dialect, db, statements).value
      == Database(ReshapeAll(dialect, db.tables, statements).value, Staying(dialect, db.links, statements))
    decreases |statements|
  {
    hide Reshape, LinksAfter, Removes, Gone;
    if |statements| == 0 {
      NothingGone(dialect, statements);
    } else {
      LetGoFirst(dialect, db.links, statements);
      StayingFirst(dialect, db.links, statements);
      hide LetGo, Staying;
      if Reshape(dialect, db.tables, statements[0]).Some? {
        RestExecutes(dialect, db, statements[0]);
        if Execute(dialect, db, statements[0]).Some? {
          RemovesExactly(dialect, Execute(dialect, db, statements[0]).value, statements[1..]);
        }
      }
    }
  }

  lemma NothingTaken(dialect: Dialect, links: set<Link>, statements: seq<Statement>)
    requires forall table, column :: !Gone(dialect, statements, table, column)
    ensures LetGo(dialect, links, statements) && Staying(dialect, links, statements) == links
  {
    hide Removes, Gone;
    forall p, table, column | 0 <= p < |statements| ensures !Removes(dialect, statements[p], table, column) {
      AtIsGone(dialect, statements, p, table, column);
    }
  }

  lemma AtIsGone(dialect: Dialect, statements: seq<Statement>, p: nat, table: (string, string), column: string)
    requires p < |statements|
    ensures Removes(dialect, statements[p], table, column) ==> Gone(dialect, statements, table, column)
  {
    hide Removes;
  }
}
