/** What down() makes of a database after up(): when it runs, what it does to every table and reference, and when it leads back. */
module SchemaRestore {
  import opened Options
  import opened SqlTypes
  import opened SchemaChange
  import opened SchemaLinks
  import opened DdlGenerator
  import opened SchemaDiff
  import opened SchemaMigration
  import opened SchemaDown
  import opened SchemaReferences

  /** down() with its first statements, which drop the new tables, in any order. */
  function DownDropping(entities: seq<Entity>, info: seq<TableInfo>, dropped: seq<Entity>): seq<Statement> {
    Droppings(dropped) + AllStatements(None, LaterDown(entities, info))
  }

  ghost predicate SameMembers(a: seq<Entity>, b: seq<Entity>) {
    forall e :: e in a <==> e in b
  }

  function DropChanges(dropped: seq<Entity>): seq<TableChange> {
    seq(|dropped|, i requires 0 <= i < |dropped| => Drop(dropped[i].table))
  }

  lemma DroppingChanges(entities: seq<Entity>, info: seq<TableInfo>, dropped: seq<Entity>)
    ensures AllStatements(None, DropChanges(dropped) + LaterDown(entities, info)) == DownDropping(entities, info, dropped)
  {
    DropStatements(dropped);
    hide AllStatements, DropChanges, Droppings, LaterDown;
    StatementsConcat(None, DropChanges(dropped), LaterDown(entities, info));
  }

  lemma DropStatements(dropped: seq<Entity>)
    ensures AllStatements(None, DropChanges(dropped)) == Droppings(dropped) && NoCreates(Droppings(dropped))
  {
    SingleStatements(None, DropChanges(dropped), Droppings(dropped));
  }

  lemma DroppingCreatesNothing(entities: seq<Entity>, info: seq<TableInfo>, dropped: seq<Entity>)
    ensures NoCreates(DownDropping(entities, info, dropped))
  {
    DropStatements(dropped);
    LaterOnlyRemoves(entities, info, None);
    hide AllStatements, Droppings, LaterDown;
  }

  lemma DownDrops(entities: seq<Entity>, info: seq<TableInfo>)
    ensures DownStatements(entities, info) == DownDropping(entities, info, NewEntities(entities, info))
  {
    SameOrder(entities, info, None);
    hide AllStatements, Droppings, LaterDown, NewEntities, DownStatements, UpStatements;
  }

  lemma DownTablesSplit(entities: seq<Entity>, info: seq<TableInfo>)
    ensures DownTables(DiffOf(entities, info)) == Undone(DiffOf(entities, info).added) + LaterDown(entities, info)
  {
    hide Undone, ModifiesDown, Leaves, DiffOf;
  }

  lemma DroppingIsDown(entities: seq<Entity>, info: seq<TableInfo>, dropped: seq<Entity>)
    requires DistinctEntities(entities) && DistinctInfo(info)
    requires Differing(dropped) && SameMembers(dropped, NewEntities(entities, info))
    ensures DownChangesOf(entities, info, DropChanges(dropped) + LaterDown(entities, info))
  {
    hide NewEntities, LaterDown, DownTables, DiffOf, Undone, DownTable, DistinctTables;
    var changes, diff := DownTables(DiffOf(entities, info)), DiffOf(entities, info);
    DownTablesAre(entities, info);
    DownTablesSplit(entities, info);
    forall x ensures x in DropChanges(dropped) <==> x in Undone(diff.added) {
      DropMembers(entities, info, dropped, x);
    }
    LaterDistinct(entities, info);
    assert DistinctTables(DropChanges(dropped)) by { DropsDistinct(dropped); }
    forall x, y | x in DropChanges(dropped) && y in LaterDown(entities, info) ensures x.table != y.table {
      assert x in changes && y in changes;
    }
    TablesConcat(DropChanges(dropped), LaterDown(entities, info));
  }

  lemma DropsDistinct(dropped: seq<Entity>)
    requires Differing(dropped)
    ensures DistinctTables(DropChanges(dropped))
  {
  }

  lemma LaterDistinct(entities: seq<Entity>, info: seq<TableInfo>)
    requires DistinctEntities(entities) && DistinctInfo(info)
    ensures DistinctTables(LaterDown(entities, info)) && forall y :: y in LaterDown(entities, info) ==> !y.Drop?
  {
    var diff := DiffOf(entities, info);
    hide DownTables, DiffOf, Undone, Leaves, ModifiesDown, DistinctEntities;
    TableChangesDistinct(entities, info);
    DownTablesSplit(entities, info);
    var a, b := Undone(diff.added), LaterDown(entities, info);
    assert forall k :: 0 <= k < |b| ==> (a + b)[|a| + k] == b[k];
    Kinds(diff.added, diff.modified, diff.removed);
  }

  lemma DropMembers(entities: seq<Entity>, info: seq<TableInfo>, dropped: seq<Entity>, x: TableChange)
    requires SameMembers(dropped, NewEntities(entities, info))
    ensures x in DropChanges(dropped) <==> x in Undone(DiffOf(entities, info).added)
  {
    hide NewEntities, AddedTables, RemovedTables, ModifiedTables, CreatedColumns, References;
    AddedAreNew(entities, info);
    var added, created := AddedTables(entities, info), NewEntities(entities, info);
    if x in DropChanges(dropped) {
      var i :| 0 <= i < |dropped| && Drop(dropped[i].table) == x;
      assert dropped[i] in created;
      var k :| 0 <= k < |created| && created[k] == dropped[i];
      assert Undone(added)[k] == x;
    }
    if x in Undone(added) {
      var k :| 0 <= k < |added| && Drop(added[k].table) == x;
      assert created[k] in dropped;
      var i :| 0 <= i < |dropped| && dropped[i] == created[k];
      assert DropChanges(dropped)[i] == x;
    }
  }

  /** In whatever order the new tables are dropped: down() runs exactly when every table allows its change and everything is let go in
      time. Then each table has its change, and the references are those whose columns were not taken away. */
  lemma DroppingRunsExactly(entities: seq<Entity>, info: seq<TableInfo>, dialect: Dialect, after: Database, dropped: seq<Entity>)
    requires DistinctEntities(entities) && DistinctInfo(info) && Sound(after)
    requires Differing(dropped) && SameMembers(dropped, NewEntities(entities, info))
    ensures Run(dialect, after, DownDropping(entities, info, dropped)).Some?
      <==> DownFitsAll(entities, info, dialect, after.tables) && LetGo(dialect, after.links, DownDropping(entities, info, dropped))
    ensures Run(dialect, after, DownDropping(entities, info, dropped)).Some? ==>
      var back := Run(dialect, after, DownDropping(entities, info, dropped)).value;
      && DownDone(entities, info, dialect, after.tables, back.tables)
      && back.links == Staying(dialect, after.links, DownDropping(entities, info, dropped))
      && Sound(back)
  {
    hide DownDropping, LetGo, Staying, Sound, ReshapeAll, DownDone, DistinctEntities, DistinctInfo, DownFitsAll, LaterDown, NewEntities;
    hide DownStatements, DropChanges, DownTables;
    DroppingChanges(entities, info, dropped);
    DroppingCreatesNothing(entities, info, dropped);
    DroppingIsDown(entities, info, dropped);
    ReshapesAnyOrder(entities, info, dialect, after.tables, DropChanges(dropped) + LaterDown(entities, info));
    RemovesExactly(dialect, after, DownDropping(entities, info, dropped));
    if Run(dialect, after, DownDropping(entities, info, dropped)).Some? {
      RunReshapes(dialect, after, DownDropping(entities, info, dropped));
    }
  }

  /** The same for down() itself. */
  lemma DownRunsExactly(entities: seq<Entity>, info: seq<TableInfo>, dialect: Dialect, after: Database)
    requires DistinctEntities(entities) && DistinctInfo(info) && Sound(after)
    ensures Run(dialect, after, DownStatements(entities, info)).Some?
      <==> DownFitsAll(entities, info, dialect, after.tables) && LetGo(dialect, after.links, DownStatements(entities, info))
    ensures Run(dialect, after, DownStatements(entities, info)).Some? ==>
      var back := Run(dialect, after, DownStatements(entities, info)).value;
      && DownDone(entities, info, dialect, after.tables, back.tables)
      && back.links == Staying(dialect, after.links, DownStatements(entities, info))
      && Sound(back)
  {
    hide DownDropping, LetGo, Staying, Sound, Run, DownDone, DistinctInfo, DownFitsAll, LaterDown, NewEntities, DownStatements, DownTables;
    NewMembers(entities, info);
    DownDrops(entities, info);
    DroppingRunsExactly(entities, info, dialect, after, NewEntities(entities, info));
  }

  // ---------------------------------------------- in the same schema

  /** No new table refers to another new one. */
  predicate Unrelated(created: seq<Entity>) {
    forall e, r :: e in created && r in References(e) && r.target != e.table ==> forall other :: other in created ==> other.table != r.target
  }

  /** The database that up() was computed from, in the default schema, and the one it led to. */
  ghost predicate UpHere(entities: seq<Entity>, info: seq<TableInfo>, dialect: Dialect, db: Database, schema: Option<string>, after: Database) {
    && DistinctEntities(entities) && Introspects(info, dialect, db.tables, dialect.default) && Sound(db)
    && Home(schema, dialect) == dialect.default
    && Run(dialect, db, UpStatements(entities, info, schema)) == Some(after)
  }

  /** up() takes the column away that refers. */
  predicate TakenFrom(entities: seq<Entity>, info: seq<TableInfo>, dialect: Dialect, l: Link) {
    l.source.0 == dialect.default && TakenUp(entities, info, l.source.1, l.column)
  }

  /** The references after up(): old ones whose columns stay, and those of new tables, each of which found its target. */
  lemma LinksAfterUp(entities: seq<Entity>, info: seq<TableInfo>, dialect: Dialect, db: Database, schema: Option<string>, after: Database)
    requires UpHere(entities, info, dialect, db, schema, after)
    ensures Sound(after) && UpDone(entities, info, dialect, db.tables, after.tables, dialect.default) && Listed(info)
    ensures AllCreatableAt(entities, info, dialect, db, schema)
    ensures forall l :: l in after.links <==>
      l in AllLinks(entities, info, dialect, db, schema) && !TakenFrom(entities, info, dialect, l)
  {
    hide UpStatements, UpDone, Sound, Introspects, AllCreatableAt, AllLinks, TakenUp, Run, LetGo, Gone, DistinctEntities;
    ListedBy(info, dialect, db.tables, dialect.default);
    UpRuns(entities, info, dialect, db, schema);
    forall l: Link ensures Gone(dialect, UpStatements(entities, info, schema), l.source, l.column)
      <==> l.source.0 == dialect.default && TakenUp(entities, info, l.source.1, l.column)
    {
      GoneByName(entities, info, dialect, schema, l.source, l.column);
    }
  }

  lemma NewByTable(entities: seq<Entity>, info: seq<TableInfo>, e: Entity)
    requires DistinctEntities(entities)
    ensures e in NewEntities(entities, info) <==> EntityOf(entities, e.table) == Some(e) && InfoOf(info, e.table).None?
  {
    hide DistinctEntities, NewEntities, EntityOf, InfoOf;
    NewMembers(entities, info);
    MembersByTable(entities, info);
  }

  /** A column that down() takes away was not there before. */
  lemma TakenDownIsNew(entities: seq<Entity>, info: seq<TableInfo>, dialect: Dialect, tables: Tables, t: string, c: string)
    requires DistinctEntities(entities) && Introspects(info, dialect, tables, dialect.default) && TakenDown(entities, info, t, c)
    ensures !Has(tables, (dialect.default, t), c)
  {
    hide EntityOf, InfoOf, ColumnsOf, TypeIn, DistinctEntities;
  }

  /** A reference to a column that down() takes away is one between new tables. */
  lemma ReferredIsNew(entities: seq<Entity>, info: seq<TableInfo>, dialect: Dialect, db: Database, schema: Option<string>, after: Database, l: Link)
    requires UpHere(entities, info, dialect, db, schema, after) && l in after.links
    requires l.target.0 == dialect.default && TakenDown(entities, info, l.target.1, l.key)
    ensures l in NewLinks(dialect, dialect.default, NewEntities(entities, info))
    ensures Offers(NewEntities(entities, info), l.target.1, l.key)
  {
    LinksAfterUp(entities, info, dialect, db, schema, after);
    TakenDownIsNew(entities, info, dialect, db.tables, l.target.1, l.key);
    hide UpStatements, UpDone, TakenUp, TakenDown, Run, Introspects, DistinctEntities, References, NewEntities, Offers, CreatedColumns, Has;
    var created := NewEntities(entities, info);
    assert l.target == (l.target.0, l.target.1);
    assert l !in db.links;
    var e, r :| e in created && r in References(e) && l == LinkOf(dialect, (dialect.default, e.table), r);
    var i :| 0 <= i < |created| && created[i] == e;
    assert CreatableAt(dialect, db.tables, dialect.default, created, i);
    assert Provided(dialect, db.tables, dialect.default, created[..i + 1], r);
    OffersEarlier(created, i + 1, r.target, r.key);
  }

  lemma OffersEarlier(created: seq<Entity>, n: nat, table: string, c: string)
    requires n <= |created| && Offers(created[..n], table, c)
    ensures Offers(created, table, c)
  {
    hide CreatedColumns, TypeIn;
  }

  /** No table refers to one that is dropped before it. */
  predicate ReferringFirst(dropped: seq<Entity>) {
    forall i, j, r :: 0 <= i < j < |dropped| && r in References(dropped[j]) ==> r.target != dropped[i].table
  }

  lemma GoneAnyOrder(entities: seq<Entity>, info: seq<TableInfo>, dialect: Dialect, dropped: seq<Entity>, table: (string, string), c: string)
    requires DistinctEntities(entities) && Listed(info) && SameMembers(dropped, NewEntities(entities, info))
    ensures Gone(dialect, DownDropping(entities, info, dropped), table, c)
      <==> table.0 == dialect.default && TakenDown(entities, info, table.1, c)
  {
    hide NewEntities, LaterDown, DownStatements, AllStatements, TakenDown, TakenUp, UpStatements, Listed, DistinctEntities;
    var created, later := NewEntities(entities, info), AllStatements(None, LaterDown(entities, info));
    SameOrder(entities, info, None);
    GoneByName(entities, info, dialect, None, table, c);
    GoneDropping(dialect, dropped, table, c);
    GoneDropping(dialect, created, table, c);
    hide Removes, Droppings;
    assert forall a :: Gone(dialect, Droppings(a) + later, table, c) <==> Gone(dialect, Droppings(a), table, c) || Gone(dialect, later, table, c);
  }

  lemma GoneDropping(dialect: Dialect, dropped: seq<Entity>, table: (string, string), c: string)
    ensures Gone(dialect, Droppings(dropped), table, c) <==> exists e :: e in dropped && table == (dialect.default, e.table)
  {
    if e :| e in dropped && table == (dialect.default, e.table) {
      var i :| 0 <= i < |dropped| && dropped[i] == e;
      assert Droppings(dropped)[i] == DropTable(None, e.table);
      assert Removes(dialect, Droppings(dropped)[i], table, c);
    }
  }

  lemma DroppedAt(dialect: Dialect, entities: seq<Entity>, info: seq<TableInfo>, dropped: seq<Entity>, i: nat, table: (string, string), c: string)
    requires i < |dropped|
    ensures |DownDropping(entities, info, dropped)| >= |dropped|
    ensures Removes(dialect, DownDropping(entities, info, dropped)[i], table, c) <==> table == (dialect.default, dropped[i].table)
  {
    assert DownDropping(entities, info, dropped)[i] == DropTable(None, dropped[i].table);
  }

  /** Whatever the new tables refer to is let go in time exactly when no table is dropped before one that refers to it. */
  lemma LetsGoExactly(entities: seq<Entity>, info: seq<TableInfo>, dialect: Dialect, db: Database, schema: Option<string>, after: Database,
                      dropped: seq<Entity>)
    requires UpHere(entities, info, dialect, db, schema, after)
    requires Differing(dropped) && SameMembers(dropped, NewEntities(entities, info))
    ensures LetGo(dialect, after.links, DownDropping(entities, info, dropped)) <==> ReferringFirst(dropped)
  {
    hide UpHere, DownDropping, NewEntities, Removes, References;
    var down := DownDropping(entities, info, dropped);
    if ReferringFirst(dropped) {
      forall l, p | l in after.links && 0 <= p < |down| && Removes(dialect, down[p], l.target, l.key)
        ensures Gone(dialect, down[..p + 1], l.source, l.column)
      {
        LetsGoOne(entities, info, dialect, db, schema, after, dropped, l, p);
      }
    }
    if LetGo(dialect, after.links, down) {
      forall i, j, r | 0 <= i < j < |dropped| && r in References(dropped[j]) ensures r.target != dropped[i].table {
        if r.target == dropped[i].table {
          StillReferred(entities, info, dialect, db, schema, after, dropped, i, j, r);
          assert false;
        }
      }
    }
  }

  lemma LetsGoOne(entities: seq<Entity>, info: seq<TableInfo>, dialect: Dialect, db: Database, schema: Option<string>, after: Database,
                  dropped: seq<Entity>, l: Link, p: nat)
    requires UpHere(entities, info, dialect, db, schema, after)
    requires ReferringFirst(dropped) && SameMembers(dropped, NewEntities(entities, info))
    requires l in after.links && p < |DownDropping(entities, info, dropped)|
    requires Removes(dialect, DownDropping(entities, info, dropped)[p], l.target, l.key)
    ensures Gone(dialect, DownDropping(entities, info, dropped)[..p + 1], l.source, l.column)
  {
    hide UpStatements, UpDone, DownDropping, NewEntities, Removes, References, TakenUp, TakenDown, AllCreatableAt, AllLinks, Offers, Listed, Sound;
    hide Introspects, DistinctEntities, Run;
    var down, n := DownDropping(entities, info, dropped), |dropped|;
    LinksAfterUp(entities, info, dialect, db, schema, after);
    GoneAnyOrder(entities, info, dialect, dropped, l.target, l.key);
    ReferredIsNew(entities, info, dialect, db, schema, after, l);
    var e, r :| e in NewEntities(entities, info) && r in References(e) && l == LinkOf(dialect, (dialect.default, e.table), r);
    var j :| 0 <= j < n && dropped[j] == e;
    DroppedAt(dialect, entities, info, dropped, j, l.source, l.column);
    if p < n {
      DroppedAt(dialect, entities, info, dropped, p, l.target, l.key);
    }
    assert j <= p;
    assert down[j] in down[..p + 1];
  }

  lemma StillReferred(entities: seq<Entity>, info: seq<TableInfo>, dialect: Dialect, db: Database, schema: Option<string>, after: Database,
                      dropped: seq<Entity>, i: nat, j: nat, r: Reference)
    requires UpHere(entities, info, dialect, db, schema, after)
    requires Differing(dropped) && SameMembers(dropped, NewEntities(entities, info))
    requires i < j < |dropped| && r in References(dropped[j]) && r.target == dropped[i].table
    ensures !LetGo(dialect, after.links, DownDropping(entities, info, dropped))
  {
    hide UpStatements, UpDone, DownDropping, NewEntities, Removes, References, EntityOf, InfoOf, AllCreatableAt, Listed, Sound;
    hide Introspects, DistinctEntities, Run;
    var down, e := DownDropping(entities, info, dropped), dropped[j];
    var l := LinkOf(dialect, (dialect.default, e.table), r);
    LinksAfterUp(entities, info, dialect, db, schema, after);
    NewByTable(entities, info, e);
    assert l in after.links;
    DroppedAt(dialect, entities, info, dropped, i, l.target, l.key);
    forall statement | statement in down[..i + 1] ensures !Removes(dialect, statement, l.source, l.column) {
      var q :| 0 <= q <= i && down[q] == statement;
      DroppedAt(dialect, entities, info, dropped, q, l.source, l.column);
    }
    assert !Gone(dialect, down[..i + 1], l.source, l.column);
  }

  /** No table refers to one created after it. */
  predicate ReferringBack(created: seq<Entity>) {
    forall i, j, r :: 0 <= j < i < |created| && r in References(created[j]) ==> r.target != created[i].table
  }

  lemma OnlyBackwards(entities: seq<Entity>, info: seq<TableInfo>, dialect: Dialect, db: Database, schema: Option<string>, after: Database)
    requires UpHere(entities, info, dialect, db, schema, after)
    ensures ReferringBack(NewEntities(entities, info))
  {
    var created := NewEntities(entities, info);
    hide UpStatements, UpDone, NewEntities, References, AllLinks, TakenUp, Listed, Sound, Introspects, DistinctEntities, Run, CreatedColumns;
    LinksAfterUp(entities, info, dialect, db, schema, after);
    NewAreAbsent(entities, info, dialect, db.tables, dialect.default);
    hide TypeIn;
    forall i, j, r | 0 <= j < i < |created| && r in References(created[j]) ensures r.target != created[i].table {
      assert CreatableAt(dialect, db.tables, dialect.default, created, j);
      assert Provided(dialect, db.tables, dialect.default, created[..j + 1], r);
      forall e | e in created[..j + 1] ensures e.table != created[i].table {
        var k :| 0 <= k <= j && created[k] == e;
      }
    }
  }

  lemma OrderedReferences(created: seq<Entity>)
    requires Differing(created) && ReferringBack(created)
    ensures ReferringFirst(created) <==> Unrelated(created)
    ensures ReferringFirst(Backwards(created))
  {
    hide References;
    if ReferringFirst(created) {
      forall e, r, other | e in created && r in References(e) && r.target != e.table && other in created ensures other.table != r.target {
        var j :| 0 <= j < |created| && created[j] == e;
        var i :| 0 <= i < |created| && created[i] == other;
      }
    }
  }

  /** After up() in the default schema down() runs exactly when no new table refers to another new one: down() drops them in the
      order in which up() created them. */
  lemma DownRuns(entities: seq<Entity>, info: seq<TableInfo>, dialect: Dialect, db: Database, schema: Option<string>, after: Database)
    requires UpHere(entities, info, dialect, db, schema, after)
    ensures Run(dialect, after, DownStatements(entities, info)).Some? <==> Unrelated(NewEntities(entities, info))
    ensures Run(dialect, after, DownStatements(entities, info)).Some? ==>
      DownDone(entities, info, dialect, after.tables, Run(dialect, after, DownStatements(entities, info)).value.tables)
  {
    hide UpHere, NewEntities, Run, DownDone, DownDropping, DownStatements, ReferringBack, ReferringFirst, Unrelated, SameMembers, Differing;
    var created := NewEntities(entities, info);
    SameAsThemselves(created);
    DroppingRuns(entities, info, dialect, db, schema, after, created);
    DownDrops(entities, info);
    OnlyBackwards(entities, info, dialect, db, schema, after);
    OrderedReferences(created);
  }

  lemma SameAsThemselves(created: seq<Entity>)
    ensures SameMembers(created, created)
  {
  }

  lemma DroppingRuns(entities: seq<Entity>, info: seq<TableInfo>, dialect: Dialect, db: Database, schema: Option<string>, after: Database,
                     dropped: seq<Entity>)
    requires UpHere(entities, info, dialect, db, schema, after)
    requires SameMembers(dropped, NewEntities(entities, info))
    ensures Differing(NewEntities(entities, info))
    ensures Differing(dropped) ==>
      (Run(dialect, after, DownDropping(entities, info, dropped)).Some? <==> ReferringFirst(dropped))
    ensures Differing(dropped) && ReferringFirst(dropped) ==>
      DownDone(entities, info, dialect, after.tables, Run(dialect, after, DownDropping(entities, info, dropped)).value.tables)
  {
    hide UpStatements, NewEntities, Run, UpDone, DownDone, Sound, DistinctEntities, DownDropping, ReferringFirst, LetGo, DownFitsAll, Differing;
    hide SameMembers, InfoOf, Reports, AllLinks, AllCreatableAt, TakenUp, Listed, DistinctInfo, Staying;
    NewMembers(entities, info);
    LinksAfterUp(entities, info, dialect, db, schema, after);
    if Differing(dropped) {
      DroppingRunsExactly(entities, info, dialect, after, dropped);
      LetsGoExactly(entities, info, dialect, db, schema, after, dropped);
      DownFitsAfterUp(entities, info, dialect, db.tables, after.tables);
    }
  }

  lemma DownFitsAfterUp(entities: seq<Entity>, info: seq<TableInfo>, dialect: Dialect, tables: Tables, after: Tables)
    requires DistinctEntities(entities) && Introspects(info, dialect, tables, dialect.default)
    requires UpDone(entities, info, dialect, tables, after, dialect.default)
    ensures DownFitsAll(entities, info, dialect, after)
  {
    hide DownStatements, ReshapeAll, DownFitsAll, UpDone, DownDone, DistinctEntities;
    var back := DownReshapes(entities, info, dialect, tables, after);
    DownReshapesExactly(entities, info, dialect, after);
  }

  function Backwards(created: seq<Entity>): (backwards: seq<Entity>)
    ensures |backwards| == |created|
  {
    seq(|created|, k requires 0 <= k < |created| => created[|created| - 1 - k])
  }

  lemma BackwardsMembers(created: seq<Entity>)
    ensures SameMembers(Backwards(created), created)
    ensures Differing(created) ==> Differing(Backwards(created))
  {
    forall e | e in created ensures e in Backwards(created) {
      var i :| 0 <= i < |created| && created[i] == e;
      assert Backwards(created)[|created| - 1 - i] == e;
    }
  }

  /** Dropping the new tables in the opposite order, down() would always run and lead to the same tables. */
  lemma BackwardsRuns(entities: seq<Entity>, info: seq<TableInfo>, dialect: Dialect, db: Database, schema: Option<string>, after: Database)
    requires UpHere(entities, info, dialect, db, schema, after)
    ensures Run(dialect, after, DownDropping(entities, info, Backwards(NewEntities(entities, info)))).Some?
    ensures DownDone(entities, info, dialect, after.tables,
                     Run(dialect, after, DownDropping(entities, info, Backwards(NewEntities(entities, info)))).value.tables)
  {
    hide UpHere, NewEntities, Run, DownDone, DownDropping, DownStatements, ReferringBack, ReferringFirst, SameMembers, Differing, Backwards;
    var created := NewEntities(entities, info);
    BackwardsMembers(created);
    DroppingRuns(entities, info, dialect, db, schema, after, Backwards(created));
    OnlyBackwards(entities, info, dialect, db, schema, after);
    OrderedReferences(created);
  }

  // ------------------------------------------------------ when it leads back

  /** up() takes no column of the table away that refers to another one. */
  predicate Unlinked(entities: seq<Entity>, info: seq<TableInfo>, links: set<Link>, home: string, t: string) {
    forall l :: l in links && l.source == (home, t) ==> !TakenUp(entities, info, t, l.column)
  }

  /** The references after down() are those there were if up() took none of them away. */
  lemma LinksBack(entities: seq<Entity>, info: seq<TableInfo>, dialect: Dialect, db: Database, schema: Option<string>,
                  after: Database, back: Database)
    requires UpHere(entities, info, dialect, db, schema, after)
    requires Run(dialect, after, DownStatements(entities, info)) == Some(back) && back.tables == db.tables
    ensures back.links == db.links <==> forall t :: Unlinked(entities, info, db.links, dialect.default, t)
  {
    hide UpStatements, DownStatements, UpDone, DownDone, NewEntities, AllLinks, TakenUp, TakenDown, Run, DistinctEntities, AllCreatableAt, LetGo;
    hide InfoOf, Reports, DistinctInfo, Gone, Has, Listed;
    LinksAfterUp(entities, info, dialect, db, schema, after);
    DownRunsExactly(entities, info, dialect, after);
    forall l | l in back.links ensures l in db.links {
      BackIsOld(entities, info, dialect, db, schema, after, l);
    }
    forall l | l in db.links ensures l in back.links <==> !TakenFrom(entities, info, dialect, l) {
      OldStays(entities, info, dialect, db, schema, after, l);
    }
    if forall t :: Unlinked(entities, info, db.links, dialect.default, t) {
      forall l | l in db.links ensures !TakenFrom(entities, info, dialect, l) {
        assert Unlinked(entities, info, db.links, dialect.default, l.source.1);
        assert l.source == (l.source.0, l.source.1);
      }
    }
    if back.links == db.links {
      forall t ensures Unlinked(entities, info, db.links, dialect.default, t) {
        forall l | l in db.links && l.source == (dialect.default, t) ensures !TakenUp(entities, info, t, l.column) {
          assert !TakenFrom(entities, info, dialect, l);
        }
      }
    }
  }

  /** No reference of a new table is left where the tables are those there were. */
  lemma BackIsOld(entities: seq<Entity>, info: seq<TableInfo>, dialect: Dialect, db: Database, schema: Option<string>, after: Database, l: Link)
    requires UpHere(entities, info, dialect, db, schema, after)
    requires l in after.links && Has(db.tables, l.source, l.column)
    ensures l in db.links
  {
    hide UpStatements, UpDone, NewEntities, TakenUp, Run, DistinctEntities, AllCreatableAt, InfoOf, Reports, Listed, Differing, References;
    LinksAfterUp(entities, info, dialect, db, schema, after);
    NewAreAbsent(entities, info, dialect, db.tables, dialect.default);
    var created := NewEntities(entities, info);
    forall e | e in created ensures (dialect.default, e.table) !in db.tables {
      var i :| 0 <= i < |created| && created[i] == e;
    }
  }

  /** down() takes no old reference away. */
  lemma OldStays(entities: seq<Entity>, info: seq<TableInfo>, dialect: Dialect, db: Database, schema: Option<string>, after: Database, l: Link)
    requires UpHere(entities, info, dialect, db, schema, after) && l in db.links
    ensures l in Staying(dialect, after.links, DownStatements(entities, info)) <==> !TakenFrom(entities, info, dialect, l)
  {
    hide UpStatements, DownStatements, UpDone, NewEntities, TakenUp, TakenDown, Run, DistinctEntities, AllCreatableAt, Has, Listed, Gone, Introspects;
    LinksAfterUp(entities, info, dialect, db, schema, after);
    GoneByName(entities, info, dialect, schema, l.source, l.column);
    if l.source.0 == dialect.default && TakenDown(entities, info, l.source.1, l.column) {
      TakenDownIsNew(entities, info, dialect, db.tables, l.source.1, l.column);
    }
  }

  ghost predicate Restored(entities: seq<Entity>, info: seq<TableInfo>, dialect: Dialect, db: Database, home: string, t: string) {
    if home == dialect.default then
      TableRestored(entities, info, dialect, db.tables, home, t) && Unlinked(entities, info, db.links, home, t)
    else
      TableStays(entities, info, dialect, db.tables, home, t)
  }

  ghost predicate AllRestored(entities: seq<Entity>, info: seq<TableInfo>, dialect: Dialect, db: Database, home: string) {
    forall t :: Restored(entities, info, dialect, db, home, t)
  }

  lemma AllRestoredExactly(entities: seq<Entity>, info: seq<TableInfo>, dialect: Dialect, db: Database, home: string)
    ensures AllRestored(entities, info, dialect, db, home) <==>
      if home == dialect.default then
        (forall t :: TableRestored(entities, info, dialect, db.tables, home, t)) && forall t :: Unlinked(entities, info, db.links, home, t)
      else
        forall t :: TableStays(entities, info, dialect, db.tables, home, t)
  {
    hide TableRestored, Unlinked, TableStays;
    assert forall t :: AllRestored(entities, info, dialect, db, home) ==> Restored(entities, info, dialect, db, home, t);
    if AllRestored(entities, info, dialect, db, home) {
      forall t
        ensures home == dialect.default ==> TableRestored(entities, info, dialect, db.tables, home, t) && Unlinked(entities, info, db.links, home, t)
        ensures home != dialect.default ==> TableStays(entities, info, dialect, db.tables, home, t)
      {
        assert Restored(entities, info, dialect, db, home, t);
      }
    }
  }

  lemma RestoresInDefault(entities: seq<Entity>, info: seq<TableInfo>, dialect: Dialect, db: Database, schema: Option<string>, after: Database)
    requires UpHere(entities, info, dialect, db, schema, after)
    ensures Run(dialect, after, DownStatements(entities, info)) == Some(db)
      <==> Unrelated(NewEntities(entities, info)) && AllRestored(entities, info, dialect, db, dialect.default)
  {
    hide UpStatements, DownStatements, NewEntities, Run, ReshapeAll, TableRestored, Unlinked, Introspects, DistinctEntities, Unrelated;
    hide UpDone, DownDone;
    LinksAfterUp(entities, info, dialect, db, schema, after);
    DownRuns(entities, info, dialect, db, schema, after);
    RestoresHere(entities, info, dialect, db.tables, after.tables);
    AllRestoredExactly(entities, info, dialect, db, dialect.default);
    if Run(dialect, after, DownStatements(entities, info)).Some? {
      var back := Run(dialect, after, DownStatements(entities, info)).value;
      RunReshapes(dialect, after, DownStatements(entities, info));
      assert back == db <==> back.tables == db.tables && back.links == db.links;
      if back.tables == db.tables {
        LinksBack(entities, info, dialect, db, schema, after, back);
      }
    }
  }

  /** What stays as it is in both schemas is neither created nor taken away. */
  lemma StayingUntouched(entities: seq<Entity>, info: seq<TableInfo>, dialect: Dialect, tables: Tables, s: string)
    requires DistinctEntities(entities) && forall t :: TableStays(entities, info, dialect, tables, s, t)
    ensures |NewEntities(entities, info)| == 0
    ensures forall t, c :: !TakenUp(entities, info, t, c) && !TakenDown(entities, info, t, c)
  {
    hide NewEntities, ColumnsOf, TypeIn, NormalizeType, EntityOf, InfoOf, DistinctEntities;
    forall t, c ensures !TakenUp(entities, info, t, c) && !TakenDown(entities, info, t, c) {
      assert TableStays(entities, info, dialect, tables, s, t);
      if EntityOf(entities, t).Some? && InfoOf(info, t).Some? {
        var e, listed := EntityOf(entities, t).value, InfoOf(info, t).value;
        assert ColumnStays(e, dialect, listed, Cell(tables, (s, t), c), Cell(tables, (dialect.default, t), c), c);
      }
    }
    MembersByTable(entities, info);
    forall e | e in entities ensures InfoOf(info, e.table).Some? {
      assert TableStays(entities, info, dialect, tables, s, e.table);
    }
    NoneNew(entities, info);
  }

  lemma {:induction false} NoneNew(entities: seq<Entity>, info: seq<TableInfo>)
    requires forall e :: e in entities ==> InfoOf(info, e.table).Some?
    ensures |NewEntities(entities, info)| == 0
  {
    hide InfoOf;
    if |entities| > 0 { NoneNew(entities[..|entities| - 1], info); }
  }

  lemma RestoresInOther(entities: seq<Entity>, info: seq<TableInfo>, dialect: Dialect, db: Database, schema: Option<string>, after: Database)
    requires DistinctEntities(entities) && Introspects(info, dialect, db.tables, Home(schema, dialect)) && Sound(db)
    requires Run(dialect, db, UpStatements(entities, info, schema)) == Some(after) && Home(schema, dialect) != dialect.default
    ensures Run(dialect, after, DownStatements(entities, info)) == Some(db)
      <==> Unrelated(NewEntities(entities, info)) && AllRestored(entities, info, dialect, db, Home(schema, dialect))
  {
    var home, down := Home(schema, dialect), DownStatements(entities, info);
    hide UpStatements, DownStatements, NewEntities, Run, ReshapeAll, TableStays, DistinctEntities, UpDone, DownDone, Sound, UpAllowed;
    hide InfoOf, Reports, DownFitsAll, LetGo, Staying, NewLinks, Listed, DistinctInfo, Unrelated;
    UpRuns(entities, info, dialect, db, schema);
    RestoresElsewhere(entities, info, dialect, db.tables, home, after.tables);
    AllRestoredExactly(entities, info, dialect, db, home);
    if Run(dialect, after, down).Some? {
      RunReshapes(dialect, after, down);
    }
    if forall t :: TableStays(entities, info, dialect, db.tables, home, t) {
      StayingUntouched(entities, info, dialect, db.tables, home);
      ListedBy(info, dialect, db.tables, home);
      NeverTaken(entities, info, dialect, schema, AllLinks(entities, info, dialect, db, schema), after.links);
      DownReshapesExactly(entities, info, dialect, after.tables);
      DownRunsExactly(entities, info, dialect, after);
      RunReshapes(dialect, after, down);
      NoneIsUnrelated(dialect, home, NewEntities(entities, info));
      assert after.links == db.links;
    }
  }

  lemma NeverTaken(entities: seq<Entity>, info: seq<TableInfo>, dialect: Dialect, schema: Option<string>, links: set<Link>, after: set<Link>)
    requires DistinctEntities(entities) && Listed(info)
    requires forall t, c :: !TakenUp(entities, info, t, c) && !TakenDown(entities, info, t, c)
    ensures Staying(dialect, links, UpStatements(entities, info, schema)) == links
    ensures Staying(dialect, after, DownStatements(entities, info)) == after && LetGo(dialect, after, DownStatements(entities, info))
  {
    hide UpStatements, DownStatements, TakenUp, TakenDown, DistinctEntities, Listed, Gone, LetGo, Staying;
    forall table, c
      ensures !Gone(dialect, UpStatements(entities, info, schema), table, c) && !Gone(dialect, DownStatements(entities, info), table, c)
    {
      GoneByName(entities, info, dialect, schema, table, c);
    }
    NothingTaken(dialect, links, UpStatements(entities, info, schema));
    NothingTaken(dialect, after, DownStatements(entities, info));
  }

  /** down() after up() leads back to the same database: in the default schema exactly when no new table refers to another new one,
      no table was removed, every dropped column had the type of a TEXT and referred to nothing, and every changed type is denoted by
      what the introspector reports of it; in another schema, whose name down() leaves out, exactly when up() changed nothing there
      and down() finds nothing to change in the default schema. */
  lemma Restores(entities: seq<Entity>, info: seq<TableInfo>, dialect: Dialect, db: Database, schema: Option<string>, after: Database)
    requires DistinctEntities(entities) && Introspects(info, dialect, db.tables, Home(schema, dialect)) && Sound(db)
    requires Run(dialect, db, UpStatements(entities, info, schema)) == Some(after)
    ensures Run(dialect, after, DownStatements(entities, info)) == Some(db)
      <==> Unrelated(NewEntities(entities, info)) && AllRestored(entities, info, dialect, db, Home(schema, dialect))
  {
    hide UpStatements, DownStatements, NewEntities, Run, Introspects, DistinctEntities, Unrelated, AllRestored, Sound;
    if Home(schema, dialect) == dialect.default {
      RestoresInDefault(entities, info, dialect, db, schema, after);
    } else {
      RestoresInOther(entities, info, dialect, db, schema, after);
    }
  }

  // -------------------------------------------------- in another schema

  /** down() never names another schema: what up() did there stays, and down() runs against the default schema, where it drops
      the tables up() did not create and changes columns up() did not touch, or fails on the first that is missing or referred to. */
  lemma DownMissesSchema(entities: seq<Entity>, info: seq<TableInfo>, dialect: Dialect, db: Database, schema: string, after: Database)
    requires DistinctEntities(entities) && Introspects(info, dialect, db.tables, schema) && Sound(db) && schema != dialect.default
    requires Run(dialect, db, UpStatements(entities, info, Some(schema))) == Some(after)
    ensures Run(dialect, after, DownStatements(entities, info)).Some?
      <==> DownFitsAll(entities, info, dialect, db.tables) && LetGo(dialect, after.links, DownStatements(entities, info))
    ensures after.links == Staying(dialect, AllLinks(entities, info, dialect, db, Some(schema)), UpStatements(entities, info, Some(schema)))
    ensures Run(dialect, after, DownStatements(entities, info)).Some? ==>
      var back := Run(dialect, after, DownStatements(entities, info)).value;
      && (forall t :: At(back.tables, (schema, t)) == At(after.tables, (schema, t)))
      && (forall t :: ForTable(dialect, At(db.tables, (dialect.default, t)), At(back.tables, (dialect.default, t)), DownTable(entities, info, t)))
      && back.links == Staying(dialect, after.links, DownStatements(entities, info))
  {
    hide Run, UpStatements, DownStatements, UpTable, DownTable, TableAfter, UpAllowed, LetGo, Staying, AllLinks, Sound, DistinctEntities;
    assert Home(Some(schema), dialect) == schema;
    UpRuns(entities, info, dialect, db, Some(schema));
    DownRunsExactly(entities, info, dialect, after);
    hide Introspects;
    forall t ensures At(after.tables, (dialect.default, t)) == At(db.tables, (dialect.default, t)) {
      assert (dialect.default, t).0 != schema;
    }
  }

  /** In another schema, where the database reads every applied type back as an equal one, down() undoes up() only if there was nothing to do. */
  lemma OnlyNothingIsRestored(entities: seq<Entity>, info: seq<TableInfo>, dialect: Dialect, db: Database, schema: string, after: Database)
    requires DistinctEntities(entities) && Introspects(info, dialect, db.tables, schema) && Sound(db) && schema != dialect.default
    requires Run(dialect, db, UpStatements(entities, info, Some(schema))) == Some(after)
    requires forall e, f :: e in entities && f in e.fields ==> Stable(WantedType(f), dialect)
    ensures Run(dialect, after, DownStatements(entities, info)) == Some(db) <==> EmptyDiff(DiffOf(entities, info))
  {
    hide Run, UpStatements, DownStatements, DiffOf, TableStays, UpTable, Unrelated, NewEntities, Sound, DistinctEntities, Introspects;
    assert Home(Some(schema), dialect) == schema;
    Restores(entities, info, dialect, db, Some(schema), after);
    EmptyExactly(entities, info);
    forall t ensures TableStays(entities, info, dialect, db.tables, schema, t) <==> UpTable(entities, info, t).None? {
      StableStays(entities, info, dialect, db.tables, schema, t);
    }
    if forall t :: TableStays(entities, info, dialect, db.tables, schema, t) {
      StayingUntouched(entities, info, dialect, db.tables, schema);
      NoneIsUnrelated(dialect, schema, NewEntities(entities, info));
    }
    AllRestoredExactly(entities, info, dialect, db, schema);
  }

  lemma NoneIsUnrelated(dialect: Dialect, home: string, created: seq<Entity>)
    requires |created| == 0
    ensures Unrelated(created) && NewLinks(dialect, home, created) == {}
  {
  }

  lemma StableStays(entities: seq<Entity>, info: seq<TableInfo>, dialect: Dialect, db: Tables, s: string, t: string)
    requires DistinctEntities(entities) && Introspects(info, dialect, db, s)
    requires forall e, f :: e in entities && f in e.fields ==> Stable(WantedType(f), dialect)
    ensures TableStays(entities, info, dialect, db, s, t) <==> UpTable(entities, info, t).None?
  {
    hide NoChange, Compared, ColumnsOf, CreatedColumns, UpChanges, EntityOf, InfoOf, Reports, Distinct, ColumnStays, UpChange, References;
    if EntityOf(entities, t).Some? && InfoOf(info, t).Some? {
      var e, listed := EntityOf(entities, t).value, InfoOf(info, t).value;
      EntityOfSome(entities, t);
      ReportsDistinct(listed, db[(s, t)], dialect);
      NoChangeExactly(e, listed);
      forall c
        ensures ColumnStays(e, dialect, listed, Cell(db, (s, t), c), Cell(db, (dialect.default, t), c), c)
          <==> UpChange(ColumnsOf(e), listed, c).None?
      {
        assert Cell(db, (s, t), c) == At(db[(s, t)], c);
        StableWanted(e, dialect, c);
        StableColumnStays(e, dialect, listed, db[(s, t)], Cell(db, (dialect.default, t), c), c);
      }
    }
  }

  lemma StableColumnStays(e: Entity, dialect: Dialect, listed: seq<Column>, columns: Columns, there: Option<Stored>, c: string)
    requires Reports(dialect, listed, columns)
    requires TypeIn(ColumnsOf(e), c).Some? ==> Stable(TypeIn(ColumnsOf(e), c).value, dialect)
    ensures ColumnStays(e, dialect, listed, At(columns, c), there, c) <==> UpChange(ColumnsOf(e), listed, c).None?
  {
    hide NormalizeType, ColumnsOf, TypeIn, Distinct;
  }

  lemma StableWanted(e: Entity, dialect: Dialect, c: string)
    requires Distinct(ColumnsOf(e)) && forall f :: f in e.fields ==> Stable(WantedType(f), dialect)
    ensures TypeIn(ColumnsOf(e), c).Some? ==> Stable(TypeIn(ColumnsOf(e), c).value, dialect)
  {
    WantedTypes(e, c);
    hide Stable, ColumnsOf, TypeIn, WantedType;
    if TypeIn(ColumnsOf(e), c).Some? {
      var i :| 0 <= i < |e.fields| && e.fields[i].column == c;
      assert e.fields[i] in e.fields;
    }
  }
}
