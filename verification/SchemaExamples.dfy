/** A table and one that refers to it: what the diff makes of them, and in which order they can be created and dropped. */
module SchemaExamples {
  import opened Options
  import opened SqlTypes
  import opened SchemaChange
  import opened SchemaLinks
  import opened DdlGenerator
  import opened SchemaDiff
  import opened SchemaMigration
  import opened SchemaReferences
  import opened SchemaRestore

  const USERS := Entity("users", [Own("active", Entry(None, None), Boolean)], [ManyToOne("team_id", Some(Target("teams", "id")))], [])

  const TEAMS := Entity("teams", [Own("id", Entry(Some("INTEGER"), None), Number)], [], [])

  const CREATED := [Column("active", "BOOLEAN"), Column("team_id", "INTEGER")]

  const REPORTED := [Column("active", "boolean"), Column("team_id", "integer")]

  /** A field with a boolean initial value beside a relation: the table is created as BOOLEAN with a join column, and the diff against
      what the database reports of it alters the field to TEXT and drops the join column. */
  lemma BooleanFieldAndRelation()
    ensures DiffOf([USERS], []) == SchemaDiff([TableDiff("users", CREATED, [Reference("team_id", "teams", "id")])], [], [])
    ensures DiffOf([USERS], [TableInfo("users", REPORTED)])
      == SchemaDiff([], [], [TableModification("users", [], [ColumnModification("active", "boolean", "TEXT")], [Column("team_id", "integer")])])
  {
    hide NormalizeType;
    TextIsNotBoolean();
    UsersColumns();
    hide CreatedColumns, References, ColumnsOf;
    var wanted, info := [Column("active", "TEXT")], [TableInfo("users", REPORTED)];
    assert [USERS][..0] == [] && info[..0] == [] && wanted[..0] == [] && REPORTED[..1] == [REPORTED[0]] && REPORTED[..1][..0] == [];
    assert TypeIn(wanted, "active") == Some("TEXT") && TypeIn(wanted, "team_id") == None;
    assert TypeIn(REPORTED, "active") == Some("boolean") && TypeIn(REPORTED, "team_id") == Some("integer");
    assert Missing(wanted, REPORTED) == [] && Missing(REPORTED, wanted) == [REPORTED[1]] by {
      assert Missing(REPORTED[..1], wanted) == [];
    }
    assert Retyped(wanted, REPORTED) == [ColumnModification("active", "boolean", "TEXT")] by {
      assert Retyped(wanted[..0], REPORTED) == [];
    }
    hide Missing, Retyped, TypeIn;
    assert EntityOf([USERS], "users") == Some(USERS) && InfoOf(info, "users") == Some(REPORTED) && InfoOf([], "users") == None;
    DiffOfOne(USERS, []);
    DiffOfOne(USERS, info);
    assert RemovedTables([], [USERS]) == [];
    assert RemovedTables(info, [USERS]) == [] by {
      assert RemovedTables(info[..0], [USERS]) == [];
    }
  }

  lemma DiffOfOne(e: Entity, info: seq<TableInfo>)
    ensures DiffOf([e], info).added == if InfoOf(info, e.table).None? then [AddedTable(e)] else []
    ensures DiffOf([e], info).removed == RemovedTables(info, [e])
    ensures DiffOf([e], info).modified == if IsModified(e, info) then [Compared(e, InfoOf(info, e.table).value)] else []
  {
    hide CreatedColumns, Compared, NoChange, InfoOf, RemovedTables;
    assert [e][..0] == [];
    assert AddedTables([e][..0], info) == [] && ModifiedTables([e][..0], info) == [];
  }

  lemma UsersColumns()
    ensures CreatedColumns(USERS) == CREATED && References(USERS) == [Reference("team_id", "teams", "id")]
    ensures ColumnsOf(USERS) == [Column("active", "TEXT")]
  {
    assert USERS.manyToOne[..0] == [];
    assert ManyToOneReferences(USERS.manyToOne[..0]) == [];
    assert References(USERS) == [Reference("team_id", "teams", "id")];
    assert JoinColumns(USERS) == [Column("team_id", "INTEGER")];
    assert FieldColumns(USERS.fields) == [Column("active", "BOOLEAN")];
  }

  lemma TextIsNotBoolean()
    ensures NormalizeType("TEXT") != NormalizeType("boolean")
  {
    hide BaseType;
    UpperText();
    PlainNames();
    PlainIsBase("text");
    PlainIsBase("boolean");
    hide Plain;
  }

  lemma UpperText()
    ensures BaseType("TEXT") == BaseType("text")
  {
    assert Lower("TEXT") == "text";
    assert Lower("text") == "text";
    hide Trim, WithoutLength;
  }

  lemma PlainNames()
    ensures Plain("text") && Plain("boolean")
  {
  }

  const EMPTY := Database(map[], {})

  lemma TeamsColumns()
    ensures CreatedColumns(TEAMS) == [Column("id", "INTEGER")] && References(TEAMS) == [] && ColumnsOf(TEAMS) == [Column("id", "INTEGER")]
  {
    assert JoinColumns(TEAMS) == [];
    assert FieldColumns(TEAMS.fields) == [Column("id", "INTEGER")];
  }

  lemma BothNew(a: Entity, b: Entity)
    ensures NewEntities([a, b], []) == [a, b]
  {
    assert [a, b][..1] == [a] && [a][..0] == [];
    assert InfoOf([], a.table).None? && InfoOf([], b.table).None?;
    assert NewEntities([a][..0], []) == [];
  }

  /** Created before the table that it refers to, users does not find it. */
  lemma UsersFirst(dialect: Dialect)
    ensures Run(dialect, EMPTY, UpStatements([USERS, TEAMS], [], None)).None?
  {
    hide Run, UpStatements, DownStatements, CreatedColumns, References, ColumnsOf, NewEntities, LetGo, Offers;
    var entities, r := [USERS, TEAMS], Reference("team_id", "teams", "id");
    UsersColumns();
    TeamsColumns();
    BothNew(USERS, TEAMS);
    UpRuns(entities, [], dialect, EMPTY, None);
    assert !CreatableAt(dialect, map[], dialect.default, entities, 0) by {
      assert r in References(USERS) && entities[..1] == [USERS];
      assert !Offers([USERS], "teams", "id") by {
        assert USERS.table != "teams";
        OneOffers(USERS, "teams", "id");
      }
    }
  }

  lemma OneOffers(e: Entity, table: string, c: string)
    ensures Offers([e], table, c) <==> e.table == table && TypeIn(CreatedColumns(e), c).Some?
  {
    hide CreatedColumns, TypeIn;
    assert e in [e];
  }

  /** Created after it, both are there; but down() drops teams first, and fails. */
  lemma TeamsFirst(dialect: Dialect) returns (after: Database)
    ensures Run(dialect, EMPTY, UpStatements([TEAMS, USERS], [], None)) == Some(after)
    ensures Run(dialect, after, DownStatements([TEAMS, USERS], [])).None?
  {
    hide Run, UpStatements, DownStatements, CreatedColumns, References, ColumnsOf, NewEntities, LetGo, Offers, Staying, Gone;
    var entities, r := [TEAMS, USERS], Reference("team_id", "teams", "id");
    UsersColumns();
    TeamsColumns();
    BothNew(TEAMS, USERS);
    UpRuns(entities, [], dialect, EMPTY, None);
    assert LetGo(dialect, AllLinks(entities, [], dialect, EMPTY, None), UpStatements(entities, [], None)) by {
      forall table, c ensures !Gone(dialect, UpStatements(entities, [], None), table, c) {
        GoneByName(entities, [], dialect, None, table, c);
      }
      NothingTaken(dialect, AllLinks(entities, [], dialect, EMPTY, None), UpStatements(entities, [], None));
    }
    assert CreatableAt(dialect, map[], dialect.default, entities, 0);
    assert CreatableAt(dialect, map[], dialect.default, entities, 1) by {
      assert entities[..2] == entities;
      TeamsOffered();
    }
    after := Run(dialect, EMPTY, UpStatements(entities, [], None)).value;
    DownRuns(entities, [], dialect, EMPTY, None, after);
    assert USERS in entities && TEAMS in entities && r in References(USERS);
  }

  lemma TeamsOffered()
    ensures Offers([TEAMS, USERS], "teams", "id")
  {
    TeamsColumns();
    hide CreatedColumns;
    assert TEAMS in [TEAMS, USERS];
    assert TypeIn([Column("id", "INTEGER")], "id").Some?;
  }
}
