/** The columns of CREATE TABLE: the fields, with types also read off their initial values, and the join columns of relations,
    which refer to the keys of other tables. */
module DdlGenerator {
  import opened Options
  import opened SqlText
  import opened SchemaChange

  /** What @Column says of a field's type. */
  datatype Entry = Entry(sqlType: Option<string>, length: Option<nat>)

  /** The kind of value a field has in a newly constructed instance. */
  datatype Initial = Nothing | Text | Number | Boolean | Date | Bytes | Other

  /** A mapped field of the entity itself, or one of an embeddable's, which the entity maps under a dotted name. */
  datatype Field = Own(column: string, entry: Entry, initial: Initial) | Embedded(column: string, entry: Entry)

  /** A class's table and the column of its id. */
  datatype Target = Target(table: string, key: string)

  /** The target is none for a class without table or id; then there is no join column. */
  datatype ManyToOne = ManyToOne(joinColumn: string, target: Option<Target>)

  datatype OneToOne = OneToOne(joinColumn: Option<string>, owning: bool, target: Option<Target>)

  datatype Entity = Entity(table: string, fields: seq<Field>, manyToOne: seq<ManyToOne>, oneToOne: seq<OneToOne>)

  predicate HasType(entry: Entry) {
    entry.sqlType.Some? && entry.sqlType.value != ""
  }

  function InferredType(initial: Initial): string {
    match initial
    case Number => "INTEGER"
    case Boolean => "BOOLEAN"
    case Date => "TIMESTAMPTZ"
    case Bytes => "BYTEA"
    case _ => "TEXT"
  }

  /** An explicit type comes first, then a length, then the initial value. */
  function ResolveColumnType(entry: Entry, initial: Initial): string {
    if HasType(entry) then entry.sqlType.value
    else if entry.length.Some? then "VARCHAR(" + Decimal(entry.length.value) + ")"
    else InferredType(initial)
  }

  function CreatedType(field: Field): string {
    match field
    case Own(_, entry, initial) => ResolveColumnType(entry, initial)
    case Embedded(_, entry) => ResolveColumnType(entry, Nothing)
  }

  function FieldColumns(fields: seq<Field>): (columns: seq<Column>)
    ensures |columns| == |fields|
  {
    seq(|fields|, i requires 0 <= i < |fields| => Column(fields[i].column, CreatedType(fields[i])))
  }

  predicate OwnsColumn(r: OneToOne) {
    r.owning && r.joinColumn.Some? && r.joinColumn.value != "" && r.target.Some?
  }

  function ManyToOneReferences(relations: seq<ManyToOne>): seq<Reference> {
    if |relations| == 0 then []
    else
      var n := |relations| - 1;
      ManyToOneReferences(relations[..n])
      + if relations[n].target.Some? then [Referring(relations[n].joinColumn, relations[n].target.value)] else []
  }

  function OneToOneReferences(relations: seq<OneToOne>): seq<Reference> {
    if |relations| == 0 then []
    else
      var n := |relations| - 1;
      OneToOneReferences(relations[..n])
      + if OwnsColumn(relations[n]) then [Referring(relations[n].joinColumn.value, relations[n].target.value)] else []
  }

  function Referring(column: string, target: Target): Reference {
    Reference(column, target.table, target.key)
  }

  /** What the created table refers to: one reference for each join column. */
  function References(e: Entity): seq<Reference> {
    ManyToOneReferences(e.manyToOne) + OneToOneReferences(e.oneToOne)
  }

  lemma {:induction false} ManyRefer(relations: seq<ManyToOne>, column: string, target: Target)
    ensures Referring(column, target) in ManyToOneReferences(relations) <==> ManyToOne(column, Some(target)) in relations
  {
    if |relations| > 0 {
      var n := |relations| - 1;
      ManyRefer(relations[..n], column, target);
      assert relations == relations[..n] + [relations[n]];
    }
  }

  lemma {:induction false} OneRefers(relations: seq<OneToOne>, column: string, target: Target)
    ensures Referring(column, target) in OneToOneReferences(relations) <==>
      column != "" && OneToOne(Some(column), true, Some(target)) in relations
  {
    if |relations| > 0 {
      var n := |relations| - 1;
      OneRefers(relations[..n], column, target);
      assert relations == relations[..n] + [relations[n]];
      assert relations[n] == OneToOne(Some(column), true, Some(target)) ==> column == relations[n].joinColumn.value;
    }
  }

  /** A created table refers to a key exactly through the join column of a many-to-one relation, or of an owning one-to-one
      relation that names one, to a class with table and id. */
  lemma RefersExactly(e: Entity, column: string, table: string, key: string)
    ensures Reference(column, table, key) in References(e) <==>
      || ManyToOne(column, Some(Target(table, key))) in e.manyToOne
      || (column != "" && OneToOne(Some(column), true, Some(Target(table, key))) in e.oneToOne)
  {
    var target := Target(table, key);
    ManyRefer(e.manyToOne, column, target);
    OneRefers(e.oneToOne, column, target);
    assert Reference(column, table, key) == Referring(column, target);
  }

  function IntegerColumns(references: seq<Reference>): (columns: seq<Column>)
    ensures |columns| == |references|
  {
    seq(|references|, i requires 0 <= i < |references| => Column(references[i].column, "INTEGER"))
  }

  function JoinColumns(e: Entity): seq<Column> {
    IntegerColumns(References(e))
  }

  function CreatedColumns(e: Entity): seq<Column> {
    FieldColumns(e.fields) + JoinColumns(e)
  }

  /** The columns of the generated CREATE TABLE, in the order of its text, and what its join columns refer to. */
  method GenerateCreateTable(e: Entity) returns (columns: seq<Column>, references: seq<Reference>)
    ensures columns == CreatedColumns(e) && references == References(e)
  {
    columns, references := FieldColumns(e.fields), [];
    for i := 0 to |e.manyToOne|
      invariant references == ManyToOneReferences(e.manyToOne[..i])
      invariant columns == FieldColumns(e.fields) + IntegerColumns(references)
    {
      assert e.manyToOne[..i + 1][..i] == e.manyToOne[..i];
      var target := e.manyToOne[i].target;
      if target.None? {
        continue;
      }
      columns := columns + [Column(e.manyToOne[i].joinColumn, "INTEGER")];
      references := references + [Reference(e.manyToOne[i].joinColumn, target.value.table, target.value.key)];
    }
    assert e.manyToOne[..|e.manyToOne|] == e.manyToOne;
    for i := 0 to |e.oneToOne|
      invariant references == ManyToOneReferences(e.manyToOne) + OneToOneReferences(e.oneToOne[..i])
      invariant columns == FieldColumns(e.fields) + IntegerColumns(references)
    {
      assert e.oneToOne[..i + 1][..i] == e.oneToOne[..i];
      if !e.oneToOne[i].owning || e.oneToOne[i].joinColumn.None? || e.oneToOne[i].joinColumn.value == "" {
        continue;
      }
      var target := e.oneToOne[i].target;
      if target.None? {
        continue;
      }
      columns := columns + [Column(e.oneToOne[i].joinColumn.value, "INTEGER")];
      references := references + [Reference(e.oneToOne[i].joinColumn.value, target.value.table, target.value.key)];
    }
    assert e.oneToOne[..|e.oneToOne|] == e.oneToOne;
  }

  /** In a table of differently named columns every field keeps its type and every join column is an INTEGER beside them. */
  lemma CreatedTypes(e: Entity, c: string)
    requires Distinct(CreatedColumns(e))
    ensures forall i :: 0 <= i < |e.fields| ==> TypeIn(CreatedColumns(e), e.fields[i].column) == Some(CreatedType(e.fields[i]))
    ensures (exists j :: j in JoinColumns(e) && j.name == c) ==>
      TypeIn(CreatedColumns(e), c) == Some("INTEGER") && forall i :: 0 <= i < |e.fields| ==> e.fields[i].column != c
    ensures TypeIn(CreatedColumns(e), c).Some? ==>
      (exists i :: 0 <= i < |e.fields| && e.fields[i].column == c) || exists j :: j in JoinColumns(e) && j.name == c
  {
    var columns, n := CreatedColumns(e), |e.fields|;
    assert forall j :: j in JoinColumns(e) ==> j.sqlType == "INTEGER";
    hide JoinColumns, TypeIn;
    forall i | 0 <= i < n ensures TypeIn(columns, e.fields[i].column) == Some(CreatedType(e.fields[i])) {
      TypeInAt(columns, i);
    }
    if j :| j in JoinColumns(e) && j.name == c {
      var k :| 0 <= k < |JoinColumns(e)| && JoinColumns(e)[k] == j;
      assert columns[n + k] == j;
      TypeInAt(columns, n + k);
      forall i | 0 <= i < n ensures e.fields[i].column != c {
        assert columns[i].name == e.fields[i].column;
      }
    }
    if TypeIn(columns, c).Some? {
      var i := TypeInSome(columns, c);
      assert i >= n ==> columns[i] == JoinColumns(e)[i - n];
    }
  }
}
