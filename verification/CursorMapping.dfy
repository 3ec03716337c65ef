/** Which entity mappings let a cursor be read off the entity, and what a page is after a cursor that was not. */
module CursorMapping {
  import opened Options
  import opened RelayCursor
  import opened RelaySeek
  import opened RelayPages
  import opened RelayRuns
  import opened SeekReading
  import opened ThreeValued

  /** The column of every mapped field. */
  type Mapping = map<string, string>

  /** What the row mapper makes of a table row. */
  function Mapped(mapping: Mapping, cells: map<string, Cell>): map<string, Cell> {
    map f | f in mapping :: CellIn(cells, mapping[f])
  }

  /** The field in which the strategy looks for a sort column: one of its name, else one of its name in camel case. */
  function SortField(mapping: Mapping, column: string): string {
    if column in mapping then column else ToCamelCase(column)
  }

  function IdField(s: Strategy, mapping: Mapping): string {
    if s.idField in mapping then s.idField else s.idColumn
  }

  predicate Holds(mapping: Mapping, field: string, column: string) {
    field in mapping && mapping[field] == column
  }

  /** Every field that is looked at holds the column that is meant. */
  predicate ReadsKey(s: Strategy, mapping: Mapping) {
    && (forall i :: 0 <= i < |s.sortColumns| ==> Holds(mapping, SortField(mapping, s.sortColumns[i].column), s.sortColumns[i].column))
    && (!HasId(s) ==> Holds(mapping, IdField(s, mapping), s.idColumn))
  }

  function CursorRead(s: Strategy, mapping: Mapping, cells: map<string, Cell>): seq<Cell> {
    CursorValues(s, CursorFor(s, Mapped(mapping, cells)))
  }

  lemma SortRead(s: Strategy, mapping: Mapping, cells: map<string, Cell>, i: nat)
    requires i < |s.sortColumns|
    ensures |CursorRead(s, mapping, cells)| == |KeyColumns(s)|
    ensures var c := s.sortColumns[i].column; var f := SortField(mapping, c);
      CursorRead(s, mapping, cells)[i] == if f in mapping then CellIn(cells, mapping[f]) else Null
  {
  }

  lemma IdRead(s: Strategy, mapping: Mapping, cells: map<string, Cell>)
    requires !HasId(s)
    ensures |CursorRead(s, mapping, cells)| == |KeyColumns(s)| == |s.sortColumns| + 1
    ensures var f := IdField(s, mapping);
      CursorRead(s, mapping, cells)[|s.sortColumns|] == if f in mapping then CellIn(cells, mapping[f]) else Null
  {
  }

  /** The cursor of every row's entity is that row's key exactly when the mapping has the fields that the strategy looks at. */
  lemma ReadsExactly(s: Strategy, mapping: Mapping)
    ensures (forall cells :: CursorRead(s, mapping, cells) == KeyOf(KeyColumns(s), cells)) <==> ReadsKey(s, mapping)
  {
    hide CursorRead, SortField, IdField;
    if ReadsKey(s, mapping) {
      forall cells ensures CursorRead(s, mapping, cells) == KeyOf(KeyColumns(s), cells) {
        ReadsRow(s, mapping, cells);
      }
    }
    if forall cells :: CursorRead(s, mapping, cells) == KeyOf(KeyColumns(s), cells) {
      forall i | 0 <= i < |s.sortColumns| ensures Holds(mapping, SortField(mapping, s.sortColumns[i].column), s.sortColumns[i].column) {
        var cells := map[s.sortColumns[i].column := Val(1.0)];
        SortRead(s, mapping, cells, i);
        assert KeyOf(KeyColumns(s), cells)[i] == Val(1.0);
      }
      if !HasId(s) {
        var cells := map[s.idColumn := Val(1.0)];
        IdRead(s, mapping, cells);
        assert KeyOf(KeyColumns(s), cells)[|s.sortColumns|] == Val(1.0);
      }
    }
  }

  lemma ReadsRow(s: Strategy, mapping: Mapping, cells: map<string, Cell>)
    requires ReadsKey(s, mapping)
    ensures CursorRead(s, mapping, cells) == KeyOf(KeyColumns(s), cells)
  {
    hide CursorRead, SortField, IdField;
    var read, key := CursorRead(s, mapping, cells), KeyOf(KeyColumns(s), cells);
    assert |read| == |key| by {
      if HasId(s) { SortRead(s, mapping, cells, 0); } else { IdRead(s, mapping, cells); }
    }
    forall i | 0 <= i < |key| ensures read[i] == key[i] {
      if i < |s.sortColumns| {
        SortRead(s, mapping, cells, i);
      } else {
        IdRead(s, mapping, cells);
      }
    }
  }

  /** Tables whose entities come from such a mapping are the ones that the theorems about runs speak of, where any two rows are told
      apart: as they are by unique ids, without NULL in a key column. */
  lemma MappedIsSound(s: Strategy, mapping: Mapping, table: set<Row>)
    requires NamedKeys(s) && ReadsKey(s, mapping) && forall r :: r in table ==> r.node == Mapped(mapping, r.cells)
    ensures Sound(s, table) <==> forall r, q :: r in table && q in table && r != q ==> Separate(s, r, q)
    ensures (forall r :: r in table ==> NonNull(Key(s, r))) && UniqueIds(s, table) ==> Sound(s, table)
  {
    hide CursorValues, CursorFor, Mapped, ReadsKey, Separate, NonNull, KeyColumns;
    forall r | r in table ensures SoundRow(s, r) {
      ReadsRow(s, mapping, r.cells);
    }
    if (forall r :: r in table ==> NonNull(Key(s, r))) && UniqueIds(s, table) {
      forall r, q | r in table && q in table && r != q ensures Separate(s, r, q) {
        IdsSeparate(s, r, q);
      }
    }
  }

  predicate NonNull(key: seq<Cell>) {
    forall i :: 0 <= i < |key| ==> key[i].Val?
  }

  predicate UniqueIds(s: Strategy, table: set<Row>) {
    forall r, q :: r in table && q in table && r != q ==> CellIn(r.cells, s.idColumn) != CellIn(q.cells, s.idColumn)
  }

  lemma {:induction false} LexTotal(cols: seq<SortColumn>, a: seq<Cell>, b: seq<Cell>)
    requires |a| == |b| == |cols| && NonNull(a) && NonNull(b)
    ensures LexLess(cols, a, b) || a == b || LexLess(cols, b, a)
  {
    if |cols| > 0 {
      LexTotal(cols[1..], a[1..], b[1..]);
      assert a == [a[0]] + a[1..] && b == [b[0]] + b[1..];
    }
  }

  /** The id is one of the key columns. */
  lemma IdAt(s: Strategy) returns (k: nat)
    ensures k < |KeyColumns(s)| && KeyColumns(s)[k].column == s.idColumn
    ensures forall i :: 0 <= i < k ==> KeyColumns(s)[i].column != s.idColumn
  {
    var cols := KeyColumns(s);
    assert exists i :: 0 <= i < |cols| && cols[i].column == s.idColumn by {
      if HasId(s) {
        var c :| c in cols && c.column == s.idColumn;
      } else {
        assert cols[|cols| - 1].column == s.idColumn;
      }
    }
    k := 0;
    while cols[k].column != s.idColumn
      invariant k < |cols| && forall i :: 0 <= i < k ==> cols[i].column != s.idColumn
      invariant exists i :: k <= i < |cols| && cols[i].column == s.idColumn
      decreases |cols| - k
    {
      k := k + 1;
    }
  }

  lemma IdsSeparate(s: Strategy, r: Row, q: Row)
    requires NonNull(Key(s, r)) && NonNull(Key(s, q)) && CellIn(r.cells, s.idColumn) != CellIn(q.cells, s.idColumn)
    ensures Separate(s, r, q)
  {
    var k := IdAt(s);
    assert Key(s, r)[k] != Key(s, q)[k];
    LexTotal(KeyColumns(s), Key(s, r), Key(s, q));
  }

  // ------------------------------------------------- an unread column

  /** After a cursor without a value for column d only rows that an earlier column puts behind it are selected. */
  lemma NullDecidesNothing(s: Strategy, r: Request, row: Row, d: nat)
    requires NamedKeys(s) && CursorOf(r).Some? && |CursorValues(s, CursorOf(r).value)| == |KeyColumns(s)|
    requires d < |KeyColumns(s)| && CursorValues(s, CursorOf(r).value)[d] == Null
    requires Selected(s, r, row)
    ensures exists e :: 0 <= e < d && Sooner(KeyColumns(s)[e].direction,
      if IsBackward(r) then Key(s, row)[e] else CursorValues(s, CursorOf(r).value)[e],
      if IsBackward(r) then CursorValues(s, CursorOf(r).value)[e] else Key(s, row)[e])
  {
    hide Selected, LexLess, KeyColumns, CursorValues;
    var cols, at, key := KeyColumns(s), CursorValues(s, CursorOf(r).value), Key(s, row);
    SelectedMeans(s, r, row);
    var a, b := if IsBackward(r) then key else at, if IsBackward(r) then at else key;
    LexLessIsDecided(cols, a, b);
    var e :| 0 <= e < |cols| && DecidedAt(cols, a, b, e);
    assert !SameValue(a[d], b[d]) && !Sooner(cols[d].direction, a[d], b[d]);
  }

  /** If the first sort column is mapped to a field of another name, no row follows any cursor: the page after the first is empty. */
  lemma UnreadColumnEndsRun(s: Strategy, mapping: Mapping, cells: map<string, Cell>, r: Request, row: Row)
    requires NamedKeys(s) && |s.sortColumns| > 0
    requires SortField(mapping, s.sortColumns[0].column) !in mapping
    requires CursorOf(r).Some? && CursorOf(r).value == CursorFor(s, Mapped(mapping, cells))
    ensures !Selected(s, r, row)
  {
    SortRead(s, mapping, cells, 0);
    hide Selected, Mapped, CursorFor, SortField, Sooner;
    if Selected(s, r, row) {
      NullDecidesNothing(s, r, row, 0);
    }
  }

  /** Such a mapping: the column, written without underscores, is held by a field of another name. */
  lemma AnotherName(mapping: Mapping, field: string, column: string)
    requires mapping == map["id" := "id", field := column] && field != column && column != "id" && '_' !in column
    ensures SortField(mapping, column) !in mapping
  {
    CamelCaseOfOneWord(column);
  }

  lemma {:induction false} CamelCaseOfOneWord(column: string)
    requires '_' !in column
    ensures ToCamelCase(column) == column
  {
    if |column| > 0 { CamelCaseOfOneWord(column[1..]); }
  }

  /** The usual column name of a field: every capital becomes an underscore and its small letter. */
  function SnakeCase(field: string): string {
    if |field| == 0 then ""
    else (if 'A' <= field[0] <= 'Z' then ['_', field[0] - 'A' + 'a'] else [field[0]]) + SnakeCase(field[1..])
  }

  /** A column named so after a field without underscores is looked for under the field's name. */
  lemma {:induction false} CamelUndoesSnake(field: string)
    requires '_' !in field
    ensures ToCamelCase(SnakeCase(field)) == field
  {
    if |field| > 0 {
      var head, rest := if 'A' <= field[0] <= 'Z' then ['_', field[0] - 'A' + 'a'] else [field[0]], SnakeCase(field[1..]);
      CamelUndoesSnake(field[1..]);
      assert (head + rest)[|head|..] == rest;
      assert field == [field[0]] + field[1..];
    }
  }

  // ------------------------------------------- which mappings page rightly

  /** The fields of all columns up to the id hold the columns that are meant; what is sorted behind a unique id decides nothing. */
  predicate ReadsToId(s: Strategy, mapping: Mapping) {
    && (forall i :: 0 <= i < |s.sortColumns| && BeforeId(s, i) ==>
          Holds(mapping, SortField(mapping, s.sortColumns[i].column), s.sortColumns[i].column))
    && (!HasId(s) ==> Holds(mapping, IdField(s, mapping), s.idColumn))
  }

  predicate BeforeId(s: Strategy, i: nat)
    requires i < |s.sortColumns|
  {
    forall j :: 0 <= j < i ==> s.sortColumns[j].column != s.idColumn
  }

  function RowFrom(mapping: Mapping, cells: map<string, Cell>): Row {
    Row(cells, Mapped(mapping, cells))
  }

  /** Row b is selected after the cursor of row a. */
  predicate Follows(s: Strategy, mapping: Mapping, a: map<string, Cell>, b: map<string, Cell>) {
    Selected(s, Forward(1, Some(CursorFor(s, Mapped(mapping, a)))), RowFrom(mapping, b))
  }

  predicate DifferentIds(s: Strategy, a: map<string, Cell>, b: map<string, Cell>) {
    CellIn(a, s.idColumn).Val? && CellIn(b, s.idColumn).Val? && CellIn(a, s.idColumn) != CellIn(b, s.idColumn)
  }

  /** Of rows with other ids exactly the later ones are selected after a row. */
  ghost predicate PagesRightly(s: Strategy, mapping: Mapping) {
    forall a, b :: DifferentIds(s, a, b) ==>
      (Follows(s, mapping, a, b) <==> LexLess(KeyColumns(s), KeyOf(KeyColumns(s), a), KeyOf(KeyColumns(s), b)))
  }

  lemma FollowsMeans(s: Strategy, mapping: Mapping, a: map<string, Cell>, b: map<string, Cell>)
    requires NamedKeys(s)
    ensures |CursorRead(s, mapping, a)| == |KeyColumns(s)|
    ensures Follows(s, mapping, a, b) <==> LexLess(KeyColumns(s), CursorRead(s, mapping, a), KeyOf(KeyColumns(s), b))
  {
    assert |CursorRead(s, mapping, a)| == |KeyColumns(s)|;
    hide LexLess, Selected, KeyColumns, CursorFor, Mapped, CursorValues;
    var r := Forward(1, Some(CursorFor(s, Mapped(mapping, a))));
    SelectedMeans(s, r, RowFrom(mapping, b));
  }

  /** Up to column k nothing else than the first k + 1 values counts, if these already differ at k. */
  lemma {:induction false} LexDecided(cols: seq<SortColumn>, u: seq<Cell>, v: seq<Cell>, b: seq<Cell>, k: nat)
    requires |u| == |v| == |b| == |cols| && k < |cols|
    requires u[..k + 1] == v[..k + 1] && !SameValue(u[k], b[k])
    ensures LexLess(cols, u, b) <==> LexLess(cols, v, b)
  {
    assert u[0] == u[..k + 1][0] && v[0] == v[..k + 1][0];
    if k > 0 {
      assert u[1..][..k] == u[..k + 1][1..] && v[1..][..k] == v[..k + 1][1..];
      assert u[k] == u[1..][k - 1];
      LexDecided(cols[1..], u[1..], v[1..], b[1..], k - 1);
    }
  }

  /** Rows that agree before column c but not there. */
  function Probe(s: Strategy, c: string, v: real, id: real): (cells: map<string, Cell>)
    ensures CellIn(cells, c) == Val(v)
    ensures s.idColumn != c ==> CellIn(cells, s.idColumn) == Val(id)
    ensures forall d :: d != c && d != s.idColumn ==> CellIn(cells, d) in {Val(5.0), Null}
    ensures forall i :: 0 <= i < |KeyColumns(s)| && KeyColumns(s)[i].column != c && KeyColumns(s)[i].column != s.idColumn ==>
      CellIn(cells, KeyColumns(s)[i].column) == Val(5.0)
  {
    (map i | 0 <= i < |KeyColumns(s)| :: KeyColumns(s)[i].column := Val(5.0))[s.idColumn := Val(id)][c := Val(v)]
  }

  function ColumnOf(mapping: Mapping, field: string): Option<string> {
    if field in mapping then Some(mapping[field]) else None
  }

  /** What the i-th value of every cursor is read off; nothing if no field is found. */
  ghost predicate ReadOff(s: Strategy, mapping: Mapping, i: nat, column: Option<string>) {
    forall cells :: ReadsCell(s, mapping, i, column, cells)
  }

  predicate ReadsCell(s: Strategy, mapping: Mapping, i: nat, column: Option<string>, cells: map<string, Cell>) {
    var read := CursorRead(s, mapping, cells);
    |read| == |KeyColumns(s)| && i < |read| && read[i] == if column.Some? then CellIn(cells, column.value) else Null
  }

  lemma SortReadOff(s: Strategy, mapping: Mapping, i: nat)
    requires i < |s.sortColumns|
    ensures ReadOff(s, mapping, i, ColumnOf(mapping, SortField(mapping, s.sortColumns[i].column)))
  {
    hide CursorRead, SortField;
    var column := ColumnOf(mapping, SortField(mapping, s.sortColumns[i].column));
    forall cells ensures ReadsCell(s, mapping, i, column, cells) {
      SortRead(s, mapping, cells, i);
    }
  }

  lemma IdReadOff(s: Strategy, mapping: Mapping)
    requires !HasId(s)
    ensures ReadOff(s, mapping, |s.sortColumns|, ColumnOf(mapping, IdField(s, mapping)))
  {
    hide CursorRead, IdField;
    var column, n := ColumnOf(mapping, IdField(s, mapping)), |s.sortColumns|;
    forall cells ensures ReadsCell(s, mapping, n, column, cells) {
      IdRead(s, mapping, cells);
    }
  }

  /** The first column that is read off another one, or off none, sends a row to the wrong side of another. */
  lemma Misread(s: Strategy, mapping: Mapping, i: nat, column: Option<string>)
    requires NamedKeys(s) && i < |KeyColumns(s)| && ReadOff(s, mapping, i, column) && column != Some(KeyColumns(s)[i].column)
    requires forall j :: 0 <= j < i ==> ReadOff(s, mapping, j, Some(KeyColumns(s)[j].column))
    requires forall j :: 0 <= j < i ==> KeyColumns(s)[j].column !in {KeyColumns(s)[i].column, s.idColumn}
    ensures !PagesRightly(s, mapping)
  {
    hide CursorRead, KeyColumns, Probe, LexLess, Follows;
    var cols, c := KeyColumns(s), KeyColumns(s)[i].column;
    var asc := cols[i].direction == Asc;
    var a, b := Probe(s, c, if asc then 1.0 else 9.0, 5.0), Probe(s, c, if asc then 2.0 else 8.0, 6.0);
    var u, v, w := CursorRead(s, mapping, a), KeyOf(cols, a), KeyOf(cols, b);
    FollowsMeans(s, mapping, a, b);
    forall j | 0 <= j < i ensures u[j] == v[j] == w[j] == Val(5.0) {
      assert ReadsCell(s, mapping, j, Some(cols[j].column), a);
    }
    assert ReadsCell(s, mapping, i, column, a);
    assert u[i] in {Val(5.0), Null};
    LexLessIsDecided(cols, v, w);
    assert DecidedAt(cols, v, w, i);
    LexLessIsDecided(cols, u, w);
    forall d | 0 <= d < |cols| ensures !DecidedAt(cols, u, w, d) {
      assert !SameValue(u[i], w[i]) && !Sooner(cols[i].direction, u[i], w[i]);
    }
    assert DifferentIds(s, a, b);
  }

  /** After every row exactly the later of all rows with other ids are selected if and only if the fields of all columns up to the id
      hold the columns that are meant. */
  lemma PagesExactly(s: Strategy, mapping: Mapping)
    requires NamedKeys(s)
    ensures PagesRightly(s, mapping) <==> ReadsToId(s, mapping)
  {
    hide SortField, IdField, ReadOff, Follows, LexLess, DifferentIds;
    if ReadsToId(s, mapping) {
      forall a, b | DifferentIds(s, a, b)
        ensures Follows(s, mapping, a, b) <==> LexLess(KeyColumns(s), KeyOf(KeyColumns(s), a), KeyOf(KeyColumns(s), b))
      {
        PagesToId(s, mapping, a, b);
      }
    } else if i :| 0 <= i < |s.sortColumns| && BeforeId(s, i) && !SortHolds(s, mapping, i) {
      var least := LeastMisread(s, mapping, i);
      SortMisread(s, mapping, least);
    } else {
      forall j | 0 <= j < |s.sortColumns| ensures ReadOff(s, mapping, j, Some(s.sortColumns[j].column)) {
        assert SortHolds(s, mapping, j);
        SortReadOff(s, mapping, j);
      }
      IdReadOff(s, mapping);
      Misread(s, mapping, |s.sortColumns|, ColumnOf(mapping, IdField(s, mapping)));
    }
  }

  predicate SortHolds(s: Strategy, mapping: Mapping, i: nat)
    requires i < |s.sortColumns|
  {
    Holds(mapping, SortField(mapping, s.sortColumns[i].column), s.sortColumns[i].column)
  }

  lemma {:induction false} LeastMisread(s: Strategy, mapping: Mapping, i: nat) returns (least: nat)
    requires i < |s.sortColumns| && BeforeId(s, i) && !SortHolds(s, mapping, i)
    ensures least < |s.sortColumns| && BeforeId(s, least) && !SortHolds(s, mapping, least)
    ensures forall j :: 0 <= j < least ==> SortHolds(s, mapping, j)
  {
    if j :| 0 <= j < i && !SortHolds(s, mapping, j) {
      least := LeastMisread(s, mapping, j);
    } else {
      least := i;
    }
  }

  lemma SortMisread(s: Strategy, mapping: Mapping, i: nat)
    requires NamedKeys(s) && i < |s.sortColumns| && BeforeId(s, i) && !SortHolds(s, mapping, i)
    requires forall j :: 0 <= j < i ==> SortHolds(s, mapping, j)
    ensures !PagesRightly(s, mapping)
  {
    hide SortField, ReadOff, PagesRightly;
    SortReadOff(s, mapping, i);
    forall j | 0 <= j < i
      ensures ReadOff(s, mapping, j, Some(KeyColumns(s)[j].column))
      ensures KeyColumns(s)[j].column !in {KeyColumns(s)[i].column, s.idColumn}
    {
      assert SortHolds(s, mapping, j) && KeyColumns(s)[j] == s.sortColumns[j];
      SortReadOff(s, mapping, j);
    }
    Misread(s, mapping, i, ColumnOf(mapping, SortField(mapping, s.sortColumns[i].column)));
  }

  lemma PagesToId(s: Strategy, mapping: Mapping, a: map<string, Cell>, b: map<string, Cell>)
    requires NamedKeys(s) && ReadsToId(s, mapping) && DifferentIds(s, a, b)
    ensures Follows(s, mapping, a, b) <==> LexLess(KeyColumns(s), KeyOf(KeyColumns(s), a), KeyOf(KeyColumns(s), b))
  {
    hide CursorRead, SortField, IdField, Follows, LexLess;
    var cols := KeyColumns(s);
    var k := IdAt(s);
    var u, v := CursorRead(s, mapping, a), KeyOf(cols, a);
    FollowsMeans(s, mapping, a, b);
    forall i | 0 <= i <= k ensures u[i] == v[i] {
      if i < |s.sortColumns| {
        assert BeforeId(s, i);
        SortRead(s, mapping, a, i);
      } else {
        IdRead(s, mapping, a);
      }
    }
    LexDecided(cols, u, v, KeyOf(cols, b), k);
  }
}
