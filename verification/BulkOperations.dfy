/** Bulk statements: many rows in one INSERT or one CASE-based UPDATE, in chunks. */
module BulkOperations {
  import opened Options

  datatype Value = Undefined | Null | Known(v: int)

  /** A missing value is bound as NULL. */
  function Bound(v: Value): Value {
    if v.Undefined? then Null else v
  }

  /** SQL equality: NULL equals nothing. */
  predicate Equal(a: Value, b: Value) {
    a.Known? && b.Known? && a == b
  }

  /** WHEN $idParam THEN $valueParam. */
  datatype When = When(idParam: nat, valueParam: nat)

  datatype SetClause = SetClause(column: string, whens: seq<When>)

  /** UPDATE .. SET column = CASE id WHEN .. END, .. WHERE id IN (..). */
  datatype UpdateQuery = UpdateQuery(idColumn: string, sets: seq<SetClause>, inList: seq<nat>, params: seq<Value>)

  datatype Error = NoColumns | WrongLength(row: nat)

  type Row = seq<Value>

  type TableRow = map<string, Value>

  // ------------------------------------------------ row by row updates

  function Assigned(t: TableRow, columns: seq<string>, row: Row): TableRow
    requires |row| == |columns| + 1
  {
    if |columns| == 0 then t
    else
      var n := |columns| - 1;
      Assigned(t, columns[..n], row[..n + 1])[columns[n] := if row[n + 1].Known? then row[n + 1] else Null]
  }

  predicate Shaped(rows: seq<Row>, columns: seq<string>) {
    forall i :: 0 <= i < |rows| ==> |rows[i]| == |columns| + 1
  }

  /** UPDATE .. SET column = value, .. WHERE id = row's id: a missing value is NULL, and a missing id no one's. */
  function UpdateOne(t: TableRow, idColumn: string, columns: seq<string>, row: Row): TableRow
    requires |row| == |columns| + 1
  {
    if idColumn in t && row[0].Known? && t[idColumn] == row[0] then Assigned(t, columns, row) else t
  }

  function UpdateEach(t: TableRow, idColumn: string, columns: seq<string>, rows: seq<Row>): TableRow
    requires Shaped(rows, columns)
  {
    if |rows| == 0 then t
    else UpdateOne(UpdateEach(t, idColumn, columns, rows[..|rows| - 1]), idColumn, columns, rows[|rows| - 1])
  }

  // ---------------------------------------------------- the CASE form

  /** Every placeholder of the query stands for a parameter. */
  predicate InRange(q: UpdateQuery) {
    && (forall i :: 0 <= i < |q.inList| ==> 0 < q.inList[i] <= |q.params|)
    && forall c, i :: 0 <= c < |q.sets| && 0 <= i < |q.sets[c].whens| ==>
      0 < q.sets[c].whens[i].idParam <= |q.params| && 0 < q.sets[c].whens[i].valueParam <= |q.params|
  }

  /** CASE: the value of the first WHEN that equals the id, else NULL. */
  function CaseValue(id: Value, whens: seq<When>, params: seq<Value>): Value
    requires forall i :: 0 <= i < |whens| ==> 0 < whens[i].idParam <= |params| && 0 < whens[i].valueParam <= |params|
  {
    if |whens| == 0 then Null
    else if Equal(id, params[whens[0].idParam - 1]) then params[whens[0].valueParam - 1]
    else CaseValue(id, whens[1..], params)
  }

  /** All SET expressions see the row as it was. */
  function SetAll(t: TableRow, id: Value, q: UpdateQuery, upTo: nat): TableRow
    requires InRange(q) && upTo <= |q.sets|
  {
    if upTo == 0 then t
    else
      var s := q.sets[upTo - 1];
      SetAll(t, id, q, upTo - 1)[s.column := CaseValue(id, s.whens, q.params)]
  }

  function RunUpdate(t: TableRow, q: UpdateQuery): TableRow
    requires InRange(q)
  {
    if q.idColumn in t && exists i :: 0 <= i < |q.inList| && Equal(t[q.idColumn], q.params[q.inList[i] - 1])
    then SetAll(t, t[q.idColumn], q, |q.sets|)
    else t
  }

  /** What buildUpdateChunk emits: r ids, then r values for each column, each placeholder pointing at its own row's value. */
  ghost predicate Encodes(q: UpdateQuery, idColumn: string, columns: seq<string>, rows: seq<Row>)
    requires Shaped(rows, columns)
  {
    && q.idColumn == idColumn && |q.params| == |rows| * (|columns| + 1) && InRange(q)
    && |q.inList| == |rows| && (forall i :: 0 <= i < |rows| ==> q.params[q.inList[i] - 1] == Bound(rows[i][0]))
    && |q.sets| == |columns|
    && forall c :: 0 <= c < |columns| ==> EncodesColumn(q.sets[c], columns[c], c, rows, q.params)
  }

  predicate EncodesColumn(s: SetClause, column: string, c: nat, rows: seq<Row>, params: seq<Value>) {
    && s.column == column && |s.whens| == |rows|
    && forall i :: 0 <= i < |rows| ==>
      && 0 < s.whens[i].idParam <= |params| && 0 < s.whens[i].valueParam <= |params|
      && c + 1 < |rows[i]|
      && params[s.whens[i].idParam - 1] == Bound(rows[i][0])
      && params[s.whens[i].valueParam - 1] == Bound(rows[i][c + 1])
  }

  /** The numbers: the ids first, then the values column by column; every column repeats the ids' placeholders. */
  predicate NumberedByColumn(q: UpdateQuery, rows: nat) {
    && |q.inList| == rows && (forall i :: 0 <= i < rows ==> q.inList[i] == i + 1)
    && forall c :: 0 <= c < |q.sets| ==> NumberedColumn(q.sets[c], rows, ParamsBefore(rows, c))
  }

  /** The parameters in front of a column's values: the ids and the values of the columns before. */
  function ParamsBefore(rows: nat, c: nat): nat {
    if c == 0 then rows else ParamsBefore(rows, c - 1) + rows
  }

  lemma {:induction false} ParamsBeforeIs(rows: nat, c: nat)
    ensures ParamsBefore(rows, c) == rows + c * rows
  {
    if c > 0 {
      ParamsBeforeIs(rows, c - 1);
      assert c * rows == (c - 1) * rows + rows;
    }
  }

  predicate NumberedColumn(s: SetClause, rows: nat, before: nat) {
    |s.whens| == rows && forall i :: 0 <= i < rows ==> s.whens[i] == When(i + 1, before + i + 1)
  }

  /** More parameters do not disturb the placeholders before them. */
  lemma StillEncodes(s: SetClause, column: string, c: nat, rows: seq<Row>, params: seq<Value>, more: seq<Value>)
    requires EncodesColumn(s, column, c, rows, params) && params <= more
    ensures EncodesColumn(s, column, c, rows, more)
  {
  }

  lemma AllStillEncode(sets: seq<SetClause>, columns: seq<string>, c: nat, rows: seq<Row>, params: seq<Value>, more: seq<Value>)
    requires c == |sets| <= |columns| && params <= more
    requires forall k :: 0 <= k < c ==> EncodesColumn(sets[k], columns[k], k, rows, params)
    ensures forall k :: 0 <= k < c ==> EncodesColumn(sets[k], columns[k], k, rows, more)
  {
    forall k | 0 <= k < c ensures EncodesColumn(sets[k], columns[k], k, rows, more) {
      StillEncodes(sets[k], columns[k], k, rows, params, more);
    }
  }

  /** One SET clause, with the values of one column. */
  method BuildSetClause(column: string, c: nat, rows: seq<Row>, idParams: seq<nat>, before: seq<Value>)
    returns (s: SetClause, params: seq<Value>)
    requires forall i :: 0 <= i < |rows| ==> c + 1 < |rows[i]|
    requires |idParams| == |rows| && forall i :: 0 <= i < |rows| ==> 0 < idParams[i] <= |before| && before[idParams[i] - 1] == Bound(rows[i][0])
    ensures before <= params && |params| == |before| + |rows| && EncodesColumn(s, column, c, rows, params)
    ensures (forall i :: 0 <= i < |rows| ==> idParams[i] == i + 1) ==> NumberedColumn(s, |rows|, |before|)
  {
    params := before;
    var whens: seq<When> := [];
    for i := 0 to |rows|
      invariant before <= params && |params| == |before| + i
      invariant EncodesColumn(SetClause(column, whens), column, c, rows[..i], params)
      invariant forall k :: 0 <= k < i ==> whens[k] == When(idParams[k], |before| + k + 1)
    {
      params := params + [Bound(rows[i][c + 1])];
      whens := whens + [When(idParams[i], |params|)];
    }
    assert rows[..|rows|] == rows;
    s := SetClause(column, whens);
  }

  /** The SET clauses, column by column, each with its values behind the parameters so far. */
  method BuildSets(columns: seq<string>, rows: seq<Row>, idParams: seq<nat>, ids: seq<Value>)
    returns (sets: seq<SetClause>, params: seq<Value>)
    requires Shaped(rows, columns) && |idParams| == |ids| == |rows|
    requires forall k :: 0 <= k < |rows| ==> idParams[k] == k + 1 && ids[k] == Bound(rows[k][0])
    ensures ids <= params && |params| == ParamsBefore(|rows|, |columns|) && |sets| == |columns|
    ensures forall k :: 0 <= k < |columns| ==> EncodesColumn(sets[k], columns[k], k, rows, params)
    ensures forall k :: 0 <= k < |columns| ==> NumberedColumn(sets[k], |rows|, ParamsBefore(|rows|, k))
  {
    hide EncodesColumn, NumberedColumn;
    sets, params := [], ids;
    for c := 0 to |columns|
      invariant ids <= params && |params| == ParamsBefore(|rows|, c) && |sets| == c
      invariant forall k :: 0 <= k < c ==> EncodesColumn(sets[k], columns[k], k, rows, params)
      invariant forall k :: 0 <= k < c ==> NumberedColumn(sets[k], |rows|, ParamsBefore(|rows|, k))
    {
      ghost var before := params;
      var s: SetClause;
      s, params := BuildSetClause(columns[c], c, rows, idParams, params);
      AllStillEncode(sets, columns, c, rows, before, params);
      sets := sets + [s];
    }
  }

  method BuildUpdateChunk(idColumn: string, columns: seq<string>, rows: seq<Row>) returns (q: UpdateQuery)
    requires Shaped(rows, columns)
    ensures Encodes(q, idColumn, columns, rows) && NumberedByColumn(q, |rows|)
  {
    hide EncodesColumn, NumberedColumn, Encodes;
    var ids: seq<Value>, idParams: seq<nat> := [], [];
    for i := 0 to |rows|
      invariant |ids| == |idParams| == i
      invariant forall k :: 0 <= k < i ==> idParams[k] == k + 1 && ids[k] == Bound(rows[k][0])
    {
      ids := ids + [Bound(rows[i][0])];
      idParams := idParams + [|ids|];
    }
    var sets, params := BuildSets(columns, rows, idParams, ids);
    q := UpdateQuery(idColumn, sets, idParams, params);
    ParamsBeforeIs(|rows|, |columns|);
    AllEncoded(q, columns, rows);
  }

  lemma AllEncoded(q: UpdateQuery, columns: seq<string>, rows: seq<Row>)
    requires Shaped(rows, columns) && |q.sets| == |columns| && |q.inList| == |rows| <= |q.params|
    requires |q.params| == |rows| + |columns| * |rows|
    requires forall k :: 0 <= k < |rows| ==> q.inList[k] == k + 1 && q.params[k] == Bound(rows[k][0])
    requires forall k :: 0 <= k < |columns| ==> EncodesColumn(q.sets[k], columns[k], k, rows, q.params)
    ensures Encodes(q, q.idColumn, columns, rows)
  {
    assert |rows| * (|columns| + 1) == |rows| + |columns| * |rows|;
  }

  // ------------------------------------------- in the order of the text

  function WhenOrder(whens: seq<When>): seq<nat> {
    if |whens| == 0 then []
    else
      var n := |whens| - 1;
      WhenOrder(whens[..n]) + [whens[n].idParam, whens[n].valueParam]
  }

  function SetOrder(sets: seq<SetClause>): seq<nat> {
    if |sets| == 0 then []
    else
      var n := |sets| - 1;
      SetOrder(sets[..n]) + WhenOrder(sets[n].whens)
  }

  /** The placeholders' numbers as they stand in the text. */
  function TextOrder(q: UpdateQuery): seq<nat> {
    SetOrder(q.sets) + q.inList
  }

  /** The k-th placeholder is the k-th parameter, as drivers need that bind `?` by position. */
  predicate Positional(numbers: seq<nat>, count: nat) {
    |numbers| == count && forall k :: 0 <= k < count ==> numbers[k] == k + 1
  }

  lemma {:induction false} WhenOrderLength(whens: seq<When>)
    ensures |WhenOrder(whens)| == 2 * |whens|
  {
    if |whens| > 0 { WhenOrderLength(whens[..|whens| - 1]); }
  }

  lemma {:induction false} SetOrderLength(sets: seq<SetClause>, rows: nat)
    requires forall c :: 0 <= c < |sets| ==> |sets[c].whens| == rows
    ensures |SetOrder(sets)| == 2 * (|sets| * rows)
  {
    if |sets| > 0 {
      var n := |sets| - 1;
      SetOrderLength(sets[..n], rows);
      WhenOrderLength(sets[n].whens);
      assert |sets| * rows == n * rows + rows;
    }
  }

  /** The text has one placeholder more than there are parameters for every row and column, because each column repeats the ids;
      so bound by position the update is never the one that was built. */
  lemma UpdateNeverPositional(q: UpdateQuery, rows: nat)
    requires NumberedByColumn(q, rows) && |q.params| == rows * (|q.sets| + 1)
    ensures |TextOrder(q)| == |q.params| + |q.sets| * rows
    ensures Positional(TextOrder(q), |q.params|) <==> rows == 0 || (|q.sets| == 0)
  {
    SetOrderLength(q.sets, rows);
    assert rows * (|q.sets| + 1) == |q.sets| * rows + rows;
    if rows > 0 && |q.sets| > 0 {
      Times(|q.sets|, rows);
    } else if rows == 0 {
      assert |q.sets| * rows == 0;
    } else {
      assert SetOrder(q.sets) == [] && |q.sets| * rows == 0;
    }
  }

  lemma Times(a: nat, b: nat)
    requires a > 0 && b > 0
    ensures a * b > 0
  {
  }

  // ------------------------------------------------------------ insert

  /** INSERT INTO .. VALUES ($1, $2, ..), (..), ..: the placeholders of each group, and the parameters. */
  datatype InsertQuery = InsertQuery(groups: seq<seq<nat>>, params: seq<Value>)

  /** Every placeholder stands for the value in its place, and they count from one without a gap. */
  predicate InsertsRows(q: InsertQuery, rows: seq<Row>, width: nat) {
    && |q.groups| == |rows| && |q.params| == |rows| * width
    && forall i :: 0 <= i < |rows| ==> InsertsRow(q.groups[i], rows[i], i * width, q.params)
  }

  predicate InsertsRow(group: seq<nat>, row: Row, before: nat, params: seq<Value>) {
    && |group| == |row| && before + |row| <= |params|
    && forall j :: 0 <= j < |row| ==> group[j] == before + j + 1 && params[group[j] - 1] == Bound(row[j])
  }

  method BuildInsertChunk(rows: seq<Row>, width: nat) returns (q: InsertQuery)
    requires forall i :: 0 <= i < |rows| ==> |rows[i]| == width
    ensures InsertsRows(q, rows, width)
  {
    var params: seq<Value>, groups: seq<seq<nat>> := [], [];
    for i := 0 to |rows|
      invariant |groups| == i && |params| == i * width
      invariant forall k :: 0 <= k < i ==> InsertsRow(groups[k], rows[k], k * width, params)
    {
      ghost var before := params;
      var placeholders: seq<nat> := [];
      for j := 0 to width
        invariant before <= params && |params| == |before| + j && |placeholders| == j
        invariant forall k :: 0 <= k < j ==>
          placeholders[k] == |before| + k + 1 && params[placeholders[k] - 1] == Bound(rows[i][k])
      {
        params := params + [Bound(rows[i][j])];
        placeholders := placeholders + [|params|];
      }
      forall k | 0 <= k < i ensures InsertsRow(groups[k], rows[k], k * width, params) {
        StillInserts(groups[k], rows[k], k * width, before, params);
      }
      groups := groups + [placeholders];
    }
    q := InsertQuery(groups, params);
  }

  lemma StillInserts(group: seq<nat>, row: Row, before: nat, params: seq<Value>, more: seq<Value>)
    requires InsertsRow(group, row, before, params) && params <= more
    ensures InsertsRow(group, row, before, more)
  {
  }

  function GroupOrder(groups: seq<seq<nat>>): seq<nat> {
    if |groups| == 0 then []
    else
      var n := |groups| - 1;
      GroupOrder(groups[..n]) + groups[n]
  }

  /** An INSERT can be bound by position. */
  lemma {:induction false} InsertPositional(q: InsertQuery, rows: seq<Row>, width: nat)
    requires (forall i :: 0 <= i < |rows| ==> |rows[i]| == width) && InsertsRows(q, rows, width)
    ensures Positional(GroupOrder(q.groups), |q.params|)
  {
    GroupsCount(q.groups, rows, width, q.params);
  }

  lemma {:induction false} GroupsCount(groups: seq<seq<nat>>, rows: seq<Row>, width: nat, params: seq<Value>)
    requires |groups| == |rows| && forall i :: 0 <= i < |rows| ==> |rows[i]| == width && InsertsRow(groups[i], rows[i], i * width, params)
    ensures Positional(GroupOrder(groups), |rows| * width)
  {
    if |groups| > 0 {
      var n := |groups| - 1;
      GroupsCount(groups[..n], rows[..n], width, params);
      assert InsertsRow(groups[n], rows[n], n * width, params);
      assert |rows| * width == n * width + width;
    }
  }
}
