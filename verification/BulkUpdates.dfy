/** The chunked CASE updates mean the same as updating row by row, and exactly when. */
module BulkUpdates {
  import opened Options
  import opened BulkOperations

  /** The first and the last row with an id; the number of rows where there is none. */
  function First(rows: seq<Row>, id: Value): (i: nat)
    requires forall k :: 0 <= k < |rows| ==> |rows[k]| > 0
    ensures i <= |rows| && (i < |rows| ==> Equal(id, Bound(rows[i][0])))
    ensures forall j :: 0 <= j < i ==> !Equal(id, Bound(rows[j][0]))
  {
    if |rows| == 0 || Equal(id, Bound(rows[0][0])) then 0 else 1 + First(rows[1..], id)
  }

  function Last(rows: seq<Row>, id: Value): (i: nat)
    requires forall k :: 0 <= k < |rows| ==> |rows[k]| > 0
    ensures i <= |rows| && (i < |rows| ==> Equal(id, Bound(rows[i][0])))
    ensures i < |rows| ==> forall j :: i < j < |rows| ==> !Equal(id, Bound(rows[j][0]))
    ensures i == |rows| ==> forall j :: 0 <= j < |rows| ==> !Equal(id, Bound(rows[j][0]))
  {
    if |rows| == 0 then 0
    else
      var n := |rows| - 1;
      if Equal(id, Bound(rows[n][0])) then n
      else
        var i := Last(rows[..n], id);
        if i == n then n + 1 else i
  }

  // ------------------------------------------------------ assignment

  /** The value the columns' assignments leave in a column. */
  function ColumnValue(columns: seq<string>, row: Row, c: string): Value
    requires |row| == |columns| + 1 && c in columns
  {
    var n := |columns| - 1;
    if columns[n] == c then Bound(row[n + 1])
    else
      assert columns == columns[..n] + [columns[n]];
      ColumnValue(columns[..n], row[..n + 1], c)
  }

  lemma {:induction false} AssignedAt(t: TableRow, columns: seq<string>, row: Row, c: string)
    requires |row| == |columns| + 1
    ensures c in Assigned(t, columns, row) <==> c in columns || c in t
    ensures c in columns ==> c in Assigned(t, columns, row) && Assigned(t, columns, row)[c] == ColumnValue(columns, row, c)
    ensures c !in columns && c in t ==> c in Assigned(t, columns, row) && Assigned(t, columns, row)[c] == t[c]
  {
    if |columns| > 0 {
      var n := |columns| - 1;
      assert columns == columns[..n] + [columns[n]];
      AssignedAt(t, columns[..n], row[..n + 1], c);
    }
  }

  /** A second assignment of the same columns leaves nothing of the first. */
  lemma AssignedTwice(t: TableRow, columns: seq<string>, row: Row, other: Row)
    requires |row| == |other| == |columns| + 1
    ensures Assigned(Assigned(t, columns, row), columns, other) == Assigned(t, columns, other)
  {
    var once, twice := Assigned(t, columns, other), Assigned(Assigned(t, columns, row), columns, other);
    forall c ensures c in once <==> c in twice
      ensures c in once ==> once[c] == twice[c]
    {
      AssignedAt(t, columns, row, c);
      AssignedAt(t, columns, other, c);
      AssignedAt(Assigned(t, columns, row), columns, other, c);
    }
  }

  /** Row by row, the last row with the id prevails. */
  lemma {:induction false} RowByRowTakesLast(t: TableRow, idColumn: string, columns: seq<string>, rows: seq<Row>)
    requires Shaped(rows, columns) && idColumn !in columns
    ensures UpdateEach(t, idColumn, columns, rows) ==
      if idColumn in t && Last(rows, t[idColumn]) < |rows| then Assigned(t, columns, rows[Last(rows, t[idColumn])]) else t
  {
    if |rows| > 0 {
      var n := |rows| - 1;
      RowByRowTakesLast(t, idColumn, columns, rows[..n]);
      if idColumn in t {
        var i := Last(rows[..n], t[idColumn]);
        if i < n {
          AssignedAt(t, columns, rows[i], idColumn);
          AssignedTwice(t, columns, rows[i], rows[n]);
        }
      }
    }
  }

  // -------------------------------------------------------- CASE form

  /** CASE takes the first row with the id. */
  lemma {:induction false} CaseTakesFirst(id: Value, s: SetClause, c: nat, rows: seq<Row>, params: seq<Value>)
    requires EncodesColumn(s, s.column, c, rows, params)
    ensures CaseValue(id, s.whens, params) == if First(rows, id) < |rows| then Bound(rows[First(rows, id)][c + 1]) else Null
    decreases |rows|
  {
    if |rows| > 0 && !Equal(id, Bound(rows[0][0])) {
      CaseTakesFirst(id, SetClause(s.column, s.whens[1..]), c, rows[1..], params);
    }
  }

  lemma {:induction false} SetsAssign(t: TableRow, id: Value, q: UpdateQuery, columns: seq<string>, rows: seq<Row>, upTo: nat)
    requires Shaped(rows, columns) && Encodes(q, q.idColumn, columns, rows) && upTo <= |columns| && First(rows, id) < |rows|
    ensures SetAll(t, id, q, upTo) == Assigned(t, columns[..upTo], rows[First(rows, id)][..upTo + 1])
  {
    if upTo > 0 {
      var row := rows[First(rows, id)];
      SetsAssign(t, id, q, columns, rows, upTo - 1);
      assert EncodesColumn(q.sets[upTo - 1], columns[upTo - 1], upTo - 1, rows, q.params) && InRange(q);
      hide Encodes, EncodesColumn, CaseValue, First, InRange;
      CaseTakesFirst(id, q.sets[upTo - 1], upTo - 1, rows, q.params);
      AssignedNext(t, columns, row, upTo - 1);
    }
  }

  lemma AssignedNext(t: TableRow, columns: seq<string>, row: Row, n: nat)
    requires |row| == |columns| + 1 && n < |columns|
    ensures Assigned(t, columns[..n + 1], row[..n + 2]) == Assigned(t, columns[..n], row[..n + 1])[columns[n] := Bound(row[n + 1])]
  {
    assert columns[..n + 1][..n] == columns[..n] && row[..n + 2][..n + 1] == row[..n + 1];
  }

  /** The CASE update takes, for every table row, the first given row with its id; other rows are untouched. */
  lemma CaseUpdateTakesFirst(t: TableRow, q: UpdateQuery, columns: seq<string>, rows: seq<Row>)
    requires Shaped(rows, columns) && Encodes(q, q.idColumn, columns, rows)
    ensures RunUpdate(t, q) ==
      if q.idColumn in t && First(rows, t[q.idColumn]) < |rows| then Assigned(t, columns, rows[First(rows, t[q.idColumn])]) else t
  {
    if q.idColumn in t {
      var id := t[q.idColumn];
      var k := First(rows, id);
      if k < |rows| {
        assert Equal(id, q.params[q.inList[k] - 1]);
        SetsAssign(t, id, q, columns, rows, |columns|);
        assert columns[..|columns|] == columns && rows[k][..|columns| + 1] == rows[k];
      }
    }
  }

  // ---------------------------------------------------- the two agree

  function Values(row: Row): seq<Value>
    requires |row| > 0
  {
    seq(|row| - 1, i requires 0 <= i < |row| - 1 => Bound(row[i + 1]))
  }

  /** Among the rows with one id, the first and the last carry the same values. */
  predicate AgreesOn(rows: seq<Row>, i: nat)
    requires i < |rows| && forall k :: 0 <= k < |rows| ==> |rows[k]| > 0
  {
    var id := Bound(rows[i][0]);
    id.Known? ==> Values(rows[First(rows, id)]) == Values(rows[Last(rows, id)])
  }

  predicate DistinctIds(rows: seq<Row>)
    requires forall k :: 0 <= k < |rows| ==> |rows[k]| > 0
  {
    forall i, j :: 0 <= i < j < |rows| ==> !Equal(Bound(rows[i][0]), Bound(rows[j][0]))
  }

  lemma {:induction false} SameValuesAssign(t: TableRow, columns: seq<string>, row: Row, other: Row)
    requires |row| == |other| == |columns| + 1 && forall k :: 0 < k <= |columns| ==> Bound(row[k]) == Bound(other[k])
    ensures Assigned(t, columns, row) == Assigned(t, columns, other)
  {
    if |columns| > 0 {
      var n := |columns| - 1;
      SameValuesAssign(t, columns[..n], row[..n + 1], other[..n + 1]);
    }
  }

  predicate DistinctColumns(columns: seq<string>) {
    forall i, j :: 0 <= i < j < |columns| ==> columns[i] != columns[j]
  }

  lemma {:induction false} ColumnValueAt(columns: seq<string>, row: Row, c: nat)
    requires |row| == |columns| + 1 && c < |columns| && DistinctColumns(columns)
    ensures ColumnValue(columns, row, columns[c]) == Bound(row[c + 1])
  {
    var n := |columns| - 1;
    if c < n {
      assert columns[c] != columns[n];
      ColumnValueAt(columns[..n], row[..n + 1], c);
    }
  }

  /** One CASE update equals the updates row by row on every table exactly when equal ids do not disagree. */
  lemma ChunkEqualsRowByRow(q: UpdateQuery, columns: seq<string>, rows: seq<Row>)
    requires Shaped(rows, columns) && Encodes(q, q.idColumn, columns, rows)
    requires q.idColumn !in columns && DistinctColumns(columns)
    ensures (forall t :: RunUpdate(t, q) == UpdateEach(t, q.idColumn, columns, rows))
      <==> forall i :: 0 <= i < |rows| ==> AgreesOn(rows, i)
  {
    assert InRange(q);
    hide Encodes, Equal, RunUpdate, UpdateEach, AgreesOn, InRange;
    if forall i :: 0 <= i < |rows| ==> AgreesOn(rows, i) {
      forall t ensures RunUpdate(t, q) == UpdateEach(t, q.idColumn, columns, rows) {
        AgreeingRow(t, q, columns, rows);
      }
    }
    if forall t :: RunUpdate(t, q) == UpdateEach(t, q.idColumn, columns, rows) {
      forall i | 0 <= i < |rows| ensures AgreesOn(rows, i) {
        assert RunUpdate(map[q.idColumn := Bound(rows[i][0])], q) == UpdateEach(map[q.idColumn := Bound(rows[i][0])], q.idColumn, columns, rows);
        Disagreement(q, columns, rows, i);
      }
    }
  }

  lemma AgreeingRow(t: TableRow, q: UpdateQuery, columns: seq<string>, rows: seq<Row>)
    requires Shaped(rows, columns) && Encodes(q, q.idColumn, columns, rows) && q.idColumn !in columns
    requires forall i :: 0 <= i < |rows| ==> AgreesOn(rows, i)
    ensures RunUpdate(t, q) == UpdateEach(t, q.idColumn, columns, rows)
  {
    hide Encodes, RunUpdate, UpdateEach;
    CaseUpdateTakesFirst(t, q, columns, rows);
    RowByRowTakesLast(t, q.idColumn, columns, rows);
    if q.idColumn in t {
      var id := t[q.idColumn];
      var i, j := First(rows, id), Last(rows, id);
      if i < |rows| && j < |rows| {
        assert AgreesOn(rows, i) && Bound(rows[i][0]) == id;
        forall k | 0 < k <= |columns| ensures Bound(rows[i][k]) == Bound(rows[j][k]) {
          assert Values(rows[i])[k - 1] == Values(rows[j])[k - 1];
        }
        SameValuesAssign(t, columns, rows[i], rows[j]);
      }
    }
  }

  /** The table row with just this id tells first and last apart. */
  lemma Disagreement(q: UpdateQuery, columns: seq<string>, rows: seq<Row>, i: nat)
    requires Shaped(rows, columns) && Encodes(q, q.idColumn, columns, rows)
    requires q.idColumn !in columns && DistinctColumns(columns) && i < |rows|
    requires var t := map[q.idColumn := Bound(rows[i][0])]; RunUpdate(t, q) == UpdateEach(t, q.idColumn, columns, rows)
    ensures AgreesOn(rows, i)
  {
    hide Encodes, RunUpdate, UpdateEach;
    var id := Bound(rows[i][0]);
    if id.Known? {
      var t: TableRow := map[q.idColumn := id];
      CaseUpdateTakesFirst(t, q, columns, rows);
      RowByRowTakesLast(t, q.idColumn, columns, rows);
      var first, last := rows[First(rows, id)], rows[Last(rows, id)];
      forall c | 0 <= c < |columns| ensures Values(first)[c] == Values(last)[c] {
        AssignedAt(t, columns, first, columns[c]);
        AssignedAt(t, columns, last, columns[c]);
        ColumnValueAt(columns, first, c);
        ColumnValueAt(columns, last, c);
      }
      assert Values(first) == Values(last);
    }
  }

  // ------------------------------------------------------------ chunks

  function Flat(chunks: seq<seq<Row>>): seq<Row> {
    if |chunks| == 0 then [] else Flat(chunks[..|chunks| - 1]) + chunks[|chunks| - 1]
  }

  /** The chunks follow each other without gap, none empty, none too long. */
  method Chunk(rows: seq<Row>, size: nat) returns (chunks: seq<seq<Row>>)
    requires size >= 1 && |rows| > 0
    ensures Flat(chunks) == rows && forall k :: 0 <= k < |chunks| ==> 0 < |chunks[k]| <= size
  {
    if |rows| <= size {
      assert [rows][..0] == [];
      return [rows];
    }
    chunks := [];
    var i := 0;
    while i < |rows|
      invariant Flat(chunks) == rows[..if i <= |rows| then i else |rows|]
      invariant forall k :: 0 <= k < |chunks| ==> 0 < |chunks[k]| <= size
    {
      var end := if i + size <= |rows| then i + size else |rows|;
      ghost var before := chunks;
      chunks := chunks + [rows[i..end]];
      assert chunks[..|before|] == before;
      assert rows[..end] == rows[..i] + rows[i..end];
      i := i + size;
    }
    assert rows[..|rows|] == rows;
  }

  /** The queries of the chunks, one after the other. */
  ghost predicate EncodesAll(queries: seq<UpdateQuery>, idColumn: string, columns: seq<string>, chunks: seq<seq<Row>>) {
    |queries| == |chunks| && forall k :: 0 <= k < |chunks| ==>
      Shaped(chunks[k], columns) && queries[k].idColumn == idColumn && Encodes(queries[k], idColumn, columns, chunks[k])
  }

  function RunAll(t: TableRow, queries: seq<UpdateQuery>): TableRow
    requires forall k :: 0 <= k < |queries| ==> InRange(queries[k])
  {
    if |queries| == 0 then t else RunUpdate(RunAll(t, queries[..|queries| - 1]), queries[|queries| - 1])
  }

  method BuildBulkUpdate(idColumn: string, columns: seq<string>, rows: seq<Row>, chunkSize: nat)
    returns (r: Result<seq<UpdateQuery>, Error>, ghost chunks: seq<seq<Row>>)
    requires chunkSize >= 1
    ensures |rows| == 0 ==> r == Ok([])
    ensures |rows| > 0 && |columns| == 0 ==> r == Err(NoColumns)
    ensures r.Err? && r.error.WrongLength? ==> r.error.row < |rows| && |rows[r.error.row]| != |columns| + 1
    ensures r.Ok? <==> |rows| == 0 || (|columns| > 0 && Shaped(rows, columns))
    ensures r.Ok? ==> Flat(chunks) == rows && EncodesAll(r.value, idColumn, columns, chunks)
    ensures r.Ok? ==> forall k :: 0 <= k < |chunks| ==> 0 < |chunks[k]| <= chunkSize
  {
    chunks := [];
    if |rows| == 0 {
      return Ok([]), [];
    }
    if |columns| == 0 {
      return Err(NoColumns), [];
    }
    for i := 0 to |rows|
      invariant forall k :: 0 <= k < i ==> |rows[k]| == |columns| + 1
    {
      if |rows[i]| != |columns| + 1 {
        return Err(WrongLength(i)), [];
      }
    }
    var parts := Chunk(rows, chunkSize);
    ShapedParts(parts, columns);
    var queries: seq<UpdateQuery> := [];
    for k := 0 to |parts|
      invariant |queries| == k
      invariant forall j :: 0 <= j < k ==> queries[j].idColumn == idColumn && Encodes(queries[j], idColumn, columns, parts[j])
    {
      var q := BuildUpdateChunk(idColumn, columns, parts[k]);
      queries := queries + [q];
    }
    r, chunks := Ok(queries), parts;
  }

  lemma {:induction false} ShapedParts(chunks: seq<seq<Row>>, columns: seq<string>)
    requires Shaped(Flat(chunks), columns)
    ensures forall k :: 0 <= k < |chunks| ==> Shaped(chunks[k], columns)
  {
    if |chunks| > 0 {
      var n := |chunks| - 1;
      var before, last := Flat(chunks[..n]), chunks[n];
      assert forall i :: 0 <= i < |before| ==> Flat(chunks)[i] == before[i];
      forall i | 0 <= i < |last| ensures |last[i]| == |columns| + 1 {
        assert Flat(chunks)[|before| + i] == last[i];
      }
      ShapedParts(chunks[..n], columns);
      forall k | 0 <= k < |chunks| ensures Shaped(chunks[k], columns) {
        if k < n { assert chunks[k] == chunks[..n][k]; }
      }
    }
  }

  lemma {:induction false} UpdateEachConcat(t: TableRow, idColumn: string, columns: seq<string>, a: seq<Row>, b: seq<Row>)
    requires Shaped(a, columns) && Shaped(b, columns)
    ensures UpdateEach(t, idColumn, columns, a + b) == UpdateEach(UpdateEach(t, idColumn, columns, a), idColumn, columns, b)
  {
    if |b| == 0 {
      assert a + b == a;
    } else {
      var n := |b| - 1;
      UpdateEachConcat(t, idColumn, columns, a, b[..n]);
      assert (a + b)[..|a + b| - 1] == a + b[..n];
    }
  }

  predicate NoEmptyRow(chunks: seq<seq<Row>>) {
    forall k, i :: 0 <= k < |chunks| && 0 <= i < |chunks[k]| ==> |chunks[k][i]| > 0
  }

  /** The last chunk with an id; their number where there is none. */
  function LastChunk(chunks: seq<seq<Row>>, id: Value): (k: nat)
    requires NoEmptyRow(chunks)
    ensures k <= |chunks| && (k < |chunks| ==> First(chunks[k], id) < |chunks[k]|)
    ensures forall j :: k < j < |chunks| ==> First(chunks[j], id) == |chunks[j]|
    ensures k == |chunks| ==> forall j :: 0 <= j < |chunks| ==> First(chunks[j], id) == |chunks[j]|
  {
    if |chunks| == 0 then 0
    else
      var n := |chunks| - 1;
      if First(chunks[n], id) < |chunks[n]| then n
      else
        var k := LastChunk(chunks[..n], id);
        if k == n then n + 1 else k
  }

  ghost predicate AllShaped(chunks: seq<seq<Row>>, columns: seq<string>) {
    forall k :: 0 <= k < |chunks| ==> Shaped(chunks[k], columns)
  }

  lemma EncodesShaped(queries: seq<UpdateQuery>, idColumn: string, columns: seq<string>, chunks: seq<seq<Row>>)
    requires EncodesAll(queries, idColumn, columns, chunks)
    ensures AllShaped(chunks, columns) && NoEmptyRow(chunks) && forall k :: 0 <= k < |queries| ==> InRange(queries[k])
  {
  }

  /** All updates in sequence: the last chunk with the id prevails, in it the first row. */
  lemma {:induction false} BulkTakes(t: TableRow, queries: seq<UpdateQuery>, idColumn: string, columns: seq<string>, chunks: seq<seq<Row>>)
    requires idColumn !in columns && EncodesAll(queries, idColumn, columns, chunks) && AllShaped(chunks, columns)
    requires forall k :: 0 <= k < |queries| ==> InRange(queries[k])
    ensures RunAll(t, queries) ==
      if idColumn in t && LastChunk(chunks, t[idColumn]) < |chunks|
      then Assigned(t, columns, chunks[LastChunk(chunks, t[idColumn])][First(chunks[LastChunk(chunks, t[idColumn])], t[idColumn])])
      else t
  {
    hide Encodes, RunUpdate, InRange, First;
    if |chunks| > 0 {
      var n := |chunks| - 1;
      BulkTakes(t, queries[..n], idColumn, columns, chunks[..n]);
      var before := RunAll(t, queries[..n]);
      CaseUpdateTakesFirst(before, queries[n], columns, chunks[n]);
      if idColumn in t {
        var k := LastChunk(chunks[..n], t[idColumn]);
        if k < n {
          var row := chunks[k][First(chunks[k], t[idColumn])];
          AssignedAt(t, columns, row, idColumn);
          if First(chunks[n], t[idColumn]) < |chunks[n]| {
            AssignedTwice(t, columns, row, chunks[n][First(chunks[n], t[idColumn])]);
          }
        }
      }
    }
  }

  lemma FirstAndLast(rows: seq<Row>, id: Value)
    requires forall k :: 0 <= k < |rows| ==> |rows[k]| > 0
    ensures First(rows, id) < |rows| <==> Last(rows, id) < |rows|
  {
  }

  /** Updating row by row: the last chunk with the id prevails, in it the last row. */
  lemma {:induction false} EachTakes(t: TableRow, idColumn: string, columns: seq<string>, chunks: seq<seq<Row>>)
    requires idColumn !in columns && AllShaped(chunks, columns)
    ensures Shaped(Flat(chunks), columns)
    ensures idColumn in t && LastChunk(chunks, t[idColumn]) < |chunks| ==>
      Last(chunks[LastChunk(chunks, t[idColumn])], t[idColumn]) < |chunks[LastChunk(chunks, t[idColumn])]|
    ensures UpdateEach(t, idColumn, columns, Flat(chunks)) ==
      if idColumn in t && LastChunk(chunks, t[idColumn]) < |chunks|
      then Assigned(t, columns, chunks[LastChunk(chunks, t[idColumn])][Last(chunks[LastChunk(chunks, t[idColumn])], t[idColumn])])
      else t
  {
    hide UpdateEach, First, Last;
    if |chunks| == 0 {
      RowByRowTakesLast(t, idColumn, columns, []);
    } else {
      var n := |chunks| - 1;
      EachTakes(t, idColumn, columns, chunks[..n]);
      UpdateEachConcat(t, idColumn, columns, Flat(chunks[..n]), chunks[n]);
      var before := UpdateEach(t, idColumn, columns, Flat(chunks[..n]));
      RowByRowTakesLast(before, idColumn, columns, chunks[n]);
      if idColumn in t {
        var id, k := t[idColumn], LastChunk(chunks[..n], t[idColumn]);
        FirstAndLast(chunks[n], id);
        if k < n {
          FirstAndLast(chunks[k], id);
          var row := chunks[k][Last(chunks[k], id)];
          AssignedAt(t, columns, row, idColumn);
          if Last(chunks[n], id) < |chunks[n]| {
            AssignedTwice(t, columns, row, chunks[n][Last(chunks[n], id)]);
          }
        }
      }
    }
  }

  /** Two rows assign the same to every table row, or to one, exactly when they carry the same values. */
  lemma SameAssigned(t: TableRow, columns: seq<string>, row: Row, other: Row)
    requires |row| == |other| == |columns| + 1 && DistinctColumns(columns)
    ensures Assigned(t, columns, row) == Assigned(t, columns, other) <==> Values(row) == Values(other)
  {
    if Values(row) == Values(other) {
      forall k | 0 < k <= |columns| ensures Bound(row[k]) == Bound(other[k]) {
        assert Values(row)[k - 1] == Values(other)[k - 1];
      }
      SameValuesAssign(t, columns, row, other);
    }
    if Assigned(t, columns, row) == Assigned(t, columns, other) {
      forall c | 0 <= c < |columns| ensures Values(row)[c] == Values(other)[c] {
        AssignedAt(t, columns, row, columns[c]);
        AssignedAt(t, columns, other, columns[c]);
        ColumnValueAt(columns, row, c);
        ColumnValueAt(columns, other, c);
      }
      assert Values(row) == Values(other);
    }
  }

  /** The id of this row is given again in a later chunk, or the first and the last row with it in this chunk carry the same values. */
  predicate SettledIn(chunks: seq<seq<Row>>, k: nat, i: nat)
    requires k < |chunks| && i < |chunks[k]|
    requires NoEmptyRow(chunks)
  {
    LastChunk(chunks, Bound(chunks[k][i][0])) == k ==> AgreesOn(chunks[k], i)
  }

  predicate Settled(chunks: seq<seq<Row>>)
    requires NoEmptyRow(chunks)
  {
    forall k, i :: 0 <= k < |chunks| && 0 <= i < |chunks[k]| ==> SettledIn(chunks, k, i)
  }

  /** The last chunk with this id gives the first and the last of its rows with it the same values. */
  predicate AgreesFor(chunks: seq<seq<Row>>, id: Value)
    requires NoEmptyRow(chunks)
  {
    var k := LastChunk(chunks, id);
    k < |chunks| ==> Values(chunks[k][First(chunks[k], id)]) == Values(chunks[k][Last(chunks[k], id)])
  }

  lemma AgreesForExactly(chunks: seq<seq<Row>>, columns: seq<string>, t: TableRow, id: Value)
    requires AllShaped(chunks, columns) && DistinctColumns(columns) && LastChunk(chunks, id) < |chunks|
    ensures var rows := chunks[LastChunk(chunks, id)];
      && First(rows, id) < |rows| && Last(rows, id) < |rows| && |rows[First(rows, id)]| == |rows[Last(rows, id)]| == |columns| + 1
      && (AgreesFor(chunks, id) <==> Assigned(t, columns, rows[First(rows, id)]) == Assigned(t, columns, rows[Last(rows, id)]))
  {
    hide Assigned, Values, DistinctColumns, First, Last;
    var rows := chunks[LastChunk(chunks, id)];
    FirstAndLast(rows, id);
    SameAssigned(t, columns, rows[First(rows, id)], rows[Last(rows, id)]);
  }

  /** For one table row: the whole bulk update and the updates row by row agree exactly when the last chunk with its id does not disagree on it. */
  lemma BulkOnRow(t: TableRow, queries: seq<UpdateQuery>, idColumn: string, columns: seq<string>, chunks: seq<seq<Row>>)
    requires idColumn !in columns && DistinctColumns(columns) && EncodesAll(queries, idColumn, columns, chunks)
    requires AllShaped(chunks, columns) && forall k :: 0 <= k < |queries| ==> InRange(queries[k])
    ensures Shaped(Flat(chunks), columns)
    ensures RunAll(t, queries) == UpdateEach(t, idColumn, columns, Flat(chunks)) <==> (idColumn in t ==> AgreesFor(chunks, t[idColumn]))
  {
    assert NoEmptyRow(chunks);
    hide EncodesAll, UpdateEach, RunAll, LastChunk, Assigned, AgreesFor, First, Last, DistinctColumns, AllShaped, InRange, Flat, NoEmptyRow;
    BulkTakes(t, queries, idColumn, columns, chunks);
    EachTakes(t, idColumn, columns, chunks);
    if idColumn in t && LastChunk(chunks, t[idColumn]) < |chunks| {
      AgreesForExactly(chunks, columns, t, t[idColumn]);
    } else if idColumn in t {
      NoneDisagrees(chunks, columns, t[idColumn]);
    }
  }

  lemma NoneDisagrees(chunks: seq<seq<Row>>, columns: seq<string>, id: Value)
    requires AllShaped(chunks, columns) && LastChunk(chunks, id) == |chunks|
    ensures AgreesFor(chunks, id)
  {
  }

  lemma AgreesWhenSettled(chunks: seq<seq<Row>>, id: Value)
    requires NoEmptyRow(chunks) && Settled(chunks)
    ensures AgreesFor(chunks, id)
  {
    hide First, Last, LastChunk, Values;
    var k := LastChunk(chunks, id);
    if k < |chunks| {
      assert SettledIn(chunks, k, First(chunks[k], id));
    }
  }

  lemma SettledWhenAgrees(chunks: seq<seq<Row>>, id: Value, k: nat, i: nat)
    requires NoEmptyRow(chunks) && k < |chunks| && i < |chunks[k]| && id == Bound(chunks[k][i][0]) && AgreesFor(chunks, id)
    ensures SettledIn(chunks, k, i)
  {
    hide First, Last, LastChunk, Values;
  }

  /** Agreement for every id is agreement at every row of the chunks. */
  lemma SettledExactly(chunks: seq<seq<Row>>)
    requires NoEmptyRow(chunks)
    ensures (forall id :: AgreesFor(chunks, id))
      <==> Settled(chunks)
  {
    hide AgreesFor, SettledIn, NoEmptyRow;
    if forall id :: AgreesFor(chunks, id) {
      forall k, i | 0 <= k < |chunks| && 0 <= i < |chunks[k]| ensures SettledIn(chunks, k, i) {
        assert |chunks[k][i]| > 0 by { RowNotEmpty(chunks, k, i); }
        SettledWhenAgrees(chunks, Bound(chunks[k][i][0]), k, i);
      }
    }
    if Settled(chunks) {
      forall id ensures AgreesFor(chunks, id) {
        AgreesWhenSettled(chunks, id);
      }
    }
  }

  lemma RowNotEmpty(chunks: seq<seq<Row>>, k: nat, i: nat)
    requires NoEmptyRow(chunks) && k < |chunks| && i < |chunks[k]|
    ensures |chunks[k][i]| > 0
  {
  }

  /** The whole bulk update means the same as updating row by row, on every table, exactly when in the last chunk with an id
      the first and the last row with it carry the same values. */
  lemma BulkEqualsExactly(queries: seq<UpdateQuery>, idColumn: string, columns: seq<string>, chunks: seq<seq<Row>>)
    requires idColumn !in columns && DistinctColumns(columns) && EncodesAll(queries, idColumn, columns, chunks)
    ensures Shaped(Flat(chunks), columns) && NoEmptyRow(chunks) && forall k :: 0 <= k < |queries| ==> InRange(queries[k])
    ensures (forall t :: RunAll(t, queries) == UpdateEach(t, idColumn, columns, Flat(chunks)))
      <==> Settled(chunks)
  {
    hide UpdateEach, RunAll, LastChunk, Shaped, AgreesFor, InRange, DistinctColumns, SettledIn, Settled, Flat, AllShaped, NoEmptyRow, EncodesAll;
    EncodesShaped(queries, idColumn, columns, chunks);
    EachTakes(map[], idColumn, columns, chunks);
    SettledExactly(chunks);
    if forall t: TableRow :: RunAll(t, queries) == UpdateEach(t, idColumn, columns, Flat(chunks)) {
      forall id ensures AgreesFor(chunks, id) {
        var t: TableRow := map[idColumn := id];
        assert RunAll(t, queries) == UpdateEach(t, idColumn, columns, Flat(chunks)) && t[idColumn] == id;
        BulkOnRow(t, queries, idColumn, columns, chunks);
      }
      assert Settled(chunks);
    } else {
      var t: TableRow :| RunAll(t, queries) != UpdateEach(t, idColumn, columns, Flat(chunks));
      BulkOnRow(t, queries, idColumn, columns, chunks);
      assert !AgreesFor(chunks, t[idColumn]);
      assert !Settled(chunks);
    }
  }

  /** In particular, when no chunk has an id twice. */
  lemma BulkEqualsRowByRow(t: TableRow, queries: seq<UpdateQuery>, idColumn: string, columns: seq<string>, chunks: seq<seq<Row>>)
    requires idColumn !in columns && EncodesAll(queries, idColumn, columns, chunks)
    requires forall k :: 0 <= k < |chunks| ==> DistinctIds(chunks[k])
    ensures Shaped(Flat(chunks), columns) && RunAll(t, queries) == UpdateEach(t, idColumn, columns, Flat(chunks))
  {
    hide EncodesAll, UpdateEach, RunAll, LastChunk, Assigned, First, Last, InRange, Flat;
    EncodesShaped(queries, idColumn, columns, chunks);
    BulkTakes(t, queries, idColumn, columns, chunks);
    EachTakes(t, idColumn, columns, chunks);
    if idColumn in t && LastChunk(chunks, t[idColumn]) < |chunks| {
      var rows, id := chunks[LastChunk(chunks, t[idColumn])], t[idColumn];
      OnceEach(rows, First(rows, id), Last(rows, id));
    }
  }

  lemma OnceEach(rows: seq<Row>, i: nat, j: nat)
    requires (forall k :: 0 <= k < |rows| ==> |rows[k]| > 0) && DistinctIds(rows) && i < |rows| && j < |rows|
    requires Equal(Bound(rows[i][0]), Bound(rows[j][0]))
    ensures i == j
  {
  }

  /** Rows whose id is not among those given are untouched. */
  lemma OthersUntouched(t: TableRow, q: UpdateQuery, columns: seq<string>, rows: seq<Row>)
    requires Shaped(rows, columns) && Encodes(q, q.idColumn, columns, rows)
    requires q.idColumn !in t || forall i :: 0 <= i < |rows| ==> !Equal(t[q.idColumn], Bound(rows[i][0]))
    ensures RunUpdate(t, q) == t
  {
    CaseUpdateTakesFirst(t, q, columns, rows);
  }

  /** An id given by any rows of a chunk: the CASE takes the first of them, row by row the last one stays, and the two
      come to the same exactly when these carry the same values. */
  lemma DuplicateIds(t: TableRow, q: UpdateQuery, columns: seq<string>, rows: seq<Row>, i: nat, j: nat)
    requires Shaped(rows, columns) && Encodes(q, q.idColumn, columns, rows) && q.idColumn !in columns && DistinctColumns(columns)
    requires q.idColumn in t && i <= j < |rows|
    requires Equal(t[q.idColumn], Bound(rows[i][0])) && forall k :: 0 <= k < i ==> !Equal(t[q.idColumn], Bound(rows[k][0]))
    requires Equal(t[q.idColumn], Bound(rows[j][0])) && forall k :: j < k < |rows| ==> !Equal(t[q.idColumn], Bound(rows[k][0]))
    ensures RunUpdate(t, q) == Assigned(t, columns, rows[i])
    ensures UpdateEach(t, q.idColumn, columns, rows) == Assigned(t, columns, rows[j])
    ensures RunUpdate(t, q) == UpdateEach(t, q.idColumn, columns, rows) <==> Values(rows[i]) == Values(rows[j])
  {
    var id := t[q.idColumn];
    assert InRange(q);
    assert First(rows, id) == i && Last(rows, id) == j;
    hide Encodes, RunUpdate, UpdateEach, First, Last, Values, DistinctColumns;
    CaseUpdateTakesFirst(t, q, columns, rows);
    RowByRowTakesLast(t, q.idColumn, columns, rows);
    SameAssigned(t, columns, rows[i], rows[j]);
  }
}
