/** Relay cursor pagination, the page half: the query of a request, the page built from its rows. */
module RelayPages {
  import opened Options
  import opened RelayCursor
  import opened RelaySeek
  import opened SeekReading
  import opened ThreeValued
  import opened SqlText

  datatype Request = Request(first: Option<int>, after: Option<Cursor>, last: Option<int>, before: Option<Cursor>)

  /** A table row, and the entity the row mapper makes of it. */
  datatype Row = Row(cells: map<string, Cell>, node: map<string, Cell>)

  datatype Edge = Edge(node: Row, cursor: Cursor)

  datatype PageInfo = PageInfo(
    hasNextPage: bool, hasPreviousPage: bool, startCursor: Option<Cursor>, endCursor: Option<Cursor>)

  datatype Page = Page(edges: seq<Edge>, pageInfo: PageInfo, totalCount: int)

  predicate IsBackward(r: Request) {
    r.last.Some? && r.last.value > 0
  }

  function CursorOf(r: Request): Option<Cursor> {
    if IsBackward(r) then r.before else r.after
  }

  function Min(a: int, b: int): int {
    if a < b then a else b
  }

  function OrTen(n: Option<int>): int {
    if n.Some? then n.value else 10
  }

  function PageLimit(s: Strategy, r: Request): int {
    Min(if IsBackward(r) then OrTen(r.last) else OrTen(r.first), s.maxPageSize)
  }

  // ------------------------------------------------------------ the query

  function Flipped(cols: seq<SortColumn>): (flipped: seq<SortColumn>)
    ensures |flipped| == |cols|
    ensures forall i :: 0 <= i < |cols| ==> flipped[i] == cols[i].(direction := Flip(cols[i].direction))
  {
    seq(|cols|, i requires 0 <= i < |cols| => cols[i].(direction := Flip(cols[i].direction)))
  }

  function OrderFor(s: Strategy, backward: bool): seq<SortColumn> {
    if backward then Flipped(KeyColumns(s)) else KeyColumns(s)
  }

  function Conditions(s: Strategy, r: Request): seq<RawCriteria> {
    if CursorOf(r).None? then []
    else
      var cols, values := KeyColumns(s), CursorValues(s, CursorOf(r).value);
      var m := Cutoff(|cols|, values);
      [RawCriteria(Render(SeekPieces(cols, IsBackward(r), Stage(m, 0, 0))), Collected(|cols|, values, m))]
  }

  /** Adds condition, ordering and limit to the query; false when the builder refuses a negative limit. */
  method ApplyToQuery(s: Strategy, builder: SelectBuilder, r: Request) returns (ok: bool)
    requires PlainColumns(s)
    modifies builder
    ensures ok <==> PageLimit(s, r) >= -1
    ensures builder.conditions == old(builder.conditions) + Conditions(s, r)
    ensures builder.ordering == old(builder.ordering) + OrderFor(s, IsBackward(r))
    ensures builder.rowLimit == if ok then Some(PageLimit(s, r) + 1) else old(builder.rowLimit)
    ensures r.first.None? && r.last.None? && s.maxPageSize >= 10 ==> builder.rowLimit == Some(11)
  {
    hide Render, SeekPieces, Collected;
    var backward := IsBackward(r);
    if CursorOf(r).Some? {
      ApplyCursorCondition(s, builder, CursorOf(r).value, backward);
    } else {
      assert Conditions(s, r) == [];
    }
    ghost var before := builder.ordering;
    for i := 0 to |s.sortColumns|
      invariant builder.conditions == old(builder.conditions) + Conditions(s, r)
      invariant builder.rowLimit == old(builder.rowLimit)
      invariant builder.ordering == before + (if backward then Flipped(s.sortColumns) else s.sortColumns)[..i]
    {
      var col := s.sortColumns[i];
      builder.ordering := builder.ordering + [if backward then col.(direction := Flip(col.direction)) else col];
    }
    if !HasId(s) {
      builder.ordering := builder.ordering + [SortColumn(s.idColumn, if backward then Desc else Asc)];
      assert Flipped(KeyColumns(s)) == Flipped(s.sortColumns) + [SortColumn(s.idColumn, Desc)];
    }
    ok := PageLimit(s, r) + 1 >= 0;
    if ok {
      builder.rowLimit := Some(PageLimit(s, r) + 1);
    }
  }

  /** The builder asks the condition for its text and parameters, from the first free parameter number on. */
  method NumberedCondition(s: Strategy, r: Request, condition: RawCriteria, paramOffset: nat) returns (sql: string, params: seq<Cell>)
    requires PlainColumns(s) && CursorOf(r).Some? && Conditions(s, r) == [condition]
    ensures var cols, values := KeyColumns(s), CursorValues(s, CursorOf(r).value);
      sql == SeekSql(cols, IsBackward(r), values, paramOffset) && params == SeekParams(cols, values)
  {
    hide Render, SeekPieces, Collected;
    ghost var cols, values := KeyColumns(s), CursorValues(s, CursorOf(r).value);
    sql, params := ToSql(condition, paramOffset, cols, IsBackward(r), Cutoff(|cols|, values));
  }

  // ----------------------------------------------------------- the page

  function ToUpper(c: char): char {
    if 'a' <= c <= 'z' then c - 'a' + 'A' else c
  }

  function ToCamelCase(column: string): string
    decreases |column|
  {
    if |column| == 0 then ""
    else if |column| > 1 && column[0] == '_' && 'a' <= column[1] <= 'z' then [ToUpper(column[1])] + ToCamelCase(column[2..])
    else [column[0]] + ToCamelCase(column[1..])
  }

  function CursorField(node: map<string, Cell>, column: string): Cell {
    if column in node then node[column] else CellIn(node, ToCamelCase(column))
  }

  function CursorId(s: Strategy, node: map<string, Cell>): Cell {
    if s.idField in node then node[s.idField] else CellIn(node, s.idColumn)
  }

  function CursorFor(s: Strategy, node: map<string, Cell>): Cursor {
    Cursor(seq(|s.sortColumns|, i requires 0 <= i < |s.sortColumns| => CursorField(node, s.sortColumns[i].column)),
           CursorId(s, node))
  }

  method BuildCursorForRow(s: Strategy, node: map<string, Cell>) returns (cursor: Cursor)
    ensures cursor == CursorFor(s, node)
  {
    var values := [];
    for i := 0 to |s.sortColumns|
      invariant values == CursorFor(s, node).values[..i]
    {
      var column := s.sortColumns[i].column;
      var val := if column in node then node[column] else CellIn(node, ToCamelCase(column));
      values := values + [val];
    }
    var id := if s.idField in node then node[s.idField] else if s.idColumn in node then node[s.idColumn] else Null;
    cursor := Cursor(values, id);
  }

  function Reversed<T>(xs: seq<T>): (ys: seq<T>)
    ensures |ys| == |xs|
    ensures forall i :: 0 <= i < |xs| ==> ys[i] == xs[|xs| - 1 - i]
  {
    seq(|xs|, i requires 0 <= i < |xs| => xs[|xs| - 1 - i])
  }

  /** JavaScript's `rows.slice(0, end)`, a negative end counting from the back. */
  function SliceTo<T>(xs: seq<T>, end: int): seq<T> {
    if end >= 0 then xs[..Min(end, |xs|)]
    else if |xs| + end > 0 then xs[..|xs| + end]
    else []
  }

  function PageRows(s: Strategy, rows: seq<Row>, r: Request): seq<Row> {
    var kept := if |rows| > PageLimit(s, r) then SliceTo(rows, PageLimit(s, r)) else rows;
    if IsBackward(r) then Reversed(kept) else kept
  }

  function Edges(s: Strategy, rows: seq<Row>): (edges: seq<Edge>)
    ensures |edges| == |rows|
    ensures forall i :: 0 <= i < |rows| ==> edges[i] == Edge(rows[i], CursorFor(s, rows[i].node))
  {
    seq(|rows|, i requires 0 <= i < |rows| => Edge(rows[i], CursorFor(s, rows[i].node)))
  }

  function PageFrom(s: Strategy, rows: seq<Row>, r: Request, totalCount: int): Page {
    var edges, hasMore := Edges(s, PageRows(s, rows, r)), |rows| > PageLimit(s, r);
    Page(edges,
         PageInfo(!IsBackward(r) && hasMore, IsBackward(r) && hasMore,
                  if |edges| > 0 then Some(edges[0].cursor) else None,
                  if |edges| > 0 then Some(edges[|edges| - 1].cursor) else None),
         totalCount)
  }

  /** JavaScript's in-place `rows.reverse()`. */
  method ReverseInPlace(a: array<Row>)
    modifies a
    ensures a[..] == Reversed(old(a[..]))
  {
    for i := 0 to a.Length / 2
      invariant forall k :: 0 <= k < i ==> a[k] == old(a[a.Length - 1 - k]) && a[a.Length - 1 - k] == old(a[k])
      invariant forall k :: i <= k < a.Length - i ==> a[k] == old(a[k])
    {
      a[i], a[a.Length - 1 - i] := a[a.Length - 1 - i], a[i];
    }
  }

  method Copy(rows: seq<Row>) returns (a: array<Row>)
    ensures fresh(a) && a[..] == rows
  {
    a := new Row[|rows|](i requires 0 <= i < |rows| => rows[i]);
    assert a[..] == rows;
  }

  /**
   * Builds the page. An over-full result is cut by copying; a backward page
   * that was not cut is reversed in the caller's own array.
   */
  method BuildResult(s: Strategy, rows: array<Row>, r: Request, totalCount: int) returns (page: Page)
    modifies rows
    ensures page == PageFrom(s, old(rows[..]), r, totalCount) && page.totalCount == totalCount
    ensures var n, limit := rows.Length, PageLimit(s, r);
      |page.edges| == if limit >= n then n else if limit >= 0 then limit else if n + limit > 0 then n + limit else 0
    ensures r.first.None? && r.last.None? && s.maxPageSize >= 10 ==>
      |page.edges| == Min(rows.Length, 10) && page.pageInfo.hasNextPage == (rows.Length > 10)
    ensures rows[..] == if IsBackward(r) && rows.Length <= PageLimit(s, r) then Reversed(old(rows[..])) else old(rows[..])
  {
    var backward, limit := IsBackward(r), PageLimit(s, r);
    var hasMore := rows.Length > limit;
    var kept := rows;
    if hasMore {
      kept := Copy(SliceTo(rows[..], limit));
    }
    if backward {
      ReverseInPlace(kept);
    }
    ghost var settled := rows[..];
    assert settled == if backward && !hasMore then Reversed(old(rows[..])) else old(rows[..]);
    assert kept[..] == PageRows(s, old(rows[..]), r);
    var edges: seq<Edge> := [];
    for i := 0 to kept.Length
      invariant rows[..] == settled && kept[..] == PageRows(s, old(rows[..]), r)
      invariant edges == Edges(s, kept[..i])
    {
      var cursor := BuildCursorForRow(s, kept[i].node);
      edges := edges + [Edge(kept[i], cursor)];
      assert kept[..i + 1] == kept[..i] + [kept[i]];
    }
    assert kept[..kept.Length] == kept[..];
    var pageInfo := PageInfo(
      if backward then false else hasMore, if backward then hasMore else false,
      if |edges| > 0 then Some(edges[0].cursor) else None,
      if |edges| > 0 then Some(edges[|edges| - 1].cursor) else None);
    page := Page(edges, pageInfo, totalCount);
  }
}
