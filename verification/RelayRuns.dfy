/** Whole runs of pages: exact enumeration, stability under change, and backward undoing forward. */
module RelayRuns {
  import opened Options
  import opened RelayCursor
  import opened RelaySeek
  import opened RelayPages
  import opened SeekReading
  import opened ThreeValued

  // --------------------------------------------------- keys and tables

  function Key(s: Strategy, row: Row): (key: seq<Cell>)
    ensures |key| == |KeyColumns(s)|
  {
    KeyOf(KeyColumns(s), row.cells)
  }

  /** The entity carries the row's key, NULLs included, where the strategy looks for it. */
  predicate SoundRow(s: Strategy, row: Row) {
    CursorValues(s, CursorFor(s, row.node)) == Key(s, row)
  }

  /** One of the two rows comes before the other: the first key column that tells them apart is NULL in neither. */
  ghost predicate Separate(s: Strategy, r: Row, q: Row) {
    Before(s, Key(s, r), Key(s, q)) || Before(s, Key(s, q), Key(s, r))
  }

  /** Every key column is written as a quoted name, none passed through as an expression. */
  predicate NamedKeys(s: Strategy) {
    NameableKeys(KeyColumns(s))
  }

  /** Sound rows, any two of them told apart by named columns. */
  ghost predicate Sound(s: Strategy, table: set<Row>) {
    NamedKeys(s) &&
    (forall r :: r in table ==> SoundRow(s, r)) &&
    (forall r, q :: r in table && q in table && r != q ==> Separate(s, r, q))
  }

  ghost predicate Before(s: Strategy, a: seq<Cell>, b: seq<Cell>)
    requires |a| == |b| == |KeyColumns(s)|
  {
    LexLess(KeyColumns(s), a, b)
  }

  lemma {:induction false} LexTransitive(cols: seq<SortColumn>, a: seq<Cell>, b: seq<Cell>, c: seq<Cell>)
    requires |a| == |b| == |c| == |cols| && LexLess(cols, a, b) && LexLess(cols, b, c)
    ensures LexLess(cols, a, c)
  {
    if SameValue(a[0], b[0]) && SameValue(b[0], c[0]) { LexTransitive(cols[1..], a[1..], b[1..], c[1..]); }
  }

  lemma {:induction false} LexAsymmetric(cols: seq<SortColumn>, a: seq<Cell>, b: seq<Cell>)
    requires |a| == |b| == |cols| && LexLess(cols, a, b)
    ensures a != b && !LexLess(cols, b, a)
  {
    if SameValue(a[0], b[0]) { LexAsymmetric(cols[1..], a[1..], b[1..]); }
  }

  lemma {:induction false} LexFlipped(cols: seq<SortColumn>, a: seq<Cell>, b: seq<Cell>)
    requires |a| == |b| == |cols|
    ensures LexLess(Flipped(cols), a, b) <==> LexLess(cols, b, a)
  {
    if |cols| > 0 {
      LexFlipped(cols[1..], a[1..], b[1..]);
      assert Flipped(cols)[1..] == Flipped(cols[1..]);
    }
  }

  lemma KeyDeterminesRow(s: Strategy, table: set<Row>, r: Row, q: Row)
    requires Sound(s, table) && r in table && q in table && Key(s, r) == Key(s, q)
    ensures r == q
  {
    hide LexLess, KeyColumns, Key;
    if r != q {
      assert Separate(s, r, q);
      LexAsymmetric(KeyColumns(s), Key(s, r), Key(s, q));
    }
  }

  // ---------------------------------------------------------- ranking

  /** ORDER BY: a before b in the given order. */
  ghost predicate RowLess(order: seq<SortColumn>, a: Row, b: Row) {
    LexLess(order, KeyOf(order, a.cells), KeyOf(order, b.cells))
  }

  /** The rows of a table, each once, in the given order. */
  ghost predicate Ranking(xs: seq<Row>, table: set<Row>, order: seq<SortColumn>) {
    (forall r :: r in xs <==> r in table) && (forall i, j :: 0 <= i < j < |xs| ==> RowLess(order, xs[i], xs[j]))
  }

  /** Both orders a query can ask for compare the same keys. */
  lemma RowOrder(s: Strategy, backward: bool, a: Row, b: Row)
    ensures RowLess(OrderFor(s, backward), a, b) == if backward then Before(s, Key(s, b), Key(s, a)) else Before(s, Key(s, a), Key(s, b))
  {
    if backward {
      var cols := KeyColumns(s);
      LexFlipped(cols, Key(s, a), Key(s, b));
      assert KeyOf(Flipped(cols), a.cells) == Key(s, a) && KeyOf(Flipped(cols), b.cells) == Key(s, b);
    }
  }

  lemma RowsComparable(s: Strategy, table: set<Row>, backward: bool, a: Row, b: Row)
    requires Sound(s, table) && a in table && b in table
    ensures var order := OrderFor(s, backward);
      (a != b ==> RowLess(order, a, b) || RowLess(order, b, a)) && !(RowLess(order, a, b) && RowLess(order, b, a))
  {
    RowOrder(s, backward, a, b);
    RowOrder(s, backward, b, a);
    assert a != b ==> Separate(s, a, b);
    if Before(s, Key(s, a), Key(s, b)) { LexAsymmetric(KeyColumns(s), Key(s, a), Key(s, b)); }
  }

  lemma {:induction false} LeastRow(s: Strategy, table: set<Row>, backward: bool) returns (m: Row)
    requires Sound(s, table) && table != {}
    ensures m in table && forall r :: r in table && r != m ==> RowLess(OrderFor(s, backward), m, r)
  {
    var x :| x in table;
    if table == {x} {
      m := x;
    } else {
      var order := OrderFor(s, backward);
      var m' := LeastRow(s, table - {x}, backward);
      RowsComparable(s, table, backward, x, m');
      if RowLess(order, m', x) {
        m := m';
      } else {
        m := x;
        forall r | r in table && r != x ensures RowLess(order, x, r) {
          if r != m' {
            assert RowLess(order, m', r);
            LexTransitive(order, KeyOf(order, x.cells), KeyOf(order, m'.cells), KeyOf(order, r.cells));
          }
        }
      }
    }
  }

  lemma {:induction false} RankingExists(s: Strategy, table: set<Row>, backward: bool) returns (xs: seq<Row>)
    requires Sound(s, table)
    ensures Ranking(xs, table, OrderFor(s, backward))
  {
    if table == {} {
      xs := [];
    } else {
      var m := LeastRow(s, table, backward);
      var ys := RankingExists(s, table - {m}, backward);
      xs := [m] + ys;
      forall i, j | 0 <= i < j < |xs| ensures RowLess(OrderFor(s, backward), xs[i], xs[j]) {
        assert xs[j] in ys;
      }
    }
  }

  lemma {:induction false} RankingUnique(s: Strategy, table: set<Row>, backward: bool, xs: seq<Row>, ys: seq<Row>)
    requires Sound(s, table) && Ranking(xs, table, OrderFor(s, backward)) && Ranking(ys, table, OrderFor(s, backward))
    ensures xs == ys
    decreases |xs|
  {
    hide RowLess, OrderFor, KeyColumns;
    assert |ys| > 0 ==> ys[0] in table;
    if xs != [] {
      assert xs[0] in ys && (|ys| > 0 ==> ys[0] in xs);
      RowsComparable(s, table, backward, xs[0], ys[0]);
      assert xs[0] == ys[0];
      TailRanking(s, table, backward, xs);
      TailRanking(s, table, backward, ys);
      RankingUnique(s, table - {xs[0]}, backward, xs[1..], ys[1..]);
      assert xs == [xs[0]] + xs[1..] && ys == [ys[0]] + ys[1..];
    }
  }

  lemma TailRanking(s: Strategy, table: set<Row>, backward: bool, xs: seq<Row>)
    requires Sound(s, table) && Ranking(xs, table, OrderFor(s, backward)) && xs != []
    ensures Ranking(xs[1..], table - {xs[0]}, OrderFor(s, backward))
  {
    forall r ensures r in xs[1..] <==> r in table - {xs[0]} {
      if r in xs[1..] {
        var j :| 0 <= j < |xs[1..]| && xs[1..][j] == r;
        assert xs[j + 1] == r && xs[0] in table && r in table;
        RowsComparable(s, table, backward, xs[0], xs[0]);
      }
      assert xs == [xs[0]] + xs[1..];
    }
  }

  // ------------------------------------------------------- the database

  /** The text of the WHERE clause of a request is true on a row; the seek condition is alone, so its parameters start at 1. */
  predicate Selected(s: Strategy, r: Request, row: Row) {
    CursorOf(r).Some? ==>
      var cols, values := KeyColumns(s), CursorValues(s, CursorOf(r).value);
      TextTruth(SeekSql(cols, IsBackward(r), values, 1), 1, SeekParams(cols, values), row.cells) == Some(True)
  }

  ghost function Matching(s: Strategy, table: set<Row>, r: Request): set<Row> {
    set row | row in table && Selected(s, r, row)
  }

  /** WHERE, ORDER BY and LIMIT of the query of a request, run on a table. */
  ghost function QueryRows(s: Strategy, table: set<Row>, r: Request): (rows: seq<Row>)
    requires Sound(s, table) && PageLimit(s, r) >= 1
  {
    var xs := RankingOf(s, Matching(s, table, r), IsBackward(r));
    xs[..Min(PageLimit(s, r) + 1, |xs|)]
  }

  ghost function RankingOf(s: Strategy, table: set<Row>, backward: bool): (xs: seq<Row>)
    requires Sound(s, table)
    ensures Ranking(xs, table, OrderFor(s, backward))
  {
    assert exists xs :: Ranking(xs, table, OrderFor(s, backward)) by {
      var w := RankingExists(s, table, backward);
    }
    var xs :| Ranking(xs, table, OrderFor(s, backward));
    xs
  }

  ghost function FetchPage(s: Strategy, table: set<Row>, r: Request): Page
    requires Sound(s, table) && PageLimit(s, r) >= 1
  {
    PageFrom(s, QueryRows(s, table, r), r, |table|)
  }

  function Rows(page: Page): (rows: seq<Row>)
    ensures |rows| == |page.edges|
    ensures forall i :: 0 <= i < |rows| ==> rows[i] == page.edges[i].node
  {
    seq(|page.edges|, i requires 0 <= i < |page.edges| => page.edges[i].node)
  }

  // ------------------------------------------------ pages by position

  /** A cursor with a value, or NULL, for every key column. */
  predicate Usable(s: Strategy, c: Cursor) {
    |CursorValues(s, c)| == |KeyColumns(s)|
  }

  lemma SelectedMeans(s: Strategy, r: Request, row: Row)
    requires CursorOf(r).Some? && Usable(s, CursorOf(r).value) && NamedKeys(s)
    ensures var at := CursorValues(s, CursorOf(r).value);
      Selected(s, r, row) == if IsBackward(r) then Before(s, Key(s, row), at) else Before(s, at, Key(s, row))
  {
    hide TextTruth, SeekSql, LexLess, NameableKeys;
    var cols, values := KeyColumns(s), CursorValues(s, CursorOf(r).value);
    SeekIsLexicographic(cols, IsBackward(r), values, 1, row.cells);
    assert values[..|cols|] == values;
  }

  /** xs[a..] are the rows a request selects going forward; xs[..a] those it selects going backward. */
  ghost predicate Cut(s: Strategy, r: Request, xs: seq<Row>, a: nat) {
    a <= |xs| && forall i :: 0 <= i < |xs| ==> (Selected(s, r, xs[i]) <==> if IsBackward(r) then i < a else a <= i)
  }

  lemma CutExists(s: Strategy, table: set<Row>, xs: seq<Row>, r: Request) returns (a: nat)
    requires Sound(s, table) && Ranking(xs, table, KeyColumns(s))
    requires CursorOf(r).Some? && Usable(s, CursorOf(r).value)
    ensures Cut(s, r, xs, a)
  {
    hide Selected, LexLess;
    var back, at := IsBackward(r), CursorValues(s, CursorOf(r).value);
    forall i | 0 <= i < |xs|
      ensures Selected(s, r, xs[i]) == if back then Before(s, Key(s, xs[i]), at) else Before(s, at, Key(s, xs[i]))
    {
      SelectedMeans(s, r, xs[i]);
    }
    forall i, j | 0 <= i < j < |xs| && (if back then Selected(s, r, xs[j]) else Selected(s, r, xs[i]))
      ensures Selected(s, r, xs[i]) && Selected(s, r, xs[j])
    {
      assert RowLess(KeyColumns(s), xs[i], xs[j]);
      if back {
        LexTransitive(KeyColumns(s), Key(s, xs[i]), Key(s, xs[j]), at);
      } else {
        LexTransitive(KeyColumns(s), at, Key(s, xs[i]), Key(s, xs[j]));
      }
    }
    a := |xs|;
    while a > 0 && (Selected(s, r, xs[a - 1]) <==> !back)
      invariant a <= |xs|
      invariant forall i :: a <= i < |xs| ==> (Selected(s, r, xs[i]) <==> !back)
    {
      a := a - 1;
    }
  }

  /** The first request of a run has no cursor: everything is selected. */
  lemma CutWithoutCursor(s: Strategy, xs: seq<Row>, r: Request)
    requires CursorOf(r).None?
    ensures Cut(s, r, xs, if IsBackward(r) then |xs| else 0)
  {
  }

  lemma ForwardRows(s: Strategy, table: set<Row>, xs: seq<Row>, r: Request, a: nat)
    requires Sound(s, table) && Ranking(xs, table, KeyColumns(s)) && PageLimit(s, r) >= 1
    requires !IsBackward(r) && Cut(s, r, xs, a)
    ensures QueryRows(s, table, r) == xs[a..][..Min(PageLimit(s, r) + 1, |xs| - a)]
  {
    hide Selected, LexLess;
    var m, ys := Matching(s, table, r), xs[a..];
    assert Ranking(ys, m, KeyColumns(s)) by {
      forall i | a <= i < |xs| ensures xs[i] in ys && xs[i] in m {
        assert ys[i - a] == xs[i];
      }
      assert forall i :: 0 <= i < |ys| ==> ys[i] == xs[a + i];
      forall i, j | 0 <= i < j < |ys| ensures RowLess(KeyColumns(s), ys[i], ys[j]) {
        assert RowLess(KeyColumns(s), xs[a + i], xs[a + j]);
      }
    }
    RankingUnique(s, m, false, RankingOf(s, m, false), ys);
  }

  lemma ReversedRanking(s: Strategy, xs: seq<Row>, table: set<Row>)
    requires Ranking(xs, table, KeyColumns(s))
    ensures Ranking(Reversed(xs), table, OrderFor(s, true))
  {
    hide LexLess, KeyColumns;
    var ys := Reversed(xs);
    assert forall i :: 0 <= i < |xs| ==> xs[i] == ys[|xs| - 1 - i];
    forall i, j | 0 <= i < j < |ys| ensures RowLess(OrderFor(s, true), ys[i], ys[j]) {
      assert RowLess(KeyColumns(s), xs[|xs| - 1 - j], xs[|xs| - 1 - i]);
      RowOrder(s, true, ys[i], ys[j]);
    }
  }

  lemma BackwardRows(s: Strategy, table: set<Row>, xs: seq<Row>, r: Request, b: nat)
    requires Sound(s, table) && Ranking(xs, table, KeyColumns(s)) && PageLimit(s, r) >= 1
    requires IsBackward(r) && Cut(s, r, xs, b)
    ensures QueryRows(s, table, r) == Reversed(xs[..b])[..Min(PageLimit(s, r) + 1, b)]
  {
    hide Selected, LexLess, OrderFor, RowLess;
    var m, ys := Matching(s, table, r), xs[..b];
    assert Ranking(ys, m, KeyColumns(s)) by {
      assert forall i :: 0 <= i < b ==> ys[i] == xs[i] && xs[i] in m;
    }
    ReversedRanking(s, ys, m);
    RankingUnique(s, m, true, RankingOf(s, m, true), Reversed(ys));
  }

  /** A forward page is the next `limit` rows of the ranking, and hasNextPage says whether rows remain. */
  lemma ForwardPage(s: Strategy, table: set<Row>, xs: seq<Row>, r: Request, a: nat)
    requires Sound(s, table) && Ranking(xs, table, KeyColumns(s)) && PageLimit(s, r) >= 1
    requires !IsBackward(r) && Cut(s, r, xs, a)
    ensures var page, n := FetchPage(s, table, r), PageLimit(s, r);
      && Rows(page) == xs[a..Min(a + n, |xs|)]
      && page.pageInfo.hasNextPage == (a + n < |xs|) && !page.pageInfo.hasPreviousPage
  {
    ForwardRows(s, table, xs, r, a);
  }

  lemma TakenBackwards(xs: seq<Row>, b: nat, n: nat)
    requires b <= |xs| && n >= 1
    ensures var rows := Reversed(xs[..b])[..Min(n + 1, b)];
      && (|rows| > n <==> b > n)
      && Reversed(if |rows| > n then rows[..n] else rows) == xs[if b > n then b - n else 0..b]
  {
    var rows := Reversed(xs[..b])[..Min(n + 1, b)];
    var kept, from := if |rows| > n then rows[..n] else rows, if b > n then b - n else 0;
    assert |kept| == b - from;
    forall i | 0 <= i < |kept| ensures Reversed(kept)[i] == xs[from + i] {
      assert kept[|kept| - 1 - i] == Reversed(xs[..b])[|kept| - 1 - i] == xs[..b][from + i];
    }
  }

  /**
   * A backward page is the `limit` rows just before the cursor, in forward
   * order, fewer at the start; hasPreviousPage says whether earlier rows remain.
   */
  lemma BackwardPage(s: Strategy, table: set<Row>, xs: seq<Row>, r: Request, b: nat)
    requires Sound(s, table) && Ranking(xs, table, KeyColumns(s)) && PageLimit(s, r) >= 1
    requires IsBackward(r) && Cut(s, r, xs, b)
    ensures var page, n := FetchPage(s, table, r), PageLimit(s, r);
      && Rows(page) == xs[if b > n then b - n else 0..b]
      && page.pageInfo.hasPreviousPage == (b > n) && !page.pageInfo.hasNextPage
  {
    TakenBackwards(xs, b, PageLimit(s, r));
    hide Selected, LexLess, KeyColumns, Key, Sound, Ranking, Cut, QueryRows, Reversed, Edges;
    BackwardRows(s, table, xs, r, b);
  }

  // -------------------------------------------------- runs over change

  function Forward(size: int, after: Option<Cursor>): Request {
    Request(Some(size), after, None, None)
  }

  function Backward(size: int, before: Option<Cursor>): Request {
    Request(None, None, Some(size), before)
  }

  /** A client's run: page after page while hasNextPage, each on the table as it then is. */
  ghost predicate ForwardRun(s: Strategy, tables: seq<set<Row>>, sizes: seq<int>, pages: seq<Page>) {
    && s.maxPageSize >= 1
    && |tables| == |sizes| == |pages|
    && (forall i :: 0 <= i < |pages| ==> Sound(s, tables[i]) && sizes[i] >= 1)
    && (forall i :: 0 <= i < |pages| ==> pages[i] == FetchPage(s, tables[i], RunRequest(sizes, pages, i)))
    && (forall i :: 0 <= i < |pages| - 1 ==> pages[i].pageInfo.hasNextPage)
  }

  function RunRequest(sizes: seq<int>, pages: seq<Page>, i: nat): Request
    requires i < |sizes| && i < |pages|
  {
    Forward(sizes[i], if i == 0 then None else pages[i - 1].pageInfo.endCursor)
  }

  /** The rows a run has returned, in order. */
  function Returned(pages: seq<Page>): seq<Row> {
    if |pages| == 0 then [] else Returned(pages[..|pages| - 1]) + Rows(pages[|pages| - 1])
  }

  ghost predicate Ascending(s: Strategy, rows: seq<Row>) {
    forall i, j :: 0 <= i < j < |rows| ==> Before(s, Key(s, rows[i]), Key(s, rows[j]))
  }

  ghost predicate HasKey(s: Strategy, table: set<Row>, key: seq<Cell>) {
    exists r :: r in table && Key(s, r) == key
  }

  predicate ReturnedKey(s: Strategy, rows: seq<Row>, key: seq<Cell>) {
    exists i :: 0 <= i < |rows| && Key(s, rows[i]) == key
  }

  lemma RankingAscends(s: Strategy, xs: seq<Row>, table: set<Row>)
    requires Ranking(xs, table, KeyColumns(s))
    ensures Ascending(s, xs)
  {
    forall i, j | 0 <= i < j < |xs| ensures Before(s, Key(s, xs[i]), Key(s, xs[j])) {
      assert RowLess(KeyColumns(s), xs[i], xs[j]);
    }
  }

  /** Where a forward page lies in the ranking of its table. */
  lemma ForwardPagePlace(s: Strategy, table: set<Row>, r: Request) returns (xs: seq<Row>, a: nat)
    requires Sound(s, table) && PageLimit(s, r) >= 1 && !IsBackward(r)
    requires r.after.Some? ==> Usable(s, r.after.value)
    ensures Ascending(s, xs) && (forall q :: q in xs <==> q in table) && Cut(s, r, xs, a)
    ensures var page, n := FetchPage(s, table, r), PageLimit(s, r);
      Rows(page) == xs[a..Min(a + n, |xs|)] && page.pageInfo.hasNextPage == (a + n < |xs|)
  {
    hide Selected, LexLess, KeyColumns, Cut, FetchPage;
    xs, a := RankingOf(s, table, false), 0;
    if r.after.Some? { a := CutExists(s, table, xs, r); } else { CutWithoutCursor(s, xs, r); }
    ForwardPage(s, table, xs, r, a);
    RankingAscends(s, xs, table);
  }

  /** The end cursor of a page is that of its last row. */
  lemma EndCursor(s: Strategy, table: set<Row>, r: Request)
    requires Sound(s, table) && PageLimit(s, r) >= 1
    ensures var page := FetchPage(s, table, r); var rows := Rows(page);
      |rows| > 0 ==> page.pageInfo.endCursor == Some(CursorFor(s, rows[|rows| - 1].node))
  {
    hide QueryRows, CursorFor, PageRows, Sound;
  }

  /** What one forward page guarantees, whatever the table was before and becomes later. */
  lemma ForwardPageFacts(s: Strategy, table: set<Row>, r: Request)
    requires Sound(s, table) && PageLimit(s, r) >= 1 && !IsBackward(r)
    requires r.after.Some? ==> Usable(s, r.after.value)
    ensures var page := FetchPage(s, table, r); var rows, more := Rows(page), page.pageInfo.hasNextPage;
      && Ascending(s, rows)
      && (forall i :: 0 <= i < |rows| ==> rows[i] in table && Selected(s, r, rows[i]))
      && (more ==> |rows| > 0)
      && (forall q :: q in table && Selected(s, r, q) ==>
            q in rows || (more && Before(s, Key(s, rows[|rows| - 1]), Key(s, q))))
  {
    hide Selected, LexLess, KeyColumns, FetchPage, Key, Sound;
    var xs, a := ForwardPagePlace(s, table, r);
    var rows := Rows(FetchPage(s, table, r));
    assert forall i :: 0 <= i < |rows| ==> rows[i] == xs[a + i];
    forall q | q in table && Selected(s, r, q)
      ensures q in rows || (|rows| > 0 && Before(s, Key(s, rows[|rows| - 1]), Key(s, q)))
    {
      var i :| 0 <= i < |xs| && xs[i] == q;
      if i < a + |rows| { assert rows[i - a] == q; }
    }
  }

  predicate AllUsable(s: Strategy, rows: seq<Row>) {
    forall i :: 0 <= i < |rows| ==> SoundRow(s, rows[i])
  }

  /** The cursor after the rows returned so far. */
  function EndOf(s: Strategy, rows: seq<Row>): Option<Cursor> {
    if |rows| == 0 then None else Some(CursorFor(s, rows[|rows| - 1].node))
  }

  /** Past the rows returned so far. */
  ghost predicate Ahead(s: Strategy, rows: seq<Row>, key: seq<Cell>)
    requires |key| == |KeyColumns(s)|
  {
    |rows| > 0 ==> Before(s, Key(s, rows[|rows| - 1]), key)
  }

  lemma SelectedIsAhead(s: Strategy, rows: seq<Row>, size: int, q: Row)
    requires AllUsable(s, rows) && NamedKeys(s)
    ensures var r := Forward(size, EndOf(s, rows));
      (r.after.Some? ==> Usable(s, r.after.value)) && (Selected(s, r, q) <==> Ahead(s, rows, Key(s, q)))
  {
    hide LexLess, TextTruth, SeekSql, NamedKeys;
    if |rows| > 0 {
      assert SoundRow(s, rows[|rows| - 1]);
      SelectedMeans(s, Forward(size, EndOf(s, rows)), q);
    }
  }

  lemma AscendingAppend(s: Strategy, rows: seq<Row>, more: seq<Row>)
    requires Ascending(s, rows) && Ascending(s, more)
    requires forall j :: 0 <= j < |more| ==> Ahead(s, rows, Key(s, more[j]))
    ensures Ascending(s, rows + more)
  {
    hide LexLess, KeyColumns, Key;
    forall i, j | 0 <= i < |rows| && 0 <= j < |more| ensures Before(s, Key(s, rows[i]), Key(s, more[j])) {
      var last := |rows| - 1;
      assert Ahead(s, rows, Key(s, more[j]));
      if i < last { LexTransitive(KeyColumns(s), Key(s, rows[i]), Key(s, rows[last]), Key(s, more[j])); }
    }
  }

  /** One more page: it extends the run's rows in order, and skips no row of its table that lay ahead. */
  lemma NextPage(s: Strategy, table: set<Row>, size: int, rows: seq<Row>)
    requires Sound(s, table) && size >= 1 && s.maxPageSize >= 1
    requires Ascending(s, rows) && AllUsable(s, rows)
    ensures var page := FetchPage(s, table, Forward(size, EndOf(s, rows))); var all := rows + Rows(page);
      && Ascending(s, all) && AllUsable(s, all)
      && (page.pageInfo.hasNextPage ==> |Rows(page)| > 0 && page.pageInfo.endCursor == EndOf(s, all))
      && (forall q :: q in table && Ahead(s, rows, Key(s, q)) ==>
            q in Rows(page) || (page.pageInfo.hasNextPage && Ahead(s, all, Key(s, q))))
  {
    hide LexLess, KeyColumns, FetchPage, Key, Selected, SoundRow;
    var r := Forward(size, EndOf(s, rows));
    var page := FetchPage(s, table, r);
    forall q ensures Selected(s, r, q) <==> Ahead(s, rows, Key(s, q)) { SelectedIsAhead(s, rows, size, q); }
    if |rows| > 0 { SelectedIsAhead(s, rows, size, rows[0]); }
    ForwardPageFacts(s, table, r);
    EndCursor(s, table, r);
    AscendingAppend(s, rows, Rows(page));
    if |Rows(page)| > 0 { assert (rows + Rows(page))[|rows + Rows(page)| - 1] == Rows(page)[|Rows(page)| - 1]; }
  }

  lemma RunPrefix(s: Strategy, tables: seq<set<Row>>, sizes: seq<int>, pages: seq<Page>, n: nat)
    requires ForwardRun(s, tables, sizes, pages) && n <= |pages|
    ensures ForwardRun(s, tables[..n], sizes[..n], pages[..n])
  {
    hide FetchPage, Sound;
    assert forall i :: 0 <= i < n ==> RunRequest(sizes[..n], pages[..n], i) == RunRequest(sizes, pages, i);
  }

  ghost predicate Throughout(s: Strategy, tables: seq<set<Row>>, key: seq<Cell>) {
    |key| == |KeyColumns(s)| && forall i :: 0 <= i < |tables| ==> HasKey(s, tables[i], key)
  }

  /**
   * What a run keeps: its rows stand in strictly ascending key order, the end
   * cursor is that of the last of them, and a key present throughout has
   * either been returned or still lies ahead.
   */
  ghost predicate RunKeeps(s: Strategy, tables: seq<set<Row>>, pages: seq<Page>) {
    var rows, more := Returned(pages), |pages| > 0 ==> pages[|pages| - 1].pageInfo.hasNextPage;
    && Ascending(s, rows) && AllUsable(s, rows)
    && (|pages| > 0 && more ==> |rows| > 0 && pages[|pages| - 1].pageInfo.endCursor == EndOf(s, rows))
    && forall key :: Throughout(s, tables, key) ==> ReturnedKey(s, rows, key) || (more && Ahead(s, rows, key))
  }

  /** However the table changes between fetches, every run keeps it. */
  lemma {:induction false} RunInvariant(s: Strategy, tables: seq<set<Row>>, sizes: seq<int>, pages: seq<Page>)
    requires ForwardRun(s, tables, sizes, pages)
    ensures RunKeeps(s, tables, pages)
    decreases |pages|
  {
    hide FetchPage, Sound, RunKeeps;
    if |pages| == 0 {
      NoPageKeeps(s, tables);
    } else {
      var n := |pages| - 1;
      RunPrefix(s, tables, sizes, pages, n);
      hide ForwardRun;
      RunInvariant(s, tables[..n], sizes[..n], pages[..n]);
      RunStep(s, tables, sizes, pages);
    }
  }

  lemma NoPageKeeps(s: Strategy, tables: seq<set<Row>>)
    ensures RunKeeps(s, tables, [])
  {
    hide KeyColumns;
  }

  lemma RunStep(s: Strategy, tables: seq<set<Row>>, sizes: seq<int>, pages: seq<Page>)
    requires ForwardRun(s, tables, sizes, pages) && |pages| > 0
    requires RunKeeps(s, tables[..|pages| - 1], pages[..|pages| - 1])
    ensures RunKeeps(s, tables, pages)
  {
    hide LexLess, KeyColumns, FetchPage, Key, Sound, SoundRow, Ahead, Ascending, AllUsable;
    var n := |pages| - 1;
    var before, page := Returned(pages[..n]), pages[n];
    assert RunRequest(sizes, pages, n) == Forward(sizes[n], EndOf(s, before));
    NextPage(s, tables[n], sizes[n], before);
    assert page == FetchPage(s, tables[n], Forward(sizes[n], EndOf(s, before)));
    var rows := before + Rows(page);
    forall key | Throughout(s, tables, key)
      ensures ReturnedKey(s, rows, key) || (page.pageInfo.hasNextPage && Ahead(s, rows, key))
    {
      assert Throughout(s, tables[..n], key) && HasKey(s, tables[n], key);
      KeyStays(s, tables[n], before, page, key);
    }
  }

  /** A key that was returned, or lay ahead and is in the table, has been returned after the page or lies ahead of it. */
  lemma KeyStays(s: Strategy, table: set<Row>, before: seq<Row>, page: Page, key: seq<Cell>)
    requires |key| == |KeyColumns(s)| && HasKey(s, table, key)
    requires ReturnedKey(s, before, key) || Ahead(s, before, key)
    requires forall q :: q in table && |Key(s, q)| == |KeyColumns(s)| && Ahead(s, before, Key(s, q)) ==>
      q in Rows(page) || (page.pageInfo.hasNextPage && Ahead(s, before + Rows(page), Key(s, q)))
    ensures ReturnedKey(s, before + Rows(page), key) || (page.pageInfo.hasNextPage && Ahead(s, before + Rows(page), key))
  {
    hide Ahead, KeyColumns, Key;
    var rows := before + Rows(page);
    if ReturnedKey(s, before, key) {
      var i :| 0 <= i < |before| && Key(s, before[i]) == key;
      assert Key(s, rows[i]) == key;
    } else {
      var q :| q in table && Key(s, q) == key;
      if q in Rows(page) {
        var i :| 0 <= i < |Rows(page)| && Rows(page)[i] == q;
        assert rows[|before| + i] == q;
      }
    }
  }

  /** No key twice, and a finished run has returned every key that was there throughout. */
  lemma RunIsStable(s: Strategy, tables: seq<set<Row>>, sizes: seq<int>, pages: seq<Page>)
    requires ForwardRun(s, tables, sizes, pages) && |pages| > 0
    ensures var rows := Returned(pages);
      && (forall i, j :: 0 <= i < j < |rows| ==> Key(s, rows[i]) != Key(s, rows[j]))
      && (!pages[|pages| - 1].pageInfo.hasNextPage ==>
            forall key :: Throughout(s, tables, key) ==> ReturnedKey(s, rows, key))
  {
    RunInvariant(s, tables, sizes, pages);
    var rows := Returned(pages);
    forall i, j | 0 <= i < j < |rows| ensures Key(s, rows[i]) != Key(s, rows[j]) {
      LexAsymmetric(KeyColumns(s), Key(s, rows[i]), Key(s, rows[j]));
    }
  }

  // ---------------------------------------------- an unchanging table

  lemma {:induction false} DistinctFit<T>(xs: seq<T>, t: set<T>)
    requires forall i :: 0 <= i < |xs| ==> xs[i] in t
    requires forall i, j :: 0 <= i < j < |xs| ==> xs[i] != xs[j]
    ensures |xs| <= |t|
  {
    if |xs| > 0 { DistinctFit(xs[1..], t - {xs[0]}); }
  }

  function Constant(table: set<Row>, n: nat): (tables: seq<set<Row>>)
    ensures |tables| == n && forall i :: 0 <= i < n ==> tables[i] == table
  {
    seq(n, _ => table)
  }

  /** A run on an unchanging table. */
  ghost predicate StillRun(s: Strategy, table: set<Row>, sizes: seq<int>, pages: seq<Page>) {
    ForwardRun(s, Constant(table, |pages|), sizes, pages)
  }

  lemma KeysNamed(s: Strategy, table: set<Row>)
    requires Sound(s, table)
    ensures NamedKeys(s)
  {
  }

  /** Every page with a successor adds rows, and all rows come from the table. */
  lemma {:induction false} RunRows(s: Strategy, table: set<Row>, sizes: seq<int>, pages: seq<Page>)
    requires StillRun(s, table, sizes, pages)
    ensures forall i :: 0 <= i < |Returned(pages)| ==> Returned(pages)[i] in table
    ensures |Returned(pages)| >= |pages| - 1
    ensures |pages| > 0 && pages[|pages| - 1].pageInfo.hasNextPage ==> |Returned(pages)| >= |pages|
    decreases |pages|
  {
    hide LexLess, KeyColumns, FetchPage, Key, Sound, SoundRow, Selected, Before, NamedKeys, Ascending;
    if |pages| > 0 {
      var n := |pages| - 1;
      var before := Returned(pages[..n]);
      RunPrefix(s, Constant(table, |pages|), sizes, pages, n);
      assert Constant(table, |pages|)[..n] == Constant(table, n);
      RunRows(s, table, sizes[..n], pages[..n]);
      RunInvariant(s, Constant(table, n), sizes[..n], pages[..n]);
      assert RunRequest(sizes, pages, n) == Forward(sizes[n], EndOf(s, before));
      NextPage(s, table, sizes[n], before);
      var r := Forward(sizes[n], EndOf(s, before));
      KeysNamed(s, table);
      if |before| > 0 { SelectedIsAhead(s, before, sizes[n], before[0]); }
      ForwardPageFacts(s, table, r);
    }
  }

  /**
   * Feeding endCursor back while hasNextPage terminates, whatever the page
   * sizes; and the rows of a finished run are the table in sort order, each once.
   */
  lemma RunEnumerates(s: Strategy, table: set<Row>, sizes: seq<int>, pages: seq<Page>)
    requires StillRun(s, table, sizes, pages) && |pages| > 0
    ensures |pages| <= |table| + 1
    ensures !pages[|pages| - 1].pageInfo.hasNextPage ==> Returned(pages) == RankingOf(s, table, false)
  {
    hide LexLess, KeyColumns, FetchPage, Key, SoundRow;
    var rows, tables := Returned(pages), Constant(table, |pages|);
    assert tables[0] == table;
    RunRows(s, table, sizes, pages);
    RunInvariant(s, tables, sizes, pages);
    RunIsStable(s, tables, sizes, pages);
    DistinctFit(rows, table);
    if !pages[|pages| - 1].pageInfo.hasNextPage {
      forall q | q in table ensures q in rows {
        assert forall i :: 0 <= i < |tables| ==> HasKey(s, tables[i], Key(s, q));
        assert Throughout(s, tables, Key(s, q));
        var i :| 0 <= i < |rows| && Key(s, rows[i]) == Key(s, q);
        KeyDeterminesRow(s, table, rows[i], q);
      }
      assert Ranking(rows, table, OrderFor(s, false)) by {
        forall i, j | 0 <= i < j < |rows| ensures RowLess(OrderFor(s, false), rows[i], rows[j]) {
          RowOrder(s, false, rows[i], rows[j]);
        }
      }
      RankingUnique(s, table, false, rows, RankingOf(s, table, false));
    }
  }

  /** A client that keeps asking while hasNextPage finishes, from any run so far. */
  lemma {:induction false} RunFinishes(s: Strategy, table: set<Row>, size: int, sizes: seq<int>, pages: seq<Page>)
    returns (sizes': seq<int>, pages': seq<Page>)
    requires Sound(s, table) && size >= 1 && s.maxPageSize >= 1 && StillRun(s, table, sizes, pages)
    ensures StillRun(s, table, sizes', pages') && |pages'| > 0 && !pages'[|pages'| - 1].pageInfo.hasNextPage
    ensures Returned(pages') == RankingOf(s, table, false)
    decreases |table| + 1 - |pages|
  {
    hide FetchPage, Sound, ForwardRun, Returned;
    if |pages| > 0 && !pages[|pages| - 1].pageInfo.hasNextPage {
      sizes', pages' := sizes, pages;
      RunEnumerates(s, table, sizes, pages);
    } else {
      var next := sizes + [size];
      var r := Forward(size, if |pages| == 0 then None else pages[|pages| - 1].pageInfo.endCursor);
      var longer := pages + [FetchPage(s, table, r)];
      RunExtends(s, table, sizes, pages, size, r);
      RunEnumerates(s, table, next, longer);
      sizes', pages' := RunFinishes(s, table, size, next, longer);
    }
  }

  lemma RunExtends(s: Strategy, table: set<Row>, sizes: seq<int>, pages: seq<Page>, size: int, r: Request)
    requires Sound(s, table) && size >= 1 && StillRun(s, table, sizes, pages) && s.maxPageSize >= 1
    requires |pages| > 0 ==> pages[|pages| - 1].pageInfo.hasNextPage
    requires r == Forward(size, if |pages| == 0 then None else pages[|pages| - 1].pageInfo.endCursor)
    ensures StillRun(s, table, sizes + [size], pages + [FetchPage(s, table, r)])
  {
    hide FetchPage, Sound;
    var sizes', pages' := sizes + [size], pages + [FetchPage(s, table, r)];
    forall i | 0 <= i < |pages'|
      ensures pages'[i] == FetchPage(s, table, RunRequest(sizes', pages', i))
    {
      RequestsStay(sizes, pages, size, FetchPage(s, table, r), i);
      assert i < |pages| ==> Constant(table, |pages|)[i] == table;
    }
  }

  lemma RequestsStay(sizes: seq<int>, pages: seq<Page>, size: int, page: Page, i: nat)
    requires |sizes| == |pages| && i <= |pages|
    ensures RunRequest(sizes + [size], pages + [page], i) ==
      if i < |pages| then RunRequest(sizes, pages, i)
      else Forward(size, if |pages| == 0 then None else pages[|pages| - 1].pageInfo.endCursor)
  {
  }

  // ------------------------------------------- backward undoes forward

  /** The cursor of a row cuts the ranking right at that row. */
  lemma CutAtRow(s: Strategy, table: set<Row>, xs: seq<Row>, p: nat, size: int)
    requires Sound(s, table) && Ranking(xs, table, KeyColumns(s)) && p < |xs| && size >= 1
    ensures Cut(s, Backward(size, Some(CursorFor(s, xs[p].node))), xs, p)
    ensures Cut(s, Forward(size, Some(CursorFor(s, xs[p].node))), xs, p + 1)
  {
    hide LexLess, KeyColumns, Key, Selected;
    var c := CursorFor(s, xs[p].node);
    assert xs[p] in table && SoundRow(s, xs[p]);
    RankingAscends(s, xs, table);
    forall i | 0 <= i < |xs|
      ensures Selected(s, Backward(size, Some(c)), xs[i]) <==> i < p
      ensures Selected(s, Forward(size, Some(c)), xs[i]) <==> p + 1 <= i
    {
      assert xs[i] in table && SoundRow(s, xs[i]);
      SelectedMeans(s, Backward(size, Some(c)), xs[i]);
      SelectedMeans(s, Forward(size, Some(c)), xs[i]);
      if Before(s, Key(s, xs[i]), Key(s, xs[p])) {
        LexAsymmetric(KeyColumns(s), Key(s, xs[i]), Key(s, xs[p]));
      } else if Before(s, Key(s, xs[p]), Key(s, xs[i])) {
        LexAsymmetric(KeyColumns(s), Key(s, xs[p]), Key(s, xs[i]));
      }
    }
  }

  /**
   * `last: k, before: startCursor` of any page yields exactly the k rows just
   * before that page in forward order, fewer at the start of the table, and
   * hasPreviousPage is true exactly when earlier rows remain.
   */
  lemma BackwardFromPage(s: Strategy, table: set<Row>, xs: seq<Row>, r: Request, p: nat, k: int)
    requires Sound(s, table) && Ranking(xs, table, KeyColumns(s)) && PageLimit(s, r) >= 1 && k >= 1 && s.maxPageSize >= 1
    requires |Rows(FetchPage(s, table, r))| > 0 && p < |xs| && Rows(FetchPage(s, table, r))[0] == xs[p]
    ensures var n, back := Min(k, s.maxPageSize), FetchPage(s, table, Backward(k, FetchPage(s, table, r).pageInfo.startCursor));
      && Rows(back) == xs[if p > n then p - n else 0..p]
      && back.pageInfo.hasPreviousPage == (p > n)
  {
    hide LexLess, KeyColumns, Key, Selected, QueryRows;
    var page := FetchPage(s, table, r);
    assert page.pageInfo.startCursor == Some(CursorFor(s, xs[p].node));
    CutAtRow(s, table, xs, p, k);
    BackwardPage(s, table, xs, Backward(k, page.pageInfo.startCursor), p);
  }

  /** The page after a full page begins with the row behind its last. */
  lemma PageAfter(s: Strategy, table: set<Row>, xs: seq<Row>, r: Request, a: nat, size: int)
    requires Sound(s, table) && Ranking(xs, table, KeyColumns(s)) && size >= 1 && s.maxPageSize >= 1
    requires PageLimit(s, r) >= 1 && a + PageLimit(s, r) < |xs| && Rows(FetchPage(s, table, r)) == xs[a..a + PageLimit(s, r)]
    ensures var next := FetchPage(s, table, Forward(size, FetchPage(s, table, r).pageInfo.endCursor));
      |Rows(next)| > 0 && Rows(next)[0] == xs[a + PageLimit(s, r)]
  {
    hide LexLess, KeyColumns, Key, Selected, FetchPage, Cut, Ranking, Usable, SoundRow;
    var page, n := FetchPage(s, table, r), PageLimit(s, r);
    EndCursor(s, table, r);
    assert Rows(page)[n - 1] == xs[a + n - 1];
    CutAtRow(s, table, xs, a + n - 1, size);
    ForwardPage(s, table, xs, Forward(size, page.pageInfo.endCursor), a + n);
  }

  /** Going back from the page after a page, with the same size, returns that page's rows. */
  lemma BackwardUndoesForward(s: Strategy, table: set<Row>, size: int, after: Option<Cursor>)
    requires Sound(s, table) && size >= 1 && s.maxPageSize >= 1 && (after.Some? ==> Usable(s, after.value))
    requires FetchPage(s, table, Forward(size, after)).pageInfo.hasNextPage
    ensures var page := FetchPage(s, table, Forward(size, after));
      var next := FetchPage(s, table, Forward(size, page.pageInfo.endCursor));
      var back := FetchPage(s, table, Backward(size, next.pageInfo.startCursor));
      |Rows(next)| > 0 && Rows(back) == Rows(page) && back.edges == page.edges
  {
    hide LexLess, KeyColumns, Key, Selected, FetchPage, Cut, Ranking, Usable, SoundRow;
    var r, xs, a, n := Forward(size, after), RankingOf(s, table, false), 0, Min(size, s.maxPageSize);
    if after.Some? { a := CutExists(s, table, xs, r); } else { CutWithoutCursor(s, xs, r); }
    ForwardPage(s, table, xs, r, a);
    var page := FetchPage(s, table, r);
    var r' := Forward(size, page.pageInfo.endCursor);
    PageAfter(s, table, xs, r, a, size);
    BackwardFromPage(s, table, xs, r', a + n, size);
    SameEdges(s, table, r, Backward(size, FetchPage(s, table, r').pageInfo.startCursor));
  }

  /** Pages with the same rows have the same edges. */
  lemma SameEdges(s: Strategy, table: set<Row>, r: Request, q: Request)
    requires Sound(s, table) && PageLimit(s, r) >= 1 && PageLimit(s, q) >= 1
    requires Rows(FetchPage(s, table, r)) == Rows(FetchPage(s, table, q))
    ensures FetchPage(s, table, r).edges == FetchPage(s, table, q).edges
  {
    hide QueryRows;
    var e, f := FetchPage(s, table, r).edges, FetchPage(s, table, q).edges;
    forall i | 0 <= i < |e| ensures e[i] == f[i] {
      assert Rows(FetchPage(s, table, r))[i] == Rows(FetchPage(s, table, q))[i];
    }
  }

  // ------------------------------------------------ which tables can be paged

  /** The rows, each once, each selected after the cursor of the one before: what pages of one row return, however the
      database ranks rows that the key does not tell apart. */
  ghost predicate OneByOne(s: Strategy, table: set<Row>, rows: seq<Row>) {
    && (forall r :: r in rows <==> r in table)
    && (forall i, j :: 0 <= i < j < |rows| ==> rows[i] != rows[j])
    && forall i :: 0 <= i < |rows| - 1 ==> Selected(s, Forward(1, Some(CursorFor(s, rows[i].node))), rows[i + 1])
  }

  /** Where cursors carry the keys, the rows of a table can be had one by one exactly when any two of them are told apart: a NULL
      may only stand behind columns that already tell its row from the others. */
  lemma EnumerableExactly(s: Strategy, table: set<Row>)
    requires NamedKeys(s) && forall r :: r in table ==> SoundRow(s, r)
    ensures (exists rows :: OneByOne(s, table, rows)) <==> Sound(s, table)
  {
    hide LexLess, KeyColumns, Key, Selected, SoundRow;
    if rows :| OneByOne(s, table, rows) {
      OneByOneAscends(s, table, rows, |rows|);
      forall r, q | r in table && q in table && r != q ensures Separate(s, r, q) {
        var i :| 0 <= i < |rows| && rows[i] == r;
        var j :| 0 <= j < |rows| && rows[j] == q;
        assert rows[..|rows|] == rows;
      }
    }
    if Sound(s, table) {
      var rows := RankingOf(s, table, false);
      RankingAscends(s, rows, table);
      forall i, j | 0 <= i < j < |rows| ensures rows[i] != rows[j] {
        LexAsymmetric(KeyColumns(s), Key(s, rows[i]), Key(s, rows[j]));
      }
      forall i | 0 <= i < |rows| - 1 ensures Selected(s, Forward(1, Some(CursorFor(s, rows[i].node))), rows[i + 1]) {
        AfterRow(s, rows[i], rows[i + 1]);
      }
      assert OneByOne(s, table, rows);
    }
  }

  lemma AfterRow(s: Strategy, r: Row, q: Row)
    requires SoundRow(s, r) && NamedKeys(s)
    ensures Selected(s, Forward(1, Some(CursorFor(s, r.node))), q) <==> Before(s, Key(s, r), Key(s, q))
  {
    hide LexLess, Selected, KeyColumns;
    SelectedMeans(s, Forward(1, Some(CursorFor(s, r.node))), q);
  }

  lemma {:induction false} OneByOneAscends(s: Strategy, table: set<Row>, rows: seq<Row>, n: nat)
    requires NamedKeys(s) && (forall r :: r in table ==> SoundRow(s, r)) && OneByOne(s, table, rows) && n <= |rows|
    ensures Ascending(s, rows[..n])
  {
    hide LexLess, KeyColumns, Key, Selected, SoundRow;
    if n > 1 {
      OneByOneAscends(s, table, rows, n - 1);
      AfterRow(s, rows[n - 2], rows[n - 1]);
      AscendingAppend(s, rows[..n - 1], [rows[n - 1]]);
      assert rows[..n] == rows[..n - 1] + [rows[n - 1]];
    }
  }
}
