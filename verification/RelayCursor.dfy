/**
 * Relay cursor pagination, the SQL half: the expanded OR-of-ANDs seek condition
 * over the sort columns, and the two text rewrites that number its placeholders.
 */
module RelayCursor {
  import opened Options
  import opened SqlText
  import opened ThreeValued
  import SqlUtils

  datatype Direction = Asc | Desc

  datatype SortColumn = SortColumn(column: string, direction: Direction)

  /** A column value: SQL NULL, or a value of a countable, totally ordered domain. */
  datatype Cell = Null | Val(v: real)

  datatype Cursor = Cursor(values: seq<Cell>, id: Cell)

  datatype Strategy = Strategy(idColumn: string, sortColumns: seq<SortColumn>, idField: string, maxPageSize: int)

  /** The sort columns, with the id column as tie-breaker unless it is already one of them. */
  function KeyColumns(s: Strategy): (cols: seq<SortColumn>)
    ensures |cols| > 0
  {
    if HasId(s) then s.sortColumns else s.sortColumns + [SortColumn(s.idColumn, Asc)]
  }

  predicate HasId(s: Strategy) {
    exists c :: c in s.sortColumns && c.column == s.idColumn
  }

  function Flip(d: Direction): Direction {
    if d == Asc then Desc else Asc
  }

  /** The values the seek condition compares with, in the order the code collects them. */
  function CursorValues(s: Strategy, cursor: Cursor): seq<Cell> {
    if HasId(s) then cursor.values else cursor.values + [cursor.id]
  }

  // ------------------------------------------------- the seek condition

  datatype CmpOp = Eq | Lt | Gt

  datatype Atom = Atom(column: string, op: CmpOp, hole: Piece)

  function OpText(op: CmpOp): string {
    match op
    case Eq => "="
    case Lt => "<"
    case Gt => ">"
  }

  function AtomLead(column: string, op: CmpOp): string {
    SqlUtils.QuoteIdentifier(column) + " " + OpText(op) + " "
  }

  function AtomPieces(a: Atom): seq<Piece> {
    [Lit(AtomLead(a.column, a.op)), a.hole]
  }

  function ConjunctionPieces(row: seq<Atom>): seq<Piece> {
    JoinPieces(seq(|row|, j requires 0 <= j < |row| => AtomPieces(row[j])), " AND ")
  }

  function PartPieces(row: seq<Atom>): seq<Piece> {
    [Lit("(")] + (ConjunctionPieces(row) + [Lit(")")])
  }

  function WherePieces(rows: seq<seq<Atom>>): seq<Piece> {
    JoinPieces(seq(|rows|, d requires 0 <= d < |rows| => PartPieces(rows[d])), " OR ")
  }

  /** The comparison that moves past the cursor in a column. */
  function StrictOp(dir: Direction, backward: bool): CmpOp {
    if backward then (if dir == Asc then Lt else Gt) else (if dir == Asc then Gt else Lt)
  }

  /**
   * How far the two rewrites have come: cursor marks of columns below `values`
   * are final marks, and final marks below `numbered` are parameters from `offset` on.
   */
  datatype Stage = Stage(values: nat, offset: nat, numbered: nat)

  /** Final marks handed out to columns before column j: n for the first, n - 1 for the next, and so on. */
  function Base(n: nat, j: nat): nat
    requires j <= n
  {
    if j == 0 then 0 else Base(n, j - 1) + (n - (j - 1))
  }

  /** The final mark of column j in the part of depth d. */
  function Slot(n: nat, d: nat, j: nat): nat
    requires j <= d < n
  {
    Base(n, j) + (d - j)
  }

  function HoleAt(n: nat, st: Stage, d: nat, j: nat): Piece
    requires j <= d < n
  {
    if st.values <= j then CursorMark(j)
    else if Slot(n, d, j) < st.numbered then Param(st.offset + Slot(n, d, j))
    else FinalMark(Slot(n, d, j))
  }

  function OpAt(cols: seq<SortColumn>, backward: bool, d: nat, j: nat): CmpOp
    requires j <= d < |cols|
  {
    if j < d then Eq else StrictOp(cols[d].direction, backward)
  }

  /** The part of depth d: the first d columns equal the cursor and column d is strictly past it. */
  function Part(cols: seq<SortColumn>, backward: bool, st: Stage, d: nat): (row: seq<Atom>)
    requires d < |cols|
    ensures |row| == d + 1
    ensures forall j :: 0 <= j <= d ==> row[j] == Atom(cols[j].column, OpAt(cols, backward, d, j), HoleAt(|cols|, st, d, j))
  {
    seq(d + 1, j requires 0 <= j <= d => Atom(cols[j].column, OpAt(cols, backward, d, j), HoleAt(|cols|, st, d, j)))
  }

  function Parts(cols: seq<SortColumn>, backward: bool, st: Stage): (rows: seq<seq<Atom>>)
    ensures |rows| == |cols|
    ensures forall d :: 0 <= d < |cols| ==> rows[d] == Part(cols, backward, st, d)
  {
    seq(|cols|, d requires 0 <= d < |cols| => Part(cols, backward, st, d))
  }

  function SeekPieces(cols: seq<SortColumn>, backward: bool, st: Stage): seq<Piece> {
    WherePieces(Parts(cols, backward, st))
  }

  // ----------------------------------------------------- slot arithmetic

  lemma {:induction false} BaseGrows(n: nat, i: nat, j: nat)
    requires i < j <= n
    ensures Base(n, i) + (n - i) <= Base(n, j)
  {
    if i < j - 1 { BaseGrows(n, i, j - 1); }
  }

  /** n(n+1)/2 parameters in all. */
  lemma {:induction false} BaseTotal(n: nat, j: nat)
    requires j <= n
    ensures 2 * Base(n, j) == j * (2 * n - j + 1)
  {
    if j > 0 {
      BaseTotal(n, j - 1);
      calc {
        2 * Base(n, j);
        (j - 1) * (2 * n - (j - 1) + 1) + 2 * (n - (j - 1));
        j * (2 * n - j + 1);
      }
    }
  }

  /** Different places have different slots, and every slot lies below the total. */
  lemma SlotsDistinct(n: nat, d: nat, j: nat, e: nat, i: nat)
    requires j <= d < n && i <= e < n
    ensures Slot(n, d, j) == Slot(n, e, i) ==> d == e && j == i
    ensures Base(n, j) <= Slot(n, d, j) < Base(n, j + 1) <= Base(n, n)
  {
    if j < i { BaseGrows(n, j, i); } else if i < j { BaseGrows(n, i, j); }
    if j + 1 < n { BaseGrows(n, j + 1, n); }
  }

  // -------------------------------------------------- the first rewrite

  /** Rewriting a joined list rewrites each element, the counter running on from one to the next. */
  lemma {:induction false} ReplaceJoined(
      xs: seq<seq<Piece>>, ys: seq<seq<Piece>>, sep: string, mark: Piece, repl: nat -> Piece, ks: seq<nat>)
    requires !mark.Lit? && |xs| == |ys| && |ks| == |xs| + 1
    requires forall t :: 0 <= t < |xs| ==>
      ReplacePieces(xs[t], mark, repl, ks[t]) == ys[t] && ks[t + 1] == ks[t] + Count(xs[t], mark)
    ensures ReplacePieces(JoinPieces(xs, sep), mark, repl, ks[0]) == JoinPieces(ys, sep)
    ensures ks[0] + Count(JoinPieces(xs, sep), mark) == ks[|xs|]
  {
    if |xs| > 1 {
      var rest := [Lit(sep)] + JoinPieces(xs[1..], sep);
      ReplaceJoined(xs[1..], ys[1..], sep, mark, repl, ks[1..]);
      ReplacePiecesCons(Lit(sep), JoinPieces(xs[1..], sep), mark, repl, ks[1]);
      ReplacePiecesConcat(xs[0], rest, mark, repl, ks[0]);
    }
  }

  lemma ReplaceAtom(a: Atom, mark: Piece, repl: nat -> Piece, k: nat)
    requires !mark.Lit?
    ensures ReplacePieces(AtomPieces(a), mark, repl, k) == AtomPieces(if a.hole == mark then a.(hole := repl(k)) else a)
    ensures Count(AtomPieces(a), mark) == if a.hole == mark then 1 else 0
  {
    var lead := Lit(AtomLead(a.column, a.op));
    assert AtomPieces(a) == [lead] + ([a.hole] + []);
    ReplacePiecesCons(lead, [a.hole] + [], mark, repl, k);
    ReplacePiecesCons(a.hole, [], mark, repl, k);
  }

  /** What rewriting one mark does to the atoms of a part, and to the counter. */
  predicate RewrittenRow(row: seq<Atom>, row': seq<Atom>, mark: Piece, repl: nat -> Piece, ks: seq<nat>) {
    && |row| == |row'| && |ks| == |row| + 1
    && (forall t :: 0 <= t < |row| ==> row'[t] == if row[t].hole == mark then row[t].(hole := repl(ks[t])) else row[t])
    && (forall t :: 0 <= t < |row| ==> ks[t + 1] == ks[t] + if row[t].hole == mark then 1 else 0)
  }

  lemma ReplaceConjunction(row: seq<Atom>, row': seq<Atom>, mark: Piece, repl: nat -> Piece, ks: seq<nat>)
    requires !mark.Lit? && RewrittenRow(row, row', mark, repl, ks)
    ensures ReplacePieces(ConjunctionPieces(row), mark, repl, ks[0]) == ConjunctionPieces(row')
    ensures ks[0] + Count(ConjunctionPieces(row), mark) == ks[|row|]
  {
    var xs := seq(|row|, j requires 0 <= j < |row| => AtomPieces(row[j]));
    var ys := seq(|row'|, j requires 0 <= j < |row'| => AtomPieces(row'[j]));
    forall t | 0 <= t < |xs|
      ensures ReplacePieces(xs[t], mark, repl, ks[t]) == ys[t] && ks[t + 1] == ks[t] + Count(xs[t], mark)
    {
      ReplaceAtom(row[t], mark, repl, ks[t]);
    }
    ReplaceJoined(xs, ys, " AND ", mark, repl, ks);
  }

  lemma ReplaceInParens(ps: seq<Piece>, mark: Piece, repl: nat -> Piece, k: nat)
    requires !mark.Lit?
    ensures var open, close := [Lit("(")], [Lit(")")];
      && ReplacePieces(open + (ps + close), mark, repl, k) == open + (ReplacePieces(ps, mark, repl, k) + close)
      && Count(open + (ps + close), mark) == Count(ps, mark)
  {
    var close := [Lit(")")];
    ReplacePiecesConcat(ps, close, mark, repl, k);
    ReplacePiecesCons(Lit("("), ps + close, mark, repl, k);
  }

  lemma ReplacePart(row: seq<Atom>, row': seq<Atom>, mark: Piece, repl: nat -> Piece, ks: seq<nat>)
    requires !mark.Lit? && RewrittenRow(row, row', mark, repl, ks)
    ensures ReplacePieces(PartPieces(row), mark, repl, ks[0]) == PartPieces(row')
    ensures ks[0] + Count(PartPieces(row), mark) == ks[|row|]
  {
    ReplaceConjunction(row, row', mark, repl, ks);
    ReplaceInParens(ConjunctionPieces(row), mark, repl, ks[0]);
  }

  function AsFinal(k: nat): Piece {
    FinalMark(k)
  }

  /** The first rewrite, for column i: one mark in every part of depth at least i. */
  lemma RewriteColumnInPart(cols: seq<SortColumn>, backward: bool, i: nat, d: nat, k: nat)
    requires i < |cols| && d < |cols|
    requires i <= d ==> k == Slot(|cols|, d, i)
    ensures var st, st' := Stage(i, 0, 0), Stage(i + 1, 0, 0);
      && ReplacePieces(PartPieces(Part(cols, backward, st, d)), CursorMark(i), AsFinal, k)
           == PartPieces(Part(cols, backward, st', d))
      && Count(PartPieces(Part(cols, backward, st, d)), CursorMark(i)) == if i <= d then 1 else 0
  {
    var row, row' := Part(cols, backward, Stage(i, 0, 0), d), Part(cols, backward, Stage(i + 1, 0, 0), d);
    var ks: seq<nat> := seq(d + 2, t => if t > i then k + 1 else k);
    assert RewrittenRow(row, row', CursorMark(i), AsFinal, ks);
    ReplacePart(row, row', CursorMark(i), AsFinal, ks);
  }

  lemma RewriteColumn(cols: seq<SortColumn>, backward: bool, i: nat)
    requires i < |cols|
    ensures ReplacePieces(SeekPieces(cols, backward, Stage(i, 0, 0)), CursorMark(i), AsFinal, Base(|cols|, i))
         == SeekPieces(cols, backward, Stage(i + 1, 0, 0))
    ensures Count(SeekPieces(cols, backward, Stage(i, 0, 0)), CursorMark(i)) == |cols| - i
  {
    hide JoinPieces, ReplacePieces, Count, Part, PartPieces, Base;
    var n := |cols|;
    var rows, rows' := Parts(cols, backward, Stage(i, 0, 0)), Parts(cols, backward, Stage(i + 1, 0, 0));
    var xs := seq(n, d requires 0 <= d < n => PartPieces(rows[d]));
    var ys := seq(n, d requires 0 <= d < n => PartPieces(rows'[d]));
    var ks: seq<nat> := seq(n + 1, d => Base(n, i) + if d <= i then 0 else d - i);
    forall d | 0 <= d < n
      ensures ReplacePieces(xs[d], CursorMark(i), AsFinal, ks[d]) == ys[d]
      ensures ks[d + 1] == ks[d] + Count(xs[d], CursorMark(i))
    {
      RewriteColumnInPart(cols, backward, i, d, ks[d]);
    }
    ReplaceJoined(xs, ys, " OR ", CursorMark(i), AsFinal, ks);
  }

  // ------------------------------------------------- the second rewrite

  /** A joined list whose elements are rewritten alike from every counter is rewritten element by element. */
  lemma {:induction false} ReplaceJoinedAlike(
      xs: seq<seq<Piece>>, ys: seq<seq<Piece>>, sep: string, mark: Piece, repl: nat -> Piece, k: nat)
    requires !mark.Lit? && |xs| == |ys|
    requires forall t, k: nat :: 0 <= t < |xs| ==> ReplacePieces(xs[t], mark, repl, k) == ys[t]
    ensures ReplacePieces(JoinPieces(xs, sep), mark, repl, k) == JoinPieces(ys, sep)
  {
    if |xs| > 1 {
      var k' := k + Count(xs[0], mark);
      ReplaceJoinedAlike(xs[1..], ys[1..], sep, mark, repl, k');
      ReplacePiecesCons(Lit(sep), JoinPieces(xs[1..], sep), mark, repl, k');
      ReplacePiecesConcat(xs[0], [Lit(sep)] + JoinPieces(xs[1..], sep), mark, repl, k);
    }
  }

  function AsParam(n: nat): nat -> Piece {
    (k: nat) => Param(n)
  }

  lemma NumberInPart(cols: seq<SortColumn>, backward: bool, st: Stage, d: nat, k: nat)
    requires d < |cols|
    ensures ReplacePieces(PartPieces(Part(cols, backward, st, d)), FinalMark(st.numbered), AsParam(st.offset + st.numbered), k)
         == PartPieces(Part(cols, backward, st.(numbered := st.numbered + 1), d))
  {
    hide JoinPieces, ReplacePieces, AtomPieces;
    var row, row' := Part(cols, backward, st, d), Part(cols, backward, st.(numbered := st.numbered + 1), d);
    var mark, repl := FinalMark(st.numbered), AsParam(st.offset + st.numbered);
    var xs := seq(d + 1, j requires 0 <= j < d + 1 => AtomPieces(row[j]));
    var ys := seq(d + 1, j requires 0 <= j < d + 1 => AtomPieces(row'[j]));
    forall t, k: nat | 0 <= t < d + 1 ensures ReplacePieces(xs[t], mark, repl, k) == ys[t] {
      ReplaceAtom(row[t], mark, repl, k);
    }
    ReplaceJoinedAlike(xs, ys, " AND ", mark, repl, k);
    ReplaceInParens(ConjunctionPieces(row), mark, repl, k);
  }

  /** One step of the second rewrite: the next final mark becomes the next parameter, wherever it stands. */
  lemma NumberNext(cols: seq<SortColumn>, backward: bool, st: Stage)
    ensures ReplacePieces(SeekPieces(cols, backward, st), FinalMark(st.numbered), AsParam(st.offset + st.numbered), 0)
         == SeekPieces(cols, backward, st.(numbered := st.numbered + 1))
  {
    hide JoinPieces, ReplacePieces, Part, PartPieces;
    var n, st' := |cols|, st.(numbered := st.numbered + 1);
    var rows, rows' := Parts(cols, backward, st), Parts(cols, backward, st');
    var xs := seq(n, d requires 0 <= d < n => PartPieces(rows[d]));
    var ys := seq(n, d requires 0 <= d < n => PartPieces(rows'[d]));
    var mark, repl := FinalMark(st.numbered), AsParam(st.offset + st.numbered);
    forall d, k: nat | 0 <= d < n ensures ReplacePieces(xs[d], mark, repl, k) == ys[d] {
      NumberInPart(cols, backward, st, d, k);
    }
    ReplaceJoinedAlike(xs, ys, " OR ", mark, repl, 0);
  }

  // -------------------------------------------------------- clean text

  /** Column names in which nothing can be taken for a placeholder. */
  predicate PlainColumns(s: Strategy) {
    Plain(s.idColumn) && forall c :: c in s.sortColumns ==> Plain(c.column)
  }

  lemma {:induction false} JoinClean(pss: seq<seq<Piece>>, sep: string)
    requires Plain(sep) && forall ps :: ps in pss ==> Clean(ps)
    ensures Clean(JoinPieces(pss, sep))
  {
    if |pss| > 0 { assert pss[0] in pss; }
    if |pss| > 1 { JoinClean(pss[1..], sep); }
  }

  lemma PartClean(row: seq<Atom>)
    requires forall a :: a in row ==> Plain(a.column) && !a.hole.Lit?
    ensures Clean(PartPieces(row))
  {
    var pss := seq(|row|, j requires 0 <= j < |row| => AtomPieces(row[j]));
    hide JoinPieces;
    forall ps | ps in pss ensures Clean(ps) {
      var j :| 0 <= j < |row| && ps == AtomPieces(row[j]);
      assert row[j] in row;
      AtomClean(row[j]);
    }
    JoinClean(pss, " AND ");
  }

  lemma AtomClean(a: Atom)
    requires Plain(a.column) && !a.hole.Lit?
    ensures Clean(AtomPieces(a))
  {
    SqlUtils.QuotingAddsNothing(a.column, '$');
  }

  lemma SeekClean(cols: seq<SortColumn>, backward: bool, st: Stage)
    requires forall c :: c in cols ==> Plain(c.column)
    ensures Clean(SeekPieces(cols, backward, st))
  {
    var rows := Parts(cols, backward, st);
    var pss := seq(|rows|, d requires 0 <= d < |rows| => PartPieces(rows[d]));
    forall ps | ps in pss ensures Clean(ps) {
      var d :| 0 <= d < |rows| && ps == PartPieces(rows[d]);
      PartClean(rows[d]);
    }
    JoinClean(pss, " OR ");
  }

  // --------------------------------------------------- the two methods

  /** The cursor parameters after the marks of the first m columns are rewritten. */
  function Repeated(value: Cell, n: nat): (cells: seq<Cell>)
    ensures |cells| == n && forall i :: 0 <= i < n ==> cells[i] == value
  {
    seq(n, _ => value)
  }

  function Collected(n: nat, values: seq<Cell>, m: nat): (ps: seq<Cell>)
    requires m <= n && m <= |values|
    ensures |ps| == Base(n, m)
  {
    if m == 0 then [] else Collected(n, values, m - 1) + Repeated(values[m - 1], n - (m - 1))
  }

  /** Every slot of a column holds that column's cursor value. */
  lemma {:induction false} CollectedAt(n: nat, values: seq<Cell>, m: nat, d: nat, j: nat)
    requires j < m <= n && m <= |values| && j <= d < n
    ensures Slot(n, d, j) < Base(n, m)
    ensures Collected(n, values, m)[Slot(n, d, j)] == values[j]
  {
    if j < m - 1 {
      CollectedAt(n, values, m - 1, d, j);
    }
  }

  datatype RawCriteria = RawCriteria(finalSql: string, cursorParams: seq<Cell>)

  class SelectBuilder {
    var conditions: seq<RawCriteria>
    var ordering: seq<SortColumn>
    var rowLimit: Option<int>

    constructor ()
      ensures conditions == [] && ordering == [] && rowLimit == None
    {
      conditions, ordering, rowLimit := [], [], None;
    }
  }

  function Cutoff(n: nat, values: seq<Cell>): nat {
    if |values| < n then |values| else n
  }

  /** The text of the condition of one column, as concatenated by the code. */
  function ConditionText(a: Atom): string {
    AtomLead(a.column, a.op) + PieceText(a.hole)
  }

  lemma RenderAtom(a: Atom)
    ensures Render(AtomPieces(a)) == ConditionText(a)
  {
    RenderCons(Lit(AtomLead(a.column, a.op)), [a.hole]);
    RenderOne(a.hole);
  }

  lemma RenderPart(row: seq<Atom>, texts: seq<string>)
    requires |texts| == |row|
    requires forall j :: 0 <= j < |row| ==> texts[j] == ConditionText(row[j])
    ensures Render(PartPieces(row)) == "(" + (Join(texts, " AND ") + ")")
  {
    var pss := seq(|row|, j requires 0 <= j < |row| => AtomPieces(row[j]));
    forall j | 0 <= j < |row| ensures RenderEach(pss)[j] == texts[j] { RenderAtom(row[j]); }
    assert RenderEach(pss) == texts;
    RenderJoin(pss, " AND ");
    RenderConcat(ConjunctionPieces(row), [Lit(")")]);
    RenderOne(Lit(")"));
    RenderCons(Lit("("), ConjunctionPieces(row) + [Lit(")")]);
  }

  lemma RenderSeek(rows: seq<seq<Atom>>, texts: seq<string>)
    requires |texts| == |rows| && forall d :: 0 <= d < |rows| ==> texts[d] == Render(PartPieces(rows[d]))
    ensures Render(WherePieces(rows)) == Join(texts, " OR ")
  {
    var pss := seq(|rows|, d requires 0 <= d < |rows| => PartPieces(rows[d]));
    assert RenderEach(pss) == texts;
    RenderJoin(pss, " OR ");
  }

  /** The text of the part of depth d: equality on the earlier columns, then the strict comparison. */
  method PartText(cols: seq<SortColumn>, backward: bool, depth: nat) returns (part: string)
    requires depth < |cols|
    ensures part == Render(PartPieces(Part(cols, backward, Stage(0, 0, 0), depth)))
  {
    hide Render, JoinPieces, Join, PartPieces, ConditionText;
    var conditions: seq<string> := [];
    ghost var row := Part(cols, backward, Stage(0, 0, 0), depth);
    for j := 0 to depth
      invariant |conditions| == j
      invariant forall t :: 0 <= t < j ==> conditions[t] == ConditionText(row[t])
    {
      conditions := conditions + [ConditionText(Atom(cols[j].column, Eq, CursorMark(j)))];
    }
    var op := StrictOp(cols[depth].direction, backward);
    conditions := conditions + [ConditionText(Atom(cols[depth].column, op, CursorMark(depth)))];
    RenderPart(row, conditions);
    part := "(" + (Join(conditions, " AND ") + ")");
  }

  /** The condition text before any rewriting. */
  method SeekText(cols: seq<SortColumn>, backward: bool) returns (whereSql: string)
    ensures whereSql == Render(SeekPieces(cols, backward, Stage(0, 0, 0)))
  {
    hide Render, JoinPieces, Join, PartPieces, WherePieces, Part;
    var parts: seq<string> := [];
    ghost var rows := Parts(cols, backward, Stage(0, 0, 0));
    for depth := 0 to |cols|
      invariant |parts| == depth
      invariant forall d :: 0 <= d < depth ==> parts[d] == Render(PartPieces(rows[d]))
    {
      var part := PartText(cols, backward, depth);
      parts := parts + [part];
    }
    whereSql := Join(parts, " OR ");
    RenderSeek(rows, parts);
  }

  function FinalText(k: nat): string {
    PieceText(FinalMark(k))
  }

  lemma RewriteText(cols: seq<SortColumn>, backward: bool, i: nat)
    requires i < |cols| && forall c :: c in cols ==> Plain(c.column)
    ensures var text, pat := Render(SeekPieces(cols, backward, Stage(i, 0, 0))), PieceText(CursorMark(i));
      && Replace(text, pat, FinalText, Base(|cols|, i)) == Render(SeekPieces(cols, backward, Stage(i + 1, 0, 0)))
      && Matches(text, pat) == |cols| - i
  {
    RewriteColumn(cols, backward, i);
    SeekClean(cols, backward, Stage(i, 0, 0));
    ReplaceMark(SeekPieces(cols, backward, Stage(i, 0, 0)), CursorMark(i), AsFinal, FinalText, Base(|cols|, i));
  }

  /** Columns beyond the sort columns: their marks do not occur, so rewriting them changes nothing. */
  lemma NoSuchColumn(cols: seq<SortColumn>, backward: bool, i: nat)
    requires |cols| <= i && forall c :: c in cols ==> Plain(c.column)
    ensures var st := Stage(|cols|, 0, 0); var text, pat := Render(SeekPieces(cols, backward, st)), PieceText(CursorMark(i));
      Matches(text, pat) == 0 && forall k: nat :: Replace(text, pat, FinalText, k) == text
  {
    hide Render, JoinPieces, Replace, Matches, ReplacePieces, Count, Decimal;
    var st := Stage(|cols|, 0, 0);
    var ps := SeekPieces(cols, backward, st);
    SeekClean(cols, backward, st);
    NoCursorMarks(cols, backward, i);
    NothingToReplace(ps, CursorMark(i), AsFinal, 0);
    forall k: nat ensures Replace(Render(ps), PieceText(CursorMark(i)), FinalText, k) == Render(ps) {
      NothingToReplace(ps, CursorMark(i), AsFinal, k);
      ReplaceMark(ps, CursorMark(i), AsFinal, FinalText, k);
    }
    ReplaceMark(ps, CursorMark(i), AsFinal, FinalText, 0);
  }

  lemma NoCursorMarks(cols: seq<SortColumn>, backward: bool, i: nat)
    ensures CursorMark(i) !in SeekPieces(cols, backward, Stage(|cols|, 0, 0))
  {
    var st := Stage(|cols|, 0, 0);
    var rows := Parts(cols, backward, st);
    var pss := seq(|rows|, d requires 0 <= d < |rows| => PartPieces(rows[d]));
    hide PartPieces, JoinPieces;
    forall ps | ps in pss ensures CursorMark(i) !in ps {
      var d :| 0 <= d < |rows| && ps == PartPieces(rows[d]);
      assert forall j :: 0 <= j < |rows[d]| ==> rows[d][j].hole != CursorMark(i);
      PartLacks(rows[d], CursorMark(i));
    }
    JoinLacks(pss, " OR ", CursorMark(i));
  }

  lemma PartLacks(row: seq<Atom>, mark: Piece)
    requires !mark.Lit? && forall j :: 0 <= j < |row| ==> row[j].hole != mark
    ensures mark !in PartPieces(row)
  {
    hide JoinPieces;
    var pss := seq(|row|, j requires 0 <= j < |row| => AtomPieces(row[j]));
    forall ps | ps in pss ensures mark !in ps {
      var j :| 0 <= j < |row| && ps == AtomPieces(row[j]);
    }
    JoinLacks(pss, " AND ", mark);
  }

  lemma {:induction false} JoinLacks(pss: seq<seq<Piece>>, sep: string, p: Piece)
    requires !p.Lit? && forall ps :: ps in pss ==> p !in ps
    ensures p !in JoinPieces(pss, sep)
  {
    if |pss| > 0 { assert pss[0] in pss; }
    if |pss| > 1 { JoinLacks(pss[1..], sep, p); }
  }

  lemma {:induction false} NothingToReplace(ps: seq<Piece>, mark: Piece, repl: nat -> Piece, k: nat)
    requires mark !in ps
    ensures ReplacePieces(ps, mark, repl, k) == ps && Count(ps, mark) == 0
  {
    if |ps| > 0 { NothingToReplace(ps[1..], mark, repl, k); }
  }

  /**
   * The first rewrite: each value's mark becomes fresh final marks, one
   * parameter for each. Values beyond the columns find no mark, and marks
   * beyond the values stay in the text.
   */
  method RewriteCursorMarks(cols: seq<SortColumn>, backward: bool, whereSql: string, values: seq<Cell>)
    returns (finalSql: string, cursorParams: seq<Cell>)
    requires whereSql == Render(SeekPieces(cols, backward, Stage(0, 0, 0)))
    requires forall c :: c in cols ==> Plain(c.column)
    ensures var m := Cutoff(|cols|, values);
      finalSql == Render(SeekPieces(cols, backward, Stage(m, 0, 0))) && cursorParams == Collected(|cols|, values, m)
  {
    hide Render, JoinPieces, Replace, Matches, Decimal, SeekPieces, Base, Repeated;
    finalSql, cursorParams := whereSql, [];
    for i := 0 to |values|
      invariant var m := if i < |cols| then i else |cols|;
        finalSql == Render(SeekPieces(cols, backward, Stage(m, 0, 0))) && cursorParams == Collected(|cols|, values, m)
    {
      var pat := PieceText(CursorMark(i));
      if i < |cols| { RewriteText(cols, backward, i); } else { NoSuchColumn(cols, backward, i); }
      var found := Matches(finalSql, pat);
      finalSql := Replace(finalSql, pat, FinalText, |cursorParams|);
      cursorParams := cursorParams + Repeated(values[i], found);
      assert i >= |cols| ==> cursorParams == Collected(|cols|, values, |cols|);
    }
  }

  function ParamText(n: nat): nat -> string {
    (k: nat) => PieceText(Param(n))
  }

  lemma NumberText(cols: seq<SortColumn>, backward: bool, st: Stage)
    requires forall c :: c in cols ==> Plain(c.column)
    ensures Replace(Render(SeekPieces(cols, backward, st)), FinalText(st.numbered), ParamText(st.offset + st.numbered), 0)
         == Render(SeekPieces(cols, backward, st.(numbered := st.numbered + 1)))
  {
    var n := st.offset + st.numbered;
    NumberNext(cols, backward, st);
    SeekClean(cols, backward, st);
    ReplaceMark(SeekPieces(cols, backward, st), FinalMark(st.numbered), AsParam(n), ParamText(n), 0);
  }

  /** Before numbering, the offset plays no part. */
  lemma OffsetUnused(cols: seq<SortColumn>, backward: bool, m: nat, offset: nat)
    ensures SeekPieces(cols, backward, Stage(m, 0, 0)) == SeekPieces(cols, backward, Stage(m, offset, 0))
  {
    var rows, rows' := Parts(cols, backward, Stage(m, 0, 0)), Parts(cols, backward, Stage(m, offset, 0));
    forall d | 0 <= d < |cols| ensures rows[d] == rows'[d] {}
    assert rows == rows';
  }

  /** The second rewrite, when the builder asks for the condition's text from a parameter offset. */
  method ToSql(criteria: RawCriteria, paramOffset: nat, ghost cols: seq<SortColumn>, ghost backward: bool, ghost m: nat)
    returns (sql: string, finalParams: seq<Cell>)
    requires forall c :: c in cols ==> Plain(c.column)
    requires criteria.finalSql == Render(SeekPieces(cols, backward, Stage(m, 0, 0)))
    ensures finalParams == criteria.cursorParams
    ensures sql == "(" + Render(SeekPieces(cols, backward, Stage(m, paramOffset, |criteria.cursorParams|))) + ")"
  {
    hide Render, Replace, SeekPieces, ParamText;
    sql, finalParams := criteria.finalSql, [];
    OffsetUnused(cols, backward, m, paramOffset);
    for i := 0 to |criteria.cursorParams|
      invariant finalParams == criteria.cursorParams[..i]
      invariant sql == Render(SeekPieces(cols, backward, Stage(m, paramOffset, i)))
    {
      NumberText(cols, backward, Stage(m, paramOffset, i));
      sql := Replace(sql, FinalText(i), ParamText(paramOffset + i), 0);
      finalParams := finalParams + [criteria.cursorParams[i]];
    }
    sql := "(" + sql + ")";
  }

  /** Adds the seek condition of a cursor to the query. */
  method ApplyCursorCondition(s: Strategy, builder: SelectBuilder, cursor: Cursor, backward: bool)
    requires PlainColumns(s)
    modifies builder`conditions
    ensures var cols, values := KeyColumns(s), CursorValues(s, cursor);
      var m := Cutoff(|cols|, values);
      builder.conditions == old(builder.conditions) +
        [RawCriteria(Render(SeekPieces(cols, backward, Stage(m, 0, 0))), Collected(|cols|, values, m))]
  {
    var cols, values := KeyColumns(s), CursorValues(s, cursor);
    var whereSql := SeekText(cols, backward);
    var finalSql, cursorParams := RewriteCursorMarks(cols, backward, whereSql, values);
    builder.conditions := builder.conditions + [RawCriteria(finalSql, cursorParams)];
  }
}
