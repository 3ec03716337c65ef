/** Criteria trees: the WHERE clause as immutable objects that print themselves. */
module Criteria {
  import opened Options
  import opened SqlText
  import opened ThreeValued
  import opened SqlCondition
  import opened SqlReader
  import ReadChains
  import SqlUtils

  datatype Criteria =
    | ComparisonCriteria(op: Op, column: string, value: Value)
    | InCriteria(column: string, values: seq<Value>)
    | BetweenCriteria(column: string, low: Value, high: Value)
    | NullCriteria(isNull: bool, column: string)
    | LogicalCriteria(conjunction: bool, left: Criteria, right: Criteria)
    | NotCriteria(criteria: Criteria)
    | VectorDistanceCriteria(column: string, vectorLiteral: Value, metric: Metric, strict: bool, threshold: Value)

  datatype Sql = Sql(sql: string, params: seq<Value>)

  function OpSpelling(op: Op): string {
    match op
    case Eq => "="
    case Ne => "!="
    case Gt => ">"
    case Ge => ">="
    case Lt => "<"
    case Le => "<="
    case Like => "LIKE"
  }

  /** The text and parameters of a criteria tree, its placeholders numbered from an offset. */
  function ToSql(c: Criteria, offset: nat): Sql {
    match c
    case ComparisonCriteria(op, col, v) => Sql(Quoted(col) + " " + OpSpelling(op) + " " + Dollar(offset), [v])
    case InCriteria(col, vs) =>
      if |vs| == 0 then Sql("1 = 0", [])
      else Sql(Quoted(col) + " IN (" + Join(Dollars(Consecutive(offset, |vs|)), ", ") + ")", vs)
    case BetweenCriteria(col, lo, hi) =>
      Sql(Quoted(col) + " BETWEEN " + Dollar(offset) + " AND " + Dollar(offset + 1), [lo, hi])
    case NullCriteria(isNull, col) => Sql(Quoted(col) + if isNull then " IS NULL" else " IS NOT NULL", [])
    case LogicalCriteria(conj, l, r) =>
      var left := ToSql(l, offset);
      Connected(left, ToSql(r, offset + |left.params|), conj)
    case NotCriteria(d) =>
      var inner := ToSql(d, offset);
      Sql("NOT (" + inner.sql + ")", inner.params)
    case VectorDistanceCriteria(col, v, m, strict, t) =>
      Sql("(" + Quoted(col) + " " + MetricText(m) + " " + Dollar(offset) + (if strict then ") < " else ") <= ") + Dollar(offset + 1),
          [v, t])
  }

  function Connected(left: Sql, right: Sql, conj: bool): Sql {
    Sql("(" + left.sql + (if conj then " AND " else " OR ") + right.sql + ")", left.params + right.params)
  }

  /** The condition that text denotes. */
  function ToCond(c: Criteria, offset: nat): Cond {
    match c
    case ComparisonCriteria(op, col, _) => Compare(col, OpSpelling(op), offset)
    case InCriteria(col, vs) => if |vs| == 0 then Nothing else InList(col, Consecutive(offset, |vs|))
    case BetweenCriteria(col, _, _) => Between(col, offset, offset + 1)
    case NullCriteria(isNull, col) => if isNull then IsNull(col) else IsNotNull(col)
    case LogicalCriteria(conj, l, r) =>
      var left, right := ToCond(l, offset), ToCond(r, offset + |ToSql(l, offset).params|);
      if conj then Both(left, right) else Either(left, right)
    case NotCriteria(d) => Negation(ToCond(d, offset))
    case VectorDistanceCriteria(col, _, m, strict, _) => Distance(col, m, offset, strict, offset + 1)
  }

  /** The meaning of a criteria tree, read off the tree itself. */
  function CriteriaTruth(db: Database, c: Criteria, row: Row): Truth {
    match c
    case ComparisonCriteria(op, col, v) => db.compare(op, CellIn(row, col), v)
    case InCriteria(col, vs) => InTruth(db, CellIn(row, col), vs)
    case BetweenCriteria(col, lo, hi) => And(db.compare(Ge, CellIn(row, col), lo), db.compare(Le, CellIn(row, col), hi))
    case NullCriteria(isNull, col) => Of((CellIn(row, col) == Null) == isNull)
    case LogicalCriteria(conj, l, r) =>
      var left, right := CriteriaTruth(db, l, row), CriteriaTruth(db, r, row);
      if conj then And(left, right) else Or(left, right)
    case NotCriteria(d) => Not(CriteriaTruth(db, d, row))
    case VectorDistanceCriteria(col, v, m, strict, t) =>
      db.compare(if strict then Lt else Le, db.distance(m, CellIn(row, col), v), t)
  }

  // -------------------------------------------------- text and structure

  predicate PrintsItsCondition(c: Criteria, offset: nat) {
    ToSql(c, offset).sql == Render(CondPieces(ToCond(c, offset)))
  }

  predicate IsLeaf(c: Criteria) {
    !c.LogicalCriteria? && !c.NotCriteria?
  }

  lemma TextOfIn(col: string, vs: seq<Value>, offset: nat)
    ensures PrintsItsCondition(InCriteria(col, vs), offset)
  {
    hide Render, JoinPieces, Join, Numbers;
    if |vs| == 0 {
      RenderOne(Lit("1 = 0"));
    } else {
      var ns := Consecutive(offset, |vs|);
      RenderParams(ns);
      RenderWrapped(Quoted(col) + " IN (", JoinPieces(ParamPieces(ns), ", "), ")");
    }
  }

  lemma TextOfLeaf(c: Criteria, offset: nat)
    requires IsLeaf(c)
    ensures PrintsItsCondition(c, offset)
  {
    hide Render, JoinPieces, Join, PieceText;
    match c {
      case ComparisonCriteria(op, col, _) => RenderTwo(Quoted(col) + " " + OpSpelling(op) + " ", offset);
      case InCriteria(col, vs) => TextOfIn(col, vs, offset);
      case BetweenCriteria(col, _, _) => RenderFour(Quoted(col) + " BETWEEN ", offset, " AND ", offset + 1);
      case NullCriteria(isNull, col) => RenderText(Quoted(col) + if isNull then " IS NULL" else " IS NOT NULL");
      case VectorDistanceCriteria(col, _, m, strict, _) =>
        RenderFour("(" + Quoted(col) + " " + MetricText(m) + " ", offset, if strict then ") < " else ") <= ", offset + 1);
    }
  }

  lemma LogicalParts(conj: bool, l: Criteria, r: Criteria, offset: nat)
    ensures ToSql(LogicalCriteria(conj, l, r), offset)
         == Connected(ToSql(l, offset), ToSql(r, offset + |ToSql(l, offset).params|), conj)
  {
    hide Connected, Join;
  }

  lemma LogicalPieces(conj: bool, l: Criteria, r: Criteria, offset: nat)
    ensures CondPieces(ToCond(LogicalCriteria(conj, l, r), offset))
         == PairPieces(ToCond(l, offset), if conj then " AND " else " OR ", ToCond(r, offset + |ToSql(l, offset).params|))
  {
    hide CondPieces, PairPieces, ToSql;
    BothPieces(ToCond(l, offset), ToCond(r, offset + |ToSql(l, offset).params|));
    EitherPieces(ToCond(l, offset), ToCond(r, offset + |ToSql(l, offset).params|));
  }

  lemma TextOfLogical(conj: bool, l: Criteria, r: Criteria, offset: nat)
    requires PrintsItsCondition(l, offset) && PrintsItsCondition(r, offset + |ToSql(l, offset).params|)
    ensures PrintsItsCondition(LogicalCriteria(conj, l, r), offset)
  {
    hide Render, ToSql, ToCond, CondPieces;
    var k := offset + |ToSql(l, offset).params|;
    LogicalParts(conj, l, r, offset);
    LogicalPieces(conj, l, r, offset);
    RenderLogical(CondPieces(ToCond(l, offset)), if conj then " AND " else " OR ", CondPieces(ToCond(r, k)));
  }

  lemma TextOfNot(d: Criteria, offset: nat)
    requires PrintsItsCondition(d, offset)
    ensures PrintsItsCondition(NotCriteria(d), offset)
  {
    hide Render;
    RenderWrapped("NOT (", CondPieces(ToCond(d, offset)), ")");
  }

  /** The printed text is the text of the condition it denotes. */
  lemma {:induction false} TextOfCriteria(c: Criteria, offset: nat)
    ensures PrintsItsCondition(c, offset)
  {
    hide PrintsItsCondition, ToSql;
    match c {
      case LogicalCriteria(conj, l, r) =>
        TextOfCriteria(l, offset);
        TextOfCriteria(r, offset + |ToSql(l, offset).params|);
        TextOfLogical(conj, l, r, offset);
      case NotCriteria(d) =>
        TextOfCriteria(d, offset);
        TextOfNot(d, offset);
      case _ => TextOfLeaf(c, offset);
    }
  }

  // --------------------------------------------------------- numbering

  lemma NumbersWrapped(a: string, ps: seq<Piece>, b: string)
    ensures Numbers([Lit(a)] + (ps + [Lit(b)])) == Numbers(ps)
  {
    assert ([Lit(a)] + (ps + [Lit(b)]))[1..] == ps + [Lit(b)];
    NumbersConcat(ps, [Lit(b)]);
    assert [Lit(b)][1..] == [];
  }

  lemma NumbersTwo(a: string, n: nat)
    ensures Numbers([Lit(a), Param(n)]) == [n]
  {
    assert [Lit(a), Param(n)][1..] == [Param(n)] && [Param(n)][1..] == [];
    assert Numbers([Param(n)]) == [n];
  }

  lemma NumbersFour(a: string, m: nat, b: string, n: nat)
    ensures Numbers([Lit(a), Param(m), Lit(b), Param(n)]) == [m, n]
  {
    NumbersTwo(a, m);
    NumbersTwo(b, n);
    NumbersConcat([Lit(a), Param(m)], [Lit(b), Param(n)]);
    assert [Lit(a), Param(m)] + [Lit(b), Param(n)] == [Lit(a), Param(m), Lit(b), Param(n)];
  }

  lemma NumbersLogical(l: seq<Piece>, mid: string, r: seq<Piece>)
    ensures Numbers([Lit("(")] + (l + ([Lit(mid)] + (r + [Lit(")")])))) == Numbers(l) + Numbers(r)
  {
    var inner := l + ([Lit(mid)] + r);
    assert ([Lit(mid)] + r)[1..] == r;
    NumbersConcat(l, [Lit(mid)] + r);
    NumbersWrapped("(", inner, ")");
    assert l + ([Lit(mid)] + (r + [Lit(")")])) == inner + [Lit(")")];
  }

  predicate NumberedFrom(c: Criteria, offset: nat) {
    Numbers(CondPieces(ToCond(c, offset))) == Consecutive(offset, |ToSql(c, offset).params|)
  }

  lemma NumbersOfIn(col: string, vs: seq<Value>, offset: nat)
    ensures NumberedFrom(InCriteria(col, vs), offset)
  {
    hide Numbers, JoinPieces, Join;
    if |vs| == 0 {
      NumbersLit("1 = 0");
    } else {
      var ns := Consecutive(offset, |vs|);
      NumbersOfParams(ns, ", ");
      NumbersWrapped(Quoted(col) + " IN (", JoinPieces(ParamPieces(ns), ", "), ")");
    }
  }

  lemma NumbersOfLeaf(c: Criteria, offset: nat)
    requires IsLeaf(c)
    ensures NumberedFrom(c, offset)
  {
    hide Numbers, JoinPieces, Join, PieceText;
    match c {
      case ComparisonCriteria(op, col, _) => NumbersTwo(Quoted(col) + " " + OpSpelling(op) + " ", offset);
      case InCriteria(col, vs) => NumbersOfIn(col, vs, offset);
      case BetweenCriteria(col, _, _) => NumbersFour(Quoted(col) + " BETWEEN ", offset, " AND ", offset + 1);
      case NullCriteria(isNull, col) => NumbersLit(Quoted(col) + if isNull then " IS NULL" else " IS NOT NULL");
      case VectorDistanceCriteria(col, _, m, strict, _) =>
        NumbersFour("(" + Quoted(col) + " " + MetricText(m) + " ", offset, if strict then ") < " else ") <= ", offset + 1);
    }
  }

  lemma NumbersOfCombined(conj: bool, l: Criteria, r: Criteria, offset: nat)
    requires NumberedFrom(l, offset) && NumberedFrom(r, offset + |ToSql(l, offset).params|)
    ensures NumberedFrom(LogicalCriteria(conj, l, r), offset)
  {
    hide Numbers, ToSql, ToCond, CondPieces;
    var n := |ToSql(l, offset).params|;
    LogicalParts(conj, l, r, offset);
    LogicalPieces(conj, l, r, offset);
    NumbersLogical(CondPieces(ToCond(l, offset)), if conj then " AND " else " OR ", CondPieces(ToCond(r, offset + n)));
    ConsecutiveConcat(offset, n, |ToSql(r, offset + n).params|);
  }

  lemma NumbersOfNegated(d: Criteria, offset: nat)
    requires NumberedFrom(d, offset)
    ensures NumberedFrom(NotCriteria(d), offset)
  {
    hide Numbers, PieceText;
    NumbersWrapped("NOT (", CondPieces(ToCond(d, offset)), ")");
  }

  /** The placeholders of any criteria tree, read left to right, are exactly $k, ..., $(k+n-1), n the number of parameters. */
  lemma {:induction false} NumberedLeftToRight(c: Criteria, offset: nat)
    ensures Numbers(CondPieces(ToCond(c, offset))) == Consecutive(offset, |ToSql(c, offset).params|)
  {
    hide Numbers, CondPieces, ToCond, ToSql;
    match c {
      case LogicalCriteria(conj, l, r) =>
        NumberedLeftToRight(l, offset);
        NumberedLeftToRight(r, offset + |ToSql(l, offset).params|);
        NumbersOfCombined(conj, l, r, offset);
      case NotCriteria(d) =>
        NumberedLeftToRight(d, offset);
        NumbersOfNegated(d, offset);
      case _ => NumbersOfLeaf(c, offset);
    }
  }

  lemma NumbersLit(t: string)
    ensures Numbers([Lit(t)]) == []
  {
    assert [Lit(t)][1..] == [];
  }

  // ------------------------------------------------------------ meaning

  /** The characters an operator is spelled with are read as that operator. */
  lemma SpellsItself(op: Op)
    ensures OpOf(OpSpelling(op)) == Some(op)
  {
  }

  lemma MeaningOfLeaf(db: Database, c: Criteria, row: Row, offset: nat, env: nat -> Value)
    requires IsLeaf(c) && Binds(env, offset, ToSql(c, offset).params)
    ensures CondTruth(db, ToCond(c, offset), row, env) == CriteriaTruth(db, c, row)
  {
    hide Quoted, Join, PieceText, OpSpelling, OpOf;
    if c.ComparisonCriteria? { SpellsItself(c.op); }
    var params := ToSql(c, offset).params;
    assert |params| > 0 ==> env(offset + 0) == params[0];
    assert |params| > 1 ==> env(offset + 1) == params[1];
    if c.InCriteria? && |c.values| > 0 {
      var ns := Consecutive(offset, |c.values|);
      assert seq(|ns|, i requires 0 <= i < |ns| => env(ns[i])) == c.values;
    }
  }

  lemma SplitBindings(conj: bool, l: Criteria, r: Criteria, offset: nat, env: nat -> Value)
    requires Binds(env, offset, ToSql(LogicalCriteria(conj, l, r), offset).params)
    ensures var left := ToSql(l, offset).params;
      Binds(env, offset, left) && Binds(env, offset + |left|, ToSql(r, offset + |left|).params)
  {
    hide Quoted, Join, PieceText, Binds;
    var left := ToSql(l, offset).params;
    BindsSplit(env, offset, left, ToSql(r, offset + |left|).params);
  }

  ghost predicate MeansItself(db: Database, c: Criteria, row: Row, offset: nat, env: nat -> Value) {
    CondTruth(db, ToCond(c, offset), row, env) == CriteriaTruth(db, c, row)
  }

  lemma MeaningOfLogical(db: Database, conj: bool, l: Criteria, r: Criteria, row: Row, offset: nat, env: nat -> Value)
    requires MeansItself(db, l, row, offset, env)
    requires MeansItself(db, r, row, offset + |ToSql(l, offset).params|, env)
    ensures MeansItself(db, LogicalCriteria(conj, l, r), row, offset, env)
  {
    hide ToSql;
  }

  lemma NotCriteriaBinds(d: Criteria, offset: nat)
    ensures ToSql(NotCriteria(d), offset).params == ToSql(d, offset).params
  {
  }

  /** Printed from any offset and bound there, the text means what the tree means. */
  lemma {:induction false} MeaningOfCriteria(db: Database, c: Criteria, row: Row, offset: nat, env: nat -> Value)
    requires Binds(env, offset, ToSql(c, offset).params)
    ensures CondTruth(db, ToCond(c, offset), row, env) == CriteriaTruth(db, c, row)
  {
    hide ToSql, Binds;
    match c {
      case LogicalCriteria(conj, l, r) =>
        SplitBindings(conj, l, r, offset, env);
        MeaningOfCriteria(db, l, row, offset, env);
        MeaningOfCriteria(db, r, row, offset + |ToSql(l, offset).params|, env);
        MeaningOfLogical(db, conj, l, r, row, offset, env);
      case NotCriteria(d) =>
        NotCriteriaBinds(d, offset);
        MeaningOfCriteria(db, d, row, offset, env);
      case _ => MeaningOfLeaf(db, c, row, offset, env);
    }
  }

  /** The columns a criteria tree names. */
  function Columns(c: Criteria): set<string> {
    match c
    case LogicalCriteria(_, l, r) => Columns(l) + Columns(r)
    case NotCriteria(d) => Columns(d)
    case ComparisonCriteria(_, col, _) => {col}
    case InCriteria(col, _) => {col}
    case BetweenCriteria(col, _, _) => {col}
    case NullCriteria(_, col) => {col}
    case VectorDistanceCriteria(col, _, _, _, _) => {col}
  }

  lemma {:induction false} CriteriaReadable(c: Criteria, offset: nat)
    requires forall col :: col in Columns(c) ==> Nameable(col)
    ensures Readable(ToCond(c, offset))
  {
    hide ToSql, Nameable, OpOf, OpSpelling;
    match c {
      case LogicalCriteria(_, l, r) =>
        CriteriaReadable(l, offset);
        CriteriaReadable(r, offset + |ToSql(l, offset).params|);
      case NotCriteria(d) => CriteriaReadable(d, offset);
      case ComparisonCriteria(op, _, _) => SpellsItself(op);
      case _ =>
    }
  }

  /**
   * The characters of the printed text, read as SQL with the parameters bound
   * from the offset on, have the truth of the tree.
   */
  lemma TextMeansCriteria(db: Database, c: Criteria, row: Row, offset: nat, env: nat -> Value)
    requires Binds(env, offset, ToSql(c, offset).params) && forall col :: col in Columns(c) ==> Nameable(col)
    ensures TextTruth(db, ToSql(c, offset).sql, row, env) == Some(CriteriaTruth(db, c, row))
  {
    hide Binds, ToSql, ToCond, CondPieces, Render, ReadCondition, Readable, Nameable, CriteriaTruth, CondTruth;
    TextOfCriteria(c, offset);
    CriteriaReadable(c, offset);
    ReadChains.ReadsCondition(ToCond(c, offset));
    MeaningOfCriteria(db, c, row, offset, env);
  }

  // ------------------------------------------------- question marks

  /** The segments of a condition's text: it holds no string literal. */
  function Segments(ps: seq<Piece>): seq<SqlUtils.Segment> {
    seq(|ps|, i requires 0 <= i < |ps| =>
      if ps[i].Param? then SqlUtils.Parameter(ps[i].n) else SqlUtils.Code(PieceText(ps[i])))
  }

  /** Literal text the converter copies, without a question mark of its own. */
  predicate Quiet(t: string) {
    '$' !in t && '\'' !in t && '?' !in t
  }

  predicate OpensQuietly(p: Piece) {
    p.Lit? && |p.text| > 0 && !IsDigit(p.text[0])
  }

  /** Only literals and parameters, the literals quiet, and no digit right after a parameter. */
  predicate Convertible(ps: seq<Piece>) {
    && (forall i :: 0 <= i < |ps| ==> ps[i].Param? || (ps[i].Lit? && Quiet(ps[i].text)))
    && (forall i :: 0 < i < |ps| && ps[i - 1].Param? ==> OpensQuietly(ps[i]))
  }

  lemma ConvertibleConcat(ps: seq<Piece>, qs: seq<Piece>)
    requires Convertible(ps) && Convertible(qs) && (|qs| > 0 ==> OpensQuietly(qs[0]))
    ensures Convertible(ps + qs)
  {
  }

  lemma ConvertibleWrapped(a: string, ps: seq<Piece>, b: string)
    requires Quiet(a) && Quiet(b) && |b| > 0 && !IsDigit(b[0]) && Convertible(ps)
    ensures Convertible([Lit(a)] + (ps + [Lit(b)]))
  {
    ConvertibleConcat(ps, [Lit(b)]);
  }

  lemma {:induction false} ConvertibleParams(ns: seq<nat>)
    ensures Convertible(JoinPieces(ParamPieces(ns), ", "))
  {
    if |ns| > 1 {
      ConvertibleParams(ns[1..]);
      assert ParamPieces(ns)[1..] == ParamPieces(ns[1..]);
      ConvertibleConcat(ParamPieces(ns)[0], [Lit(", ")] + JoinPieces(ParamPieces(ns[1..]), ", "));
    }
  }

  lemma QuotedQuiet(column: string)
    requires Quiet(column)
    ensures Quiet(Quoted(column))
  {
    SqlUtils.QuotingAddsNothing(column, '$');
    SqlUtils.QuotingAddsNothing(column, '\'');
    SqlUtils.QuotingAddsNothing(column, '?');
  }

  lemma QuietAfterColumn(column: string, t: string)
    requires Quiet(column) && Quiet(t)
    ensures Quiet(Quoted(column) + t) && Quiet("(" + Quoted(column) + t)
  {
    QuotedQuiet(column);
  }

  lemma OneConvertible(a: string, n: nat)
    requires Quiet(a)
    ensures Convertible([Lit(a), Param(n)]) && Convertible([Lit(a)])
  {
  }

  lemma TwoConvertible(a: string, m: nat, b: string, n: nat)
    requires Quiet(a) && Quiet(b) && |b| > 0 && !IsDigit(b[0])
    ensures Convertible([Lit(a), Param(m), Lit(b), Param(n)])
  {
    OneConvertible(a, m);
    OneConvertible(b, n);
    ConvertibleConcat([Lit(a), Param(m)], [Lit(b), Param(n)]);
    assert [Lit(a), Param(m)] + [Lit(b), Param(n)] == [Lit(a), Param(m), Lit(b), Param(n)];
  }

  lemma InConvertible(col: string, ns: seq<nat>)
    requires Quiet(col)
    ensures Convertible(CondPieces(InList(col, ns)))
  {
    hide Quoted;
    QuietAfterColumn(col, " IN (");
    ConvertibleParams(ns);
    ConvertibleWrapped(Quoted(col) + " IN (", JoinPieces(ParamPieces(ns), ", "), ")");
  }

  lemma ComparisonConvertible(op: Op, col: string, offset: nat)
    requires Quiet(col)
    ensures Convertible(CondPieces(Compare(col, OpSpelling(op), offset)))
  {
    hide Quoted;
    var mid := " " + OpSpelling(op) + " ";
    assert Quiet(mid);
    QuietAfterColumn(col, mid);
    assert Quoted(col) + mid == Quoted(col) + " " + OpSpelling(op) + " ";
    OneConvertible(Quoted(col) + mid, offset);
  }

  lemma DistanceConvertible(col: string, m: Metric, strict: bool, offset: nat)
    requires Quiet(col)
    ensures Convertible(CondPieces(Distance(col, m, offset, strict, offset + 1)))
  {
    hide Quoted;
    var mid := " " + MetricText(m) + " ";
    assert Quiet(mid);
    QuietAfterColumn(col, mid);
    assert "(" + Quoted(col) + mid == "(" + Quoted(col) + " " + MetricText(m) + " ";
    TwoConvertible("(" + Quoted(col) + mid, offset, if strict then ") < " else ") <= ", offset + 1);
  }

  lemma LeafConvertible(c: Criteria, offset: nat)
    requires IsLeaf(c) && forall col :: col in Columns(c) ==> Quiet(col)
    ensures Convertible(CondPieces(ToCond(c, offset)))
  {
    hide Quoted, JoinPieces, Quiet;
    match c {
      case ComparisonCriteria(op, col, _) => ComparisonConvertible(op, col, offset);
      case InCriteria(col, vs) =>
        if |vs| == 0 { NothingConvertible(); } else { InConvertible(col, Consecutive(offset, |vs|)); }
      case BetweenCriteria(col, _, _) => BetweenConvertible(col, offset);
      case NullCriteria(_, col) => NullConvertible(col);
      case VectorDistanceCriteria(col, _, m, strict, _) => DistanceConvertible(col, m, strict, offset);
    }
  }

  lemma NothingConvertible()
    ensures Convertible(CondPieces(Nothing))
  {
    OneConvertible("1 = 0", 0);
  }

  lemma BetweenConvertible(col: string, offset: nat)
    requires Quiet(col)
    ensures Convertible(CondPieces(Between(col, offset, offset + 1)))
  {
    QuietAfterColumn(col, " BETWEEN ");
    TwoConvertible(Quoted(col) + " BETWEEN ", offset, " AND ", offset + 1);
  }

  lemma NullConvertible(col: string)
    requires Quiet(col)
    ensures Convertible(CondPieces(IsNull(col))) && Convertible(CondPieces(IsNotNull(col)))
  {
    QuietAfterColumn(col, " IS NULL");
    QuietAfterColumn(col, " IS NOT NULL");
  }

  lemma {:induction false} CriteriaConvertible(c: Criteria, offset: nat)
    requires forall col :: col in Columns(c) ==> Quiet(col)
    ensures Convertible(CondPieces(ToCond(c, offset)))
  {
    hide ToSql, JoinPieces, Quoted, Quiet, Convertible;
    match c {
      case LogicalCriteria(conj, l, r) =>
        var k := offset + |ToSql(l, offset).params|;
        CriteriaConvertible(l, offset);
        CriteriaConvertible(r, k);
        CombinedConvertible(CondPieces(ToCond(l, offset)), if conj then " AND " else " OR ", CondPieces(ToCond(r, k)));
      case NotCriteria(d) =>
        CriteriaConvertible(d, offset);
        NegatedConvertible(CondPieces(ToCond(d, offset)));
      case _ => LeafConvertible(c, offset);
    }
  }

  lemma NegatedConvertible(ps: seq<Piece>)
    requires Convertible(ps)
    ensures Convertible([Lit("NOT (")] + (ps + [Lit(")")]))
  {
    ConvertibleWrapped("NOT (", ps, ")");
  }

  lemma CombinedConvertible(l: seq<Piece>, mid: string, r: seq<Piece>)
    requires Convertible(l) && Convertible(r) && (mid == " AND " || mid == " OR ")
    ensures Convertible([Lit("(")] + (l + ([Lit(mid)] + (r + [Lit(")")]))))
  {
    ConvertibleWrapped(mid, r, ")");
    ConvertibleConcat(l, [Lit(mid)] + (r + [Lit(")")]));
  }

  function CountChar(s: string, c: char): nat {
    if |s| == 0 then 0 else (if s[0] == c then 1 else 0) + CountChar(s[1..], c)
  }

  lemma {:induction false} CountConcat(a: string, b: string, c: char)
    ensures CountChar(a + b, c) == CountChar(a, c) + CountChar(b, c)
  {
    if a == "" {
      assert a + b == b;
    } else {
      CountConcat(a[1..], b, c);
      assert (a + b)[1..] == a[1..] + b;
    }
  }

  lemma {:induction false} CountAbsent(a: string, c: char)
    requires c !in a
    ensures CountChar(a, c) == 0
  {
    if a != "" { CountAbsent(a[1..], c); }
  }

  lemma {:induction false} SegmentsOfPieces(ps: seq<Piece>)
    requires Convertible(ps)
    ensures SqlUtils.WellSeparated(Segments(ps)) && SqlUtils.SegmentsText(Segments(ps)) == Render(ps)
    ensures CountChar(SqlUtils.QuestionText(Segments(ps)), '?') == |Numbers(ps)|
  {
    if |ps| > 0 {
      var segs, rest := Segments(ps), ps[1..];
      SegmentsOfPieces(rest);
      assert segs[1..] == Segments(rest);
      if ps[0].Param? && |rest| > 0 {
        assert OpensQuietly(ps[1]) && rest[0] == ps[1];
        assert Render(rest)[0] == ps[1].text[0];
      }
      var head := if ps[0].Param? then "?" else ps[0].text;
      CountConcat(head, SqlUtils.QuestionText(segs[1..]), '?');
      if ps[0].Lit? { CountAbsent(head, '?'); } else { assert "?"[1..] == "" && CountChar("?", '?') == 1; }
    }
  }

  /**
   * A criteria tree printed from 1 and converted: every parameter becomes a
   * question mark and nothing else changes, there is one question mark for
   * each parameter value, and the i-th stands where parameter i stood.
   */
  lemma QuestionMarksInOrder(c: Criteria)
    requires forall col :: col in Columns(c) ==> Quiet(col)
    ensures var printed, pieces := ToSql(c, 1), CondPieces(ToCond(c, 1));
      var converted := SqlUtils.Outside(printed.sql);
      && converted == SqlUtils.QuestionText(Segments(pieces))
      && CountChar(converted, '?') == |printed.params|
      && Numbers(pieces) == Consecutive(1, |printed.params|)
  {
    hide ToSql, CondPieces, ToCond, SqlUtils.Outside, SqlUtils.QuestionText, Numbers;
    TextOfCriteria(c, 1);
    NumberedLeftToRight(c, 1);
    CriteriaConvertible(c, 1);
    SegmentsOfPieces(CondPieces(ToCond(c, 1)));
    SqlUtils.ConvertsSegments(Segments(CondPieces(ToCond(c, 1))));
  }
}
