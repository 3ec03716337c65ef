/** WHERE conditions as the database reads them: structure, text and three-valued meaning. */
module SqlCondition {
  import opened Options
  import opened SqlText
  import opened ThreeValued
  import SqlUtils

  /** What a caller may pass as an argument or the database hold in a column. */
  datatype Value =
    | Null
    | Undefined
    | Bool(b: bool)
    | Num(numeral: string)
    | Text(s: string)
    | List(vs: seq<Value>)

  datatype Op = Eq | Ne | Gt | Ge | Lt | Le | Like

  datatype Metric = L2 | Cosine | InnerProduct

  /** The database's comparison of two values and its vector distances. */
  datatype Database = Database(compare: (Op, Value, Value) -> Truth, distance: (Metric, Value, Value) -> Value)

  /** A condition whose operands are columns and numbered parameters. */
  datatype Cond =
    | Compare(column: string, spelling: string, n: nat)
    | CompareBool(column: string, b: bool)
    | InList(column: string, ns: seq<nat>)
    | Between(column: string, lo: nat, hi: nat)
    | IsNull(column: string)
    | IsNotNull(column: string)
    | Nothing
    | Both(left: Cond, right: Cond)
    | Either(left: Cond, right: Cond)
    | Negation(cond: Cond)
    | Distance(column: string, metric: Metric, vector: nat, strict: bool, threshold: nat)

  /** What a comparison operator means is decided by its characters. */
  function OpOf(spelling: string): Option<Op> {
    match spelling
    case "=" => Some(Eq)
    case "<>" => Some(Ne)
    case "!=" => Some(Ne)
    case ">" => Some(Gt)
    case ">=" => Some(Ge)
    case "<" => Some(Lt)
    case "<=" => Some(Le)
    case "LIKE" => Some(Like)
    case _ => None
  }

  function MetricText(m: Metric): string {
    match m
    case L2 => "<->"
    case Cosine => "<=>"
    case InnerProduct => "<#>"
  }

  function ParamPieces(ns: seq<nat>): seq<seq<Piece>> {
    seq(|ns|, i requires 0 <= i < |ns| => [Param(ns[i])])
  }

  function Quoted(column: string): string {
    SqlUtils.QuoteIdentifier(column)
  }

  function CondPieces(c: Cond): seq<Piece> {
    match c
    case Compare(col, spelling, n) => [Lit(Quoted(col) + " " + spelling + " "), Param(n)]
    case CompareBool(col, b) => [Lit(Quoted(col) + if b then " = TRUE" else " = FALSE")]
    case InList(col, ns) => [Lit(Quoted(col) + " IN (")] + (JoinPieces(ParamPieces(ns), ", ") + [Lit(")")])
    case Between(col, lo, hi) => [Lit(Quoted(col) + " BETWEEN "), Param(lo), Lit(" AND "), Param(hi)]
    case IsNull(col) => [Lit(Quoted(col) + " IS NULL")]
    case IsNotNull(col) => [Lit(Quoted(col) + " IS NOT NULL")]
    case Nothing => [Lit("1 = 0")]
    case Both(l, r) => [Lit("(")] + (CondPieces(l) + ([Lit(" AND ")] + (CondPieces(r) + [Lit(")")])))
    case Either(l, r) => [Lit("(")] + (CondPieces(l) + ([Lit(" OR ")] + (CondPieces(r) + [Lit(")")])))
    case Negation(d) => [Lit("NOT (")] + (CondPieces(d) + [Lit(")")])
    case Distance(col, m, v, strict, t) =>
      [Lit("(" + Quoted(col) + " " + MetricText(m) + " "), Param(v), Lit(if strict then ") < " else ") <= "), Param(t)]
  }

  /** The pieces of two connected conditions. */
  function PairPieces(l: Cond, mid: string, r: Cond): seq<Piece> {
    [Lit("(")] + (CondPieces(l) + ([Lit(mid)] + (CondPieces(r) + [Lit(")")])))
  }

  lemma BothPieces(l: Cond, r: Cond)
    ensures CondPieces(Both(l, r)) == PairPieces(l, " AND ", r)
  {
  }

  lemma NegationPieces(d: Cond)
    ensures CondPieces(Negation(d)) == [Lit("NOT (")] + (CondPieces(d) + [Lit(")")])
  {
  }

  lemma EitherPieces(l: Cond, r: Cond)
    ensures CondPieces(Either(l, r)) == PairPieces(l, " OR ", r)
  {
  }

  type Row = map<string, Value>

  function CellIn(row: Row, column: string): Value {
    if column in row then row[column] else Null
  }

  /** column IN (v1, ..., vn): the disjunction of the equalities. */
  function InTruth(db: Database, cell: Value, vs: seq<Value>): Truth {
    Any(seq(|vs|, i requires 0 <= i < |vs| => db.compare(Eq, cell, vs[i])))
  }

  /** The truth of a condition on a row, given the value of every parameter. */
  function CondTruth(db: Database, c: Cond, row: Row, env: nat -> Value): Truth {
    match c
    case Compare(col, spelling, n) =>
      if OpOf(spelling).Some? then db.compare(OpOf(spelling).value, CellIn(row, col), env(n)) else Unknown
    case CompareBool(col, b) => db.compare(Eq, CellIn(row, col), Bool(b))
    case InList(col, ns) => InTruth(db, CellIn(row, col), seq(|ns|, i requires 0 <= i < |ns| => env(ns[i])))
    case Between(col, lo, hi) =>
      And(db.compare(Ge, CellIn(row, col), env(lo)), db.compare(Le, CellIn(row, col), env(hi)))
    case IsNull(col) => Of(CellIn(row, col) == Null)
    case IsNotNull(col) => Of(CellIn(row, col) != Null)
    case Nothing => False
    case Both(l, r) => And(CondTruth(db, l, row, env), CondTruth(db, r, row, env))
    case Either(l, r) => Or(CondTruth(db, l, row, env), CondTruth(db, r, row, env))
    case Negation(d) => Not(CondTruth(db, d, row, env))
    case Distance(col, m, v, strict, t) => db.compare(if strict then Lt else Le, db.distance(m, CellIn(row, col), env(v)), env(t))
  }

  /** Parameters bound from a number on. */
  predicate Binds(env: nat -> Value, from: nat, params: seq<Value>) {
    forall i :: 0 <= i < |params| ==> env(from + i) == params[i]
  }

  lemma BindsSplit(env: nat -> Value, from: nat, a: seq<Value>, b: seq<Value>)
    requires Binds(env, from, a + b)
    ensures Binds(env, from, a) && Binds(env, from + |a|, b)
  {
    forall i | 0 <= i < |a| ensures env(from + i) == a[i] { assert (a + b)[i] == a[i]; }
    forall i | 0 <= i < |b| ensures env(from + |a| + i) == b[i] { assert env(from + (|a| + i)) == (a + b)[|a| + i]; }
  }

  /** Consecutive parameter numbers. */
  function Consecutive(from: nat, count: nat): (ns: seq<nat>)
    ensures |ns| == count && forall i :: 0 <= i < count ==> ns[i] == from + i
  {
    seq(count, i requires 0 <= i < count => from + i)
  }

  lemma ConsecutiveConcat(from: nat, a: nat, b: nat)
    ensures Consecutive(from, a + b) == Consecutive(from, a) + Consecutive(from + a, b)
  {
  }

  lemma {:induction false} NumbersOfParams(ns: seq<nat>, sep: string)
    ensures Numbers(JoinPieces(ParamPieces(ns), sep)) == ns
  {
    if |ns| > 0 {
      assert [Param(ns[0])][1..] == [];
      assert Numbers([Param(ns[0])]) == [ns[0]];
    }
    if |ns| > 1 {
      NumbersOfParams(ns[1..], sep);
      assert ParamPieces(ns)[1..] == ParamPieces(ns[1..]);
      NumbersOfJoin(ParamPieces(ns), sep);
      assert ns == [ns[0]] + ns[1..];
    }
  }

  // ------------------------------------------------------- rendering

  function Dollar(n: nat): string {
    PieceText(Param(n))
  }

  function Dollars(ns: seq<nat>): (ts: seq<string>)
    ensures |ts| == |ns| && forall i :: 0 <= i < |ns| ==> ts[i] == Dollar(ns[i])
  {
    seq(|ns|, i requires 0 <= i < |ns| => Dollar(ns[i]))
  }

  lemma RenderText(t: string)
    ensures Render([Lit(t)]) == t
  {
    RenderOne(Lit(t));
  }

  lemma RenderTwo(a: string, n: nat)
    ensures Render([Lit(a), Param(n)]) == a + Dollar(n)
  {
    RenderCons(Lit(a), [Param(n)]);
    RenderOne(Param(n));
  }

  lemma RenderFour(a: string, m: nat, b: string, n: nat)
    ensures Render([Lit(a), Param(m), Lit(b), Param(n)]) == a + Dollar(m) + b + Dollar(n)
  {
    RenderTwo(a, m);
    RenderTwo(b, n);
    RenderConcat([Lit(a), Param(m)], [Lit(b), Param(n)]);
    assert [Lit(a), Param(m)] + [Lit(b), Param(n)] == [Lit(a), Param(m), Lit(b), Param(n)];
  }

  lemma RenderWrapped(a: string, ps: seq<Piece>, b: string)
    ensures Render([Lit(a)] + (ps + [Lit(b)])) == a + Render(ps) + b
  {
    RenderCons(Lit(a), ps + [Lit(b)]);
    RenderConcat(ps, [Lit(b)]);
    RenderOne(Lit(b));
  }

  lemma RenderParams(ns: seq<nat>)
    ensures Render(JoinPieces(ParamPieces(ns), ", ")) == Join(Dollars(ns), ", ")
  {
    RenderJoin(ParamPieces(ns), ", ");
    forall i | 0 <= i < |ns| ensures RenderEach(ParamPieces(ns))[i] == Dollars(ns)[i] { RenderOne(Param(ns[i])); }
    assert RenderEach(ParamPieces(ns)) == Dollars(ns);
  }

  lemma RenderLogical(l: seq<Piece>, mid: string, r: seq<Piece>)
    ensures Render([Lit("(")] + (l + ([Lit(mid)] + (r + [Lit(")")])))) == "(" + Render(l) + mid + Render(r) + ")"
  {
    hide Render;
    var inner := l + ([Lit(mid)] + r);
    RenderConcat(l, [Lit(mid)] + r);
    RenderCons(Lit(mid), r);
    RenderWrapped("(", inner, ")");
    assert l + ([Lit(mid)] + (r + [Lit(")")])) == inner + [Lit(")")];
    assert "(" + (Render(l) + (mid + Render(r))) + ")" == "(" + Render(l) + mid + Render(r) + ")";
  }
}
