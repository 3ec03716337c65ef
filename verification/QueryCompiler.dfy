/** Compiling a derived query descriptor to a SQL template and its argument bindings. */
module QueryCompiler {
  import opened Options
  import opened SqlText
  import opened SqlCondition
  import opened QueryTemplate
  import opened CompiledQuery
  import D = DerivedQuery

  // ------------------------------------------------------- operators

  /** Operators of the form `column op $n`. */
  predicate IsScalar(op: D.Operator) {
    op.Equals? || op.Not? || op.Like? || op.StartingWith? || op.EndingWith? || op.Containing? ||
    op.GreaterThan? || op.GreaterThanEqual? || op.LessThan? || op.LessThanEqual?
  }

  datatype ScalarForm = ScalarForm(spelling: string, transform: Transform)

  function FormOf(op: D.Operator): ScalarForm
    requires IsScalar(op)
  {
    match op
    case Equals => ScalarForm("=", Identity)
    case Not => ScalarForm("<>", Identity)
    case Like => ScalarForm("LIKE", Identity)
    case StartingWith => ScalarForm("LIKE", SuffixWildcard)
    case EndingWith => ScalarForm("LIKE", PrefixWildcard)
    case Containing => ScalarForm("LIKE", WrapWildcard)
    case GreaterThan => ScalarForm(">", Identity)
    case GreaterThanEqual => ScalarForm(">=", Identity)
    case LessThan => ScalarForm("<", Identity)
    case LessThanEqual => ScalarForm("<=", Identity)
  }

  datatype OpSql = OpSql(sql: string, transforms: seq<Transform>, argCount: nat, paramCount: nat)

  /** The SQL of one predicate, its placeholders numbered from `paramIdx`. */
  function OperatorToSql(op: D.Operator, column: string, paramIdx: nat): OpSql
    requires op != D.SimilarTo
  {
    var col := Quoted(column);
    var dollar := "$" + Decimal(paramIdx);
    if IsScalar(op) then
      OpSql(col + " " + FormOf(op).spelling + " " + dollar, [FormOf(op).transform], 1, 1)
    else match op
      case Between => OpSql(col + " BETWEEN " + dollar + " AND " + ("$" + Decimal(paramIdx + 1)), [Identity, Identity], 2, 2)
      case In => OpSql(col + " IN (" + dollar + ")", [SpreadList], 1, 1)
      case NotIn => OpSql("NOT (" + col + " IN (" + dollar + "))", [SpreadList], 1, 1)
      case IsNull => OpSql(col + " IS NULL", [], 0, 0)
      case IsNotNull => OpSql(col + " IS NOT NULL", [], 0, 0)
      case True => OpSql(col + " = TRUE", [], 0, 0)
      case False => OpSql(col + " = FALSE", [], 0, 0)
  }

  /** The same predicate as template slots. */
  function ExprSlots(op: D.Operator, column: string, n: nat): seq<Slot>
    requires op != D.SimilarTo
  {
    var col := Quoted(column);
    if IsScalar(op) then [Fixed(col + " " + FormOf(op).spelling + " "), One(n)]
    else match op
      case Between => [Fixed(col + " BETWEEN "), One(n), Fixed(" AND "), One(n + 1)]
      case In => [Fixed(col + " "), Many(n)]
      case NotIn => [Fixed("NOT (" + col + " "), Many(n), Fixed(")")]
      case IsNull => [Fixed(col + " IS NULL")]
      case IsNotNull => [Fixed(col + " IS NOT NULL")]
      case True => [Fixed(col + " = TRUE")]
      case False => [Fixed(col + " = FALSE")]
  }

  lemma OneSlot(a: Slot)
    ensures SlotsText([a]) == SlotText(a)
  {
    assert [a][1..] == [];
    assert SlotsText([a]) == SlotText(a) + "";
  }

  lemma TwoSlots(a: Slot, b: Slot)
    ensures SlotsText([a, b]) == SlotText(a) + SlotText(b)
  {
    hide SlotText;
    OneSlot(b);
    assert [a, b][1..] == [b];
  }

  lemma FourSlots(a: Slot, b: Slot, c: Slot, d: Slot)
    ensures SlotsText([a, b, c, d]) == SlotText(a) + SlotText(b) + SlotText(c) + SlotText(d)
  {
    hide SlotText;
    TwoSlots(a, b);
    TwoSlots(c, d);
    SlotsTextConcat([a, b], [c, d]);
    assert [a, b] + [c, d] == [a, b, c, d];
    Assoc(SlotText(a) + SlotText(b), SlotText(c), SlotText(d));
  }

  lemma ThreeSlots(a: Slot, b: Slot, c: Slot)
    ensures SlotsText([a, b, c]) == SlotText(a) + SlotText(b) + SlotText(c)
  {
    hide SlotText;
    TwoSlots(a, b);
    OneSlot(c);
    SlotsTextConcat([a, b], [c]);
    assert [a, b] + [c] == [a, b, c];
  }

  lemma OperatorText(op: D.Operator, column: string, n: nat)
    requires op != D.SimilarTo
    ensures OperatorToSql(op, column, n).sql == SlotsText(ExprSlots(op, column, n))
  {
    hide SlotsText, Decimal, Quoted;
    var col := Quoted(column);
    if IsScalar(op) {
      TwoSlots(Fixed(col + " " + FormOf(op).spelling + " "), One(n));
    } else if op.Between? {
      FourSlots(Fixed(col + " BETWEEN "), One(n), Fixed(" AND "), One(n + 1));
    } else if op.In? {
      TwoSlots(Fixed(col + " "), Many(n));
      InText(col + " ", "", n);
    } else if op.NotIn? {
      ThreeSlots(Fixed("NOT (" + col + " "), Many(n), Fixed(")"));
      InText("NOT (" + col + " ", ")", n);
    } else {
      OneSlot(ExprSlots(op, column, n)[0]);
    }
  }

  lemma InText(a: string, b: string, n: nat)
    ensures a + ("IN ($" + Decimal(n) + ")") + b == a + "IN (" + ("$" + Decimal(n)) + ")" + b
  {
  }

  // ------------------------------------------------------ predicates

  /** A property expression with its column. */
  datatype Pred = Pred(op: D.Operator, column: string)

  predicate Resolves(props: seq<D.PropertyExpression>, m: D.Metadata) {
    forall i :: 0 <= i < |props| ==> D.ResolveColumn(props[i].property, m).Some?
  }

  predicate NoSimilarTo(props: seq<D.PropertyExpression>) {
    forall i :: 0 <= i < |props| ==> props[i].operator != D.SimilarTo
  }

  predicate Filters(preds: seq<Pred>) {
    forall i :: 0 <= i < |preds| ==> preds[i].op != D.SimilarTo
  }

  function Preds(props: seq<D.PropertyExpression>, m: D.Metadata): (preds: seq<Pred>)
    requires Resolves(props, m)
    ensures |preds| == |props|
    ensures forall i :: 0 <= i < |props| ==> preds[i] == Pred(props[i].operator, D.ResolveColumn(props[i].property, m).value)
  {
    seq(|props|, i requires 0 <= i < |props| => Pred(props[i].operator, D.ResolveColumn(props[i].property, m).value))
  }

  /** Arguments, and so parameters, used by the first k predicates. */
  function Before(preds: seq<Pred>, k: nat): nat
    requires k <= |preds|
  {
    if k == 0 then 0 else Before(preds, k - 1) + D.ParamCount(preds[k - 1].op)
  }

  function ExprBindings(op: D.Operator, argIdx: nat): seq<ParamBinding>
    requires op != D.SimilarTo
  {
    var ts := OperatorToSql(op, "", 0).transforms;
    seq(|ts|, j requires 0 <= j < |ts| => ParamBinding(argIdx + j, ts[j]))
  }

  function Bindings(preds: seq<Pred>, k: nat): seq<ParamBinding>
    requires k <= |preds| && Filters(preds)
  {
    if k == 0 then [] else Bindings(preds, k - 1) + ExprBindings(preds[k - 1].op, Before(preds, k - 1))
  }

  /** The text of one predicate in its place. */
  function PredText(preds: seq<Pred>, i: nat): string
    requires i < |preds| && Filters(preds)
  {
    SlotsText(ExprSlots(preds[i].op, preds[i].column, 1 + Before(preds, i)))
  }

  /** The WHERE clause of the first k predicates. */
  function WhereSlots(preds: seq<Pred>, sep: string, k: nat): seq<Slot>
    requires k <= |preds| && Filters(preds)
  {
    if k == 0 then []
    else
      var last := ExprSlots(preds[k - 1].op, preds[k - 1].column, 1 + Before(preds, k - 1));
      if k == 1 then last else WhereSlots(preds, sep, k - 1) + ([Fixed(sep)] + last)
  }

  function Separator(c: D.Connector): string {
    if c == D.AllOf then " AND " else " OR "
  }

  // --------------------------------------------------- the statement

  function QuotedColumns(fields: seq<D.FieldMapping>): (ts: seq<string>)
    ensures |ts| == |fields|
  {
    seq(|fields|, i requires 0 <= i < |fields| => Quoted(fields[i].columnName))
  }

  function OrderClauses(orderBy: seq<D.OrderBy>, m: D.Metadata): (ts: seq<string>)
    requires OrderResolves(orderBy, m)
    ensures |ts| == |orderBy|
  {
    seq(|orderBy|, i requires 0 <= i < |orderBy| =>
      Quoted(D.ResolveColumn(orderBy[i].property, m).value) + if orderBy[i].descending then " DESC" else " ASC")
  }

  predicate OrderResolves(orderBy: seq<D.OrderBy>, m: D.Metadata) {
    forall i :: 0 <= i < |orderBy| ==> D.ResolveColumn(orderBy[i].property, m).Some?
  }

  /** What stands before the WHERE clause. */
  function Head(d: D.Descriptor, m: D.Metadata): string {
    var table := Quoted(m.tableName);
    match d.action
    case Delete => "DELETE FROM " + table
    case Count => "SELECT COUNT(*) FROM " + table
    case Exists => "SELECT 1 FROM " + table
    case Find => "SELECT " + (if d.distinct then "DISTINCT " else "") + Join(QuotedColumns(m.fields), ", ") + " FROM " + table
  }

  /** What stands after it. */
  function Tail(d: D.Descriptor, m: D.Metadata): string
    requires d.action == D.Find ==> OrderResolves(d.orderBy, m)
  {
    match d.action
    case Delete => ""
    case Count => ""
    case Exists => " LIMIT 1"
    case Find =>
      (if |d.orderBy| > 0 then " ORDER BY " + Join(OrderClauses(d.orderBy, m), ", ") else "") +
      (if d.limit.Some? then " LIMIT " + Decimal(d.limit.value) else "")
  }

  /** The whole statement as a template. */
  function QuerySlots(d: D.Descriptor, m: D.Metadata): seq<Slot>
    requires Compilable(d, m)
  {
    var preds := Preds(d.properties, m);
    if |preds| == 0 then [Fixed(Head(d, m) + Tail(d, m))]
    else [Fixed(Head(d, m) + " WHERE ")] + (WhereSlots(preds, Separator(d.connector), |preds|) + [Fixed(Tail(d, m))])
  }

  /** Every property the statement names resolves to a column. */
  predicate Compilable(d: D.Descriptor, m: D.Metadata) {
    Resolves(d.properties, m) && NoSimilarTo(d.properties) && (d.action == D.Find ==> OrderResolves(d.orderBy, m))
  }

  lemma {:induction false} JoinSnoc(ts: seq<string>, t: string, sep: string)
    requires |ts| > 0
    ensures Join(ts + [t], sep) == Join(ts, sep) + (sep + t)
  {
    if |ts| == 1 {
      assert (ts + [t])[1..] == [t];
    } else {
      JoinSnoc(ts[1..], t, sep);
      assert (ts + [t])[1..] == ts[1..] + [t];
      Assoc(ts[0], sep + Join(ts[1..], sep), sep + t);
      Assoc(sep, Join(ts[1..], sep), sep + t);
    }
  }

  lemma {:induction false} WhereText(preds: seq<Pred>, sep: string, parts: seq<string>, k: nat)
    requires k <= |preds| && k <= |parts| && Filters(preds)
    requires forall i :: 0 <= i < k ==> parts[i] == PredText(preds, i)
    ensures SlotsText(WhereSlots(preds, sep, k)) == Join(parts[..k], sep)
  {
    hide SlotsText, ExprSlots, Before, SlotText;
    if k == 1 {
      assert parts[..1] == [parts[0]];
    } else if k > 1 {
      WhereText(preds, sep, parts, k - 1);
      assert parts[..k] == parts[..k - 1] + [parts[k - 1]];
      JoinSnoc(parts[..k - 1], parts[k - 1], sep);
      var last := ExprSlots(preds[k - 1].op, preds[k - 1].column, 1 + Before(preds, k - 1));
      SlotsTextCons(Fixed(sep), last);
      FixedText(Fixed(sep));
      SlotsTextConcat(WhereSlots(preds, sep, k - 1), [Fixed(sep)] + last);
    } else {
      NoSlots();
    }
  }

  lemma NoSlots()
    ensures SlotsText([]) == ""
  {
  }

  lemma QueryText(d: D.Descriptor, m: D.Metadata)
    requires Compilable(d, m)
    ensures var preds := Preds(d.properties, m); var slots := WhereSlots(preds, Separator(d.connector), |preds|);
      SlotsText(QuerySlots(d, m)) ==
        if |preds| == 0 then Head(d, m) + Tail(d, m) else Head(d, m) + " WHERE " + (SlotsText(slots) + Tail(d, m))
  {
    hide SlotsText, WhereSlots, SlotText, Head, Tail;
    var preds := Preds(d.properties, m);
    var slots := WhereSlots(preds, Separator(d.connector), |preds|);
    FixedText(Fixed(Tail(d, m)));
    if |preds| == 0 {
      OneSlot(Fixed(Head(d, m) + Tail(d, m)));
      FixedText(Fixed(Head(d, m) + Tail(d, m)));
    } else {
      OneSlot(Fixed(Tail(d, m)));
      SlotsTextConcat(slots, [Fixed(Tail(d, m))]);
      SlotsTextCons(Fixed(Head(d, m) + " WHERE "), slots + [Fixed(Tail(d, m))]);
      FixedText(Fixed(Head(d, m) + " WHERE "));
    }
  }

  lemma OperatorFacts(op: D.Operator, column: string, n: nat)
    requires op != D.SimilarTo
    ensures var result := OperatorToSql(op, column, n);
      && result.argCount == result.paramCount == |result.transforms| == D.ParamCount(op)
      && result.transforms == OperatorToSql(op, "", 0).transforms
  {
  }

  /** The bindings of one predicate, each taking the next argument. */
  method NumberBindings(op: D.Operator, transforms: seq<Transform>, argIdx: nat)
    returns (own: seq<ParamBinding>, next: nat)
    requires op != D.SimilarTo && transforms == OperatorToSql(op, "", 0).transforms
    ensures own == ExprBindings(op, argIdx) && next == argIdx + |transforms|
  {
    hide OperatorToSql, FormOf;
    own, next := [], argIdx;
    for j := 0 to |transforms|
      invariant next == argIdx + j && own == ExprBindings(op, argIdx)[..j]
    {
      own := own + [ParamBinding(next, transforms[j])];
      next := next + 1;
    }
  }

  lemma NonePassed(preds: seq<Pred>)
    requires Filters(preds)
    ensures Before(preds, 0) == 0 && Bindings(preds, 0) == []
  {
  }

  lemma OnePassed(preds: seq<Pred>, i: nat)
    requires i < |preds| && Filters(preds)
    ensures Before(preds, i + 1) == Before(preds, i) + D.ParamCount(preds[i].op)
    ensures Bindings(preds, i + 1) == Bindings(preds, i) + ExprBindings(preds[i].op, Before(preds, i))
    ensures PredText(preds, i) == SlotsText(ExprSlots(preds[i].op, preds[i].column, 1 + Before(preds, i)))
  {
    hide ExprBindings, SlotsText, ExprSlots, D.ParamCount;
  }

  /** One pass over the predicates, counting parameters and arguments as it goes. */
  method CompileWhere(preds: seq<Pred>) returns (whereParts: seq<string>, bindings: seq<ParamBinding>, expectedArgCount: nat)
    requires Filters(preds)
    ensures |whereParts| == |preds|
    ensures forall i :: 0 <= i < |preds| ==>
      whereParts[i] == PredText(preds, i)
    ensures bindings == Bindings(preds, |preds|) && expectedArgCount == Before(preds, |preds|)
  {
    hide SlotsText, ExprSlots, OperatorToSql, ExprBindings, D.ParamCount, Before, Bindings, PredText;
    whereParts, bindings := [], [];
    NonePassed(preds);
    var paramIdx, argIdx := 1, 0;
    for i := 0 to |preds|
      invariant |whereParts| == i && paramIdx == 1 + Before(preds, i) && argIdx == Before(preds, i)
      invariant bindings == Bindings(preds, i)
      invariant forall k :: 0 <= k < i ==>
        whereParts[k] == PredText(preds, k)
    {
      var op := preds[i].op;
      var result := OperatorToSql(op, preds[i].column, paramIdx);
      OperatorFacts(op, preds[i].column, paramIdx);
      OperatorText(op, preds[i].column, paramIdx);
      OnePassed(preds, i);
      whereParts := whereParts + [result.sql];
      var own, next := NumberBindings(op, result.transforms, argIdx);
      argIdx := next;
      if result.argCount != |result.transforms| {
        argIdx := argIdx - |result.transforms| + result.argCount;
      }
      bindings := bindings + own;
      paramIdx := paramIdx + result.paramCount;
    }
    expectedArgCount := argIdx;
  }

  /** Compiles a descriptor; an error names a property with no column. */
  method Compile(d: D.Descriptor, m: D.Metadata) returns (r: Result<Compiled, string>)
    requires NoSimilarTo(d.properties)
    ensures r.Ok? <==> Compilable(d, m)
    ensures r.Ok? ==>
      var preds := Preds(d.properties, m);
      && r.value.sql == SlotsText(QuerySlots(d, m))
      && r.value.paramBindings == Bindings(preds, |preds|)
      && r.value.expectedArgCount == Before(preds, |preds|)
  {
    hide SlotsText, Head, Tail, QuerySlots, WhereSlots, ExprSlots;
    for i := 0 to |d.properties|
      invariant forall k :: 0 <= k < i ==> D.ResolveColumn(d.properties[k].property, m).Some?
    {
      if D.ResolveColumn(d.properties[i].property, m).None? {
        return Err(d.properties[i].property);
      }
    }
    var preds := Preds(d.properties, m);
    var whereParts, bindings, count := CompileWhere(preds);
    if d.action == D.Find {
      for i := 0 to |d.orderBy|
        invariant forall k :: 0 <= k < i ==> D.ResolveColumn(d.orderBy[k].property, m).Some?
      {
        if D.ResolveColumn(d.orderBy[i].property, m).None? {
          return Err(d.orderBy[i].property);
        }
      }
    }
    var whereClause := Join(whereParts, Separator(d.connector));
    assert whereParts[..|preds|] == whereParts;
    WhereText(preds, Separator(d.connector), whereParts, |preds|);
    QueryText(d, m);
    var sql := if |preds| == 0 then Head(d, m) + Tail(d, m) else Head(d, m) + " WHERE " + (whereClause + Tail(d, m));
    r := Ok(Compiled(sql, bindings, count));
  }
}
