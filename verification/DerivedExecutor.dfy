/** The direct route: a criteria tree built from a descriptor and its arguments. */
module DerivedExecutor {
  import opened Options
  import opened SqlCondition
  import opened Criteria
  import D = DerivedQuery

  datatype Failure = UnknownProperty(property: string) | MissingArgument(column: string) | NotAList(column: string)

  /** One predicate as a criteria object; the list operators fail on anything but a list. */
  function BuildCriteria(op: D.Operator, column: string, args: seq<Value>, argOffset: nat): Result<Criteria, Failure>
    requires op != D.SimilarTo
  {
    var arg := D.ArgAt(args, argOffset);
    match op
    case Equals => Ok(ComparisonCriteria(Eq, column, arg))
    case Not => Ok(ComparisonCriteria(Ne, column, arg))
    case Like => Ok(ComparisonCriteria(Op.Like, column, arg))
    case StartingWith => Ok(ComparisonCriteria(Op.Like, column, Text(D.EscapeLikeValue(arg) + "%")))
    case EndingWith => Ok(ComparisonCriteria(Op.Like, column, Text("%" + D.EscapeLikeValue(arg))))
    case Containing => Ok(ComparisonCriteria(Op.Like, column, Text("%" + (D.EscapeLikeValue(arg) + "%"))))
    case GreaterThan => Ok(ComparisonCriteria(Gt, column, arg))
    case GreaterThanEqual => Ok(ComparisonCriteria(Ge, column, arg))
    case LessThan => Ok(ComparisonCriteria(Lt, column, arg))
    case LessThanEqual => Ok(ComparisonCriteria(Le, column, arg))
    case Between =>
      if |args| < argOffset + 2 then Err(MissingArgument(column))
      else Ok(BetweenCriteria(column, args[argOffset], args[argOffset + 1]))
    case In => if arg.List? then Ok(InCriteria(column, arg.vs)) else Err(NotAList(column))
    case NotIn => if arg.List? then Ok(NotCriteria(InCriteria(column, arg.vs))) else Err(NotAList(column))
    case IsNull => Ok(NullCriteria(true, column))
    case IsNotNull => Ok(NullCriteria(false, column))
    case True => Ok(ComparisonCriteria(Eq, column, Bool(true)))
    case False => Ok(ComparisonCriteria(Eq, column, Bool(false)))
  }

  /** Criteria combined from the left by one connector. */
  function Combined(list: seq<Criteria>, connector: D.Connector): Criteria
    requires |list| > 0
  {
    if |list| == 1 then list[0]
    else LogicalCriteria(connector == D.AllOf, Combined(list[..|list| - 1], connector), list[|list| - 1])
  }

  method CombineCriteria(list: seq<Criteria>, connector: D.Connector) returns (combined: Criteria)
    requires |list| > 0
    ensures combined == Combined(list, connector)
  {
    combined := list[0];
    for i := 1 to |list|
      invariant combined == Combined(list[..i], connector)
    {
      assert list[..i + 1][..i] == list[..i];
      combined := LogicalCriteria(connector == D.AllOf, combined, list[i]);
    }
    assert list[..|list|] == list;
  }

  /** Where the arguments of a property expression start: after those its predecessors declare. */
  function Offset(props: seq<D.PropertyExpression>, i: nat): nat
    requires i <= |props|
  {
    if i == 0 then 0 else Offset(props, i - 1) + props[i - 1].paramCount
  }

  /** The outcome for one property expression. */
  function BuildOne(props: seq<D.PropertyExpression>, m: D.Metadata, args: seq<Value>, i: nat): Result<Criteria, Failure>
    requires i < |props| && props[i].operator != D.SimilarTo
  {
    var column := D.ResolveColumn(props[i].property, m);
    if column.None? then Err(UnknownProperty(props[i].property))
    else BuildCriteria(props[i].operator, column.value, args, Offset(props, i))
  }

  /** The WHERE criteria of a descriptor, none without predicates; the first failure wins. */
  method BuildWhere(d: D.Descriptor, m: D.Metadata, args: seq<Value>) returns (r: Result<Option<Criteria>, Failure>)
    requires forall i :: 0 <= i < |d.properties| ==> d.properties[i].operator != D.SimilarTo
    ensures r.Ok? <==> forall i :: 0 <= i < |d.properties| ==> BuildOne(d.properties, m, args, i).Ok?
    ensures r.Ok? ==> (r.value.None? <==> |d.properties| == 0)
    ensures r.Ok? && |d.properties| > 0 ==> exists list: seq<Criteria> ::
      && |list| == |d.properties| && r.value == Some(Combined(list, d.connector))
      && forall i :: 0 <= i < |list| ==> BuildOne(d.properties, m, args, i) == Ok(list[i])
  {
    hide BuildCriteria;
    var list: seq<Criteria> := [];
    var argOffset := 0;
    for i := 0 to |d.properties|
      invariant |list| == i && argOffset == Offset(d.properties, i)
      invariant forall k :: 0 <= k < i ==> BuildOne(d.properties, m, args, k) == Ok(list[k])
    {
      var expr := d.properties[i];
      var column := D.ResolveColumn(expr.property, m);
      if column.None? {
        assert BuildOne(d.properties, m, args, i).Err?;
        return Err(UnknownProperty(expr.property));
      }
      var criteria := BuildCriteria(expr.operator, column.value, args, argOffset);
      assert criteria == BuildOne(d.properties, m, args, i);
      if criteria.Err? {
        return Err(criteria.error);
      }
      list := list + [criteria.value];
      argOffset := argOffset + expr.paramCount;
    }
    if |list| == 0 {
      r := Ok(None);
    } else {
      var combined := CombineCriteria(list, d.connector);
      r := Ok(Some(combined));
    }
  }
}
