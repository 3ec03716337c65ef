/** The statements of the compiled route and of the direct route, read as SQL, have the same WHERE clause in meaning. */
module RouteAgreement {
  import opened Options
  import opened SqlText
  import opened SqlCondition
  import opened SqlReader
  import opened ThreeValued
  import opened QueryTemplate
  import opened CompiledQuery
  import opened QueryCompiler
  import opened DerivedEquivalence
  import Criteria
  import DerivedExecutor
  import ReadChains
  import D = DerivedQuery

  // ------------------------------------------------------- conditions

  lemma {:induction false} OwnParams(preds: seq<Pred>, args: seq<Value>, i: nat, k: nat, env: nat -> Value)
    requires i < k <= |preds| && Filters(preds) && Binds(env, 1, Params(Givens(Bindings(preds, k), args)))
    ensures Binds(env, OutputIndex(preds, args, i), Params(PredGivens(preds[i].op, args, Before(preds, i))))
  {
    hide Binds, GivenBy, ExprBindings, Before, Params;
    var gs, own := Givens(Bindings(preds, k - 1), args), PredGivens(preds[k - 1].op, args, Before(preds, k - 1));
    GivensConcat(Bindings(preds, k - 1), ExprBindings(preds[k - 1].op, Before(preds, k - 1)), args);
    ParamsConcat(gs, own);
    BindsSplit(env, 1, Params(gs), Params(own));
    if i < k - 1 { OwnParams(preds, args, i, k - 1, env); }
  }

  /** The bound conditions, joined by the connector, mean the predicates. */
  lemma CompiledMeans(db: Database, preds: seq<Pred>, c: D.Connector, args: seq<Value>, row: Row, env: nat -> Value)
    requires Filters(preds) && Binds(env, 1, Params(Givens(Bindings(preds, |preds|), args)))
    ensures ConnectedTruth(ReadChains.Truths(db, BoundConds(preds, args), row, env), c == D.AllOf) == WhereTruth(db, preds, c, args, row)
  {
    hide Binds, Bindings, OutputIndex, Before, PredTruth, CondTruth, BoundCond, PredGivens, ConnectedTruth;
    var ts, us := ReadChains.Truths(db, BoundConds(preds, args), row, env), PredTruths(db, preds, args, row);
    forall i | 0 <= i < |preds| ensures ts[i] == us[i] {
      OwnParams(preds, args, i, |preds|, env);
      BoundCondMeans(db, preds[i], args, Before(preds, i), OutputIndex(preds, args, i), row, env);
    }
    assert ts == us;
  }

  /** One criteria object means its predicate. */
  lemma DirectMeans(db: Database, p: Pred, args: seq<Value>, a: nat, row: Row)
    requires p.op != D.SimilarTo && DerivedExecutor.BuildCriteria(p.op, p.column, args, a).Ok?
    ensures Criteria.CriteriaTruth(db, DerivedExecutor.BuildCriteria(p.op, p.column, args, a).value, row)
         == PredTruth(db, p, args, a, row)
  {
    hide D.EscapeLike, D.StringOf;
    match p.op {
      case NotIn =>
        var c := Criteria.InCriteria(p.column, Elements(D.ArgAt(args, a)));
        assert Criteria.CriteriaTruth(db, Criteria.NotCriteria(c), row) == ThreeValued.Not(Criteria.CriteriaTruth(db, c, row));
      case _ =>
    }
  }

  function CriteriaTruths(db: Database, list: seq<Criteria.Criteria>, row: Row): (ts: seq<Truth>)
    ensures |ts| == |list| && forall i :: 0 <= i < |list| ==> ts[i] == Criteria.CriteriaTruth(db, list[i], row)
  {
    seq(|list|, i requires 0 <= i < |list| => Criteria.CriteriaTruth(db, list[i], row))
  }

  /** Combining from the left means the same as one flat connection. */
  lemma {:induction false} CombinedMeans(db: Database, list: seq<Criteria.Criteria>, c: D.Connector, row: Row)
    requires |list| > 0
    ensures Criteria.CriteriaTruth(db, DerivedExecutor.Combined(list, c), row) == ConnectedTruth(CriteriaTruths(db, list, row), c == D.AllOf)
  {
    var ts, n := CriteriaTruths(db, list, row), |list| - 1;
    if n == 0 {
      assert ts[1..] == [] && All(ts[1..]) == ThreeValued.True && Any(ts[1..]) == ThreeValued.False;
    } else {
      CombinedMeans(db, list[..n], c, row);
      assert ts == CriteriaTruths(db, list[..n], row) + [ts[n]];
      AllSnoc(CriteriaTruths(db, list[..n], row), ts[n]);
      AnySnoc(CriteriaTruths(db, list[..n], row), ts[n]);
    }
  }

  /** Parameter counts as the parser sets them. */
  predicate CountsRight(props: seq<D.PropertyExpression>) {
    forall i :: 0 <= i < |props| ==> props[i].paramCount == D.ParamCount(props[i].operator)
  }

  lemma {:induction false} OffsetIsBefore(props: seq<D.PropertyExpression>, m: D.Metadata, i: nat)
    requires Resolves(props, m) && CountsRight(props) && i <= |props|
    ensures DerivedExecutor.Offset(props, i) == Before(Preds(props, m), i)
  {
    if i > 0 { OffsetIsBefore(props, m, i - 1); }
  }

  lemma {:induction false} BeforeGrows(preds: seq<Pred>, i: nat, k: nat)
    requires i < k <= |preds|
    ensures Before(preds, i) + D.ParamCount(preds[i].op) <= Before(preds, k)
  {
    if i < k - 1 { BeforeGrows(preds, i, k - 1); }
  }

  /** With all arguments present and lists for the list operators, the direct route builds too. */
  lemma DirectRouteBuilds(d: D.Descriptor, m: D.Metadata, args: seq<Value>, i: nat)
    requires Compilable(d, m) && CountsRight(d.properties) && i < |d.properties|
    requires var preds := Preds(d.properties, m); AllListed(preds, args) && Before(preds, |preds|) <= |args|
    ensures DerivedExecutor.BuildOne(d.properties, m, args, i).Ok?
  {
    hide DerivedExecutor.BuildCriteria, DerivedExecutor.Offset, Listed, Before;
    var preds := Preds(d.properties, m);
    OffsetIsBefore(d.properties, m, i);
    BeforeGrows(preds, i, |preds|);
    BuildsWhenListed(preds[i].op, preds[i].column, args, Before(preds, i));
  }

  lemma BuildsWhenListed(op: D.Operator, column: string, args: seq<Value>, a: nat)
    requires op != D.SimilarTo && Listed(op, args, a) && a + D.ParamCount(op) <= |args|
    ensures DerivedExecutor.BuildCriteria(op, column, args, a).Ok?
  {
  }

  lemma DirectOneMeans(d: D.Descriptor, m: D.Metadata, args: seq<Value>, i: nat, c: Criteria.Criteria, db: Database, row: Row)
    requires Compilable(d, m) && CountsRight(d.properties) && i < |d.properties|
    requires DerivedExecutor.BuildOne(d.properties, m, args, i) == Ok(c)
    ensures var preds := Preds(d.properties, m);
      Criteria.CriteriaTruth(db, c, row) == PredTruth(db, preds[i], args, Before(preds, i), row)
  {
    hide PredTruth, Criteria.CriteriaTruth, DerivedExecutor.BuildCriteria;
    var preds := Preds(d.properties, m);
    OffsetIsBefore(d.properties, m, i);
    DirectMeans(db, preds[i], args, Before(preds, i), row);
  }

  /** The criteria tree means the predicates. */
  lemma DirectRouteMeans(d: D.Descriptor, m: D.Metadata, args: seq<Value>, list: seq<Criteria.Criteria>, db: Database, row: Row)
    requires Compilable(d, m) && CountsRight(d.properties) && |d.properties| > 0 && |list| == |d.properties|
    requires forall i :: 0 <= i < |list| ==> DerivedExecutor.BuildOne(d.properties, m, args, i) == Ok(list[i])
    ensures Criteria.CriteriaTruth(db, DerivedExecutor.Combined(list, d.connector), row)
         == WhereTruth(db, Preds(d.properties, m), d.connector, args, row)
  {
    hide ConnectedTruth, PredTruth, Criteria.CriteriaTruth, DerivedExecutor.BuildOne, DerivedExecutor.Combined, Before;
    var preds := Preds(d.properties, m);
    CombinedMeans(db, list, d.connector, row);
    var ts, us := CriteriaTruths(db, list, row), PredTruths(db, preds, args, row);
    forall i | 0 <= i < |list| ensures ts[i] == us[i] {
      DirectOneMeans(d, m, args, i, list[i], db, row);
    }
    assert ts == us;
  }

  // ------------------------------------------------------------ texts

  predicate NameablePreds(preds: seq<Pred>) {
    forall i :: 0 <= i < |preds| ==> Nameable(preds[i].column)
  }

  lemma BoundReadable(p: Pred, args: seq<Value>, a: nat, o: nat)
    requires p.op != D.SimilarTo && Listed(p.op, args, a) && Nameable(p.column)
    ensures Readable(BoundCond(p, args, a, o))
  {
    hide Nameable;
  }

  lemma UnlistedRefused(p: Pred, n: nat, args: seq<Value>, a: nat, o: nat)
    requires p.op != D.SimilarTo && !Listed(p.op, args, a) && Nameable(p.column)
    ensures ReadChains.Refused(BoundText(ExprSlots(p.op, p.column, n), PredGivens(p.op, args, a), o))
  {
    hide Nameable, ReadChains.Refused, BoundText, Quoted, PredGivens, ExprSlots;
    GivensOf(p.op, args, a);
    EmptyListLeavesColumn(p.column, n, o);
    ReadChains.ColumnBeforeConstant(p.column);
    assert PredGivens(p.op, args, a) == [Spread([])];
  }

  /**
   * The WHERE clause of a bound statement, read as SQL: it has the truth of
   * the predicates if every list operator is given a list with elements, and
   * is refused otherwise.
   */
  lemma WhereRead(db: Database, preds: seq<Pred>, c: D.Connector, args: seq<Value>, row: Row, env: nat -> Value)
    requires |preds| > 0 && Filters(preds) && NameablePreds(preds)
    requires Binds(env, 1, Params(Givens(Bindings(preds, |preds|), args)))
    ensures TextTruth(db, Join(BoundTexts(preds, args), Separator(c)), row, env) ==
      if AllListed(preds, args) then Some(WhereTruth(db, preds, c, args, row)) else None
  {
    hide Binds, Bindings, Before, BoundText, OutputIndex, Nameable, Readable, Listed, WhereTruth, ReadChain, Join;
    var and := c == D.AllOf;
    if AllListed(preds, args) {
      assert Separator(c) == Connective(and);
      WhereExactly(preds, args, Separator(c));
      var conds := BoundConds(preds, args);
      forall i | 0 <= i < |conds| ensures Readable(conds[i]) {
        BoundReadable(preds[i], args, Before(preds, i), OutputIndex(preds, args, i));
      }
      ReadChains.TextMeans(db, conds, and, row, env);
      CompiledMeans(db, preds, c, args, row, env);
    } else {
      var k := FirstUnlisted(preds, args);
      WhereRefused(preds, c, args, k, "");
      assert Join(BoundTexts(preds, args), Separator(c)) + "" == Join(BoundTexts(preds, args), Separator(c));
    }
  }

  lemma FirstUnlisted(preds: seq<Pred>, args: seq<Value>) returns (k: nat)
    requires !AllListed(preds, args)
    ensures k < |preds| && !Listed(preds[k].op, args, Before(preds, k))
    ensures forall i :: 0 <= i < k ==> Listed(preds[i].op, args, Before(preds, i))
  {
    hide Listed, Before;
    k := 0;
    while Listed(preds[k].op, args, Before(preds, k))
      invariant k < |preds| && forall i :: 0 <= i < k ==> Listed(preds[i].op, args, Before(preds, i))
      invariant exists i :: k <= i < |preds| && !Listed(preds[i].op, args, Before(preds, i))
      decreases |preds| - k
    {
      k := k + 1;
    }
  }

  lemma {:induction false} WhereRefused(preds: seq<Pred>, c: D.Connector, args: seq<Value>, k: nat, rest: string)
    requires Filters(preds) && NameablePreds(preds) && k < |preds| && !Listed(preds[k].op, args, Before(preds, k))
    requires forall i :: 0 <= i < k ==> Listed(preds[i].op, args, Before(preds, i))
    ensures ReadChain(Join(BoundTexts(preds, args), Separator(c)) + rest, false) == None
  {
    hide Before, BoundText, OutputIndex, Nameable, Readable, Listed, ReadChain, Join, ReadChains.Refused, ReadChains.Reads, Render, CondPieces, BoundCond, ExprSlots;
    var ts, conds := BoundTexts(preds, args), BoundConds(preds, args)[..k];
    forall i | 0 <= i < k ensures ReadChains.Reads(ts[i], conds[i]) {
      var a, o := Before(preds, i), OutputIndex(preds, args, i);
      BoundReadable(preds[i], args, a, o);
      ReadChains.TextRead(conds[i]);
      PredBound(preds[i], 1 + a, args, a, o);
    }
    UnlistedRefused(preds[k], 1 + Before(preds, k), args, Before(preds, k), OutputIndex(preds, args, k));
    var and := c == D.AllOf;
    assert Separator(c) == Connective(and);
    ReadChains.RefusedJoined(ts, conds, and, rest);
  }

  /** All columns of the entity are names in the sense of the reader. */
  predicate NameableColumns(m: D.Metadata) {
    forall i :: 0 <= i < |m.fields| ==> Nameable(m.fields[i].columnName)
  }

  lemma {:induction false} FoundNameable(fields: seq<D.FieldMapping>, name: string)
    requires forall i :: 0 <= i < |fields| ==> Nameable(fields[i].columnName)
    ensures D.FindField(fields, name).Some? ==> Nameable(D.FindField(fields, name).value)
  {
    hide Nameable;
    if |fields| > 0 { FoundNameable(fields[1..], name); }
  }

  lemma ResolvedNameable(property: string, m: D.Metadata)
    requires NameableColumns(m)
    ensures D.ResolveColumn(property, m).Some? ==> Nameable(D.ResolveColumn(property, m).value)
  {
    hide Nameable;
    FoundNameable(m.fields, property);
    FoundNameable(m.fields, m.idField);
  }

  lemma PredsNameable(props: seq<D.PropertyExpression>, m: D.Metadata)
    requires Resolves(props, m) && NameableColumns(m)
    ensures NameablePreds(Preds(props, m))
  {
    hide Nameable, D.ResolveColumn;
    forall i | 0 <= i < |props| ensures Nameable(Preds(props, m)[i].column) { ResolvedNameable(props[i].property, m); }
  }

  lemma BuiltColumns(op: D.Operator, column: string, args: seq<Value>, a: nat)
    requires op != D.SimilarTo && DerivedExecutor.BuildCriteria(op, column, args, a).Ok?
    ensures Criteria.Columns(DerivedExecutor.BuildCriteria(op, column, args, a).value) == {column}
  {
    hide D.EscapeLike, D.StringOf;
  }

  lemma {:induction false} CombinedColumns(list: seq<Criteria.Criteria>, c: D.Connector)
    requires |list| > 0 && forall i :: 0 <= i < |list| ==> forall col :: col in Criteria.Columns(list[i]) ==> Nameable(col)
    ensures forall col :: col in Criteria.Columns(DerivedExecutor.Combined(list, c)) ==> Nameable(col)
  {
    hide Nameable;
    if |list| > 1 { CombinedColumns(list[..|list| - 1], c); }
  }

  lemma DirectNameable(d: D.Descriptor, m: D.Metadata, args: seq<Value>, list: seq<Criteria.Criteria>)
    requires Compilable(d, m) && NameableColumns(m) && |d.properties| > 0 && |list| == |d.properties|
    requires forall i :: 0 <= i < |list| ==> DerivedExecutor.BuildOne(d.properties, m, args, i) == Ok(list[i])
    ensures forall col :: col in Criteria.Columns(DerivedExecutor.Combined(list, d.connector)) ==> Nameable(col)
  {
    hide Nameable, DerivedExecutor.BuildCriteria, Criteria.Columns, D.ResolveColumn, DerivedExecutor.Offset, DerivedExecutor.Combined;
    forall i | 0 <= i < |list| ensures forall col :: col in Criteria.Columns(list[i]) ==> Nameable(col) {
      var p := d.properties[i];
      ResolvedNameable(p.property, m);
      BuiltColumns(p.operator, D.ResolveColumn(p.property, m).value, args, DerivedExecutor.Offset(d.properties, i));
    }
    CombinedColumns(list, d.connector);
  }

  /**
   * For every descriptor without SimilarTo, every argument list, every row and
   * every database comparison: read as SQL, the WHERE clause printed from the
   * criteria tree, from any parameter offset, has the truth of the predicates,
   * and that of the compiled and bound statement has the same truth exactly
   * when no list is empty.
   */
  lemma RoutesAgree(d: D.Descriptor, m: D.Metadata, args: seq<Value>, list: seq<Criteria.Criteria>,
                    db: Database, row: Row, env: nat -> Value, offset: nat, env': nat -> Value)
    requires Compilable(d, m) && CountsRight(d.properties) && NameableColumns(m) && |d.properties| > 0 && |list| == |d.properties|
    requires forall i :: 0 <= i < |list| ==> DerivedExecutor.BuildOne(d.properties, m, args, i) == Ok(list[i])
    requires Binds(env, 1, Params(AllGivens(d, m, args)))
    requires Binds(env', offset, Criteria.ToSql(DerivedExecutor.Combined(list, d.connector), offset).params)
    ensures var preds, where := Preds(d.properties, m), DerivedExecutor.Combined(list, d.connector);
      var compiled := TextTruth(db, Join(BoundTexts(preds, args), Separator(d.connector)), row, env);
      var direct := TextTruth(db, Criteria.ToSql(where, offset).sql, row, env');
      && direct == Some(WhereTruth(db, preds, d.connector, args, row))
      && (compiled == direct <==> AllListed(preds, args))
  {
    hide Binds, Bindings, Criteria.ToSql, Criteria.CriteriaTruth, WhereTruth, TextTruth, AllListed, Criteria.Columns, Nameable,
      DerivedExecutor.BuildOne, DerivedExecutor.Combined, Params, Join, BoundTexts, NameableColumns;
    PredsNameable(d.properties, m);
    WhereRead(db, Preds(d.properties, m), d.connector, args, row, env);
    DirectRouteMeans(d, m, args, list, db, row);
    DirectNameable(d, m, args, list);
    Criteria.TextMeansCriteria(db, DerivedExecutor.Combined(list, d.connector), row, offset, env');
  }
}
