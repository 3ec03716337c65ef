/** Compiled and bound, a template is the intended statement: what the holes are filled with, and when they are found. */
module DerivedEquivalence {
  import opened Options
  import opened SqlText
  import opened SqlCondition
  import opened ThreeValued
  import opened QueryTemplate
  import opened CompiledQuery
  import opened QueryCompiler
  import ReadChains
  import SqlUtils
  import D = DerivedQuery

  // ------------------------------------------------------- the meaning

  function Elements(v: Value): seq<Value> {
    if v.List? then v.vs else []
  }

  /** What one predicate says of a row, its arguments starting at a. */
  function PredTruth(db: Database, p: Pred, args: seq<Value>, a: nat, row: Row): Truth
    requires p.op != D.SimilarTo
  {
    var cell, arg := CellIn(row, p.column), D.ArgAt(args, a);
    match p.op
    case Equals => db.compare(Eq, cell, arg)
    case Not => db.compare(Ne, cell, arg)
    case GreaterThan => db.compare(Gt, cell, arg)
    case GreaterThanEqual => db.compare(Ge, cell, arg)
    case LessThan => db.compare(Lt, cell, arg)
    case LessThanEqual => db.compare(Le, cell, arg)
    case Like => db.compare(Op.Like, cell, arg)
    case StartingWith => db.compare(Op.Like, cell, Text(D.EscapeLikeValue(arg) + "%"))
    case EndingWith => db.compare(Op.Like, cell, Text("%" + D.EscapeLikeValue(arg)))
    case Containing => db.compare(Op.Like, cell, Text("%" + (D.EscapeLikeValue(arg) + "%")))
    case Between => And(db.compare(Ge, cell, arg), db.compare(Le, cell, D.ArgAt(args, a + 1)))
    case In => InTruth(db, cell, Elements(arg))
    case NotIn => ThreeValued.Not(InTruth(db, cell, Elements(arg)))
    case IsNull => Of(cell == Null)
    case IsNotNull => Of(cell != Null)
    case True => db.compare(Eq, cell, Bool(true))
    case False => db.compare(Eq, cell, Bool(false))
  }

  function PredTruths(db: Database, preds: seq<Pred>, args: seq<Value>, row: Row): (ts: seq<Truth>)
    requires Filters(preds)
    ensures |ts| == |preds|
  {
    seq(|preds|, i requires 0 <= i < |preds| => PredTruth(db, preds[i], args, Before(preds, i), row))
  }

  /** What the whole WHERE clause says of a row. */
  function WhereTruth(db: Database, preds: seq<Pred>, c: D.Connector, args: seq<Value>, row: Row): Truth
    requires Filters(preds)
  {
    ConnectedTruth(PredTruths(db, preds, args, row), c == D.AllOf)
  }

  /** Arguments a caller must supply: a non-empty list for the list operators. */
  predicate Listed(op: D.Operator, args: seq<Value>, a: nat) {
    op.In? || op.NotIn? ==> D.ArgAt(args, a).List? && |D.ArgAt(args, a).vs| > 0
  }

  predicate AllListed(preds: seq<Pred>, args: seq<Value>) {
    forall i :: 0 <= i < |preds| ==> Listed(preds[i].op, args, Before(preds, i))
  }

  // ------------------------------------------- the compiled route

  /** The condition a bound predicate denotes, its parameters numbered from o. */
  function BoundCond(p: Pred, args: seq<Value>, a: nat, o: nat): Cond
    requires p.op != D.SimilarTo
  {
    var ns := Consecutive(o, |Elements(D.ArgAt(args, a))|);
    if IsScalar(p.op) then Compare(p.column, FormOf(p.op).spelling, o)
    else match p.op
      case Between => Cond.Between(p.column, o, o + 1)
      case In => InList(p.column, ns)
      case NotIn => Negation(InList(p.column, ns))
      case IsNull => Cond.IsNull(p.column)
      case IsNotNull => Cond.IsNotNull(p.column)
      case True => CompareBool(p.column, true)
      case False => CompareBool(p.column, false)
  }

  function PredGivens(op: D.Operator, args: seq<Value>, a: nat): seq<Given>
    requires op != D.SimilarTo
  {
    Givens(ExprBindings(op, a), args)
  }

  lemma GivensOf(op: D.Operator, args: seq<Value>, a: nat)
    requires op != D.SimilarTo
    ensures var gs, arg := PredGivens(op, args, a), D.ArgAt(args, a);
      && |gs| == D.ParamCount(op)
      && (IsScalar(op) ==> gs == [Scalar(ApplyTransform(arg, FormOf(op).transform))])
      && (op.Between? ==> gs == [Scalar(arg), Scalar(D.ArgAt(args, a + 1))])
      && (op.In? || op.NotIn? ==> gs == [Spread(Elements(arg))])
  {
  }

  lemma ParamsOf(op: D.Operator, args: seq<Value>, a: nat)
    requires op != D.SimilarTo
    ensures var ps, arg := Params(PredGivens(op, args, a)), D.ArgAt(args, a);
      && (IsScalar(op) ==> ps == [ApplyTransform(arg, FormOf(op).transform)])
      && (op.Between? ==> ps == [arg, D.ArgAt(args, a + 1)])
      && (op.In? || op.NotIn? ==> ps == Elements(arg))
  {
    hide D.EscapeLike, D.StringOf, ApplyTransform, D.ArgAt;
    GivensOf(op, args, a);
    var gs := PredGivens(op, args, a);
    if |gs| == 1 { assert gs[1..] == []; }
    if op.Between? {
      assert gs[1..] == [Scalar(D.ArgAt(args, a + 1))] && gs[1..][1..] == [];
      assert Params(gs[1..]) == [D.ArgAt(args, a + 1)];
    }
  }

  /** The operator a scalar predicate compares with, and what it compares the cell with. */
  lemma ScalarMeans(db: Database, p: Pred, args: seq<Value>, a: nat, row: Row)
    requires IsScalar(p.op)
    ensures OpOf(FormOf(p.op).spelling).Some?
    ensures PredTruth(db, p, args, a, row) == db.compare(OpOf(FormOf(p.op).spelling).value, CellIn(row, p.column),
      ApplyTransform(D.ArgAt(args, a), FormOf(p.op).transform))
  {
    hide D.EscapeLike, D.StringOf, D.ArgAt;
  }

  /** A predicate's template, bound, means the predicate. */
  lemma BoundCondMeans(db: Database, p: Pred, args: seq<Value>, a: nat, o: nat, row: Row, env: nat -> Value)
    requires p.op != D.SimilarTo && Binds(env, o, Params(PredGivens(p.op, args, a)))
    ensures CondTruth(db, BoundCond(p, args, a, o), row, env) == PredTruth(db, p, args, a, row)
  {
    hide D.EscapeLike, D.StringOf, ApplyTransform, PredGivens, OpOf, FormOf;
    if IsScalar(p.op) { ScalarMeans(db, p, args, a, row); }
    ParamsOf(p.op, args, a);
    var ps := Params(PredGivens(p.op, args, a));
    assert |ps| > 0 ==> env(o + 0) == ps[0];
    assert |ps| > 1 ==> env(o + 1) == ps[1];
    if p.op.In? || p.op.NotIn? {
      var ns := Consecutive(o, |ps|);
      assert seq(|ns|, i requires 0 <= i < |ns| => env(ns[i])) == ps;
    }
  }

  lemma ScalarFits(t: string, n: nat, g: Given)
    requires g.Scalar?
    ensures Fits([Fixed(t), One(n)], [g], n)
  {
    assert [Fixed(t), One(n)][1..] == [One(n)] && [One(n)][1..] == [];
    assert Fits([One(n)], [g], n);
  }

  lemma BetweenFits(t: string, n: nat, g: Given, h: Given)
    requires g.Scalar? && h.Scalar?
    ensures Fits([Fixed(t), One(n), Fixed(" AND "), One(n + 1)], [g, h], n)
  {
    ScalarFits(t, n, g);
    ScalarFits(" AND ", n + 1, h);
    TwoSlots(Fixed(" AND "), One(n + 1));
    FitsConcat([Fixed(t), One(n)], [Fixed(" AND "), One(n + 1)], [g], [h], n);
    assert [Fixed(t), One(n)] + [Fixed(" AND "), One(n + 1)] == [Fixed(t), One(n), Fixed(" AND "), One(n + 1)];
    assert [g] + [h] == [g, h];
  }

  lemma FixedFits(t: string, n: nat)
    ensures Fits([Fixed(t)], [], n)
  {
    assert [Fixed(t)][1..] == [];
  }

  lemma ListFits(t: string, n: nat, g: Given, end: seq<Slot>)
    requires g.Spread? && (end == [] || end == [Fixed(")")])
    ensures Fits([Fixed(t), Many(n)] + end, [g], n)
  {
    var s := [Fixed(t), Many(n)] + end;
    assert s[1..] == [Many(n)] + end && s[1..][1..] == end;
    if end != [] { FixedFits(")", n + 1); }
    assert Fits(s[1..], [g], n);
  }

  lemma PredFits(p: Pred, n: nat, args: seq<Value>, a: nat)
    requires p.op != D.SimilarTo
    ensures Fits(ExprSlots(p.op, p.column, n), PredGivens(p.op, args, a), n)
  {
    hide Fits, Quoted, PredGivens, D.EscapeLike, ApplyTransform;
    GivensOf(p.op, args, a);
    var gs, col := PredGivens(p.op, args, a), Quoted(p.column);
    if IsScalar(p.op) {
      ScalarFits(col + " " + FormOf(p.op).spelling + " ", n, gs[0]);
    } else if p.op.Between? {
      BetweenFits(col + " BETWEEN ", n, gs[0], gs[1]);
    } else if p.op.In? {
      ListFits(col + " ", n, gs[0], []);
      assert [Fixed(col + " "), Many(n)] + [] == [Fixed(col + " "), Many(n)];
    } else if p.op.NotIn? {
      ListFits("NOT (" + col + " ", n, gs[0], [Fixed(")")]);
      assert [Fixed("NOT (" + col + " "), Many(n)] + [Fixed(")")] == ExprSlots(p.op, p.column, n);
    } else {
      FixedFits(ExprSlots(p.op, p.column, n)[0].text, n);
      assert gs == [];
    }
  }

  /** A name in which no `$` stands before a digit gives fixed text of which the same holds. */
  lemma AroundName(before: string, name: string, after: string)
    requires NoParam(name) && Tame(before) && Tame(after) && |after| > 0 && NoDigitFirst(after)
    ensures Tame(before + Quoted(name) + after)
  {
    SqlUtils.QuotingNoParam(name);
    NoParamConcat(before, Quoted(name));
    NoParamConcat(before + Quoted(name), after);
  }

  lemma PredTame(p: Pred, n: nat)
    requires p.op != D.SimilarTo && NoParam(p.column)
    ensures TameSlots(ExprSlots(p.op, p.column, n))
  {
    hide Quoted, Tame, NoParam;
    TameWords();
    var col := Quoted(p.column);
    if IsScalar(p.op) {
      ScalarTame(p, n);
    } else if p.op.Between? {
      AfterName(p.column, " BETWEEN ");
    } else if p.op.In? {
      AfterName(p.column, " ");
    } else if p.op.NotIn? {
      AroundName("NOT (", p.column, " ");
    } else {
      LastWords();
      AfterName(p.column, if p.op.IsNull? then " IS NULL" else if p.op.IsNotNull? then " IS NOT NULL"
                          else if p.op.True? then " = TRUE" else " = FALSE");
    }
  }

  lemma AfterName(name: string, after: string)
    requires NoParam(name) && Tame(after) && |after| > 0 && NoDigitFirst(after)
    ensures Tame(Quoted(name) + after)
  {
    AroundName("", name, after);
    assert "" + Quoted(name) + after == Quoted(name) + after;
  }

  lemma ScalarTame(p: Pred, n: nat)
    requires IsScalar(p.op) && NoParam(p.column)
    ensures TameSlots(ExprSlots(p.op, p.column, n))
  {
    hide Quoted, NoParam, Tame;
    var mid := " " + FormOf(p.op).spelling + " ";
    assert Tame(mid) by { SpellingTame(p.op); }
    AfterName(p.column, mid);
    assert Quoted(p.column) + mid == Quoted(p.column) + " " + FormOf(p.op).spelling + " ";
  }

  lemma SpellingTame(op: D.Operator)
    requires IsScalar(op)
    ensures Tame(" " + FormOf(op).spelling + " ")
  {
    PlainTame(" " + FormOf(op).spelling + " ");
  }

  lemma TameWords()
    ensures Tame("") && Tame(" ") && Tame(")") && Tame("NOT (") && Tame(" AND ") && Tame(" OR ") && Tame(" BETWEEN ")
  {
    PlainTame("NOT (");
    PlainTame(" AND ");
    PlainTame(" OR ");
    PlainTame(" BETWEEN ");
  }

  lemma LastWords()
    ensures Tame(" IS NULL") && Tame(" IS NOT NULL") && Tame(" = TRUE") && Tame(" = FALSE")
  {
    PlainTame(" IS NULL");
    PlainTame(" IS NOT NULL");
    PlainTame(" = TRUE");
    PlainTame(" = FALSE");
  }

  /** With an empty list the column name stays in front of the constant, which is as long as the empty list it replaces. */
  lemma EmptyListLeavesColumn(column: string, n: nat, o: nat)
    ensures BoundText(ExprSlots(D.In, column, n), [Spread([])], o) == Quoted(column) + " (1=0)"
    ensures BoundText(ExprSlots(D.NotIn, column, n), [Spread([])], o) == "NOT (" + Quoted(column) + " (1=0))"
    ensures Render(CondPieces(InList(column, []))) == Quoted(column) + " IN ()"
    ensures Render(CondPieces(Negation(InList(column, [])))) == "NOT (" + Quoted(column) + " IN ())"
    ensures Quoted(column) + " (1=0)" != Quoted(column) + " IN ()"
    ensures "NOT (" + Quoted(column) + " (1=0))" != "NOT (" + Quoted(column) + " IN ())"
  {
    hide Quoted, Render, BoundText;
    var col, ns: seq<nat> := Quoted(column), [];
    EmptyHole(col + " ", n, [], o);
    EmptyHole("NOT (" + col + " ", n, [Fixed(")")], o);
    NothingBound(o);
    BoundFixed(")", o);
    assert [Fixed(col + " "), Many(n)] + [] == ExprSlots(D.In, column, n);
    assert [Fixed("NOT (" + col + " "), Many(n)] + [Fixed(")")] == ExprSlots(D.NotIn, column, n);
    RenderParams(ns);
    assert Join(Dollars(ns), ", ") == "";
    RenderWrapped(col + " IN (", JoinPieces(ParamPieces(ns), ", "), ")");
    RenderWrapped("NOT (", CondPieces(InList(column, ns)), ")");
    assert (col + " (1=0)")[|col| + 1] != (col + " IN ()")[|col| + 1];
    assert ("NOT (" + col + " (1=0))")[|col| + 6] != ("NOT (" + col + " IN ())")[|col| + 6];
  }

  lemma EmptyHole(t: string, n: nat, end: seq<Slot>, o: nat)
    ensures BoundText([Fixed(t), Many(n)] + end, [Spread([])], o) == t + ("(1=0)" + BoundText(end, [], o))
  {
    assert [Fixed(t), Many(n)] + end == [Fixed(t)] + ([Many(n)] + end) && [Spread([])][1..] == [];
    BoundCons(Many(n), end, [Spread([])], o);
    BoundCons(Fixed(t), [Many(n)] + end, [Spread([])], o);
  }

  /** The text a bound predicate becomes is the text of its condition exactly when a list operator is given a list with elements:
      an empty one, or no list, leaves the column name in front of a constant. */
  lemma PredBound(p: Pred, n: nat, args: seq<Value>, a: nat, o: nat)
    requires p.op != D.SimilarTo
    ensures Listed(p.op, args, a)
      <==> BoundText(ExprSlots(p.op, p.column, n), PredGivens(p.op, args, a), o) == Render(CondPieces(BoundCond(p, args, a, o)))
    ensures |BoundText(ExprSlots(p.op, p.column, n), PredGivens(p.op, args, a), o)|
         == |Render(CondPieces(BoundCond(p, args, a, o)))|
  {
    hide Render, JoinPieces, Join, Quoted, PredGivens, D.EscapeLike, ApplyTransform, Decimal, BoundText, Consecutive;
    GivensOf(p.op, args, a);
    var gs, col := PredGivens(p.op, args, a), Quoted(p.column);
    if IsScalar(p.op) {
      var t := col + " " + FormOf(p.op).spelling + " ";
      BoundScalar(t, n, gs[0], o);
      RenderTwo(t, o);
    } else if p.op.Between? {
      BoundBetween(col + " BETWEEN ", n, gs[0], gs[1], o);
      RenderFour(col + " BETWEEN ", o, " AND ", o + 1);
    } else if p.op.In? || p.op.NotIn? {
      var vs := Elements(D.ArgAt(args, a));
      if |vs| > 0 {
        BoundIn(p.column, n, vs, o, p.op.NotIn?);
      } else {
        EmptyListLeavesColumn(p.column, n, o);
        assert Consecutive(o, 0) == [];
      }
    } else {
      var t := ExprSlots(p.op, p.column, n)[0].text;
      assert gs == [];
      BoundFixed(t, o);
      RenderText(t);
    }
  }

  lemma BoundFixed(t: string, o: nat)
    ensures BoundText([Fixed(t)], [], o) == t
  {
    assert [Fixed(t)][1..] == [];
    assert t + "" == t;
  }

  lemma BoundScalar(t: string, n: nat, g: Given, o: nat)
    requires g.Scalar?
    ensures BoundText([Fixed(t), One(n)], [g], o) == t + Dollar(o)
  {
    assert [Fixed(t), One(n)] == [Fixed(t)] + ([One(n)] + []) && [g][1..] == [];
    BoundCons(One(n), [], [g], o);
    BoundCons(Fixed(t), [One(n)] + [], [g], o);
    assert Dollar(o) + "" == Dollar(o);
  }

  lemma BoundBetween(t: string, n: nat, g: Given, h: Given, o: nat)
    requires g.Scalar? && h.Scalar?
    ensures BoundText([Fixed(t), One(n), Fixed(" AND "), One(n + 1)], [g, h], o)
         == t + Dollar(o) + " AND " + Dollar(o + 1)
  {
    var a, b := [Fixed(t), One(n)], [Fixed(" AND "), One(n + 1)];
    assert a + b == [Fixed(t), One(n), Fixed(" AND "), One(n + 1)] && [g] + [h] == [g, h];
    BoundScalar(t, n, g, o);
    BoundScalar(" AND ", n + 1, h, o + 1);
    // The split needs only that the first half fits, whatever its text.
    BoundSplit(t, n, g, b, [h], o);
    Assoc(t + Dollar(o), " AND ", Dollar(o + 1));
  }

  lemma BoundSplit(t: string, n: nat, g: Given, b: seq<Slot>, gb: seq<Given>, o: nat)
    requires g.Scalar?
    ensures BoundText([Fixed(t), One(n)] + b, [g] + gb, o) == t + Dollar(o) + BoundText(b, gb, o + 1)
  {
    assert [Fixed(t), One(n)] + b == [Fixed(t)] + ([One(n)] + b) && ([g] + gb)[1..] == gb;
    BoundCons(One(n), b, [g] + gb, o);
    BoundCons(Fixed(t), [One(n)] + b, [g] + gb, o);
    Assoc(t, Dollar(o), BoundText(b, gb, o + 1));
  }

  lemma BoundList(t: string, n: nat, vs: seq<Value>, end: seq<Slot>, o: nat)
    requires |vs| > 0
    ensures BoundText([Fixed(t), Many(n)] + end, [Spread(vs)], o)
         == t + ("IN (" + DollarList(o, |vs|) + ")" + BoundText(end, [], o + |vs|))
  {
    hide DollarList;
    assert [Fixed(t), Many(n)] + end == [Fixed(t)] + ([Many(n)] + end) && [Spread(vs)][1..] == [];
    BoundCons(Many(n), end, [Spread(vs)], o);
    BoundCons(Fixed(t), [Many(n)] + end, [Spread(vs)], o);
  }

  lemma DollarListIsJoin(o: nat, k: nat)
    ensures DollarList(o, k) == Join(Dollars(Consecutive(o, k)), ", ")
  {
    hide Join, Decimal;
    assert seq(k, i requires 0 <= i < k => "$" + Decimal(o + i)) == Dollars(Consecutive(o, k));
  }

  /** `IN ($n)` and `NOT (... IN ($n))`, spread over a non-empty list. */
  lemma BoundIn(column: string, n: nat, vs: seq<Value>, o: nat, negated: bool)
    requires |vs| > 0
    ensures var c := InList(column, Consecutive(o, |vs|));
      BoundText(ExprSlots(if negated then D.NotIn else D.In, column, n), [Spread(vs)], o)
        == Render(CondPieces(if negated then Negation(c) else c))
  {
    hide Render, JoinPieces, Join, Quoted, Decimal, BoundText, DollarList, Consecutive;
    var col, ns, list := Quoted(column), Consecutive(o, |vs|), DollarList(o, |vs|);
    DollarListIsJoin(o, |vs|);
    RenderParams(ns);
    RenderWrapped(col + " IN (", JoinPieces(ParamPieces(ns), ", "), ")");
    if negated {
      var t := "NOT (" + col + " ";
      BoundList(t, n, vs, [Fixed(")")], o);
      BoundFixed(")", o + |vs|);
      assert [Fixed(t), Many(n)] + [Fixed(")")] == ExprSlots(D.NotIn, column, n);
      RenderWrapped("NOT (", CondPieces(InList(column, ns)), ")");
      NegatedText(col, list);
    } else {
      var t := col + " ";
      BoundList(t, n, vs, [], o);
      NothingBound(o + |vs|);
      assert [Fixed(t), Many(n)] + [] == ExprSlots(D.In, column, n);
      PlainText(col, list);
    }
  }

  lemma NothingBound(o: nat)
    ensures BoundText([], [], o) == ""
  {
  }

  lemma PlainText(col: string, list: string)
    ensures col + " " + ("IN (" + list + ")" + "") == col + " IN (" + list + ")"
  {
  }

  lemma NegatedText(col: string, list: string)
    ensures "NOT (" + col + " " + ("IN (" + list + ")" + ")") == "NOT (" + (col + " IN (" + list + ")") + ")"
  {
  }

  // -------------------------------------------------- the whole clause

  /** Where the parameters of predicate i start in the output: after all earlier ones, lists counted in full. */
  function OutputIndex(preds: seq<Pred>, args: seq<Value>, i: nat): nat
    requires i <= |preds| && Filters(preds)
  {
    1 + |Params(Givens(Bindings(preds, i), args))|
  }

  function BoundConds(preds: seq<Pred>, args: seq<Value>): (conds: seq<Cond>)
    requires Filters(preds)
    ensures |conds| == |preds|
    ensures forall i :: 0 <= i < |preds| ==>
      conds[i] == BoundCond(preds[i], args, Before(preds, i), OutputIndex(preds, args, i))
  {
    seq(|preds|, i requires 0 <= i < |preds| => BoundCond(preds[i], args, Before(preds, i), OutputIndex(preds, args, i)))
  }

  lemma GivensConcat(a: seq<ParamBinding>, b: seq<ParamBinding>, args: seq<Value>)
    ensures Givens(a + b, args) == Givens(a, args) + Givens(b, args)
  {
  }

  lemma {:induction false} BindingCount(preds: seq<Pred>, k: nat)
    requires k <= |preds| && Filters(preds)
    ensures |Bindings(preds, k)| == Before(preds, k)
  {
    if k > 0 {
      BindingCount(preds, k - 1);
      OperatorFacts(preds[k - 1].op, "", 0);
    }
  }

  /** What a predicate's text becomes when bound. */
  function BoundOne(preds: seq<Pred>, args: seq<Value>, i: nat): string
    requires i < |preds| && Filters(preds)
  {
    BoundText(ExprSlots(preds[i].op, preds[i].column, 1 + Before(preds, i)),
              PredGivens(preds[i].op, args, Before(preds, i)), OutputIndex(preds, args, i))
  }

  function BoundTexts(preds: seq<Pred>, args: seq<Value>): (ts: seq<string>)
    requires Filters(preds)
    ensures |ts| == |preds| && forall i :: 0 <= i < |preds| ==> ts[i] == BoundOne(preds, args, i)
  {
    seq(|preds|, i requires 0 <= i < |preds| => BoundOne(preds, args, i))
  }

  predicate SafePreds(preds: seq<Pred>) {
    forall i :: 0 <= i < |preds| ==> NoParam(preds[i].column)
  }

  /** The clause of the first k predicates, and one predicate more. */
  lemma WhereSlotsNext(preds: seq<Pred>, sep: string, k: nat)
    requires 0 < k <= |preds| && Filters(preds)
    ensures var last := ExprSlots(preds[k - 1].op, preds[k - 1].column, 1 + Before(preds, k - 1));
      WhereSlots(preds, sep, k) == if k == 1 then last else WhereSlots(preds, sep, k - 1) + ([Fixed(sep)] + last)
    ensures Bindings(preds, k) == Bindings(preds, k - 1) + ExprBindings(preds[k - 1].op, Before(preds, k - 1))
    ensures k == 1 ==> Bindings(preds, 0) == [] && Before(preds, 0) == 0
  {
    hide ExprSlots, ExprBindings;
  }

  lemma SeparatorFits(sep: string, slots: seq<Slot>, givens: seq<Given>, n: nat, o: nat)
    requires Fits(slots, givens, n) && (sep == " AND " || sep == " OR ")
    ensures Fits([Fixed(sep)] + slots, givens, n) && NoDigitFirst(SlotsText([Fixed(sep)] + slots))
    ensures BoundText([Fixed(sep)] + slots, givens, o) == sep + BoundText(slots, givens, o)
  {
    assert ([Fixed(sep)] + slots)[1..] == slots;
  }

  lemma {:induction false} WhereBound(preds: seq<Pred>, sep: string, args: seq<Value>, k: nat)
    requires k <= |preds| && Filters(preds) && (sep == " AND " || sep == " OR ")
    ensures Fits(WhereSlots(preds, sep, k), Givens(Bindings(preds, k), args), 1)
    ensures BoundText(WhereSlots(preds, sep, k), Givens(Bindings(preds, k), args), 1) == Join(BoundTexts(preds, args)[..k], sep)
  {
    hide Fits, BoundText, WhereSlots, Bindings, Before, ExprSlots, GivenBy, ExprBindings, Params, SlotsText, NoDigitFirst, Join;
    if k == 0 {
      NothingToBind(preds, sep, args);
    } else {
      var p, a, n := preds[k - 1], Before(preds, k - 1), 1 + Before(preds, k - 1);
      var gs, own, texts := Givens(Bindings(preds, k - 1), args), PredGivens(p.op, args, a), BoundTexts(preds, args);
      var last, o := ExprSlots(p.op, p.column, n), OutputIndex(preds, args, k - 1);
      WhereSlotsNext(preds, sep, k);
      GivensConcat(Bindings(preds, k - 1), ExprBindings(p.op, a), args);
      PredFits(p, n, args, a);
      if k == 1 {
        assert gs + own == own;
        FirstOutput(preds, args);
        FirstText(texts, sep);
      } else {
        BindingCount(preds, k - 1);
        WhereBound(preds, sep, args, k - 1);
        SeparatorFits(sep, last, own, n, o);
        FitsConcat(WhereSlots(preds, sep, k - 1), [Fixed(sep)] + last, gs, own, 1);
        BoundConcat(WhereSlots(preds, sep, k - 1), [Fixed(sep)] + last, gs, own, 1, 1);
        LastText(texts, k, sep);
      }
    }
  }

  lemma {:induction false} WhereTame(preds: seq<Pred>, sep: string, k: nat)
    requires k <= |preds| && Filters(preds) && SafePreds(preds) && (sep == " AND " || sep == " OR ")
    ensures TameSlots(WhereSlots(preds, sep, k))
  {
    hide Tame, ExprSlots, Before;
    if k > 0 {
      WhereSlotsNext(preds, sep, k);
      PredTame(preds[k - 1], 1 + Before(preds, k - 1));
      if k > 1 {
        TameWords();
        WhereTame(preds, sep, k - 1);
      }
    }
  }

  /** Texts of the same lengths, joined, are the same only if each is. */
  lemma {:induction false} JoinSame(ts: seq<string>, us: seq<string>, sep: string)
    requires |ts| == |us| && forall i :: 0 <= i < |ts| ==> |ts[i]| == |us[i]|
    ensures |Join(ts, sep)| == |Join(us, sep)| && (Join(ts, sep) == Join(us, sep) <==> ts == us)
  {
    if |ts| > 1 {
      JoinSame(ts[1..], us[1..], sep);
      assert ts == [ts[0]] + ts[1..] && us == [us[0]] + us[1..];
      var a, b := sep + Join(ts[1..], sep), sep + Join(us[1..], sep);
      assert Join(ts, sep)[..|ts[0]|] == ts[0] && Join(us, sep)[..|ts[0]|] == us[0];
      assert Join(ts, sep)[|ts[0]|..] == a && Join(us, sep)[|ts[0]|..] == b;
      assert a[|sep|..] == Join(ts[1..], sep) && b[|sep|..] == Join(us[1..], sep);
    }
  }

  /** The bound clause is that of the bound conditions exactly when every list operator is given a list with elements. */
  lemma WhereExactly(preds: seq<Pred>, args: seq<Value>, sep: string)
    requires Filters(preds)
    ensures |Join(BoundTexts(preds, args), sep)| == |Join(ReadChains.Texts(BoundConds(preds, args)), sep)|
    ensures Join(BoundTexts(preds, args), sep) == Join(ReadChains.Texts(BoundConds(preds, args)), sep) <==> AllListed(preds, args)
  {
    hide BoundText, Render, CondPieces, BoundCond, ExprSlots, PredGivens, Listed, Before, OutputIndex, Join;
    var ts, us := BoundTexts(preds, args), ReadChains.Texts(BoundConds(preds, args));
    forall i | 0 <= i < |preds| ensures |ts[i]| == |us[i]| && (ts[i] == us[i] <==> Listed(preds[i].op, args, Before(preds, i))) {
      PredBound(preds[i], 1 + Before(preds, i), args, Before(preds, i), OutputIndex(preds, args, i));
    }
    JoinSame(ts, us, sep);
  }

  lemma LastText(ts: seq<string>, k: nat, sep: string)
    requires 1 < k <= |ts|
    ensures Join(ts[..k], sep) == Join(ts[..k - 1], sep) + (sep + ts[k - 1])
  {
    assert ts[..k] == ts[..k - 1] + [ts[k - 1]];
    JoinSnoc(ts[..k - 1], ts[k - 1], sep);
  }

  lemma NothingToBind(preds: seq<Pred>, sep: string, args: seq<Value>)
    requires Filters(preds)
    ensures Fits(WhereSlots(preds, sep, 0), Givens(Bindings(preds, 0), args), 1)
    ensures BoundText(WhereSlots(preds, sep, 0), Givens(Bindings(preds, 0), args), 1)
         == Join(BoundTexts(preds, args)[..0], sep)
  {
  }

  lemma FirstOutput(preds: seq<Pred>, args: seq<Value>)
    requires Filters(preds)
    ensures OutputIndex(preds, args, 0) == 1
  {
  }

  lemma FirstText(ts: seq<string>, sep: string)
    requires |ts| > 0
    ensures Join(ts[..1], sep) == ts[0]
  {
  }

  // ------------------------------------------------------ the statement

  /** No name the statement quotes has a `$` in front of a digit. */
  predicate SafeNames(m: D.Metadata) {
    NoParam(m.tableName) && forall i :: 0 <= i < |m.fields| ==> NoParam(m.fields[i].columnName)
  }

  lemma {:induction false} FoundIsColumn(fields: seq<D.FieldMapping>, name: string)
    requires forall i :: 0 <= i < |fields| ==> NoParam(fields[i].columnName)
    ensures D.FindField(fields, name).Some? ==> NoParam(D.FindField(fields, name).value)
  {
    if |fields| > 0 { FoundIsColumn(fields[1..], name); }
  }

  lemma ResolvedSafe(property: string, m: D.Metadata)
    requires SafeNames(m)
    ensures D.ResolveColumn(property, m).Some? ==> NoParam(D.ResolveColumn(property, m).value)
  {
    FoundIsColumn(m.fields, property);
    FoundIsColumn(m.fields, m.idField);
  }

  lemma PredsSafe(props: seq<D.PropertyExpression>, m: D.Metadata)
    requires Resolves(props, m) && SafeNames(m)
    ensures SafePreds(Preds(props, m))
  {
    forall i | 0 <= i < |props| ensures NoParam(Preds(props, m)[i].column) { ResolvedSafe(props[i].property, m); }
  }

  lemma HeadTame(d: D.Descriptor, m: D.Metadata)
    requires SafeNames(m)
    ensures Tame(Head(d, m) + " WHERE ")
  {
    forall t | t in QuotedColumns(m.fields) ensures NoParam(t) {
      hide SqlUtils.QuoteIdentifier;
      var i :| 0 <= i < |m.fields| && QuotedColumns(m.fields)[i] == t;
      SqlUtils.QuotingNoParam(m.fields[i].columnName);
      assert t == Quoted(m.fields[i].columnName);
    }
    SqlUtils.JoinNoParam(QuotedColumns(m.fields), ", ");
    var columns := Join(QuotedColumns(m.fields), ", ");
    hide Quoted, Join, QuotedColumns, NoParam, Tame;
    HeadWords();
    FindWords();
    var front := if d.action == D.Delete then "DELETE FROM " else if d.action == D.Count then "SELECT COUNT(*) FROM "
      else if d.action == D.Exists then "SELECT 1 FROM " else "SELECT " + (if d.distinct then "DISTINCT " else "") + columns + " FROM ";
    if d.action == D.Find {
      var select := "SELECT " + if d.distinct then "DISTINCT " else "";
      NoParamConcat(select, columns);
      EndsTame(select + columns, " FROM ");
    }
    AroundName(front, m.tableName, " WHERE ");
    assert Head(d, m) == front + Quoted(m.tableName);
  }

  lemma HeadWords()
    ensures Tame("DELETE FROM ") && Tame("SELECT COUNT(*) FROM ") && Tame("SELECT 1 FROM ")
    ensures Tame(" WHERE ") && NoDigitFirst(" WHERE ")
  {
    PlainTame("DELETE FROM ");
    PlainTame("SELECT COUNT(*) FROM ");
    PlainTame("SELECT 1 FROM ");
    PlainTame(" WHERE ");
  }

  lemma FindWords()
    ensures Tame("SELECT ") && Tame("SELECT DISTINCT ") && Tame(" FROM ")
    ensures "SELECT " + "" == "SELECT " && "SELECT " + "DISTINCT " == "SELECT DISTINCT "
  {
    PlainTame("SELECT ");
    PlainTame("SELECT DISTINCT ");
    PlainTame(" FROM ");
  }

  lemma PlainTame(t: string)
    requires Plain(t)
    ensures Tame(t)
  {
    forall i | 0 <= i < |t| ensures t[i] != '$' {
      assert t[i] in t;
    }
  }

  lemma EndsTame(a: string, b: string)
    requires NoParam(a) && Tame(b) && |b| > 0 && NoDigitFirst(b)
    ensures Tame(a + b)
  {
    NoParamConcat(a, b);
  }

  lemma Surrounded(head: string, slots: seq<Slot>, tail: string, givens: seq<Given>)
    requires NoDigitFirst(tail) && Fits(slots, givens, 1)
    ensures Fits([Fixed(head)] + (slots + [Fixed(tail)]), givens, 1)
    ensures BoundText([Fixed(head)] + (slots + [Fixed(tail)]), givens, 1) == head + (BoundText(slots, givens, 1) + tail)
  {
    hide Fits, BoundText;
    var n, o := 1 + |givens|, 1 + |Params(givens)|;
    FixedFits(tail, n);
    OneSlot(Fixed(tail));
    FitsConcat(slots, [Fixed(tail)], givens, [], 1);
    BoundConcat(slots, [Fixed(tail)], givens, [], 1, 1);
    BoundFixed(tail, o);
    assert givens + [] == givens;
    FitsAfterFixed(head, slots + [Fixed(tail)], givens);
    BoundCons(Fixed(head), slots + [Fixed(tail)], givens, 1);
  }

  lemma FitsAfterFixed(head: string, slots: seq<Slot>, givens: seq<Given>)
    requires Fits(slots, givens, 1)
    ensures Fits([Fixed(head)] + slots, givens, 1)
  {
    assert ([Fixed(head)] + slots)[1..] == slots;
  }

  lemma TailNoDigit(d: D.Descriptor, m: D.Metadata)
    requires d.action == D.Find ==> OrderResolves(d.orderBy, m)
    ensures NoDigitFirst(Tail(d, m))
  {
    hide Join, OrderClauses, Decimal;
    if d.action == D.Find {
      var t := if |d.orderBy| > 0 then " ORDER BY " + Join(OrderClauses(d.orderBy, m), ", ") else "";
      assert |d.orderBy| > 0 ==> t[0] == ' ';
    }
  }

  function AllGivens(d: D.Descriptor, m: D.Metadata, args: seq<Value>): seq<Given>
    requires Compilable(d, m)
  {
    var preds := Preds(d.properties, m);
    Givens(Bindings(preds, |preds|), args)
  }

  /** The statement with a given text for its condition. */
  function StatementText(d: D.Descriptor, m: D.Metadata, where: string): string
    requires Compilable(d, m)
  {
    if |d.properties| == 0 then Head(d, m) + Tail(d, m) else Head(d, m) + " WHERE " + (where + Tail(d, m))
  }

  /** The statement with exactly the bound conditions in its WHERE clause. */
  function Intended(d: D.Descriptor, m: D.Metadata, args: seq<Value>): string
    requires Compilable(d, m)
  {
    StatementText(d, m, Join(ReadChains.Texts(BoundConds(Preds(d.properties, m), args)), Separator(d.connector)))
  }

  /**
   * The compiled statement always fits its bindings. Its holes filled, it is
   * the intended one exactly when every list operator is given a list with
   * elements; and if no name has a `$` in front of a digit, nothing in front
   * of a hole can be taken for it.
   */
  lemma BoundStatement(d: D.Descriptor, m: D.Metadata, args: seq<Value>)
    requires Compilable(d, m)
    ensures Fits(QuerySlots(d, m), AllGivens(d, m, args), 1)
    ensures BoundText(QuerySlots(d, m), AllGivens(d, m, args), 1)
         == StatementText(d, m, Join(BoundTexts(Preds(d.properties, m), args), Separator(d.connector)))
    ensures BoundText(QuerySlots(d, m), AllGivens(d, m, args), 1) == Intended(d, m, args)
      <==> AllListed(Preds(d.properties, m), args)
    ensures SafeNames(m) ==> Clear(QuerySlots(d, m), AllGivens(d, m, args), 1)
  {
    hide Fits, BoundText, Head, Tail, WhereSlots, Bindings, ReadChains.Texts, BoundTexts, Join, AllListed, Clear, SafeNames;
    var preds := Preds(d.properties, m);
    if |preds| == 0 {
      NoPredicates(preds, args, Head(d, m) + Tail(d, m));
    } else {
      var sep, head, givens := Separator(d.connector), Head(d, m) + " WHERE ", AllGivens(d, m, args);
      var slots, texts := WhereSlots(preds, sep, |preds|), BoundTexts(preds, args);
      TailNoDigit(d, m);
      WhereBound(preds, sep, args, |preds|);
      assert texts[..|preds|] == texts;
      Surrounded(head, slots, Tail(d, m), givens);
      WhereExactly(preds, args, sep);
      SameStatement(head, Join(texts, sep), Join(ReadChains.Texts(BoundConds(preds, args)), sep), Tail(d, m));
      if SafeNames(m) {
        PredsSafe(d.properties, m);
        WhereTame(preds, sep, |preds|);
        HeadTame(d, m);
        ClearAround(head, slots, Tail(d, m), givens);
      }
    }
  }

  lemma NoPredicates(preds: seq<Pred>, args: seq<Value>, text: string)
    requires |preds| == 0
    ensures Bindings(preds, |preds|) == [] && AllListed(preds, args)
    ensures Fits([Fixed(text)], [], 1) && BoundText([Fixed(text)], [], 1) == text && Clear([Fixed(text)], [], 1)
  {
    FixedFits(text, 1);
    BoundFixed(text, 1);
  }

  lemma SameStatement(head: string, a: string, b: string, tail: string)
    requires |a| == |b|
    ensures head + (a + tail) == head + (b + tail) <==> a == b
  {
    assert (head + (a + tail))[|head|..] == a + tail && (head + (b + tail))[|head|..] == b + tail;
    assert (a + tail)[..|a|] == a && (b + tail)[..|a|] == b;
  }

  lemma {:induction false} LeadBefore(slots: seq<Slot>, end: seq<Slot>)
    requires |FromHole(slots)| > 0
    ensures Lead(slots + end) == Lead(slots) && FromHole(slots + end) == FromHole(slots) + end
  {
    if slots[0].Fixed? {
      LeadBefore(slots[1..], end);
      assert (slots + end)[1..] == slots[1..] + end;
    }
  }

  /** What follows the last hole is never searched. */
  lemma {:induction false} ClearBefore(slots: seq<Slot>, end: seq<Slot>, givens: seq<Given>, n: nat)
    requires Clear(slots, givens, n)
    ensures Clear(slots + end, givens, n)
    decreases |givens|
  {
    hide HoleHere;
    if |givens| > 0 {
      LeadBefore(slots, end);
      var hole := FromHole(slots);
      assert (hole + end)[1..] == hole[1..] + end;
      ClearBefore(hole[1..], end, givens[1..], n + 1);
    }
  }

  lemma ClearAround(head: string, slots: seq<Slot>, tail: string, givens: seq<Given>)
    requires Tame(head) && TameSlots(slots) && Fits(slots, givens, 1)
    ensures Clear([Fixed(head)] + (slots + [Fixed(tail)]), givens, 1)
  {
    hide Tame, Fits, Clear;
    FitsAfterFixed(head, slots, givens);
    TameIsClear([Fixed(head)] + slots, givens, 1);
    ClearBefore([Fixed(head)] + slots, [Fixed(tail)], givens, 1);
    assert [Fixed(head)] + slots + [Fixed(tail)] == [Fixed(head)] + (slots + [Fixed(tail)]);
  }

  /** Every placeholder of the statement is found in its place, or written back where it was found. */
  predicate FindsAll(d: D.Descriptor, m: D.Metadata, args: seq<Value>)
    requires Compilable(d, m)
  {
    FindsHoles(SlotsText(QuerySlots(d, m)), QuerySlots(d, m), AllGivens(d, m, args), 1, 0, 1)
  }
}
