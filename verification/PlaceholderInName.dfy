/** A column whose name holds a later placeholder: the descriptor for which binding a list spoils the statement. */
module PlaceholderInName {
  import opened Options
  import opened SqlText
  import opened SqlCondition
  import opened QueryTemplate
  import opened CompiledQuery
  import opened QueryCompiler
  import opened DerivedEquivalence
  import opened BindingNames
  import SqlUtils
  import D = DerivedQuery

  const PROPERTIES := [D.PropertyExpression("status", D.In, 1), D.PropertyExpression("amount", D.Equals, 1)]

  /** countByStatusInAndAmount */
  const COUNT := D.Descriptor(D.Count, false, PROPERTIES, D.AllOf, [], None)

  const ORDERS := D.Metadata("orders", [D.FieldMapping("status", "status"), D.FieldMapping("amount", "amount$2")], "id")

  const FRONT := "SELECT COUNT(*) FROM " + "\"orders\"" + " WHERE " + "\"status\" "

  // ----------------------------------------------- what the search meets

  /** One binding whose placeholder is first met behind a text that names no parameter. */
  lemma OneBinding(sql: string, from: nat, lead: string, g: Given, n: nat, rest: string, givens: seq<Given>, o: nat) returns (next: nat)
    requires from <= |sql| && sql[from..] == lead + (HoleText(g, n) + rest) && NoParam(lead) && (g.Scalar? ==> NoDigitFirst(rest))
    ensures next <= |sql| && sql[next..] == rest
    ensures Passed(sql, [g] + givens, n, from, o).sql == lead + (FilledText(g, o) + Passed(sql, givens, n + 1, next, o + Width(g)).sql)
  {
    hide HoleText, FilledText, HoleHere, FindHole, Passed, Decimal;
    Found(sql, from, lead, n, g, rest);
    Pieces(sql, from, from, lead, HoleText(g, n), rest);
    assert ([g] + givens)[1..] == givens;
    PassedFirst(sql, [g] + givens, n, from, o);
    next := from + |lead| + |HoleText(g, n)|;
    assert sql[from..from + |lead|] == lead;
  }

  lemma PassedNone(sql: string, n: nat, lastPos: nat, o: nat)
    requires lastPos <= |sql|
    ensures Passed(sql, [], n, lastPos, o) == Bound(sql[lastPos..], [])
  {
  }

  /** The pass over a list and a scalar, whatever the scalar's placeholder is found in. */
  lemma TwoBindings(front: string, mid: string, more: string, vs: seq<Value>, v: Value)
    requires NoParam(front) && NoParam(mid) && NoDigitFirst(more)
    ensures Passed(front + ("IN ($1)" + (mid + ("$2" + more))), [Spread(vs), Scalar(v)], 1, 0, 1).sql
      == front + (FilledText(Spread(vs), 1) + (mid + ("$" + Decimal(1 + |vs|) + more)))
  {
    var list, scalar := Spread(vs), Scalar(v);
    var sql := front + ("IN ($1)" + (mid + ("$2" + more)));
    Holes(vs, v);
    hide HoleText, FilledText, HoleHere, FindHole, Passed, Decimal, NoParam;
    assert sql[0..] == sql && [list] + [scalar] == [list, scalar] && [scalar] + [] == [scalar];
    var next := OneBinding(sql, 0, front, list, 1, mid + ("$2" + more), [scalar], 1);
    var end := OneBinding(sql, next, mid, scalar, 2, more, [], 1 + |vs|);
    PassedNone(sql, 3, end, 1 + |vs| + 1);
  }

  lemma Holes(vs: seq<Value>, v: Value)
    ensures HoleText(Spread(vs), 1) == "IN ($1)" && HoleText(Scalar(v), 2) == "$2"
    ensures FilledText(Scalar(v), 1 + |vs|) == "$" + Decimal(1 + |vs|)
    ensures Width(Spread(vs)) == |vs| && Width(Scalar(v)) == 1
  {
  }

  lemma Found(sql: string, from: nat, lead: string, n: nat, g: Given, rest: string)
    requires from <= |sql| && sql[from..] == lead + (HoleText(g, n) + rest) && NoParam(lead) && (g.Scalar? ==> NoDigitFirst(rest))
    ensures FindHole(sql, from, n, g) == from + |lead|
  {
    hide HoleText, HoleHere, FindHole;
    FindsExactly(sql, from, lead, n, g, rest);
    forall i | 0 <= i < |lead| ensures !HoleHere(lead, i, n, g) {
      NoneInTame(lead, n, g, i);
    }
  }

  // ------------------------------------------------------- the statement

  lemma Names()
    ensures Quoted("orders") == "\"orders\"" && Quoted("status") == "\"status\"" && Quoted("amount$2") == "\"amount$2\""
  {
    hide Quoted;
    Orders();
    Status();
    Amount();
  }

  lemma Orders()
    ensures Quoted("orders") == "\"orders\""
  {
    QuotedName("orders");
  }

  lemma Status()
    ensures Quoted("status") == "\"status\""
  {
    QuotedName("status");
  }

  lemma Amount()
    ensures Quoted("amount$2") == "\"amount$2\""
  {
    QuotedName("amount$2");
  }

  lemma QuotedName(name: string)
    requires |name| > 1 && forall c :: c in name ==> SqlUtils.IsLower(c) || c == '$' || c == '2'
    ensures Quoted(name) == "\"" + name + "\""
  {
    assert name[0] in name && name[1] in name;
    assert !SqlUtils.IsUpper(name[0]) && name[0] != '_';
    assert !SqlUtils.PassedThrough(name);
    NothingDoubled(name);
  }

  lemma {:induction false} NothingDoubled(s: string)
    requires '"' !in s
    ensures SqlUtils.DoubleQuotes(s) == s
  {
    if |s| > 0 { NothingDoubled(s[1..]); }
  }

  lemma Columns()
    ensures D.ResolveColumn("status", ORDERS) == Some("status") && D.ResolveColumn("amount", ORDERS) == Some("amount$2")
  {
    assert ORDERS.fields[1..] == [D.FieldMapping("amount", "amount$2")];
  }

  const PREDS := [Pred(D.In, "status"), Pred(D.Equals, "amount$2")]

  lemma Resolved()
    ensures Compilable(COUNT, ORDERS) && Preds(PROPERTIES, ORDERS) == PREDS
    ensures Before(PREDS, 0) == 0 && Before(PREDS, 1) == 1
  {
    Columns();
  }

  lemma ListPart()
    ensures OperatorToSql(D.In, "status", 1).sql == "\"status\" " + "IN ($1)"
  {
    Status();
    hide Quoted;
    assert Decimal(1) == "1";
  }

  lemma ScalarPart()
    ensures OperatorToSql(D.Equals, "amount$2", 2).sql == "\"amount" + "$2" + "\" = $2"
  {
    Amount();
    hide Quoted;
    assert Decimal(2) == "2";
  }

  lemma Parts()
    ensures Filters(PREDS) && PredText(PREDS, 0) == "\"status\" " + "IN ($1)" && PredText(PREDS, 1) == "\"amount" + "$2" + "\" = $2"
  {
    Resolved();
    OperatorText(D.In, "status", 1);
    OperatorText(D.Equals, "amount$2", 2);
    hide SlotsText, ExprSlots, OperatorToSql;
    ListPart();
    ScalarPart();
  }

  lemma Where()
    ensures Filters(PREDS) && SlotsText(WhereSlots(PREDS, " AND ", 2))
      == "\"status\" " + "IN ($1)" + (" AND " + ("\"amount" + "$2" + "\" = $2"))
  {
    Parts();
    hide PredText, SlotsText, WhereSlots;
    var parts := [PredText(PREDS, 0), PredText(PREDS, 1)];
    WhereText(PREDS, " AND ", parts, 2);
    assert parts[..2] == parts && parts[1..] == [parts[1]];
    assert Join(parts, " AND ") == parts[0] + (" AND " + parts[1]);
  }

  lemma Around()
    ensures Head(COUNT, ORDERS) + " WHERE " == "SELECT COUNT(*) FROM " + "\"orders\"" + " WHERE " && Tail(COUNT, ORDERS) == ""
  {
    Orders();
    hide Quoted;
  }

  /** The compiled template. */
  lemma Template()
    ensures Compilable(COUNT, ORDERS)
    ensures SlotsText(QuerySlots(COUNT, ORDERS)) == FRONT + ("IN ($1)" + (" AND " + "\"amount" + ("$2" + "\" = $2")))
  {
    Resolved();
    QueryText(COUNT, ORDERS);
    Where();
    Around();
    hide SlotsText, WhereSlots, QuerySlots, Preds, Head, Tail;
    Regrouped("SELECT COUNT(*) FROM " + "\"orders\"" + " WHERE ", "\"status\" ", "IN ($1)", " AND ", "\"amount", "$2", "\" = $2");
  }

  lemma Regrouped(front: string, status: string, list: string, sep: string, amount: string, dollar: string, end: string)
    ensures front + (status + list + (sep + (amount + dollar + end)) + "") == front + status + (list + (sep + amount + (dollar + end)))
  {
  }

  lemma Arguments(vs: seq<Value>, v: Value)
    ensures Compilable(COUNT, ORDERS) && AllGivens(COUNT, ORDERS, [List(vs), v]) == [Spread(vs), Scalar(v)]
  {
    Resolved();
    assert ExprBindings(D.In, 0) == [ParamBinding(0, SpreadList)] && ExprBindings(D.Equals, 1) == [ParamBinding(1, Identity)];
    assert Bindings(PREDS, 1) == [] + [ParamBinding(0, SpreadList)];
    assert Bindings(PREDS, 2) == [ParamBinding(0, SpreadList), ParamBinding(1, Identity)];
  }

  /** What binding makes of it: the list is spread, the column's name is renumbered, and the scalar keeps the list's number. */
  lemma Misbound(vs: seq<Value>, v: Value)
    ensures Compilable(COUNT, ORDERS)
    ensures Passed(SlotsText(QuerySlots(COUNT, ORDERS)), AllGivens(COUNT, ORDERS, [List(vs), v]), 1, 0, 1).sql
      == FRONT + (FilledText(Spread(vs), 1) + (" AND " + "\"amount" + ("$" + Decimal(1 + |vs|) + "\" = $2")))
  {
    Template();
    Arguments(vs, v);
    hide Passed, FilledText, Decimal, SlotsText, QuerySlots;
    FrontNoParam();
    TwoBindings(FRONT, " AND " + "\"amount", "\" = $2", vs, v);
  }

  lemma FrontNoParam()
    ensures NoParam(FRONT) && NoParam(" AND " + "\"amount") && NoDigitFirst("\" = $2")
  {
    PlainTame("SELECT COUNT(*) FROM ");
    PlainTame("\"orders\"");
    PlainTame(" WHERE ");
    PlainTame("\"status\" ");
    PlainTame(" AND ");
    PlainTame("\"amount");
    hide Tame;
    TameConcat("SELECT COUNT(*) FROM ", "\"orders\"");
    TameConcat("SELECT COUNT(*) FROM " + "\"orders\"", " WHERE ");
    TameConcat("SELECT COUNT(*) FROM " + "\"orders\"" + " WHERE ", "\"status\" ");
    TameConcat(" AND ", "\"amount");
    TameNoParam(FRONT);
    TameNoParam(" AND " + "\"amount");
  }

  const AFTER_LIST := [Fixed(" AND "), Fixed("\"amount$2\" = "), One(2), Fixed("")]

  lemma Slots()
    ensures Compilable(COUNT, ORDERS) && FromHole(QuerySlots(COUNT, ORDERS)) == [Many(1)] + AFTER_LIST
    ensures FromHole(AFTER_LIST) == [One(2), Fixed("")] && SlotsText(FromHole(AFTER_LIST)) == "$2"
  {
    Resolved();
    Status();
    Amount();
    hide Quoted, Head, Tail;
    var list, scalar := ExprSlots(D.In, "status", 1), ExprSlots(D.Equals, "amount$2", 2);
    assert "\"amount$2\"" + " " + "=" + " " == "\"amount$2\" = ";
    assert scalar == [Fixed("\"amount$2\" = "), One(2)];
    assert "\"status\"" + " " == "\"status\" ";
    assert list == [Fixed("\"status\" "), Many(1)];
    WhereSlotsNext(PREDS, " AND ", 2);
    WhereSlotsNext(PREDS, " AND ", 1);
    var where := WhereSlots(PREDS, " AND ", 2);
    assert where == list + ([Fixed(" AND ")] + scalar);
    hide WhereSlots, ExprSlots;
    AroundSlots(list, scalar);
  }

  lemma AroundSlots(list: seq<Slot>, scalar: seq<Slot>)
    requires list == [Fixed("\"status\" "), Many(1)] && scalar == [Fixed("\"amount$2\" = "), One(2)]
    requires Compilable(COUNT, ORDERS) && Preds(PROPERTIES, ORDERS) == PREDS
    requires Filters(PREDS) && WhereSlots(PREDS, " AND ", 2) == list + ([Fixed(" AND ")] + scalar)
    ensures FromHole(QuerySlots(COUNT, ORDERS)) == [Many(1)] + AFTER_LIST
    ensures FromHole(AFTER_LIST) == [One(2), Fixed("")] && SlotsText(FromHole(AFTER_LIST)) == "$2"
  {
    Around();
    hide WhereSlots, Head, Tail;
    var head := Head(COUNT, ORDERS) + " WHERE ";
    var all := QuerySlots(COUNT, ORDERS);
    assert all == [Fixed(head)] + ([Fixed("\"status\" ")] + ([Many(1)] + AFTER_LIST));
    assert all[1..][1..] == [Many(1)] + AFTER_LIST && FromHole(all[1..][1..]) == all[1..][1..];
    assert FromHole(all) == FromHole(all[1..]) == FromHole(all[1..][1..]);
    var end := AFTER_LIST[1..][1..];
    assert end == [One(2), Fixed("")] && FromHole(end) == end;
    assert FromHole(AFTER_LIST) == FromHole(AFTER_LIST[1..]) == FromHole(end);
    TwoSlots(One(2), Fixed(""));
    assert Decimal(2) == "2";
  }

  lemma Lengths()
    ensures |SlotsText([Many(1)] + AFTER_LIST)| == 27 && |" AND " + "\"amount" + ("$2" + "\" = $2")| == 20
  {
    FourSlots(Fixed(" AND "), Fixed("\"amount$2\" = "), One(2), Fixed(""));
    SlotsTextCons(Many(1), AFTER_LIST);
    assert Decimal(1) == "1" && Decimal(2) == "2";
    hide SlotsText;
  }

  /** Where the scalar's placeholder already stands in front of its hole, the pass finds its hole only if it need not renumber. */
  lemma Misled(sql: string, after: seq<Slot>, next: nat, mid: string, more: string, count: nat, v: Value)
    requires NoParam(mid) && NoDigitFirst(more) && next <= |sql| && sql[next..] == mid + ("$2" + more)
    requires |FromHole(after)| > 0 && |SlotsText(FromHole(after))| < |more|
    ensures FindsHoles(sql, after, [Scalar(v)], 2, next, 1 + count) <==> count == 1
  {
    Holes(seq(count, i => v), v);
    SameNumber(1 + count);
    assert [Scalar(v)][1..] == [];
    NoneLeft(sql, FromHole(after)[1..], [], 3, next + |mid| + 2, 2 + count);
    hide FindsHoles, SlotsText, HoleText, FilledText, HoleHere, FindHole, NoParam, FromHole;
    Found(sql, next, mid, 2, Scalar(v), more);
    FindsFirst(sql, after, [Scalar(v)], 2, next, 1 + count);
  }

  lemma ListFound(sql: string, slots: seq<Slot>, after: seq<Slot>, front: string, rest: string, vs: seq<Value>, v: Value)
    requires NoParam(front) && sql == front + (HoleText(Spread(vs), 1) + rest)
    requires FromHole(slots) == [Many(1)] + after && |SlotsText([Many(1)] + after)| == |sql| - |front|
    ensures |front| + |HoleText(Spread(vs), 1)| <= |sql| && sql[|front| + |HoleText(Spread(vs), 1)|..] == rest
    ensures FindsHoles(sql, slots, [Spread(vs), Scalar(v)], 1, 0, 1)
      <==> FindsHoles(sql, after, [Scalar(v)], 2, |front| + |HoleText(Spread(vs), 1)|, 1 + |vs|)
  {
    hide FindsHoles, SlotsText, HoleText, FilledText, HoleHere, FindHole, NoParam, FromHole;
    var list, scalar := Spread(vs), Scalar(v);
    assert sql[0..] == sql;
    Pieces(sql, 0, 0, front, HoleText(list, 1), rest);
    Found(sql, 0, front, 1, list, rest);
    FindsFirst(sql, slots, [list, scalar], 1, 0, 1);
    assert [list, scalar][1..] == [scalar] && ([Many(1)] + after)[1..] == after;
  }

  /** The scalar's search stops in the column's name, which does not matter only for a list of one element. */
  lemma ScalarMisled(vs: seq<Value>, v: Value)
    ensures Compilable(COUNT, ORDERS) && (FindsAll(COUNT, ORDERS, [List(vs), v]) <==> |vs| == 1)
  {
    Template();
    Arguments(vs, v);
    Slots();
    FrontNoParam();
    Lengths();
    var front, mid, more := FRONT, " AND " + "\"amount", "\" = $2";
    var sql, slots := SlotsText(QuerySlots(COUNT, ORDERS)), QuerySlots(COUNT, ORDERS);
    hide FindsHoles, SlotsText, QuerySlots, NoParam, FromHole;
    Holes(vs, v);
    hide HoleText;
    ListFound(sql, slots, AFTER_LIST, front, mid + ("$2" + more), vs, v);
    Misled(sql, AFTER_LIST, |front| + 7, mid, more, |vs|, v);
  }

  lemma SameNumber(n: nat)
    ensures "$" + Decimal(n) == "$2" <==> n == 2
  {
    assert Decimal(2) == "2";
    hide Decimal;
    assert ("$" + Decimal(n))[1..] == Decimal(n) && "$2"[1..] == "2";
    if Decimal(n) == "2" { DecimalInjective(n, 2); }
  }

  /** Any number of list elements but one makes the statement another one. */
  lemma WrongStatement(vs: seq<Value>, v: Value)
    requires |vs| > 0
    ensures Compilable(COUNT, ORDERS)
    ensures BoundSql(COUNT, ORDERS, [List(vs), v]) == Intended(COUNT, ORDERS, [List(vs), v]) <==> |vs| == 1
    ensures !NamesFound(COUNT, ORDERS)
  {
    ScalarMisled(vs, v);
    ScalarMisled([v, v], v);
    GivenLists(vs, v);
    GivenLists([v, v], v);
    hide BoundSql, Intended, NamesFound, FindsAll, AllListed;
    BoundExactly(COUNT, ORDERS, [List(vs), v]);
    BoundExactly(COUNT, ORDERS, [List([v, v]), v]);
    NamesExactly(COUNT, ORDERS);
  }

  lemma GivenLists(vs: seq<Value>, v: Value)
    requires |vs| > 0
    ensures Compilable(COUNT, ORDERS) && AllListed(Preds(PROPERTIES, ORDERS), [List(vs), v])
  {
    Resolved();
  }
}
