/** The statement a derived query is compiled and bound to, read as SQL, asks for what the method name says. */
module CompiledStatement {
  import opened Options
  import opened SqlText
  import opened SqlCondition
  import opened SqlReader
  import opened ThreeValued
  import opened StatementReader
  import opened QueryTemplate
  import opened CompiledQuery
  import opened QueryCompiler
  import opened DerivedEquivalence
  import opened RouteAgreement
  import ReadBack
  import ReadChains
  import SqlUtils
  import D = DerivedQuery

  // -------------------------------------------------- names and orders

  function Columns(fields: seq<D.FieldMapping>): (names: seq<string>)
    ensures |names| == |fields| && forall i :: 0 <= i < |fields| ==> names[i] == fields[i].columnName
  {
    seq(|fields|, i requires 0 <= i < |fields| => fields[i].columnName)
  }

  lemma {:induction false} ReadsNames(fields: seq<D.FieldMapping>, rest: string)
    requires |fields| > 0 && (forall i :: 0 <= i < |fields| ==> Nameable(fields[i].columnName))
    requires |rest| > 0 && rest[0] == ' '
    ensures ReadNames(Join(QuotedColumns(fields), ", ") + rest) == Some(Parsed(Columns(fields), rest))
  {
    hide Nameable, Quoted, ReadNames;
    var name := fields[0].columnName;
    if |fields| == 1 {
      LastName(name, rest);
      assert Columns(fields) == [name];
    } else {
      var more := Join(QuotedColumns(fields[1..]), ", ") + rest;
      ReadsNames(fields[1..], rest);
      assert QuotedColumns(fields)[1..] == QuotedColumns(fields[1..]);
      assert Join(QuotedColumns(fields), ", ") + rest == Quoted(name) + (", " + more);
      NextName(name, more);
      assert Columns(fields) == [name] + Columns(fields[1..]);
    }
  }

  lemma LastName(name: string, rest: string)
    requires Nameable(name) && |rest| > 0 && rest[0] == ' '
    ensures ReadNames(Quoted(name) + rest) == Some(Parsed([name], rest))
  {
    hide Nameable, Quoted, ReadName;
    ReadBack.ReadsName(name, rest);
    ReadBack.Differs(", ", rest, 0);
  }

  lemma NextName(name: string, more: string)
    requires Nameable(name)
    ensures ReadNames(Quoted(name) + (", " + more)) ==
      var r := ReadNames(more); if r.None? then None else Some(Parsed([name] + r.value.value, r.value.rest))
  {
    hide Nameable, Quoted, ReadName;
    ReadBack.ReadsName(name, ", " + more);
    ReadBack.Behind(", ", more);
  }

  function Orderings(orderBy: seq<D.OrderBy>, m: D.Metadata): (os: seq<Ordering>)
    requires OrderResolves(orderBy, m)
    ensures |os| == |orderBy|
    ensures forall i :: 0 <= i < |orderBy| ==>
      os[i] == Ordering(D.ResolveColumn(orderBy[i].property, m).value, orderBy[i].descending)
  {
    seq(|orderBy|, i requires 0 <= i < |orderBy| =>
      Ordering(D.ResolveColumn(orderBy[i].property, m).value, orderBy[i].descending))
  }

  lemma ReadsOrdering(column: string, descending: bool, rest: string)
    requires Nameable(column)
    ensures ReadOrdering(Quoted(column) + ((if descending then " DESC" else " ASC") + rest))
         == Some(Parsed(Ordering(column, descending), rest))
  {
    hide Nameable, Quoted, ReadName;
    var word := if descending then " DESC" else " ASC";
    ReadBack.ReadsName(column, word + rest);
    ReadBack.Behind(word, rest);
    if descending { ReadBack.Differs(" ASC", word + rest, 1); }
  }

  function DirectionWord(o: Ordering): string {
    if o.descending then " DESC" else " ASC"
  }

  lemma {:induction false} ReadsOrderings(orderBy: seq<D.OrderBy>, m: D.Metadata, rest: string)
    requires |orderBy| > 0 && OrderResolves(orderBy, m) && NameableColumns(m)
    requires rest == "" || rest[0] == ' '
    ensures ReadOrderings(Join(OrderClauses(orderBy, m), ", ") + rest) == Some(Parsed(Orderings(orderBy, m), rest))
  {
    hide Nameable, Quoted, ReadOrderings, D.ResolveColumn, NameableColumns, DirectionWord;
    var first, tail := Orderings(orderBy, m)[0], orderBy[1..];
    ResolvedNameable(orderBy[0].property, m);
    FirstClause(orderBy, m, rest);
    if |orderBy| == 1 {
      LastOrdering(first, rest);
      assert Orderings(orderBy, m) == [first];
    } else {
      ReadsOrderings(tail, m, rest);
      NextOrdering(first, Join(OrderClauses(tail, m), ", ") + rest);
      assert Orderings(orderBy, m) == [first] + Orderings(tail, m);
    }
  }

  lemma FirstClause(orderBy: seq<D.OrderBy>, m: D.Metadata, rest: string)
    requires |orderBy| > 0 && OrderResolves(orderBy, m)
    ensures var o := Orderings(orderBy, m)[0];
      Join(OrderClauses(orderBy, m), ", ") + rest == Quoted(o.column) + (DirectionWord(o) +
        if |orderBy| == 1 then rest else ", " + (Join(OrderClauses(orderBy[1..], m), ", ") + rest))
  {
    hide Quoted, D.ResolveColumn;
    var o, clauses := Orderings(orderBy, m)[0], OrderClauses(orderBy, m);
    assert clauses[1..] == OrderClauses(orderBy[1..], m);
    ReadChains.FirstText(clauses, ", ", rest);
    assert clauses[0] == Quoted(o.column) + DirectionWord(o);
  }

  lemma LastOrdering(o: Ordering, rest: string)
    requires Nameable(o.column) && (rest == "" || rest[0] == ' ')
    ensures ReadOrderings(Quoted(o.column) + (DirectionWord(o) + rest)) == Some(Parsed([o], rest))
  {
    hide Nameable, Quoted, ReadOrdering;
    ReadsOrdering(o.column, o.descending, rest);
    if rest != "" { ReadBack.Differs(", ", rest, 0); }
  }

  lemma NextOrdering(o: Ordering, more: string)
    requires Nameable(o.column)
    ensures ReadOrderings(Quoted(o.column) + (DirectionWord(o) + (", " + more))) ==
      var r := ReadOrderings(more); if r.None? then None else Some(Parsed([o] + r.value.value, r.value.rest))
  {
    hide Nameable, Quoted, ReadOrdering;
    ReadsOrdering(o.column, o.descending, ", " + more);
    ReadBack.Behind(", ", more);
  }

  // ---------------------------------------------------- table and WHERE

  /** What may stand behind the condition. */
  predicate AfterWhere(rest: string) {
    rest == "" || " LIMIT " <= rest || " ORDER BY " <= rest
  }

  lemma AfterWhereEnds(rest: string)
    requires AfterWhere(rest)
    ensures ReadBack.Ends(rest) && !(" WHERE " <= rest) && (rest != "" ==> rest[0] == ' ')
  {
    if " LIMIT " <= rest {
      assert rest[1] == 'L';
    } else if " ORDER BY " <= rest {
      assert rest[3] == 'D' && rest[1] == 'O';
      ReadBack.Differs(" OR ", rest, 3);
      ReadBack.Differs(" AND ", rest, 1);
      ReadBack.Differs(" WHERE ", rest, 1);
    }
  }

  lemma ReadsTable(table: string, rest: string)
    requires Nameable(table) && AfterWhere(rest)
    ensures ReadSource(Quoted(table) + rest) == Some(Parsed(Source(table, None), rest))
  {
    hide Nameable, Quoted, ReadName, AfterWhere;
    AfterWhereEnds(rest);
    ReadBack.ReadsName(table, rest);
  }

  lemma ReadsWhere(table: string, conds: seq<Cond>, and: bool, rest: string)
    requires Nameable(table) && |conds| > 0 && ReadChains.AllReadable(conds) && AfterWhere(rest)
    ensures ReadSource(Quoted(table) + (" WHERE " + (Join(ReadChains.Texts(conds), Connective(and)) + rest)))
         == Some(Parsed(Source(table, Some(ReadChains.Chained(conds[0], conds[1..], and))), rest))
  {
    hide Nameable, Quoted, ReadName, AfterWhere, ReadChain, Join, ReadChains.Texts, ReadChains.Chained, Readable, ReadBack.Ends;
    AfterWhereEnds(rest);
    var text := Join(ReadChains.Texts(conds), Connective(and)) + rest;
    ReadBack.ReadsName(table, " WHERE " + text);
    ReadBack.Behind(" WHERE ", text);
    ReadChains.TextsRead(conds);
    ReadChains.ReadsJoined(ReadChains.Texts(conds), conds, and, rest);
  }

  // ------------------------------------------------------ the statement

  /** The condition of the statement: the predicates' conditions, connected from the left. */
  function WhereCond(d: D.Descriptor, m: D.Metadata, args: seq<Value>): Option<Cond>
    requires Compilable(d, m)
  {
    var conds := BoundConds(Preds(d.properties, m), args);
    if |conds| == 0 then None else Some(ReadChains.Chained(conds[0], conds[1..], d.connector == D.AllOf))
  }

  /** What the method name asks for. */
  function Asked(d: D.Descriptor, m: D.Metadata, args: seq<Value>): Statement
    requires Compilable(d, m)
  {
    var where := WhereCond(d, m, args);
    match d.action
    case Find => Select(d.distinct, Columns(m.fields), m.tableName, where, Orderings(d.orderBy, m), d.limit)
    case Count => CountRows(m.tableName, where)
    case Exists => AnyRow(m.tableName, where)
    case Delete => Statement.Delete(m.tableName, where)
  }

  /** From the table name on, with a given text for the condition. */
  function FromTable(d: D.Descriptor, m: D.Metadata, where: string): string
    requires Compilable(d, m)
  {
    Quoted(m.tableName) + if |d.properties| == 0 then Tail(d, m) else " WHERE " + (where + Tail(d, m))
  }

  function IntendedWhere(d: D.Descriptor, m: D.Metadata, args: seq<Value>): string
    requires Compilable(d, m)
  {
    Join(ReadChains.Texts(BoundConds(Preds(d.properties, m), args)), Separator(d.connector))
  }

  predicate NameableNames(m: D.Metadata) {
    Nameable(m.tableName) && NameableColumns(m)
  }

  lemma TailAfterWhere(d: D.Descriptor, m: D.Metadata)
    requires Compilable(d, m)
    ensures AfterWhere(Tail(d, m))
  {
    hide Join, OrderClauses, Decimal;
    if d.action == D.Find {
      var order := if |d.orderBy| > 0 then " ORDER BY " + Join(OrderClauses(d.orderBy, m), ", ") else "";
      var limit := if d.limit.Some? then " LIMIT " + Decimal(d.limit.value) else "";
      assert Tail(d, m) == order + limit;
      if |d.orderBy| > 0 {
        assert " ORDER BY " <= order;
      } else if d.limit.Some? {
        assert order + limit == limit;
      }
    }
  }

  lemma ReadsFrom(d: D.Descriptor, m: D.Metadata, args: seq<Value>)
    requires Compilable(d, m) && NameableNames(m) && AllListed(Preds(d.properties, m), args)
    ensures ReadSource(FromTable(d, m, IntendedWhere(d, m, args))) == Some(Parsed(Source(m.tableName, WhereCond(d, m, args)), Tail(d, m)))
  {
    hide Nameable, Quoted, AfterWhere, Tail, Join, ReadChains.Texts, ReadChains.Chained, Readable, ReadSource, Before, OutputIndex, BoundCond,
      Listed, NameableColumns;
    TailAfterWhere(d, m);
    var preds := Preds(d.properties, m);
    if |preds| == 0 {
      ReadsTable(m.tableName, Tail(d, m));
    } else {
      var conds := BoundConds(preds, args);
      PredsNameable(d.properties, m);
      forall i | 0 <= i < |conds| ensures Readable(conds[i]) {
        BoundReadable(preds[i], args, Before(preds, i), OutputIndex(preds, args, i));
      }
      assert Separator(d.connector) == Connective(d.connector == D.AllOf);
      ReadsWhere(m.tableName, conds, d.connector == D.AllOf, Tail(d, m));
    }
  }

  lemma ReadsLimit(n: nat)
    ensures ReadLimit(" LIMIT " + Decimal(n)) == Some(Some(n))
    ensures ReadLimit("") == Some(None)
  {
    hide Decimal, Number;
    var s := " LIMIT " + Decimal(n);
    ReadBack.Behind(" LIMIT ", Decimal(n));
    SqlUtils.DigitsStop(Decimal(n), "");
    assert Decimal(n) + "" == Decimal(n);
    NumberOfDecimal(n);
  }

  lemma ReadsTail(d: D.Descriptor, m: D.Metadata)
    requires Compilable(d, m) && NameableColumns(m) && d.action == D.Find
    ensures var order := ReadOrder(Tail(d, m));
      order.Some? && order.value.value == Orderings(d.orderBy, m) && ReadLimit(order.value.rest) == Some(d.limit)
  {
    hide Join, OrderClauses, Decimal, NameableColumns, ReadLimit, ReadOrderings, D.ResolveColumn;
    var limit := if d.limit.Some? then " LIMIT " + Decimal(d.limit.value) else "";
    ReadsLimit(if d.limit.Some? then d.limit.value else 0);
    if |d.orderBy| > 0 {
      var orders := Join(OrderClauses(d.orderBy, m), ", ");
      assert Tail(d, m) == " ORDER BY " + (orders + limit);
      ReadBack.Behind(" ORDER BY ", orders + limit);
      ReadsOrderings(d.orderBy, m, limit);
    } else {
      assert Tail(d, m) == "" + limit == limit;
      if limit != "" { ReadBack.Differs(" ORDER BY ", limit, 1); }
    }
  }

  /** The statement, from behind its first words. */
  lemma WordsFirst(d: D.Descriptor, m: D.Metadata, where: string)
    requires Compilable(d, m)
    ensures d.action == D.Delete ==> StatementText(d, m, where) == "DELETE FROM " + FromTable(d, m, where)
    ensures d.action == D.Count ==> StatementText(d, m, where) == "SELECT COUNT(*) FROM " + FromTable(d, m, where)
    ensures d.action == D.Exists ==> StatementText(d, m, where) == "SELECT 1 FROM " + FromTable(d, m, where)
    ensures d.action == D.Find ==>
      StatementText(d, m, where) == SelectWords(d.distinct) + (Join(QuotedColumns(m.fields), ", ") + (" FROM " + FromTable(d, m, where)))
  {
    hide Quoted, Tail, Join, QuotedColumns, FromTable, Head, StatementText;
    TableFirst(d, m, where);
    if d.action == D.Find {
      Assoc(Join(QuotedColumns(m.fields), ", "), " FROM ", FromTable(d, m, where));
      Assoc(SelectWords(d.distinct), Join(QuotedColumns(m.fields), ", ") + " FROM ", FromTable(d, m, where));
    }
  }

  function SelectWords(distinct: bool): string {
    if distinct then "SELECT DISTINCT " else "SELECT "
  }

  /** What stands before the table name. */
  function Words(d: D.Descriptor, m: D.Metadata): string {
    match d.action
    case Delete => "DELETE FROM "
    case Count => "SELECT COUNT(*) FROM "
    case Exists => "SELECT 1 FROM "
    case Find => SelectWords(d.distinct) + (Join(QuotedColumns(m.fields), ", ") + " FROM ")
  }

  lemma HeadWords(d: D.Descriptor, m: D.Metadata)
    ensures Head(d, m) == Words(d, m) + Quoted(m.tableName)
  {
    hide Quoted, Join, QuotedColumns;
    assert "SELECT " + "DISTINCT " == "SELECT DISTINCT " && "SELECT " + "" == "SELECT ";
  }

  lemma TableFirst(d: D.Descriptor, m: D.Metadata, where: string)
    requires Compilable(d, m)
    ensures StatementText(d, m, where) == Words(d, m) + FromTable(d, m, where)
  {
    hide Quoted, Tail, Words, Head;
    HeadWords(d, m);
    if |d.properties| == 0 {
      Assoc(Words(d, m), Quoted(m.tableName), Tail(d, m));
    } else {
      Assoc(Words(d, m) + Quoted(m.tableName), " WHERE ", where + Tail(d, m));
      Assoc(Words(d, m), Quoted(m.tableName), " WHERE " + (where + Tail(d, m)));
    }
  }

  lemma ReadsColumns(m: D.Metadata, rest: string)
    requires NameableColumns(m)
    ensures ReadColumns(Join(QuotedColumns(m.fields), ", ") + (" FROM " + rest)) == Some(Parsed(Columns(m.fields), " FROM " + rest))
  {
    hide Nameable, Quoted, ReadNames;
    ReadBack.Behind(" FROM ", rest);
    if |m.fields| == 0 {
      assert Join(QuotedColumns(m.fields), ", ") + (" FROM " + rest) == " FROM " + rest;
    } else {
      ReadsNames(m.fields, " FROM " + rest);
      ReadBack.QuoteFirst(m.fields[0].columnName);
      var s := Join(QuotedColumns(m.fields), ", ") + (" FROM " + rest);
      assert s[0] == Quoted(m.fields[0].columnName)[0];
      ReadBack.Differs(" FROM ", s, 0);
    }
  }

  lemma ReadsSelect(d: D.Descriptor, m: D.Metadata, args: seq<Value>)
    requires Compilable(d, m) && NameableNames(m) && AllListed(Preds(d.properties, m), args) && d.action == D.Find
    ensures ReadSelect(Join(QuotedColumns(m.fields), ", ") + (" FROM " + FromTable(d, m, IntendedWhere(d, m, args))), d.distinct) == Some(Asked(d, m, args))
  {
    hide Nameable, NameableColumns, ReadColumns, ReadSource, ReadOrder, ReadLimit, Join, QuotedColumns, FromTable, WhereCond, Tail, AllListed;
    ReadsColumns(m, FromTable(d, m, IntendedWhere(d, m, args)));
    ReadBack.Behind(" FROM ", FromTable(d, m, IntendedWhere(d, m, args)));
    ReadsFrom(d, m, args);
    ReadsTail(d, m);
  }

  lemma ReadsOthers(d: D.Descriptor, m: D.Metadata, where: string)
    requires Compilable(d, m) && d.action != D.Find
    ensures var end := if d.action == D.Exists then " LIMIT 1" else "";
      var source := ReadWholeSource(FromTable(d, m, where), end);
      ReadStatement(StatementText(d, m, where)) == if source.None? then None
        else Some(if d.action == D.Exists then AnyRow(source.value.table, source.value.where)
                  else if d.action == D.Count then CountRows(source.value.table, source.value.where)
                  else Statement.Delete(source.value.table, source.value.where))
  {
    hide Nameable, ReadWholeSource, ReadSelect, FromTable, StatementText;
    WordsFirst(d, m, where);
    var from := FromTable(d, m, where);
    match d.action {
      case Delete => ReadBack.Behind("DELETE FROM ", from);
      case Count =>
        ReadBack.Behind("SELECT COUNT(*) FROM ", from);
        ReadBack.Differs("DELETE FROM ", "SELECT COUNT(*) FROM " + from, 0);
      case Exists =>
        ReadBack.Behind("SELECT 1 FROM ", from);
        ReadBack.Differs("DELETE FROM ", "SELECT 1 FROM " + from, 0);
        ReadBack.Differs("SELECT COUNT(*) FROM ", "SELECT 1 FROM " + from, 7);
    }
  }

  /** A quote or a space: how what is selected opens. */
  lemma ColumnsFirst(m: D.Metadata, rest: string)
    requires NameableColumns(m)
    ensures var t := Join(QuotedColumns(m.fields), ", ") + (" FROM " + rest); t[0] == '"' || t[0] == ' '
  {
    hide Nameable, Quoted;
    if |m.fields| > 0 {
      ReadBack.QuoteFirst(m.fields[0].columnName);
    } else {
      assert Join(QuotedColumns(m.fields), ", ") + (" FROM " + rest) == " FROM " + rest;
    }
  }

  lemma OpensSelect(t: string, distinct: bool)
    requires |t| > 0 && (t[0] == '"' || t[0] == ' ')
    ensures ReadStatement(SelectWords(distinct) + t) == ReadSelect(t, distinct)
  {
    hide ReadSelect, ReadWholeSource;
    var words := SelectWords(distinct);
    var s := words + t;
    ReadBack.Behind(words, t);
    ReadBack.Differs("DELETE FROM ", s, 0);
    ReadBack.Differs("SELECT COUNT(*) FROM ", s, 7);
    ReadBack.Differs("SELECT 1 FROM ", s, 7);
    if !distinct { ReadBack.Differs("SELECT DISTINCT ", s, 7); }
  }

  /** The statement is read through what stands from the table name on. */
  lemma ReadsFind(d: D.Descriptor, m: D.Metadata, where: string)
    requires Compilable(d, m) && NameableColumns(m) && d.action == D.Find
    ensures var from := FromTable(d, m, where);
      ReadStatement(StatementText(d, m, where)) == ReadSelect(Join(QuotedColumns(m.fields), ", ") + (" FROM " + from), d.distinct)
  {
    hide Nameable, NameableColumns, ReadStatement, ReadSelect, FromTable, Join, QuotedColumns, StatementText, SelectWords;
    WordsFirst(d, m, where);
    ColumnsFirst(m, FromTable(d, m, where));
    OpensSelect(Join(QuotedColumns(m.fields), ", ") + (" FROM " + FromTable(d, m, where)), d.distinct);
  }

  /** The characters of the intended statement, read as SQL, are what the method name asks for. */
  lemma StatementRead(d: D.Descriptor, m: D.Metadata, args: seq<Value>)
    requires Compilable(d, m) && NameableNames(m) && AllListed(Preds(d.properties, m), args)
    ensures ReadStatement(Intended(d, m, args)) == Some(Asked(d, m, args))
  {
    hide Nameable, NameableColumns, ReadStatement, ReadSelect, FromTable, WhereCond, AllListed, Join, QuotedColumns, StatementText, ReadSource;
    if d.action == D.Find {
      ReadsFind(d, m, IntendedWhere(d, m, args));
      ReadsSelect(d, m, args);
    } else {
      ReadsOthers(d, m, IntendedWhere(d, m, args));
      ReadsFrom(d, m, args);
    }
  }

  /** Without a condition that is read there is no statement. */
  lemma RefusedStatement(d: D.Descriptor, m: D.Metadata, where: string)
    requires Compilable(d, m) && NameableNames(m) && |d.properties| > 0 && ReadChain(where + Tail(d, m), false) == None
    ensures ReadStatement(StatementText(d, m, where)) == None
  {
    hide Nameable, NameableColumns, ReadStatement, FromTable, Join, QuotedColumns, StatementText, ReadSource, ReadOrder, ReadLimit, Tail;
    var from := FromTable(d, m, where);
    RefusedSource(d, m, where);
    if d.action == D.Find {
      ReadsFind(d, m, where);
      ReadsColumns(m, from);
      ReadBack.Behind(" FROM ", from);
    } else {
      ReadsOthers(d, m, where);
    }
  }

  lemma RefusedSource(d: D.Descriptor, m: D.Metadata, where: string)
    requires Compilable(d, m) && NameableNames(m) && |d.properties| > 0 && ReadChain(where + Tail(d, m), false) == None
    ensures ReadSource(FromTable(d, m, where)) == None
  {
    hide Nameable, Quoted, ReadName, ReadChain, Tail;
    ReadBack.ReadsName(m.tableName, " WHERE " + (where + Tail(d, m)));
    ReadBack.Behind(" WHERE ", where + Tail(d, m));
  }

  /** The rows the condition keeps: all, or those on which it is true. */
  predicate Keeps(db: Database, where: Option<Cond>, row: Row, env: nat -> Value) {
    where.Some? ==> CondTruth(db, where.value, row, env).True?
  }

  /** With its parameters bound, the statement is about the rows on which the predicates are true. */
  lemma StatementKeeps(db: Database, d: D.Descriptor, m: D.Metadata, args: seq<Value>, row: Row, env: nat -> Value)
    requires Compilable(d, m) && Binds(env, 1, Params(AllGivens(d, m, args)))
    ensures Keeps(db, Asked(d, m, args).where, row, env) <==>
      (|d.properties| > 0 ==> WhereTruth(db, Preds(d.properties, m), d.connector, args, row).True?)
  {
    hide Binds, Bindings, Params, BoundConds, CondTruth, WhereTruth, ReadChains.Chained, Orderings, Columns, D.ResolveColumn;
    assert Asked(d, m, args).where == WhereCond(d, m, args);
    if |d.properties| > 0 {
      ConditionMeans(db, Preds(d.properties, m), d.connector, args, row, env);
    }
  }

  lemma ConditionMeans(db: Database, preds: seq<Pred>, c: D.Connector, args: seq<Value>, row: Row, env: nat -> Value)
    requires |preds| > 0 && Filters(preds) && Binds(env, 1, Params(Givens(Bindings(preds, |preds|), args)))
    ensures var conds := BoundConds(preds, args);
      CondTruth(db, ReadChains.Chained(conds[0], conds[1..], c == D.AllOf), row, env) == WhereTruth(db, preds, c, args, row)
  {
    hide Binds, Bindings, Params, BoundCond, Before, OutputIndex, CondTruth, WhereTruth, ReadChains.Chained, ConnectedTruth;
    var conds := BoundConds(preds, args);
    CompiledMeans(db, preds, c, args, row, env);
    ReadChains.ConnectedMeans(db, conds, c == D.AllOf, row, env);
  }

  /** The bound statement, read as SQL. */
  lemma BoundRead(d: D.Descriptor, m: D.Metadata, args: seq<Value>)
    requires Compilable(d, m) && NameableNames(m)
    ensures ReadStatement(BoundText(QuerySlots(d, m), AllGivens(d, m, args), 1)) ==
      if AllListed(Preds(d.properties, m), args) then Some(Asked(d, m, args)) else None
  {
    hide Nameable, NameableColumns, ReadStatement, Fits, BoundText, Asked, StatementText, Intended, Clear, SafeNames, Listed, BoundTexts, Join,
      Before, ReadChain, Tail, QuerySlots, AllGivens;
    BoundStatement(d, m, args);
    var preds := Preds(d.properties, m);
    if AllListed(preds, args) {
      StatementRead(d, m, args);
    } else {
      var k := FirstUnlisted(preds, args);
      PredsNameable(d.properties, m);
      WhereRefused(preds, d.connector, args, k, Tail(d, m));
      RefusedStatement(d, m, Join(BoundTexts(preds, args), Separator(d.connector)));
    }
  }

  /**
   * Compiling and then binding a call, as the repository handler does. The
   * parameters are always those of the bindings. The text is the template with
   * its holes filled exactly when the holes are found; given that, it is the
   * intended statement exactly when the lists have elements: read as SQL it
   * then is what the method name asks for, and else it is refused.
   */
  method CompileAndBind(d: D.Descriptor, m: D.Metadata, args: seq<Value>) returns (r: Result<(string, seq<Value>), string>)
    requires NoSimilarTo(d.properties)
    ensures r.Ok? <==> Compilable(d, m)
    ensures r.Ok? ==> r.value.1 == Params(AllGivens(d, m, args))
    ensures r.Ok? ==> (r.value.0 == BoundText(QuerySlots(d, m), AllGivens(d, m, args), 1) <==> FindsAll(d, m, args))
    ensures r.Ok? && FindsAll(d, m, args) ==> (r.value.0 == Intended(d, m, args) <==> AllListed(Preds(d.properties, m), args))
    ensures r.Ok? && AllListed(Preds(d.properties, m), args) ==> (r.value.0 == Intended(d, m, args) <==> FindsAll(d, m, args))
    ensures r.Ok? && SafeNames(m) ==> FindsAll(d, m, args)
    ensures r.Ok? && FindsAll(d, m, args) && NameableNames(m) ==>
      ReadStatement(r.value.0) == if AllListed(Preds(d.properties, m), args) then Some(Asked(d, m, args)) else None
  {
    hide SlotsText, QuerySlots, Fits, BoundText, Params, Bindings, Preds, AllListed, Intended, FindsHoles, Passed, Clear, SafeNames;
    var compiled := Compile(d, m);
    if compiled.Err? {
      return Err(compiled.error);
    }
    BoundStatement(d, m, args);
    TemplateExactly(compiled.value.sql, QuerySlots(d, m), AllGivens(d, m, args));
    var bound, params := BindCompiledQuery(compiled.value, args, QuerySlots(d, m));
    if FindsAll(d, m, args) && NameableNames(m) { BoundRead(d, m, args); }
    r := Ok((bound, params));
  }
}
