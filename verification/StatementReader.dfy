/** A reader for the statements the library writes: what is asked of which table, in which order, and how much of it. */
module StatementReader {
  import opened Options
  import opened SqlText
  import opened SqlCondition
  import opened SqlReader
  import SqlUtils

  datatype Ordering = Ordering(column: string, descending: bool)

  datatype Statement =
    | Select(distinct: bool, columns: seq<string>, table: string, where: Option<Cond>, order: seq<Ordering>, limit: Option<nat>)
    | CountRows(table: string, where: Option<Cond>)
    | AnyRow(table: string, where: Option<Cond>)
    | Delete(table: string, where: Option<Cond>)

  datatype Source = Source(table: string, where: Option<Cond>)

  function ReadNames(s: string): (r: Option<Parsed<seq<string>>>)
    ensures r.Some? ==> |r.value.rest| < |s|
    decreases |s|
  {
    var name := ReadName(s);
    if name.None? then None
    else if ", " <= name.value.rest then
      var more := ReadNames(name.value.rest[2..]);
      if more.None? then None else Some(Parsed([name.value.value] + more.value.value, more.value.rest))
    else Some(Parsed([name.value.value], name.value.rest))
  }

  /** A column and the direction behind it. */
  function ReadOrdering(s: string): (r: Option<Parsed<Ordering>>)
    ensures r.Some? ==> |r.value.rest| < |s|
  {
    var name := ReadName(s);
    if name.None? then None
    else if " ASC" <= name.value.rest then Some(Parsed(Ordering(name.value.value, false), name.value.rest[4..]))
    else if " DESC" <= name.value.rest then Some(Parsed(Ordering(name.value.value, true), name.value.rest[5..]))
    else None
  }

  function ReadOrderings(s: string): (r: Option<Parsed<seq<Ordering>>>)
    ensures r.Some? ==> |r.value.rest| < |s|
    decreases |s|
  {
    var first := ReadOrdering(s);
    if first.None? then None
    else if ", " <= first.value.rest then
      var more := ReadOrderings(first.value.rest[2..]);
      if more.None? then None else Some(Parsed([first.value.value] + more.value.value, more.value.rest))
    else Some(Parsed([first.value.value], first.value.rest))
  }

  /** The table, and the condition if there is one. */
  function ReadSource(s: string): Option<Parsed<Source>> {
    var name := ReadName(s);
    if name.None? then None
    else if " WHERE " <= name.value.rest then
      var where := ReadChain(name.value.rest[7..], false);
      if where.None? then None else Some(Parsed(Source(name.value.value, Some(where.value.value)), where.value.rest))
    else Some(Parsed(Source(name.value.value, None), name.value.rest))
  }

  function ReadOrder(s: string): Option<Parsed<seq<Ordering>>> {
    if " ORDER BY " <= s then ReadOrderings(s[10..]) else Some(Parsed([], s))
  }

  /** The limit a statement ends with, if any; None if something else follows. */
  function ReadLimit(s: string): Option<Option<nat>> {
    if s == "" then Some(None)
    else if " LIMIT " <= s && 0 < SqlUtils.LeadingDigits(s[7..]) == |s| - 7 then Some(Some(Number(s[7..])))
    else None
  }

  /** What is selected, from behind SELECT. */
  function ReadColumns(s: string): Option<Parsed<seq<string>>> {
    if " FROM " <= s then Some(Parsed([], s)) else ReadNames(s)
  }

  function ReadSelect(s: string, distinct: bool): Option<Statement> {
    var columns := ReadColumns(s);
    if columns.None? || !(" FROM " <= columns.value.rest) then None
    else
      var source := ReadSource(columns.value.rest[6..]);
      if source.None? then None
      else
        var order := ReadOrder(source.value.rest);
        if order.None? || ReadLimit(order.value.rest).None? then None
        else Some(Select(distinct, columns.value.value, source.value.value.table, source.value.value.where,
                         order.value.value, ReadLimit(order.value.rest).value))
  }

  /** The table and condition of a statement that has nothing but `end` behind them. */
  function ReadWholeSource(s: string, end: string): Option<Source> {
    var source := ReadSource(s);
    if source.None? || source.value.rest != end then None else Some(source.value.value)
  }

  /** The statement a whole text is; None if it is none. */
  function ReadStatement(s: string): Option<Statement> {
    if "DELETE FROM " <= s then
      var source := ReadWholeSource(s[12..], "");
      if source.None? then None else Some(Delete(source.value.table, source.value.where))
    else if "SELECT COUNT(*) FROM " <= s then
      var source := ReadWholeSource(s[21..], "");
      if source.None? then None else Some(CountRows(source.value.table, source.value.where))
    else if "SELECT 1 FROM " <= s then
      var source := ReadWholeSource(s[14..], " LIMIT 1");
      if source.None? then None else Some(AnyRow(source.value.table, source.value.where))
    else if "SELECT DISTINCT " <= s then ReadSelect(s[16..], true)
    else if "SELECT " <= s then ReadSelect(s[7..], false)
    else None
  }
}
