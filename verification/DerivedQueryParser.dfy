/** The parser of derived query method names. */
module DerivedQueryParser {
  import opened Options
  import opened SqlText
  import opened Words
  import opened DerivedQuery

  datatype ParseError =
    | EmptyName
    | ExpectedBy
    | UnknownPrefix
    | NothingAfterBy
    | NothingAfterOrderBy
    | NothingBeforeOrderBy
    | NoProperties

  function LowerFirst(s: string): string
    requires |s| > 0
  {
    [if IsUpper(s[0]) then s[0] - 'A' + 'a' else s[0]] + s[1..]
  }

  // ---------------------------------------------------------- prefix

  datatype Prefix = Prefix(action: Action, distinct: bool, limit: Option<nat>, rest: string)

  /** What follows a beginning; None where the text does not begin so. */
  function After(s: string, beginning: string): Option<string> {
    if beginning <= s then Some(s[|beginning|..]) else None
  }

  /** The digits at the beginning. */
  function LeadingDigits(s: string): (n: nat)
    ensures n <= |s| && forall i :: 0 <= i < n ==> IsDigit(s[i])
  {
    if |s| > 0 && IsDigit(s[0]) then 1 + LeadingDigits(s[1..]) else 0
  }

  predicate IsLineBreak(c: char) {
    c == '\n' || c == '\r' || c == '\U{2028}' || c == '\U{2029}'
  }

  predicate OneLine(s: string) {
    forall i :: 0 <= i < |s| ==> !IsLineBreak(s[i])
  }

  /** (digits)By(anything on one line). */
  function ParseLimited(tail: string): Option<Prefix> {
    var n := LeadingDigits(tail);
    var rest := After(tail[n..], "By");
    if rest.None? || !OneLine(rest.value) then None
    else Some(Prefix(Find, false, Some(if n == 0 then 1 else Number(tail[..n])), rest.value))
  }

  /** find(First|Top)(digits)By(anything on one line). */
  function ParseFirst(name: string): Option<Prefix> {
    var first, top := After(name, "findFirst"), After(name, "findTop");
    var tail := if first.Some? then first else top;
    if tail.None? then None else ParseLimited(tail.value)
  }

  function ParsePrefix(name: string): Result<Prefix, ParseError> {
    var distinct := After(name, "findDistinctBy");
    if distinct.Some? then Ok(Prefix(Find, true, None, distinct.value))
    else if After(name, "findDistinct").Some? then Err(ExpectedBy)
    else
      var first := ParseFirst(name);
      if first.Some? then Ok(first.value)
      else ParsePlainPrefix(name)
  }

  function ParsePlainPrefix(name: string): Result<Prefix, ParseError> {
    var all, find, count := After(name, "findAllBy"), After(name, "findBy"), After(name, "countBy");
    var delete, remove, exist := After(name, "deleteBy"), After(name, "removeBy"), After(name, "existsBy");
    if all.Some? then Ok(Prefix(Find, false, None, all.value))
    else if find.Some? then Ok(Prefix(Find, false, None, find.value))
    else if count.Some? then Ok(Prefix(Count, false, None, count.value))
    else if delete.Some? then Ok(Prefix(Delete, false, None, delete.value))
    else if remove.Some? then Ok(Prefix(Delete, false, None, remove.value))
    else if exist.Some? then Ok(Prefix(Exists, false, None, exist.value))
    else Err(UnknownPrefix)
  }

  // -------------------------------------------------------- order by

  function DirectionName(descending: bool): string {
    if descending then "Desc" else "Asc"
  }

  /** A direction that ends a property name: at the end, or before the next upper-case letter. */
  predicate DirectionAt(s: string, descending: bool, i: nat) {
    var dir := DirectionName(descending);
    Occurs(s, dir, i) && (i + |dir| == |s| || IsUpper(s[i + |dir|]))
  }

  /** The earliest such direction, behind at least one character. */
  function EarliestDirection(s: string, from: nat): (r: Option<(nat, bool)>)
    ensures r.Some? ==> from <= r.value.0 && DirectionAt(s, r.value.1, r.value.0)
    decreases |s| + 1 - from
  {
    if from > |s| then None
    else if DirectionAt(s, true, from) then Some((from, true))
    else if DirectionAt(s, false, from) then Some((from, false))
    else EarliestDirection(s, from + 1)
  }

  function Directed(property: string, descending: bool): OrderBy
    requires |property| > 0
  {
    OrderBy(LowerFirst(property), descending)
  }

  function Orders(s: string): seq<OrderBy>
    decreases |s|
  {
    if s == "" then []
    else
      var best := EarliestDirection(s, 1);
      if best.None? then [Directed(s, false)]
      else
        var (i, descending) := best.value;
        [Directed(s[..i], descending)] + Orders(s[i + |DirectionName(descending)|..])
  }

  /** The first occurrence of one direction that stands at a boundary. */
  method FindDirection(s: string, descending: bool) returns (i: Option<nat>)
    ensures i.Some? ==> 1 <= i.value <= |s| && DirectionAt(s, descending, i.value)
    ensures forall k: nat :: 1 <= k < (if i.Some? then i.value else |s| + 1) ==> !DirectionAt(s, descending, k)
  {
    hide Occurs, IndexOf;
    var dir := DirectionName(descending);
    var from: nat := 1;
    while from < |s|
      invariant from >= 1 && forall k: nat :: 1 <= k < from ==> !DirectionAt(s, descending, k)
      decreases |s| + 1 - from
    {
      IndexOfIsFirst(s, dir, from);
      var idx := IndexOf(s, dir, from);
      if idx.None? {
        return None;
      }
      var after := idx.value + |dir|;
      if after == |s| || IsUpper(s[after]) {
        return Some(idx.value);
      }
      from := idx.value + 1;
    }
    NoDirectionAtEnd(s, descending);
    i := None;
  }

  lemma NoDirectionAtEnd(s: string, descending: bool)
    ensures forall k: nat :: |s| <= k ==> !DirectionAt(s, descending, k)
  {
  }

  lemma {:induction false} EarliestIs(s: string, from: nat, i: nat, descending: bool)
    requires from <= i && DirectionAt(s, descending, i)
    requires forall k: nat :: from <= k < i ==> !DirectionAt(s, true, k) && !DirectionAt(s, false, k)
    ensures EarliestDirection(s, from) == Some((i, descending))
    decreases |s| + 1 - from
  {
    OneDirection(s, i);
    hide DirectionAt;
    if from < i {
      EarliestIs(s, from + 1, i, descending);
    }
  }

  lemma OneDirection(s: string, i: nat)
    ensures !(DirectionAt(s, true, i) && DirectionAt(s, false, i))
    ensures DirectionAt(s, true, i) || DirectionAt(s, false, i) ==> i <= |s|
  {
    if DirectionAt(s, true, i) {
      OccursAt(s, "Desc", i);
      if i + 3 <= |s| {
        OccursAt(s, "Asc", i);
      }
    }
  }

  lemma {:induction false} NoEarliest(s: string, from: nat)
    requires forall k: nat :: from <= k ==> !DirectionAt(s, true, k) && !DirectionAt(s, false, k)
    ensures EarliestDirection(s, from) == None
    decreases |s| + 1 - from
  {
    hide DirectionAt;
    if from <= |s| {
      NoEarliest(s, from + 1);
    }
  }

  /** The earlier of the two directions' first occurrences. */
  method FindBestDirection(s: string) returns (best: Option<(nat, bool)>)
    ensures best == EarliestDirection(s, 1)
  {
    hide DirectionAt, EarliestDirection;
    best := None;
    var desc := FindDirection(s, true);
    if desc.Some? {
      best := Some((desc.value, true));
    }
    var asc := FindDirection(s, false);
    if asc.Some? && (best.None? || asc.value < best.value.0) {
      best := Some((asc.value, false));
    }
    BestIsEarliest(s, best);
  }

  /** Takes one property and its direction after the other. */
  method ParseOrders(s: string) returns (orders: seq<OrderBy>)
    ensures orders == Orders(s)
  {
    hide DirectionAt, Directed;
    orders := [];
    var remaining := s;
    while remaining != ""
      invariant orders + Orders(remaining) == Orders(s)
      decreases |remaining|
    {
      var best := FindBestDirection(remaining);
      ghost var before, tail := orders, Orders(remaining);
      if best.None? {
        orders := orders + [Directed(remaining, false)];
        remaining := "";
      } else {
        var (i, descending) := best.value;
        DirectionFits(remaining, descending, i);
        orders := orders + [Directed(remaining[..i], descending)];
        remaining := remaining[i + |DirectionName(descending)|..];
      }
      assert before + tail == orders + Orders(remaining);
    }
  }

  lemma DirectionFits(s: string, descending: bool, i: nat)
    requires DirectionAt(s, descending, i)
    ensures i + |DirectionName(descending)| <= |s|
  {
  }

  lemma BestIsEarliest(s: string, best: Option<(nat, bool)>)
    requires best.Some? ==> best.value.0 >= 1 && DirectionAt(s, best.value.1, best.value.0)
    requires forall k: nat :: 1 <= k < (if best.Some? then best.value.0 else |s| + 1) ==> !DirectionAt(s, true, k) && !DirectionAt(s, false, k)
    ensures EarliestDirection(s, 1) == best
  {
    if best.Some? {
      EarliestIs(s, 1, best.value.0, best.value.1);
    } else {
      NoDirectionAtEnd(s, true);
      NoDirectionAtEnd(s, false);
      NoEarliest(s, 1);
    }
  }

  /** The predicate part, and what OrderBy asks for. */
  function OrderBySplit(s: string): Result<(string, seq<OrderBy>), ParseError> {
    var idx := IndexOf(s, "OrderBy", 0);
    if idx.None? then Ok((s, []))
    else
      var orders := s[idx.value + 7..];
      if orders == "" then Err(NothingAfterOrderBy) else Ok((s[..idx.value], Orders(orders)))
  }

  method ExtractOrderBy(s: string) returns (r: Result<(string, seq<OrderBy>), ParseError>)
    ensures r == OrderBySplit(s)
  {
    var idx := IndexOf(s, "OrderBy", 0);
    if idx.None? {
      return Ok((s, []));
    }
    var part := s[idx.value + 7..];
    if part == "" {
      return Err(NothingAfterOrderBy);
    }
    var orders := ParseOrders(part);
    r := Ok((s[..idx.value], orders));
  }

  // ------------------------------------------------------- properties

  function OperatorName(op: Operator): string {
    match op
    case Equals => "Equals" case Like => "Like" case StartingWith => "StartingWith" case EndingWith => "EndingWith"
    case Containing => "Containing" case GreaterThan => "GreaterThan" case GreaterThanEqual => "GreaterThanEqual"
    case LessThan => "LessThan" case LessThanEqual => "LessThanEqual" case Between => "Between" case In => "In"
    case NotIn => "NotIn" case IsNull => "IsNull" case IsNotNull => "IsNotNull" case Not => "Not" case True => "True"
    case False => "False" case SimilarTo => "SimilarTo"
  }

  /** The operators, longest names first. */
  function ByLength(): seq<Operator> {
    [GreaterThanEqual, LessThanEqual, StartingWith, GreaterThan, EndingWith, Containing, IsNotNull, SimilarTo, LessThan,
     Between, Equals, IsNull, NotIn, False, Like, True, Not, In]
  }

  predicate EndsWith(s: string, w: string) {
    |w| <= |s| && s[|s| - |w|..] == w
  }

  /** The first operator of the list that the expression ends with, behind some property. */
  function OperatorOf(expr: string, ops: seq<Operator>): Operator {
    if |ops| == 0 then Equals
    else if EndsWith(expr, OperatorName(ops[0])) && |expr| > |OperatorName(ops[0])| then ops[0]
    else OperatorOf(expr, ops[1..])
  }

  function ParsePropertyExpression(expr: string): PropertyExpression
    requires |expr| > 0
  {
    var op := OperatorOf(expr, ByLength());
    var name := OperatorName(op);
    var property := if EndsWith(expr, name) && |expr| > |name| then expr[..|expr| - |name|] else expr;
    PropertyExpression(LowerFirst(property), op, ParamCount(op))
  }

  // -------------------------------------------------------- connectors

  function SplitProperties(s: string): (seq<string>, Connector) {
    PositionsAscend(s, "And", 0, 0);
    PositionsAscend(s, "Or", 0, 0);
    var ands, ors := Positions(s, "And", 0), Positions(s, "Or", 0);
    if |ands| == 0 && |ors| == 0 then ([s], AllOf)
    else if |ands| == 0 then (SplitAt(s, ors, 2, 0), AnyOf)
    else (SplitAt(s, ands, 3, 0), AllOf)
  }

  method SplitIntoProperties(s: string) returns (parts: seq<string>, connector: Connector)
    ensures (parts, connector) == SplitProperties(s)
  {
    hide Positions, SplitAt, Ascending;
    PositionsAscend(s, "And", 0, 0);
    PositionsAscend(s, "Or", 0, 0);
    var ands := FindConnectorPositions(s, "And");
    var ors := FindConnectorPositions(s, "Or");
    if |ands| == 0 && |ors| == 0 {
      return [s], AllOf;
    }
    if |ands| > 0 {
      parts := SplitAtPositions(s, ands, 3);
      return parts, AllOf;
    }
    parts := SplitAtPositions(s, ors, 2);
    connector := AnyOf;
  }

  // ---------------------------------------------------------- the whole

  /** The non-empty parts, each parsed. */
  function ParsedParts(parts: seq<string>): (properties: seq<PropertyExpression>)
    requires forall i :: 0 <= i < |parts| ==> parts[i] != ""
    ensures |properties| == |parts|
  {
    seq(|parts|, i requires 0 <= i < |parts| => ParsePropertyExpression(parts[i]))
  }

  lemma {:induction false} PartsNotEmpty(s: string, positions: seq<nat>, length: nat, start: nat)
    requires start <= |s| && Ascending(positions, length, start, |s|)
    ensures forall i :: 0 <= i < |SplitAt(s, positions, length, start)| ==> SplitAt(s, positions, length, start)[i] != ""
    decreases |positions|
  {
    if |positions| > 0 {
      PartsNotEmpty(s, positions[1..], length, positions[0] + length);
    }
  }

  lemma SplitNotEmpty(s: string)
    requires s != ""
    ensures forall i :: 0 <= i < |SplitProperties(s).0| ==> SplitProperties(s).0[i] != ""
  {
    hide Positions, SplitAt, Ascending;
    PositionsAscend(s, "And", 0, 0);
    PositionsAscend(s, "Or", 0, 0);
    PartsNotEmpty(s, Positions(s, "And", 0), 3, 0);
    PartsNotEmpty(s, Positions(s, "Or", 0), 2, 0);
  }

  function ParsedPredicate(prefix: Prefix, predicates: string, orders: seq<OrderBy>): Result<Descriptor, ParseError> {
    if predicates == "" then Err(NothingBeforeOrderBy)
    else
      SplitNotEmpty(predicates);
      var (parts, connector) := SplitProperties(predicates);
      if |parts| == 0 then Err(NoProperties)
      else Ok(Descriptor(prefix.action, prefix.distinct, ParsedParts(parts), connector, orders, prefix.limit))
  }

  function Parsed(name: string): Result<Descriptor, ParseError> {
    if name == "" then Err(EmptyName)
    else match ParsePrefix(name)
      case Err(e) => Err(e)
      case Ok(prefix) =>
        if prefix.rest == "" then Err(NothingAfterBy)
        else match OrderBySplit(prefix.rest)
          case Err(e) => Err(e)
          case Ok((part, orders)) => ParsedPredicate(prefix, part, orders)
  }

  method ParseDerivedQueryMethod(name: string) returns (r: Result<Descriptor, ParseError>)
    ensures r == Parsed(name)
  {
    hide ParsePrefix, SplitProperties, OrderBySplit, ParsePropertyExpression;
    if name == "" {
      return Err(EmptyName);
    }
    var parsed := ParsePrefix(name);
    if parsed.Err? {
      return Err(parsed.error);
    }
    var prefix := parsed.value;
    if prefix.rest == "" {
      return Err(NothingAfterBy);
    }
    var split := ExtractOrderBy(prefix.rest);
    if split.Err? {
      return Err(split.error);
    }
    var (part, orders) := split.value;
    if part == "" {
      return Err(NothingBeforeOrderBy);
    }
    SplitNotEmpty(part);
    var parts, connector := SplitIntoProperties(part);
    if |parts| == 0 {
      return Err(NoProperties);
    }
    r := Ok(Descriptor(prefix.action, prefix.distinct, ParsedParts(parts), connector, orders, prefix.limit));
  }
}
