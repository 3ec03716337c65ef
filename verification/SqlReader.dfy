/**
 * A reader for the conditions the library writes: from the characters of the
 * text to the condition a database understands by them. AND binds closer than
 * OR, both group from the left, parentheses group, quoted parts joined by dots
 * are one name, and an operator is what its characters say.
 */
module SqlReader {
  import opened Options
  import opened SqlText
  import opened SqlCondition
  import opened ThreeValued
  import SqlUtils

  /** What was read, and the text behind it. */
  datatype Parsed<+T> = Parsed(value: T, rest: string)

  // --------------------------------------------------------------- names

  /** A quoted part, from behind its opening quote: a doubled quote is a quote, a single one ends it. */
  function ReadQuoted(s: string): (r: Option<Parsed<string>>)
    ensures r.Some? ==> |r.value.rest| < |s|
  {
    if |s| == 0 then None
    else if s[0] != '"' then Prefixed(s[0], ReadQuoted(s[1..]))
    else if |s| > 1 && s[1] == '"' then Prefixed('"', ReadQuoted(s[2..]))
    else Some(Parsed("", s[1..]))
  }

  function Prefixed(c: char, r: Option<Parsed<string>>): Option<Parsed<string>> {
    if r.Some? then Some(Parsed([c] + r.value.value, r.value.rest)) else None
  }

  /** A name: quoted parts joined by dots. */
  function ReadName(s: string): (r: Option<Parsed<string>>)
    ensures r.Some? ==> |r.value.rest| < |s|
    decreases |s|
  {
    if |s| == 0 || s[0] != '"' then None
    else
      var part := ReadQuoted(s[1..]);
      if part.None? || !(".\"" <= part.value.rest) then part
      else Dotted(part.value.value, ReadName(part.value.rest[1..]))
  }

  function Dotted(part: string, more: Option<Parsed<string>>): Option<Parsed<string>> {
    if more.None? then None else Some(Parsed(part + "." + more.value.value, more.value.rest))
  }

  // ---------------------------------------------------------- parameters

  function ReadParam(s: string): (r: Option<Parsed<nat>>)
    ensures r.Some? ==> |r.value.rest| < |s|
  {
    if !("$" <= s) || SqlUtils.LeadingDigits(s[1..]) == 0 then None
    else
      var k := SqlUtils.LeadingDigits(s[1..]);
      Some(Parsed(Number(s[1..][..k]), s[1 + k..]))
  }

  /** The parameters of a list, up to its closing parenthesis. */
  function ReadParams(s: string): (r: Option<Parsed<seq<nat>>>)
    ensures r.Some? ==> |r.value.rest| < |s|
  {
    var first := ReadParam(s);
    if first.None? then None
    else if ")" <= first.value.rest then Some(Parsed([first.value.value], first.value.rest[1..]))
    else if ", " <= first.value.rest then
      var more := ReadParams(first.value.rest[2..]);
      if more.None? then None else Some(Parsed([first.value.value] + more.value.value, more.value.rest))
    else None
  }

  // ---------------------------------------------------------- conditions

  /** The comparison operator a text opens with, between spaces. */
  function ReadOperator(s: string): (r: Option<Parsed<string>>)
    ensures r.Some? ==> |r.value.rest| < |s|
  {
    if " = " <= s then Some(Parsed("=", s[3..]))
    else if " <> " <= s then Some(Parsed("<>", s[4..]))
    else if " != " <= s then Some(Parsed("!=", s[4..]))
    else if " > " <= s then Some(Parsed(">", s[3..]))
    else if " >= " <= s then Some(Parsed(">=", s[4..]))
    else if " < " <= s then Some(Parsed("<", s[3..]))
    else if " <= " <= s then Some(Parsed("<=", s[4..]))
    else if " LIKE " <= s then Some(Parsed("LIKE", s[6..]))
    else None
  }

  /** The vector distance a text opens with, between spaces. */
  function ReadMetric(s: string): (r: Option<Parsed<Metric>>)
    ensures r.Some? ==> |r.value.rest| < |s|
  {
    if " <-> " <= s then Some(Parsed(L2, s[5..]))
    else if " <=> " <= s then Some(Parsed(Cosine, s[5..]))
    else if " <#> " <= s then Some(Parsed(InnerProduct, s[5..]))
    else None
  }

  /** What is said about a column, from behind its name. */
  function ReadTest(column: string, s: string): (r: Option<Parsed<Cond>>)
    ensures r.Some? ==> |r.value.rest| < |s|
  {
    if " IS NULL" <= s then Some(Parsed(IsNull(column), s[8..]))
    else if " IS NOT NULL" <= s then Some(Parsed(IsNotNull(column), s[12..]))
    else if " = TRUE" <= s then Some(Parsed(CompareBool(column, true), s[7..]))
    else if " = FALSE" <= s then Some(Parsed(CompareBool(column, false), s[8..]))
    else if " IN (" <= s then
      var list := ReadParams(s[5..]);
      if list.None? then None else Some(Parsed(InList(column, list.value.value), list.value.rest))
    else if " BETWEEN " <= s then
      var lo := ReadParam(s[9..]);
      if lo.None? || !(" AND " <= lo.value.rest) then None
      else
        var hi := ReadParam(lo.value.rest[5..]);
        if hi.None? then None else Some(Parsed(Between(column, lo.value.value, hi.value.value), hi.value.rest))
    else
      var op := ReadOperator(s);
      if op.None? then None
      else
        var n := ReadParam(op.value.rest);
        if n.None? then None else Some(Parsed(Compare(column, op.value.value, n.value.value), n.value.rest))
  }

  /** A vector distance and its threshold, from behind the opening parenthesis. */
  function ReadDistance(s: string): (r: Option<Parsed<Cond>>)
    ensures r.Some? ==> |r.value.rest| < |s|
  {
    var name := ReadName(s);
    if name.None? || ReadMetric(name.value.rest).None? then None
    else
      var metric := ReadMetric(name.value.rest).value;
      var v := ReadParam(metric.rest);
      if v.None? || !(") < " <= v.value.rest || ") <= " <= v.value.rest) then None
      else
        var strict := ") < " <= v.value.rest;
        var t := ReadParam(v.value.rest[if strict then 4 else 5..]);
        if t.None? then None
        else Some(Parsed(Distance(name.value.value, metric.value, v.value.value, strict, t.value.value), t.value.rest))
  }

  function Closed(r: Option<Parsed<Cond>>): Option<Parsed<Cond>> {
    if r.Some? && ")" <= r.value.rest then Some(Parsed(r.value.value, r.value.rest[1..])) else None
  }

  function Negated(r: Option<Parsed<Cond>>): Option<Parsed<Cond>> {
    if r.Some? then Some(Parsed(Negation(r.value.value), r.value.rest)) else None
  }

  /** One condition: negated, the constant, in parentheses, or about one column. */
  function ReadPrim(s: string): (r: Option<Parsed<Cond>>)
    ensures r.Some? ==> |r.value.rest| < |s|
    decreases |s|, 0
  {
    if "NOT (" <= s then Negated(Closed(ReadChain(s[5..], false)))
    else if "1 = 0" <= s then Some(Parsed(Nothing, s[5..]))
    else if "(" <= s then
      if ReadDistance(s[1..]).Some? then ReadDistance(s[1..]) else Closed(ReadChain(s[1..], false))
    else
      var name := ReadName(s);
      if name.None? then None else ReadTest(name.value.value, name.value.rest)
  }

  function Connective(and: bool): string {
    if and then " AND " else " OR "
  }

  /** What AND connects is one condition; what OR connects are chains of AND. */
  function ReadOperand(s: string, and: bool): (r: Option<Parsed<Cond>>)
    ensures r.Some? ==> |r.value.rest| < |s|
    decreases |s|, if and then 1 else 3
  {
    if and then ReadPrim(s) else ReadChain(s, true)
  }

  function ReadChain(s: string, and: bool): (r: Option<Parsed<Cond>>)
    ensures r.Some? ==> |r.value.rest| < |s|
    decreases |s|, if and then 2 else 4
  {
    var first := ReadOperand(s, and);
    if first.None? then None else ReadMore(first.value.value, first.value.rest, and)
  }

  function Connect(left: Cond, right: Cond, and: bool): Cond {
    if and then Both(left, right) else Either(left, right)
  }

  /** The rest of a chain, behind what was read of it so far. */
  function ReadMore(sofar: Cond, s: string, and: bool): (r: Option<Parsed<Cond>>)
    ensures r.Some? ==> |r.value.rest| <= |s|
    decreases |s|, 0
  {
    if Connective(and) <= s then
      var next := ReadOperand(s[|Connective(and)|..], and);
      if next.None? then None else ReadMore(Connect(sofar, next.value.value, and), next.value.rest, and)
    else Some(Parsed(sofar, s))
  }

  /** The condition a whole text is; None if it is no condition. */
  function ReadCondition(s: string): Option<Cond> {
    var r := ReadChain(s, false);
    if r.Some? && r.value.rest == "" then Some(r.value.value) else None
  }

  /** The truth of a text on a row, given the value of every parameter; None if the database would refuse it. */
  function TextTruth(db: Database, s: string, row: Row, env: nat -> Value): Option<Truth> {
    var c := ReadCondition(s);
    if c.Some? then Some(CondTruth(db, c.value, row, env)) else None
  }

  /** Every part of the name is quoted. */
  predicate Nameable(name: string) {
    !SqlUtils.PassedThrough(name) && forall part :: part in SqlUtils.Split(name, '.') ==> !SqlUtils.PassedThrough(part)
  }

  /** Conditions a database can be given: quoted names, known operators, lists with elements. */
  predicate Readable(c: Cond) {
    match c
    case Compare(col, spelling, _) => Nameable(col) && OpOf(spelling).Some?
    case CompareBool(col, _) => Nameable(col)
    case InList(col, ns) => Nameable(col) && |ns| > 0
    case Between(col, _, _) => Nameable(col)
    case IsNull(col) => Nameable(col)
    case IsNotNull(col) => Nameable(col)
    case Nothing => true
    case Both(l, r) => Readable(l) && Readable(r)
    case Either(l, r) => Readable(l) && Readable(r)
    case Negation(d) => Readable(d)
    case Distance(col, _, _, _, _) => Nameable(col)
  }
}
