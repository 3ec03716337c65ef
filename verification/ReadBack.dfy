/** What the library writes is read back: names, conditions and chains of conditions. */
module ReadBack {
  import opened Options
  import opened SqlText
  import opened SqlCondition
  import opened SqlReader
  import opened ThreeValued
  import SqlUtils

  // --------------------------------------------------------------- names

  lemma {:induction false} ReadsQuoted(part: string, rest: string)
    requires |rest| > 0 ==> rest[0] != '"'
    ensures ReadQuoted(SqlUtils.DoubleQuotes(part) + ("\"" + rest)) == Some(Parsed(part, rest))
  {
    if part == "" {
      EndsQuoted(rest);
      assert "" + ("\"" + rest) == "\"" + rest;
    } else {
      var head, tail := if part[0] == '"' then "\"\"" else [part[0]], SqlUtils.DoubleQuotes(part[1..]);
      ReadsQuoted(part[1..], rest);
      hide ReadQuoted, Prefixed;
      assert SqlUtils.DoubleQuotes(part) == head + tail;
      Assoc(head, tail, "\"" + rest);
      GoesOnQuoted(part[0], head, tail + ("\"" + rest));
      PrefixedBy(part, rest);
    }
  }

  lemma PrefixedBy(part: string, rest: string)
    requires part != ""
    ensures Prefixed(part[0], Some(Parsed(part[1..], rest))) == Some(Parsed(part, rest))
  {
    assert part == [part[0]] + part[1..];
  }

  lemma EndsQuoted(rest: string)
    requires |rest| > 0 ==> rest[0] != '"'
    ensures ReadQuoted("\"" + rest) == Some(Parsed("", rest))
  {
    var s := "\"" + rest;
    assert s[1..] == rest;
  }

  lemma GoesOnQuoted(c: char, head: string, tail: string)
    requires head == if c == '"' then "\"\"" else [c]
    ensures ReadQuoted(head + tail) == Prefixed(c, ReadQuoted(tail))
  {
    var s := head + tail;
    assert s[|head|..] == tail;
  }

  function QuoteParts(parts: seq<string>): (ts: seq<string>)
    ensures |ts| == |parts| && forall i :: 0 <= i < |parts| ==> ts[i] == SqlUtils.QuotePart(parts[i])
  {
    seq(|parts|, i requires 0 <= i < |parts| => SqlUtils.QuotePart(parts[i]))
  }

  lemma {:induction false} SplitOnce(s: string, sep: char)
    requires sep !in s
    ensures SqlUtils.Split(s, sep) == [s]
  {
    if |s| > 0 {
      SplitOnce(s[1..], sep);
      assert [s[0]] + s[1..] == s;
    }
  }

  lemma {:induction false} JoinOfSplit(s: string, sep: char)
    ensures Join(SqlUtils.Split(s, sep), [sep]) == s
  {
    if |s| > 0 {
      JoinOfSplit(s[1..], sep);
      var rest := SqlUtils.Split(s[1..], sep);
      if s[0] == sep {
        assert ([""] + rest)[1..] == rest;
        assert s == "" + ([sep] + s[1..]);
      } else {
        var parts := [[s[0]] + rest[0]] + rest[1..];
        assert parts[1..] == rest[1..];
        assert s == [s[0]] + s[1..];
      }
    }
  }

  /** A name in quotes is its parts in quotes. */
  lemma QuotedByParts(name: string)
    requires !SqlUtils.PassedThrough(name)
    ensures Quoted(name) == Join(QuoteParts(SqlUtils.Split(name, '.')), ".")
  {
    hide SqlUtils.PassedThrough, SqlUtils.QuotePart;
    var parts := SqlUtils.Split(name, '.');
    if '.' in name {
      assert seq(|parts|, i requires 0 <= i < |parts| => SqlUtils.QuotePart(parts[i])) == QuoteParts(parts);
    } else {
      SplitOnce(name, '.');
    }
  }

  lemma {:induction false} ReadsParts(parts: seq<string>, rest: string)
    requires |parts| > 0 && forall part :: part in parts ==> !SqlUtils.PassedThrough(part)
    requires |rest| > 0 ==> rest[0] != '"' && rest[0] != '.'
    ensures ReadName(Join(QuoteParts(parts), ".") + rest) == Some(Parsed(Join(parts, "."), rest))
  {
    hide SqlUtils.PassedThrough, SqlUtils.QuotePart, ReadName;
    assert parts[0] in parts;
    if |parts| == 1 {
      ReadsPartBefore(parts[0], rest);
    } else {
      var more := Join(QuoteParts(parts[1..]), ".") + rest;
      ReadsParts(parts[1..], rest);
      assert QuoteParts(parts)[1..] == QuoteParts(parts[1..]);
      assert Join(QuoteParts(parts), ".") + rest == SqlUtils.QuotePart(parts[0]) + ("." + more);
      assert parts[1] in parts;
      OpensWithQuote(parts[1..], rest);
      ReadsFirstPart(parts[0], more);
      Assoc(parts[0], ".", Join(parts[1..], "."));
    }
  }

  lemma QuotedText(part: string, more: string)
    requires !SqlUtils.PassedThrough(part)
    ensures SqlUtils.QuotePart(part) + more == "\"" + (SqlUtils.DoubleQuotes(part) + ("\"" + more))
  {
    hide SqlUtils.PassedThrough, SqlUtils.DoubleQuotes;
    Assoc("\"" + SqlUtils.DoubleQuotes(part), "\"", more);
    Assoc("\"", SqlUtils.DoubleQuotes(part), "\"" + more);
  }

  lemma ReadsFirstPart(part: string, more: string)
    requires !SqlUtils.PassedThrough(part) && |more| > 0 && more[0] == '"'
    ensures ReadName(SqlUtils.QuotePart(part) + ("." + more)) == Dotted(part, ReadName(more))
  {
    hide SqlUtils.PassedThrough, SqlUtils.QuotePart, ReadQuoted, SqlUtils.DoubleQuotes, ReadName, Dotted;
    ReadsQuoted(part, "." + more);
    var behind := SqlUtils.DoubleQuotes(part) + ("\"" + ("." + more));
    QuotedText(part, "." + more);
    assert ("." + more)[1..] == more && ".\"" <= "." + more;
    FirstPart(behind, part, "." + more);
  }

  lemma FirstPart(s: string, part: string, rest: string)
    requires ReadQuoted(s) == Some(Parsed(part, rest)) && ".\"" <= rest
    ensures ReadName("\"" + s) == Dotted(part, ReadName(rest[1..]))
  {
    hide ReadQuoted;
    assert ("\"" + s)[1..] == s;
  }

  lemma OpensWithQuote(parts: seq<string>, rest: string)
    requires |parts| > 0
    ensures var text := Join(QuoteParts(parts), ".") + rest;
      SqlUtils.PassedThrough(parts[0]) || (|text| > 0 && text[0] == '"')
  {
    hide SqlUtils.PassedThrough;
  }

  /** A quoted name is read as that name. */
  lemma ReadsName(name: string, rest: string)
    requires Nameable(name) && (|rest| > 0 ==> rest[0] != '"' && rest[0] != '.')
    ensures ReadName(Quoted(name) + rest) == Some(Parsed(name, rest))
  {
    hide SqlUtils.PassedThrough, ReadName, SqlUtils.QuoteIdentifier;
    QuotedByParts(name);
    JoinOfSplit(name, '.');
    ReadsParts(SqlUtils.Split(name, '.'), rest);
  }

  lemma {:induction false} PassedStops(parts: seq<string>)
    requires |parts| > 0 && exists part :: part in parts && SqlUtils.PassedThrough(part)
    ensures var r := ReadName(Join(QuoteParts(parts), ".")); r.None? || r.value.rest != ""
  {
    hide SqlUtils.PassedThrough, SqlUtils.QuotePart, ReadName;
    if SqlUtils.PassedThrough(parts[0]) {
      PassedFirst(parts);
    } else {
      assert parts == [parts[0]] + parts[1..] && |parts| > 1;
      var more := Join(QuoteParts(parts[1..]), ".");
      assert exists part :: part in parts[1..] && SqlUtils.PassedThrough(part);
      PassedStops(parts[1..]);
      FirstOfParts(parts);
      FirstStops(parts[0], more);
    }
  }

  lemma FirstOfParts(parts: seq<string>)
    requires |parts| > 1
    ensures Join(QuoteParts(parts), ".") == SqlUtils.QuotePart(parts[0]) + ("." + Join(QuoteParts(parts[1..]), "."))
  {
    hide SqlUtils.QuotePart;
    assert QuoteParts(parts)[1..] == QuoteParts(parts[1..]);
  }

  lemma FirstStops(part: string, more: string)
    requires !SqlUtils.PassedThrough(part)
    requires var r := ReadName(more); r.None? || r.value.rest != ""
    ensures var r := ReadName(SqlUtils.QuotePart(part) + ("." + more)); r.None? || r.value.rest != ""
  {
    hide SqlUtils.PassedThrough, SqlUtils.QuotePart, ReadName;
    if |more| > 0 && more[0] == '"' {
      ReadsFirstPart(part, more);
    } else {
      ReadsOnlyPart(part, more);
    }
  }

  /** A part that is passed through does not open with a quote. */
  lemma PassedFirst(parts: seq<string>)
    requires |parts| > 0 && SqlUtils.PassedThrough(parts[0])
    ensures ReadName(Join(QuoteParts(parts), ".")).None?
  {
    hide SqlUtils.SkipWhile;
    var part := parts[0];
    NotPassedQuote(part);
    assert QuoteParts(parts)[0] == part;
    assert Join(QuoteParts(parts), ".")[0] == part[0];
  }

  lemma NotPassedQuote(part: string)
    requires SqlUtils.PassedThrough(part)
    ensures |part| > 0 && part[0] != '"'
  {
  }

  lemma ReadsOnlyPart(part: string, more: string)
    requires !SqlUtils.PassedThrough(part) && (|more| > 0 ==> more[0] != '"')
    ensures ReadName(SqlUtils.QuotePart(part) + ("." + more)) == Some(Parsed(part, "." + more))
  {
    hide SqlUtils.PassedThrough, SqlUtils.QuotePart, ReadName;
    NoMore(more);
    ReadsPartBefore(part, "." + more);
  }

  lemma ReadsPartBefore(part: string, rest: string)
    requires !SqlUtils.PassedThrough(part) && !(".\"" <= rest) && (|rest| > 0 ==> rest[0] != '"')
    ensures ReadName(SqlUtils.QuotePart(part) + rest) == Some(Parsed(part, rest))
  {
    hide SqlUtils.PassedThrough, SqlUtils.QuotePart, ReadQuoted, SqlUtils.DoubleQuotes, ReadName;
    ReadsQuoted(part, rest);
    var behind := SqlUtils.DoubleQuotes(part) + ("\"" + rest);
    QuotedText(part, rest);
    OnlyPart(behind, part, rest);
  }

  lemma NoMore(more: string)
    requires |more| > 0 ==> more[0] != '"'
    ensures !(".\"" <= "." + more)
  {
    if |more| > 0 { Differs(".\"", "." + more, 1); }
  }

  lemma OnlyPart(s: string, part: string, rest: string)
    requires ReadQuoted(s) == Some(Parsed(part, rest)) && !(".\"" <= rest)
    ensures ReadName("\"" + s) == Some(Parsed(part, rest))
  {
    hide ReadQuoted;
    assert ("\"" + s)[1..] == s;
  }

  /** Quoting a name and reading it gives the name back exactly when every part of it is quoted. */
  lemma NameReadsExactly(name: string)
    ensures ReadName(Quoted(name)) == Some(Parsed(name, "")) <==> Nameable(name)
  {
    hide SqlUtils.PassedThrough, ReadName;
    if Nameable(name) {
      ReadsName(name, "");
      assert Quoted(name) + "" == Quoted(name);
    } else if SqlUtils.PassedThrough(name) {
      NotPassedQuote(name);
      NoName(name);
    } else {
      QuotedByParts(name);
      PassedStops(SqlUtils.Split(name, '.'));
    }
  }

  // -------------------------------------------- reading one condition

  lemma Differs(lit: string, s: string, i: nat)
    requires i < |lit| && i < |s| && lit[i] != s[i]
    ensures !(lit <= s)
  {
  }

  lemma Behind(lit: string, rest: string)
    ensures lit <= lit + rest && (lit + rest)[|lit|..] == rest
  {
  }

  lemma ReadsParam(n: nat, rest: string)
    requires NoDigitFirst(rest)
    ensures ReadParam(Dollar(n) + rest) == Some(Parsed(n, rest))
  {
    hide Decimal, SqlUtils.LeadingDigits, Number;
    var d := Decimal(n);
    SqlUtils.DigitsStop(d, rest);
    NumberOfDecimal(n);
    assert (Dollar(n) + rest)[1..] == d + rest;
    assert (d + rest)[..|d|] == d;
    assert (Dollar(n) + rest)[1 + |d|..] == rest;
  }

  lemma {:induction false} ReadsParams(ns: seq<nat>, rest: string)
    requires |ns| > 0
    ensures ReadParams(Join(Dollars(ns), ", ") + (")" + rest)) == Some(Parsed(ns, rest))
  {
    hide Dollar, ReadParams, ReadParam;
    if |ns| == 1 {
      LastParam(ns[0], rest);
      assert ns == [ns[0]];
    } else {
      var more := Join(Dollars(ns[1..]), ", ") + (")" + rest);
      ReadsParams(ns[1..], rest);
      assert Dollars(ns)[1..] == Dollars(ns[1..]);
      assert Join(Dollars(ns), ", ") + (")" + rest) == Dollar(ns[0]) + (", " + more);
      NextParam(ns[0], more);
      assert ns == [ns[0]] + ns[1..];
    }
  }

  lemma LastParam(n: nat, rest: string)
    ensures ReadParams(Dollar(n) + (")" + rest)) == Some(Parsed([n], rest))
  {
    hide Dollar, ReadParam;
    ReadsParam(n, ")" + rest);
    Behind(")", rest);
  }

  lemma NextParam(n: nat, more: string)
    ensures ReadParams(Dollar(n) + (", " + more)) ==
      var r := ReadParams(more); if r.None? then None else Some(Parsed([n] + r.value.value, r.value.rest))
  {
    hide Dollar, ReadParam;
    ReadsParam(n, ", " + more);
    Behind(", ", more);
    Differs(")", ", " + more, 0);
  }

  /** The characters of an operator between spaces. */
  lemma Spaced(spelling: string, t: string)
    requires 0 < |spelling|
    ensures var s := " " + spelling + " " + t;
      |s| > |spelling| + 1 && s[0] == ' ' && s[1] == spelling[0] && s[|spelling| + 1] == ' ' && (|spelling| > 1 ==> s[2] == spelling[1])
  {
  }

  lemma ReadsOperator(spelling: string, rest: string)
    requires OpOf(spelling).Some?
    ensures ReadOperator(" " + spelling + " " + rest) == Some(Parsed(spelling, rest))
  {
    var s := " " + spelling + " " + rest;
    Spaced(spelling, rest);
    Behind(" " + spelling + " ", rest);
    if spelling[0] != '=' { Differs(" = ", s, 1); }
    if spelling[0] != '<' { Differs(" <> ", s, 1); Differs(" < ", s, 1); Differs(" <= ", s, 1); }
    if spelling[0] != '!' { Differs(" != ", s, 1); }
    if spelling[0] != '>' { Differs(" > ", s, 1); Differs(" >= ", s, 1); }
    if |spelling| == 1 {
      Differs(" <> ", s, 2);
      Differs(" >= ", s, 2);
      Differs(" <= ", s, 2);
    } else if |spelling| == 2 {
      Differs(" < ", s, 2);
      Differs(" > ", s, 2);
      if spelling[1] != '>' { Differs(" <> ", s, 2); }
    }
    Spelled(spelling);
  }

  lemma Spelled(spelling: string)
    requires OpOf(spelling).Some?
    ensures spelling in ["=", "<>", "!=", ">", ">=", "<", "<=", "LIKE"]
    ensures spelling == "=" ==> " " + spelling + " " == " = "
    ensures spelling == "<>" ==> " " + spelling + " " == " <> "
    ensures spelling == "!=" ==> " " + spelling + " " == " != "
    ensures spelling == ">" ==> " " + spelling + " " == " > "
    ensures spelling == ">=" ==> " " + spelling + " " == " >= "
    ensures spelling == "<" ==> " " + spelling + " " == " < "
    ensures spelling == "<=" ==> " " + spelling + " " == " <= "
    ensures spelling == "LIKE" ==> " " + spelling + " " == " LIKE "
  {
  }

  lemma ReadsMetric(m: Metric, rest: string)
    ensures ReadMetric(" " + MetricText(m) + " " + rest) == Some(Parsed(m, rest))
  {
    var s := " " + MetricText(m) + " " + rest;
    Behind(" " + MetricText(m) + " ", rest);
    match m {
      case L2 => assert " " + MetricText(m) + " " == " <-> ";
      case Cosine =>
        assert " " + MetricText(m) + " " == " <=> ";
        Differs(" <-> ", s, 2);
      case InnerProduct =>
        assert " " + MetricText(m) + " " == " <#> ";
        Differs(" <-> ", s, 2);
        Differs(" <=> ", s, 2);
    }
  }

  /** A comparison is none of the other tests. */
  lemma OnlyCompares(spelling: string, t: string)
    requires OpOf(spelling).Some? && |t| > 0 && t[0] == '$'
    ensures var s := " " + spelling + " " + t;
      !(" IS NULL" <= s) && !(" IS NOT NULL" <= s) && !(" = TRUE" <= s) && !(" = FALSE" <= s) && !(" IN (" <= s) &&
      !(" BETWEEN " <= s)
  {
    var s := " " + spelling + " " + t;
    Spaced(spelling, t);
    Differs(" IS NULL", s, 1);
    Differs(" IS NOT NULL", s, 1);
    Differs(" IN (", s, 1);
    Differs(" BETWEEN ", s, 1);
    if spelling == "=" {
      Differs(" = TRUE", s, 3);
      Differs(" = FALSE", s, 3);
    } else {
      Differs(" = TRUE", s, 1);
      Differs(" = FALSE", s, 1);
    }
  }

  lemma ReadsCompare(column: string, spelling: string, n: nat, rest: string)
    requires OpOf(spelling).Some? && NoDigitFirst(rest)
    ensures ReadTest(column, " " + spelling + " " + (Dollar(n) + rest)) == Some(Parsed(Compare(column, spelling, n), rest))
  {
    hide OpOf, ReadOperator, ReadParam;
    OnlyCompares(spelling, Dollar(n) + rest);
    ReadsOperator(spelling, Dollar(n) + rest);
    ReadsParam(n, rest);
  }

  lemma ReadsList(column: string, ns: seq<nat>, rest: string)
    requires |ns| > 0
    ensures ReadTest(column, " IN (" + (Join(Dollars(ns), ", ") + (")" + rest))) == Some(Parsed(InList(column, ns), rest))
  {
    hide ReadParams, Join;
    ReadsParams(ns, rest);
    var t := Join(Dollars(ns), ", ") + (")" + rest);
    var s := " IN (" + t;
    Behind(" IN (", t);
    Differs(" IS NULL", s, 2);
    Differs(" IS NOT NULL", s, 2);
    Differs(" = TRUE", s, 1);
    Differs(" = FALSE", s, 1);
  }

  lemma ReadsBetween(column: string, lo: nat, hi: nat, rest: string)
    requires NoDigitFirst(rest)
    ensures ReadTest(column, " BETWEEN " + (Dollar(lo) + (" AND " + (Dollar(hi) + rest)))) == Some(Parsed(Between(column, lo, hi), rest))
  {
    hide ReadParam, Dollar;
    var t := " AND " + (Dollar(hi) + rest);
    var s := " BETWEEN " + (Dollar(lo) + t);
    ReadsParam(lo, t);
    ReadsParam(hi, rest);
    Behind(" BETWEEN ", Dollar(lo) + t);
    Behind(" AND ", Dollar(hi) + rest);
    Differs(" IS NULL", s, 1);
    Differs(" IS NOT NULL", s, 1);
    Differs(" = TRUE", s, 1);
    Differs(" = FALSE", s, 1);
    Differs(" IN (", s, 1);
  }

  lemma ReadsWords(column: string, rest: string)
    ensures ReadTest(column, " IS NULL" + rest) == Some(Parsed(IsNull(column), rest))
    ensures ReadTest(column, " IS NOT NULL" + rest) == Some(Parsed(IsNotNull(column), rest))
    ensures ReadTest(column, " = TRUE" + rest) == Some(Parsed(CompareBool(column, true), rest))
    ensures ReadTest(column, " = FALSE" + rest) == Some(Parsed(CompareBool(column, false), rest))
  {
    Behind(" IS NULL", rest);
    Behind(" IS NOT NULL", rest);
    Behind(" = TRUE", rest);
    Behind(" = FALSE", rest);
    Differs(" IS NULL", " IS NOT NULL" + rest, 5);
    Differs(" IS NULL", " = TRUE" + rest, 1);
    Differs(" IS NOT NULL", " = TRUE" + rest, 1);
    Differs(" IS NULL", " = FALSE" + rest, 1);
    Differs(" IS NOT NULL", " = FALSE" + rest, 1);
    Differs(" = TRUE", " = FALSE" + rest, 3);
  }

  predicate AboutColumn(c: Cond) {
    c.Compare? || c.CompareBool? || c.InList? || c.Between? || c.IsNull? || c.IsNotNull?
  }

  /** What stands behind the column of a condition about one column. */
  function Test(c: Cond): string
    requires AboutColumn(c)
  {
    match c
    case Compare(_, spelling, n) => " " + spelling + " " + Dollar(n)
    case CompareBool(_, b) => if b then " = TRUE" else " = FALSE"
    case InList(_, ns) => " IN (" + (Join(Dollars(ns), ", ") + ")")
    case Between(_, lo, hi) => " BETWEEN " + (Dollar(lo) + (" AND " + Dollar(hi)))
    case IsNull(_) => " IS NULL"
    case IsNotNull(_) => " IS NOT NULL"
  }

  lemma TestText(c: Cond)
    requires AboutColumn(c)
    ensures Render(CondPieces(c)) == Quoted(c.column) + Test(c)
    ensures |Test(c)| > 0 && Test(c)[0] == ' '
  {
    hide Render, Test, CondPieces;
    match c {
      case Compare(_, _, _) => CompareText(c);
      case InList(_, _) => InListText(c);
      case Between(_, _, _) => BetweenText(c);
      case _ => WordText(c);
    }
  }

  lemma CompareText(c: Cond)
    requires c.Compare?
    ensures Render(CondPieces(c)) == Quoted(c.column) + Test(c) && |Test(c)| > 0 && Test(c)[0] == ' '
  {
    hide Render, Dollar, Quoted;
    var col := Quoted(c.column);
    RenderTwo(col + " " + c.spelling + " ", c.n);
    assert col + " " + c.spelling + " " + Dollar(c.n) == col + (" " + c.spelling + " " + Dollar(c.n));
  }

  lemma InListText(c: Cond)
    requires c.InList?
    ensures Render(CondPieces(c)) == Quoted(c.column) + Test(c) && |Test(c)| > 0 && Test(c)[0] == ' '
  {
    hide Render, Join, JoinPieces, Quoted;
    var col, list := Quoted(c.column), Join(Dollars(c.ns), ", ");
    RenderParams(c.ns);
    RenderWrapped(col + " IN (", JoinPieces(ParamPieces(c.ns), ", "), ")");
    Assoc4(col, " IN (", list, ")");
  }

  lemma BetweenText(c: Cond)
    requires c.Between?
    ensures Render(CondPieces(c)) == Quoted(c.column) + Test(c) && |Test(c)| > 0 && Test(c)[0] == ' '
  {
    hide Render, Dollar, Quoted;
    var col, lo, hi := Quoted(c.column), Dollar(c.lo), Dollar(c.hi);
    RenderFour(col + " BETWEEN ", c.lo, " AND ", c.hi);
    assert col + " BETWEEN " + lo + " AND " + hi == col + (" BETWEEN " + (lo + (" AND " + hi)));
  }

  lemma WordText(c: Cond)
    requires c.CompareBool? || c.IsNull? || c.IsNotNull?
    ensures Render(CondPieces(c)) == Quoted(c.column) + Test(c) && |Test(c)| > 0 && Test(c)[0] == ' '
  {
    hide Render, Quoted;
    RenderText(Quoted(c.column) + Test(c));
  }

  lemma ReadsTest(c: Cond, rest: string)
    requires AboutColumn(c) && Readable(c) && NoDigitFirst(rest)
    ensures ReadTest(c.column, Test(c) + rest) == Some(Parsed(c, rest))
  {
    hide ReadTest, Test, OpOf, Nameable;
    match c {
      case Compare(_, _, _) => ReadsCompareTest(c, rest);
      case InList(_, _) => ReadsListTest(c, rest);
      case Between(_, _, _) => ReadsBetweenTest(c, rest);
      case _ => ReadsWordTest(c, rest);
    }
  }

  lemma ReadsCompareTest(c: Cond, rest: string)
    requires c.Compare? && OpOf(c.spelling).Some? && NoDigitFirst(rest)
    ensures ReadTest(c.column, Test(c) + rest) == Some(Parsed(c, rest))
  {
    hide ReadTest, Dollar, OpOf;
    ReadsCompare(c.column, c.spelling, c.n, rest);
    Assoc(" " + c.spelling + " ", Dollar(c.n), rest);
  }

  lemma ReadsListTest(c: Cond, rest: string)
    requires c.InList? && |c.ns| > 0
    ensures ReadTest(c.column, Test(c) + rest) == Some(Parsed(c, rest))
  {
    hide ReadTest, Join;
    ReadsList(c.column, c.ns, rest);
    assert Test(c) + rest == " IN (" + (Join(Dollars(c.ns), ", ") + (")" + rest));
  }

  lemma ReadsBetweenTest(c: Cond, rest: string)
    requires c.Between? && NoDigitFirst(rest)
    ensures ReadTest(c.column, Test(c) + rest) == Some(Parsed(c, rest))
  {
    hide ReadTest, Dollar;
    ReadsBetween(c.column, c.lo, c.hi, rest);
    assert Test(c) + rest == " BETWEEN " + (Dollar(c.lo) + (" AND " + (Dollar(c.hi) + rest)));
  }

  lemma ReadsWordTest(c: Cond, rest: string)
    requires c.CompareBool? || c.IsNull? || c.IsNotNull?
    ensures ReadTest(c.column, Test(c) + rest) == Some(Parsed(c, rest))
  {
    hide ReadTest;
    ReadsWords(c.column, rest);
  }

  /** A quoted name opens with a quote. */
  lemma QuoteFirst(column: string)
    requires Nameable(column)
    ensures |Quoted(column)| > 0 && Quoted(column)[0] == '"'
  {
    hide SqlUtils.PassedThrough;
    var parts := SqlUtils.Split(column, '.');
    QuotedByParts(column);
    assert parts[0] in parts;
    OpensWithQuote(parts, "");
    assert Join(QuoteParts(parts), ".") + "" == Join(QuoteParts(parts), ".");
  }

  lemma ReadsColumn(column: string, tail: string)
    requires Nameable(column) && |tail| > 0 && tail[0] == ' '
    ensures ReadPrim(Quoted(column) + tail) == ReadTest(column, tail)
  {
    hide Nameable, ReadTest, ReadDistance, ReadName, Quoted;
    QuoteFirst(column);
    ReadsName(column, tail);
    var s := Quoted(column) + tail;
    Differs("NOT (", s, 0);
    Differs("1 = 0", s, 0);
    Differs("(", s, 0);
  }

  lemma ReadsAbout(c: Cond, rest: string)
    requires AboutColumn(c) && Readable(c) && NoDigitFirst(rest)
    ensures ReadPrim(Render(CondPieces(c)) + rest) == Some(Parsed(c, rest))
  {
    hide ReadPrim, ReadTest, CondPieces, Render, Quoted, Test, Nameable;
    TestText(c);
    ReadsTest(c, rest);
    Assoc(Quoted(c.column), Test(c), rest);
    ReadsColumn(c.column, Test(c) + rest);
  }

  lemma ReadsNothing(rest: string)
    ensures ReadPrim(Render(CondPieces(Nothing)) + rest) == Some(Parsed(Nothing, rest))
  {
    RenderText("1 = 0");
    Behind("1 = 0", rest);
    Differs("NOT (", "1 = 0" + rest, 0);
  }

  function DistanceTail(c: Cond): string
    requires c.Distance?
  {
    " " + MetricText(c.metric) + " " + (Dollar(c.vector) + ((if c.strict then ") < " else ") <= ") + Dollar(c.threshold)))
  }

  lemma DistanceText(c: Cond)
    requires c.Distance?
    ensures Render(CondPieces(c)) == "(" + (Quoted(c.column) + DistanceTail(c))
  {
    hide Render, Dollar, Quoted;
    var col, m, close := Quoted(c.column), MetricText(c.metric), if c.strict then ") < " else ") <= ";
    RenderFour("(" + col + " " + m + " ", c.vector, close, c.threshold);
    assert "(" + col + " " + m + " " + Dollar(c.vector) + close + Dollar(c.threshold)
        == "(" + (col + (" " + m + " " + (Dollar(c.vector) + (close + Dollar(c.threshold)))));
  }

  lemma ReadsDistance(c: Cond, rest: string)
    requires c.Distance? && Readable(c) && NoDigitFirst(rest)
    ensures ReadDistance(Quoted(c.column) + DistanceTail(c) + rest) == Some(Parsed(c, rest))
  {
    hide ReadName, ReadMetric, ReadParam, Dollar, Nameable, Quoted;
    var close, t := if c.strict then ") < " else ") <= ", Dollar(c.threshold) + rest;
    var tail := " " + MetricText(c.metric) + " " + (Dollar(c.vector) + (close + t));
    assert Quoted(c.column) + DistanceTail(c) + rest == Quoted(c.column) + tail;
    ReadsName(c.column, tail);
    ReadsMetric(c.metric, Dollar(c.vector) + (close + t));
    ReadsParam(c.vector, close + t);
    Behind(close, t);
    if !c.strict { Differs(") < ", close + t, 3); }
    ReadsParam(c.threshold, rest);
  }

  lemma ReadsWholeDistance(c: Cond, rest: string)
    requires c.Distance? && Readable(c) && NoDigitFirst(rest)
    ensures ReadPrim(Render(CondPieces(c)) + rest) == Some(Parsed(c, rest))
  {
    hide Render, CondPieces, DistanceTail, Quoted, ReadDistance, Nameable;
    DistanceText(c);
    ReadsDistance(c, rest);
    var inner := Quoted(c.column) + DistanceTail(c) + rest;
    assert "(" + (Quoted(c.column) + DistanceTail(c)) + rest == "(" + inner;
    Behind("(", inner);
    Differs("NOT (", "(" + inner, 0);
    Differs("1 = 0", "(" + inner, 0);
  }

  // --------------------------------------------------- reading chains

  lemma Stops(sofar: Cond, rest: string, and: bool)
    requires !(Connective(and) <= rest)
    ensures ReadMore(sofar, rest, and) == Some(Parsed(sofar, rest))
  {
  }

  lemma GoesOn(sofar: Cond, t: string, and: bool, c: Cond, rest: string)
    requires ReadOperand(t, and) == Some(Parsed(c, rest))
    ensures ReadMore(sofar, Connective(and) + t, and) == ReadMore(Connect(sofar, c, and), rest, and)
  {
    hide ReadOperand;
    Behind(Connective(and), t);
  }

  lemma Starts(s: string, and: bool, c: Cond, rest: string)
    requires ReadOperand(s, and) == Some(Parsed(c, rest))
    ensures ReadChain(s, and) == ReadMore(c, rest, and)
  {
    hide ReadOperand, ReadMore;
  }

  /** One condition read where an operand stands. */
  lemma Operand(s: string, and: bool, c: Cond, rest: string)
    requires ReadPrim(s) == Some(Parsed(c, rest)) && (!and ==> !(" AND " <= rest))
    ensures ReadOperand(s, and) == Some(Parsed(c, rest))
  {
    hide ReadPrim, ReadMore;
    if !and {
      Stops(c, rest, true);
      AsOperand(s);
      Starts(s, true, c, rest);
    }
  }

  lemma AsOperand(s: string)
    ensures ReadOperand(s, true) == ReadPrim(s)
    ensures ReadOperand(s, false) == ReadChain(s, true)
  {
    hide ReadPrim, ReadChain;
  }

  /** A chain of one kind, read where a whole condition stands. */
  lemma WholeChain(s: string, and: bool, c: Cond, rest: string)
    requires ReadChain(s, and) == Some(Parsed(c, rest)) && !(" OR " <= rest)
    ensures ReadChain(s, false) == Some(Parsed(c, rest))
  {
    hide ReadChain, ReadMore;
    if and {
      AsOperand(s);
      Starts(s, false, c, rest);
      Stops(c, rest, false);
    }
  }

  /** Nothing that goes on a chain. */
  predicate Ends(rest: string) {
    NoDigitFirst(rest) && !(" AND " <= rest) && !(" OR " <= rest)
  }

  lemma ReadsPair(l: Cond, lt: string, r: Cond, rt: string, and: bool, rest: string)
    requires Ends(rest)
    requires ReadPrim(lt + (Connective(and) + (rt + rest))) == Some(Parsed(l, Connective(and) + (rt + rest)))
    requires ReadPrim(rt + rest) == Some(Parsed(r, rest))
    ensures ReadChain(lt + (Connective(and) + (rt + rest)), false) == Some(Parsed(Connect(l, r, and), rest))
  {
    hide ReadPrim, ReadChain, ReadOperand, ReadMore;
    var s, t := lt + (Connective(and) + (rt + rest)), rt + rest;
    if !and { Differs(" AND ", Connective(and) + t, 1); }
    Operand(s, and, l, Connective(and) + t);
    Operand(t, and, r, rest);
    GoesOn(l, t, and, r, rest);
    Starts(s, and, l, Connective(and) + t);
    Stops(Connect(l, r, and), rest, and);
    WholeChain(s, and, Connect(l, r, and), rest);
  }

  lemma InParens(inner: string, c: Cond, rest: string)
    requires ReadDistance(inner).None? && ReadChain(inner, false) == Some(Parsed(c, ")" + rest))
    ensures ReadPrim("(" + inner) == Some(Parsed(c, rest))
  {
    hide ReadDistance, ReadChain;
    Behind("(", inner);
    Behind(")", rest);
    Differs("NOT (", "(" + inner, 0);
    Differs("1 = 0", "(" + inner, 0);
  }

  lemma AfterNot(inner: string, c: Cond, rest: string)
    requires ReadChain(inner, false) == Some(Parsed(c, ")" + rest))
    ensures ReadPrim("NOT (" + inner) == Some(Parsed(Negation(c), rest))
  {
    hide ReadChain;
    Behind("NOT (", inner);
    Behind(")", rest);
  }

  /** A condition is not read as a vector distance. */
  lemma NoDistance(c: Cond, rest: string)
    requires Readable(c)
    ensures ReadDistance(Render(CondPieces(c)) + rest).None?
  {
    hide Render, CondPieces, Quoted, Test, ReadParam, Nameable, ReadName, ReadMetric;
    if AboutColumn(c) {
      TestText(c);
      NoMetric(c, rest);
      Assoc(Quoted(c.column), Test(c), rest);
      ReadsName(c.column, Test(c) + rest);
    } else {
      OtherFirst(c);
      NoName(Render(CondPieces(c)) + rest);
    }
  }

  lemma NoName(s: string)
    requires |s| > 0 && s[0] != '"'
    ensures ReadName(s).None?
  {
  }

  lemma NoMetric(c: Cond, rest: string)
    requires AboutColumn(c) && Readable(c)
    ensures ReadMetric(Test(c) + rest).None?
  {
    hide Nameable, Dollar, Join;
    var s := Test(c) + rest;
    if c.Compare? {
      OperatorIsNoMetric(c.spelling, Dollar(c.n) + rest);
      Assoc(" " + c.spelling + " ", Dollar(c.n), rest);
    } else {
      assert s[1] == Test(c)[1];
      Differs(" <-> ", s, 1);
      Differs(" <=> ", s, 1);
      Differs(" <#> ", s, 1);
    }
  }

  lemma OperatorIsNoMetric(spelling: string, t: string)
    requires OpOf(spelling).Some?
    ensures ReadMetric(" " + spelling + " " + t).None?
  {
    var s := " " + spelling + " " + t;
    Spaced(spelling, t);
    if spelling == "<=" {
      Differs(" <-> ", s, 2);
      Differs(" <=> ", s, 3);
      Differs(" <#> ", s, 2);
    } else {
      var i := if spelling[0] == '<' then 2 else 1;
      assert spelling in ["=", "<>", "!=", ">", ">=", "<", "LIKE"];
      Differs(" <-> ", s, i);
      Differs(" <=> ", s, i);
      Differs(" <#> ", s, i);
    }
  }

  lemma OtherFirst(c: Cond)
    requires !AboutColumn(c)
    ensures |Render(CondPieces(c))| > 0 && Render(CondPieces(c))[0] != '"'
  {
    hide PieceText, Render;
    var p := CondPieces(c)[0];
    assert CondPieces(c) == [p] + CondPieces(c)[1..];
    RenderCons(p, CondPieces(c)[1..]);
    LitText(p);
  }

  lemma LitText(p: Piece)
    requires p.Lit?
    ensures PieceText(p) == p.text
  {
  }

  lemma PairText(l: Cond, r: Cond, and: bool, rest: string)
    ensures Render(CondPieces(Connect(l, r, and))) + rest
         == "(" + (Render(CondPieces(l)) + (Connective(and) + (Render(CondPieces(r)) + (")" + rest))))
  {
    hide Render, CondPieces;
    var lt, rt := Render(CondPieces(l)), Render(CondPieces(r));
    ConnectedPieces(l, r, and);
    RenderLogical(CondPieces(l), Connective(and), CondPieces(r));
    Assoc6("(", lt, Connective(and), rt, ")", rest);
  }

  lemma ConnectedPieces(l: Cond, r: Cond, and: bool)
    ensures CondPieces(Connect(l, r, and))
         == [Lit("(")] + (CondPieces(l) + ([Lit(Connective(and))] + (CondPieces(r) + [Lit(")")])))
  {
    hide CondPieces;
    BothPieces(l, r);
    EitherPieces(l, r);
  }

  lemma NotText(d: Cond, rest: string)
    ensures Render(CondPieces(Negation(d))) + rest == "NOT (" + (Render(CondPieces(d)) + (")" + rest))
  {
    hide Render, CondPieces;
    NegationPieces(d);
    RenderWrapped("NOT (", CondPieces(d), ")");
    Assoc4("NOT (", Render(CondPieces(d)), ")", rest);
  }

  /** The text of a condition is read as that condition, whatever follows it but a digit. */
  lemma {:induction false} ReadsPrim(c: Cond, rest: string)
    requires Readable(c) && NoDigitFirst(rest)
    ensures ReadPrim(Render(CondPieces(c)) + rest) == Some(Parsed(c, rest))
  {
    hide ReadPrim, ReadChain, ReadDistance, Render, CondPieces, Nameable;
    match c {
      case Both(l, r) =>
        ReadsPrim(l, Connective(true) + (Render(CondPieces(r)) + (")" + rest)));
        ReadsPrim(r, ")" + rest);
        ReadsConnected(l, r, true, rest);
      case Either(l, r) =>
        ReadsPrim(l, Connective(false) + (Render(CondPieces(r)) + (")" + rest)));
        ReadsPrim(r, ")" + rest);
        ReadsConnected(l, r, false, rest);
      case Negation(d) =>
        ReadsPrim(d, ")" + rest);
        ReadsNegated(d, rest);
      case Nothing => ReadsNothing(rest);
      case Distance(_, _, _, _, _) => ReadsWholeDistance(c, rest);
      case _ => ReadsAbout(c, rest);
    }
  }

  lemma ReadsConnected(l: Cond, r: Cond, and: bool, rest: string)
    requires Readable(l)
    requires var t := Connective(and) + (Render(CondPieces(r)) + (")" + rest)); ReadPrim(Render(CondPieces(l)) + t) == Some(Parsed(l, t))
    requires ReadPrim(Render(CondPieces(r)) + (")" + rest)) == Some(Parsed(r, ")" + rest))
    ensures ReadPrim(Render(CondPieces(Connect(l, r, and))) + rest) == Some(Parsed(Connect(l, r, and), rest))
  {
    hide ReadPrim, ReadChain, ReadDistance, Render, CondPieces, Connect, Connective, Nameable;
    var lt, rt := Render(CondPieces(l)), Render(CondPieces(r));
    ReadsPair(l, lt, r, rt, and, ")" + rest);
    NoDistance(l, Connective(and) + (rt + (")" + rest)));
    InParens(lt + (Connective(and) + (rt + (")" + rest))), Connect(l, r, and), rest);
    PairText(l, r, and, rest);
  }

  lemma ReadsNegated(d: Cond, rest: string)
    requires ReadPrim(Render(CondPieces(d)) + (")" + rest)) == Some(Parsed(d, ")" + rest))
    ensures ReadPrim(Render(CondPieces(Negation(d))) + rest) == Some(Parsed(Negation(d), rest))
  {
    hide ReadPrim, ReadChain, ReadMore, ReadOperand, Render, CondPieces;
    var s := Render(CondPieces(d)) + (")" + rest);
    Differs(" AND ", ")" + rest, 0);
    Differs(" OR ", ")" + rest, 0);
    Alone(s, d, ")" + rest);
    AfterNot(s, d, rest);
    NotText(d, rest);
  }

  /** One condition is a chain of one. */
  lemma Alone(s: string, c: Cond, rest: string)
    requires ReadPrim(s) == Some(Parsed(c, rest)) && !(" AND " <= rest) && !(" OR " <= rest)
    ensures ReadChain(s, false) == Some(Parsed(c, rest))
  {
    hide ReadPrim, ReadChain, ReadMore, ReadOperand;
    Operand(s, false, c, rest);
    Starts(s, false, c, rest);
    Stops(c, rest, false);
  }
}
