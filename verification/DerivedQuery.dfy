/** Derived query descriptors, entity metadata and call arguments. */
module DerivedQuery {
  import opened Options
  import opened SqlCondition
  import opened SqlText

  datatype Operator =
    | Equals | Like | StartingWith | EndingWith | Containing
    | GreaterThan | GreaterThanEqual | LessThan | LessThanEqual
    | Between | In | NotIn | IsNull | IsNotNull | Not | True | False | SimilarTo

  datatype PropertyExpression = PropertyExpression(property: string, operator: Operator, paramCount: nat)

  datatype OrderBy = OrderBy(property: string, descending: bool)

  datatype Action = Find | Count | Delete | Exists

  datatype Connector = AllOf | AnyOf

  datatype Descriptor = Descriptor(
    action: Action, distinct: bool, properties: seq<PropertyExpression>, connector: Connector,
    orderBy: seq<OrderBy>, limit: Option<nat>)

  /** How many arguments an operator takes. */
  function ParamCount(op: Operator): nat {
    match op
    case Between => 2
    case IsNull => 0
    case IsNotNull => 0
    case True => 0
    case False => 0
    case _ => 1
  }

  datatype FieldMapping = FieldMapping(fieldName: string, columnName: string)

  datatype Metadata = Metadata(tableName: string, fields: seq<FieldMapping>, idField: string)

  function FindField(fields: seq<FieldMapping>, name: string): Option<string> {
    if |fields| == 0 then None
    else if fields[0].fieldName == name then Some(fields[0].columnName)
    else FindField(fields[1..], name)
  }

  /** The column of a property; None where the code throws. */
  function ResolveColumn(property: string, m: Metadata): Option<string> {
    var field := FindField(m.fields, property);
    if field.Some? then field
    else if m.idField == property then FindField(m.fields, m.idField)
    else None
  }

  /** The first field of the name. */
  predicate FirstNamed(fields: seq<FieldMapping>, name: string, i: nat) {
    i < |fields| && fields[i].fieldName == name && forall j :: 0 <= j < i ==> fields[j].fieldName != name
  }

  lemma {:induction false} FindFieldExactly(fields: seq<FieldMapping>, name: string)
    ensures match FindField(fields, name)
      case Some(column) => exists i :: 0 <= i < |fields| && FirstNamed(fields, name, i) && fields[i].columnName == column
      case None => forall i :: 0 <= i < |fields| ==> fields[i].fieldName != name
  {
    if |fields| > 0 && fields[0].fieldName != name {
      FindFieldExactly(fields[1..], name);
      if FindField(fields[1..], name).Some? {
        var i :| 0 <= i < |fields[1..]| && FirstNamed(fields[1..], name, i) && fields[1..][i].columnName == FindField(fields, name).value;
        assert forall j :: 1 <= j < |fields| ==> fields[j] == fields[1..][j - 1];
        assert FirstNamed(fields, name, i + 1);
      } else {
        assert forall j :: 1 <= j < |fields| ==> fields[j] == fields[1..][j - 1];
      }
    } else if |fields| > 0 {
      assert FirstNamed(fields, name, 0);
    }
  }

  /** A property is the column of the first field of its name; the branch for the id field finds nothing more. */
  lemma ResolvesExactly(property: string, m: Metadata)
    ensures match ResolveColumn(property, m)
      case Some(column) => exists i :: 0 <= i < |m.fields| && FirstNamed(m.fields, property, i) && m.fields[i].columnName == column
      case None => forall i :: 0 <= i < |m.fields| ==> m.fields[i].fieldName != property
  {
    FindFieldExactly(m.fields, property);
    FindFieldExactly(m.fields, m.idField);
  }

  /** Reading past the end of the argument list gives undefined. */
  function ArgAt(args: seq<Value>, i: nat): Value {
    if i < |args| then args[i] else Undefined
  }

  // ---------------------------------------------------- LIKE escaping

  function ReplaceChar(s: string, c: char, t: string): string {
    if |s| == 0 then "" else (if s[0] == c then t else [s[0]]) + ReplaceChar(s[1..], c, t)
  }

  /** JavaScript's String(value). */
  function StringOf(v: Value): string {
    match v
    case Null => "null"
    case Undefined => "undefined"
    case Bool(b) => if b then "true" else "false"
    case Num(numeral) => numeral
    case Text(s) => s
    case List(vs) => Join(seq(|vs|, i requires 0 <= i < |vs| =>
      if vs[i].Null? || vs[i].Undefined? then "" else StringOf(vs[i])), ",")
  }

  /** The three successive replacements: backslash, percent, underscore. */
  function EscapeLike(s: string): string {
    ReplaceChar(ReplaceChar(ReplaceChar(s, '\\', "\\\\"), '%', "\\%"), '_', "\\_")
  }

  function EscapeLikeValue(v: Value): string {
    EscapeLike(StringOf(v))
  }

  /** SQL LIKE with backslash as the escape character. */
  predicate LikeMatches(pattern: string, text: string)
    decreases |pattern| + |text|
  {
    if |pattern| == 0 then text == ""
    else if pattern[0] == '%' then LikeMatches(pattern[1..], text) || (|text| > 0 && LikeMatches(pattern, text[1..]))
    else if |text| == 0 then false
    else if pattern[0] == '\\' && |pattern| > 1 then pattern[1] == text[0] && LikeMatches(pattern[2..], text[1..])
    else (pattern[0] == '_' || pattern[0] == text[0]) && LikeMatches(pattern[1..], text[1..])
  }

  /** One escaped character. */
  function EscapedChar(c: char): string {
    if c == '\\' then "\\\\" else if c == '%' then "\\%" else if c == '_' then "\\_" else [c]
  }

  lemma ReplaceCharConcat(a: string, b: string, c: char, t: string)
    ensures ReplaceChar(a + b, c, t) == ReplaceChar(a, c, t) + ReplaceChar(b, c, t)
  {
    if a == "" {
      assert a + b == b;
    } else {
      ReplaceCharConcat(a[1..], b, c, t);
      assert (a + b)[1..] == a[1..] + b;
      Assoc(if a[0] == c then t else [a[0]], ReplaceChar(a[1..], c, t), ReplaceChar(b, c, t));
    }
  }

  lemma ReplaceOne(x: char, c: char, t: string)
    ensures ReplaceChar([x], c, t) == if x == c then t else [x]
  {
    assert [x][1..] == "";
  }

  lemma EscapeOne(c: char)
    ensures EscapeLike([c]) == EscapedChar(c)
  {
    ReplaceOne(c, '\\', "\\\\");
    if c == '\\' {
      assert "\\\\" == "\\" + "\\";
      ReplaceOne('\\', '%', "\\%");
      ReplaceOne('\\', '_', "\\_");
      ReplaceCharConcat("\\", "\\", '%', "\\%");
      ReplaceCharConcat("\\", "\\", '_', "\\_");
    } else {
      ReplaceOne(c, '%', "\\%");
      if c == '%' {
        assert "\\%" == "\\" + "%";
        ReplaceOne('\\', '_', "\\_");
        ReplaceOne('%', '_', "\\_");
        ReplaceCharConcat("\\", "%", '_', "\\_");
      } else {
        ReplaceOne(c, '_', "\\_");
      }
    }
  }

  lemma EscapeConcat(a: string, b: string)
    ensures EscapeLike(a + b) == EscapeLike(a) + EscapeLike(b)
  {
    ReplaceCharConcat(a, b, '\\', "\\\\");
    ReplaceCharConcat(ReplaceChar(a, '\\', "\\\\"), ReplaceChar(b, '\\', "\\\\"), '%', "\\%");
    ReplaceCharConcat(ReplaceChar(ReplaceChar(a, '\\', "\\\\"), '%', "\\%"),
                      ReplaceChar(ReplaceChar(b, '\\', "\\\\"), '%', "\\%"), '_', "\\_");
  }

  /** An escaped value at the front of a pattern matches itself and nothing else. */
  lemma {:induction false} EscapedMatchesItself(v: string, pattern: string, text: string)
    ensures LikeMatches(EscapeLike(v) + pattern, text) <==> v <= text && LikeMatches(pattern, text[|v|..])
  {
    hide EscapeLike;
    if v == "" {
      EmptyEscape();
      assert EscapeLike(v) + pattern == pattern && text[0..] == text;
    } else {
      var e, rest := EscapedChar(v[0]), EscapeLike(v[1..]) + pattern;
      assert v == [v[0]] + v[1..];
      EscapeConcat([v[0]], v[1..]);
      EscapeOne(v[0]);
      assert EscapeLike(v) + pattern == e + rest;
      EscapedCharMatches(v[0], rest, text);
      if |text| > 0 {
        EscapedMatchesItself(v[1..], pattern, text[1..]);
        assert v <= text <==> v[0] == text[0] && v[1..] <= text[1..];
        assert v <= text ==> text[1..][|v| - 1..] == text[|v|..];
      }
    }
  }

  lemma EmptyEscape()
    ensures EscapeLike("") == ""
  {
  }

  lemma EscapedCharMatches(c: char, rest: string, text: string)
    ensures LikeMatches(EscapedChar(c) + rest, text) <==> |text| > 0 && text[0] == c && LikeMatches(rest, text[1..])
  {
    var p := EscapedChar(c) + rest;
    assert p[|EscapedChar(c)|..] == rest;
  }

  /** `StartingWith`: the escaped value followed by % matches exactly the texts that start with the value. */
  lemma StartingWithIsPrefix(v: string, text: string)
    ensures LikeMatches(EscapeLike(v) + "%", text) <==> v <= text
  {
    EscapedMatchesItself(v, "%", text);
    if v <= text { PercentMatchesAll(text[|v|..]); }
  }

  lemma {:induction false} PercentMatchesAll(text: string)
    ensures LikeMatches("%", text)
  {
    assert "%"[1..] == "";
    if text != "" { PercentMatchesAll(text[1..]); }
  }

  /** A leading % matches at some suffix. */
  lemma {:induction false} LeadingPercent(pattern: string, text: string)
    ensures LikeMatches("%" + pattern, text) <==> exists i :: 0 <= i <= |text| && LikeMatches(pattern, text[i..])
  {
    assert ("%" + pattern)[1..] == pattern && text[0..] == text;
    if text != "" {
      LeadingPercent(pattern, text[1..]);
      assert forall i :: 0 <= i <= |text| - 1 ==> text[1..][i..] == text[i + 1..];
      forall i | 1 <= i <= |text| ensures text[i..] == text[1..][i - 1..] {}
    }
  }

  /** `Containing`: matches exactly the texts in which the value occurs. */
  lemma ContainingIsSubstring(v: string, text: string)
    ensures LikeMatches("%" + (EscapeLike(v) + "%"), text) <==> exists i :: 0 <= i <= |text| && v <= text[i..]
  {
    LeadingPercent(EscapeLike(v) + "%", text);
    forall i | 0 <= i <= |text| ensures LikeMatches(EscapeLike(v) + "%", text[i..]) <==> v <= text[i..] {
      StartingWithIsPrefix(v, text[i..]);
    }
  }

  /** `EndingWith`: matches exactly the texts that end with the value. */
  lemma EndingWithIsSuffix(v: string, text: string)
    ensures LikeMatches("%" + EscapeLike(v), text) <==> |v| <= |text| && text[|text| - |v|..] == v
  {
    LeadingPercent(EscapeLike(v), text);
    forall i | 0 <= i <= |text| ensures LikeMatches(EscapeLike(v), text[i..]) <==> text[i..] == v {
      EscapedMatchesItself(v, "", text[i..]);
      assert EscapeLike(v) + "" == EscapeLike(v);
    }
  }

  /** What a prefix, suffix or substring search looks for when it is not given a text. */
  lemma SearchedFor(v: Value, text: string)
    ensures LikeMatches(EscapeLikeValue(v) + "%", text) <==>
      match v
      case Text(s) => s <= text
      case Num(numeral) => numeral <= text
      case Bool(b) => if b then "true" <= text else "false" <= text
      case Null => "null" <= text
      case Undefined => "undefined" <= text
      case List(vs) => Join(ElementStrings(vs), ",") <= text
  {
    StartingWithIsPrefix(StringOf(v), text);
  }

  /** The elements of a list, nothing for null and undefined. */
  function ElementStrings(vs: seq<Value>): seq<string> {
    seq(|vs|, i requires 0 <= i < |vs| => if vs[i].Null? || vs[i].Undefined? then "" else StringOf(vs[i]))
  }
}
