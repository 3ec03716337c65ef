/** Identifier quoting, identifier validation and the `$n` to `?` conversion. */
module SqlUtils {
  import opened SqlText

  predicate IsUpper(c: char) {
    'A' <= c <= 'Z'
  }

  predicate IsLower(c: char) {
    'a' <= c <= 'z'
  }

  // ------------------------------------------------------------- quoting

  /** The longest run of characters satisfying `p`, from `i` on. */
  function SkipWhile(s: string, i: nat, p: char -> bool): (j: nat)
    requires i <= |s|
    ensures i <= j <= |s| && (forall k :: i <= k < j ==> p(s[k])) && (j < |s| ==> !p(s[j]))
    decreases |s| - i
  {
    if i < |s| && p(s[i]) then SkipWhile(s, i + 1, p) else i
  }

  /** Aggregate and function expressions such as COUNT(*) are passed through. */
  predicate IsCall(name: string) {
    var j := SkipWhile(name, 0, c => IsUpper(c) || c == '_');
    var k := SkipWhile(name, j, c => IsSpace(c));
    j > 0 && k < |name| && name[k] == '('
  }

  /** Capitals or underscores, at least one, then white space, if any, then an opening parenthesis. */
  predicate CallAt(name: string, j: nat, k: nat) {
    && 0 < j <= k < |name| && name[k] == '('
    && (forall i :: 0 <= i < j ==> 'A' <= name[i] <= 'Z' || name[i] == '_')
    && forall i :: j <= i < k ==> IsSpace(name[i])
  }

  /** What is taken for a call is exactly what begins like one. */
  lemma CallExactly(name: string)
    ensures IsCall(name) <==> exists j: nat, k: nat :: CallAt(name, j, k)
  {
    var j := SkipWhile(name, 0, c => IsUpper(c) || c == '_');
    var k := SkipWhile(name, j, c => IsSpace(c));
    if IsCall(name) {
      assert CallAt(name, j, k);
    }
    if j', k' :| CallAt(name, j', k') {
      SameRun(name, 0, j', c => IsUpper(c) || c == '_');
      SameRun(name, j', k', c => IsSpace(c));
    }
  }

  /** A run ends where its characters do. */
  lemma SameRun(s: string, i: nat, j: nat, p: char -> bool)
    requires i <= j < |s| && (forall k :: i <= k < j ==> p(s[k])) && !p(s[j])
    ensures SkipWhile(s, i, p) == j
  {
  }

  predicate PassedThrough(name: string) {
    name == "*" || name == "1" || name == "1 = 0" || IsCall(name)
  }

  function DoubleQuotes(s: string): string {
    if |s| == 0 then "" else (if s[0] == '"' then "\"\"" else [s[0]]) + DoubleQuotes(s[1..])
  }

  function QuotePart(part: string): string {
    if PassedThrough(part) then part else "\"" + DoubleQuotes(part) + "\""
  }

  function Split(s: string, sep: char): (parts: seq<string>)
    ensures |parts| > 0
    decreases |s|
  {
    if |s| == 0 then [""]
    else if s[0] == sep then [""] + Split(s[1..], sep)
    else var rest := Split(s[1..], sep); [[s[0]] + rest[0]] + rest[1..]
  }

  function QuoteIdentifier(name: string): string {
    if PassedThrough(name) then name
    else if '.' in name then
      var parts := Split(name, '.');
      Join(seq(|parts|, i requires 0 <= i < |parts| => QuotePart(parts[i])), ".")
    else QuotePart(name)
  }

  lemma {:induction false} DoubledNotShorter(s: string)
    ensures |DoubleQuotes(s)| >= |s|
  {
    if |s| > 0 { DoubledNotShorter(s[1..]); }
  }

  /** What is left without quotes is exactly three texts and what begins like a call. */
  lemma UnquotedExactly(part: string)
    ensures QuotePart(part) == part
        <==> part in {"*", "1", "1 = 0"} || exists j: nat, k: nat :: CallAt(part, j, k)
    ensures QuotePart(part) == part ==> QuoteIdentifier(part) == part
  {
    hide IsCall;
    CallExactly(part);
    DoubledNotShorter(part);
  }

  /** A character that quoting itself never writes. */
  predicate Foreign(c: char) {
    c != '"' && c != '.'
  }

  lemma {:induction false} DoubleQuotesAddsNothing(s: string, c: char)
    requires Foreign(c) && c !in s
    ensures c !in DoubleQuotes(s)
  {
    if |s| > 0 { DoubleQuotesAddsNothing(s[1..], c); }
  }

  lemma {:induction false} SplitAddsNothing(s: string, sep: char, c: char)
    requires c !in s
    ensures forall part :: part in Split(s, sep) ==> c !in part
  {
    if |s| > 0 { SplitAddsNothing(s[1..], sep, c); }
  }

  lemma {:induction false} JoinAddsNothing(ts: seq<string>, sep: string, c: char)
    requires c !in sep && forall t :: t in ts ==> c !in t
    ensures c !in Join(ts, sep)
  {
    if |ts| > 1 { JoinAddsNothing(ts[1..], sep, c); }
  }

  lemma QuotePartAddsNothing(part: string, c: char)
    requires Foreign(c) && c !in part
    ensures c !in QuotePart(part)
  {
    DoubleQuotesAddsNothing(part, c);
  }

  /** Quoting introduces no `$` and no single quote. */
  lemma QuotingAddsNothing(name: string, c: char)
    requires Foreign(c) && c !in name
    ensures c !in QuoteIdentifier(name)
  {
    if !PassedThrough(name) && '.' in name {
      var parts := Split(name, '.');
      var quoted := seq(|parts|, i requires 0 <= i < |parts| => QuotePart(parts[i]));
      SplitAddsNothing(name, '.', c);
      forall q | q in quoted ensures c !in q {
        var i :| 0 <= i < |quoted| && quoted[i] == q;
        assert parts[i] in parts;
        QuotePartAddsNothing(parts[i], c);
      }
      JoinAddsNothing(quoted, ".", c);
    } else if !PassedThrough(name) {
      QuotePartAddsNothing(name, c);
    }
  }

  lemma {:induction false} DoubledNoParam(s: string)
    requires NoParam(s)
    ensures NoParam(DoubleQuotes(s)) && (|s| > 0 ==> |DoubleQuotes(s)| > 0 && DoubleQuotes(s)[0] == s[0])
    ensures |s| == 0 ==> DoubleQuotes(s) == ""
  {
    if |s| > 0 {
      NoParamTail(s);
      DoubledNoParam(s[1..]);
      NoParamConcat(if s[0] == '"' then "\"\"" else [s[0]], DoubleQuotes(s[1..]));
    }
  }

  lemma {:induction false} SplitNoParam(s: string, sep: char)
    requires NoParam(s)
    ensures forall part :: part in Split(s, sep) ==> NoParam(part)
    ensures |Split(s, sep)[0]| > 0 ==> |s| > 0 && Split(s, sep)[0][0] == s[0]
  {
    if |s| > 0 {
      NoParamTail(s);
      SplitNoParam(s[1..], sep);
      if s[0] != sep {
        NoParamConcat([s[0]], Split(s[1..], sep)[0]);
      }
    }
  }

  lemma {:induction false} JoinNoParam(ts: seq<string>, sep: string)
    requires forall t :: t in ts ==> NoParam(t)
    requires Tame(sep) && |sep| > 0 && NoDigitFirst(sep)
    ensures NoParam(Join(ts, sep))
  {
    if |ts| > 1 {
      JoinNoParam(ts[1..], sep);
      NoParamConcat(sep, Join(ts[1..], sep));
      NoParamConcat(ts[0], sep + Join(ts[1..], sep));
    }
  }

  lemma QuotePartNoParam(part: string)
    requires NoParam(part)
    ensures NoParam(QuotePart(part))
  {
    if !PassedThrough(part) {
      DoubledNoParam(part);
      NoParamConcat("\"", DoubleQuotes(part));
      NoParamConcat("\"" + DoubleQuotes(part), "\"");
    }
  }

  /** Quoting makes no parameter of a name that holds none. */
  lemma QuotingNoParam(name: string)
    requires NoParam(name)
    ensures NoParam(QuoteIdentifier(name))
  {
    hide IsCall;
    if !PassedThrough(name) && '.' in name {
      var parts := Split(name, '.');
      var quoted := seq(|parts|, i requires 0 <= i < |parts| => QuotePart(parts[i]));
      SplitNoParam(name, '.');
      hide QuotePart;
      forall q | q in quoted ensures NoParam(q) {
        var i :| 0 <= i < |quoted| && quoted[i] == q;
        assert parts[i] in parts;
        QuotePartNoParam(parts[i]);
      }
      JoinNoParam(quoted, ".");
    } else if !PassedThrough(name) {
      QuotePartNoParam(name);
    }
  }

  // ------------------------------------------------- `$n` to `?`

  /** How many digits a text opens with. */
  function LeadingDigits(s: string): (n: nat)
    ensures n <= |s|
    ensures forall k :: 0 <= k < n ==> IsDigit(s[k])
    ensures n < |s| ==> !IsDigit(s[n])
  {
    if |s| > 0 && IsDigit(s[0]) then 1 + LeadingDigits(s[1..]) else 0
  }

  predicate OpensParameter(s: string) {
    |s| > 1 && s[0] == '$' && IsDigit(s[1])
  }

  predicate OpensDoubledQuote(s: string) {
    |s| > 1 && s[0] == '\'' && s[1] == '\''
  }

  /** Converting text that starts outside string literals. */
  function Outside(s: string): string {
    if |s| == 0 then ""
    else if s[0] == '\'' then "'" + Inside(s[1..])
    else if OpensParameter(s) then "?" + Outside(s[1 + LeadingDigits(s[1..])..])
    else [s[0]] + Outside(s[1..])
  }

  /** Converting text that starts inside a string literal. */
  function Inside(s: string): string {
    if |s| == 0 then ""
    else if OpensDoubledQuote(s) then "''" + Inside(s[2..])
    else if s[0] == '\'' then "'" + Outside(s[1..])
    else [s[0]] + Inside(s[1..])
  }

  lemma Suffix(s: string, i: nat, k: nat)
    requires i + k <= |s|
    ensures s[i..][k..] == s[i + k..]
    ensures forall j :: 0 <= j < |s| - i ==> s[i..][j] == s[i + j]
  {
  }

  lemma OutsideStep(s: string)
    requires |s| > 0
    ensures s[0] == '\'' ==> Outside(s) == "'" + Inside(s[1..])
    ensures OpensParameter(s) ==> Outside(s) == "?" + Outside(s[1 + LeadingDigits(s[1..])..])
    ensures s[0] != '\'' && !OpensParameter(s) ==> Outside(s) == [s[0]] + Outside(s[1..])
  {
  }

  lemma InsideStep(sql: string, i: nat)
    requires i < |sql|
    ensures sql[i] == '\'' && i + 1 < |sql| && sql[i + 1] == '\'' ==> Inside(sql[i..]) == "''" + Inside(sql[i + 2..])
    ensures sql[i] == '\'' && !(i + 1 < |sql| && sql[i + 1] == '\'') ==> Inside(sql[i..]) == "'" + Outside(sql[i + 1..])
    ensures sql[i] != '\'' ==> Inside(sql[i..]) == [sql[i]] + Inside(sql[i + 1..])
  {
    Suffix(sql, i, 1);
    if i + 1 < |sql| { Suffix(sql, i, 2); }
  }

  lemma NothingOutside()
    ensures Outside("") == "" && Inside("") == ""
  {
  }

  /** The inner loop over a string literal, from just after its opening quote to just after its closing one. */
  method CopyLiteral(sql: string, start: nat) returns (copied: string, i: nat)
    requires start <= |sql|
    ensures start <= i <= |sql|
    ensures copied + Outside(sql[i..]) == Inside(sql[start..])
  {
    hide Outside, Inside;
    copied, i := "", start;
    while i < |sql|
      invariant start <= i <= |sql|
      invariant copied + Inside(sql[i..]) == Inside(sql[start..])
    {
      InsideStep(sql, i);
      if sql[i] == '\'' && i + 1 < |sql| && sql[i + 1] == '\'' {
        Assoc(copied, "''", Inside(sql[i + 2..]));
        copied := copied + "''";
        i := i + 2;
      } else if sql[i] == '\'' {
        Assoc(copied, "'", Outside(sql[i + 1..]));
        copied := copied + "'";
        i := i + 1;
        return;
      } else {
        Assoc(copied, [sql[i]], Inside(sql[i + 1..]));
        copied := copied + [sql[i]];
        i := i + 1;
      }
    }
    assert sql[i..] == "";
    NothingOutside();
  }

  /** The inner loop over the digits of a parameter. */
  method SkipDigits(sql: string, start: nat) returns (i: nat)
    requires start <= |sql|
    ensures i == start + LeadingDigits(sql[start..])
  {
    i := start;
    while i < |sql| && IsDigit(sql[i])
      invariant start <= i <= |sql|
      invariant i + LeadingDigits(sql[i..]) == start + LeadingDigits(sql[start..])
    {
      Suffix(sql, i, 1);
      i := i + 1;
    }
  }

  /** The character loop. */
  method ConvertPositionalParams(sql: string) returns (result: string)
    ensures result == Outside(sql)
  {
    hide Outside, Inside, LeadingDigits;
    result := "";
    var i := 0;
    assert sql[0..] == sql;
    NothingOutside();
    while i < |sql|
      invariant i <= |sql|
      invariant result + Outside(sql[i..]) == Outside(sql)
    {
      OutsideStep(sql[i..]);
      Suffix(sql, i, 1);
      if sql[i] == '\'' {
        var copied, j := CopyLiteral(sql, i + 1);
        Assoc("'", copied, Outside(sql[j..]));
        Assoc(result, "'" + copied, Outside(sql[j..]));
        result := result + ("'" + copied);
        i := j;
      } else if sql[i] == '$' && i + 1 < |sql| && IsDigit(sql[i + 1]) {
        var j := SkipDigits(sql, i + 1);
        Suffix(sql, i, j - i);
        Assoc(result, "?", Outside(sql[j..]));
        result := result + "?";
        i := j;
      } else {
        Assoc(result, [sql[i]], Outside(sql[i + 1..]));
        result := result + [sql[i]];
        i := i + 1;
      }
    }
    assert sql[i..] == "";
  }

  /** SQL text as a reader sees it: code, string literals and parameters. */
  datatype Segment = Code(text: string) | Literal(body: string) | Parameter(n: nat)

  function DoubleSingles(s: string): string {
    if |s| == 0 then "" else (if s[0] == '\'' then "''" else [s[0]]) + DoubleSingles(s[1..])
  }

  function SegmentText(seg: Segment): string {
    match seg
    case Code(t) => t
    case Literal(b) => "'" + (DoubleSingles(b) + "'")
    case Parameter(n) => "$" + Decimal(n)
  }

  function SegmentsText(segs: seq<Segment>): string {
    if |segs| == 0 then "" else SegmentText(segs[0]) + SegmentsText(segs[1..])
  }

  /** The same text with every parameter replaced by a question mark and nothing else changed. */
  function QuestionText(segs: seq<Segment>): string {
    if |segs| == 0 then ""
    else (if segs[0].Parameter? then "?" else SegmentText(segs[0])) + QuestionText(segs[1..])
  }

  /** Code holds no quote and no `$`; a literal is not followed by a quote, nor a parameter by a digit. */
  predicate WellSeparated(segs: seq<Segment>) {
    |segs| > 0 ==>
      var rest := SegmentsText(segs[1..]);
      && WellSeparated(segs[1..])
      && match segs[0]
         case Code(t) => '\'' !in t && '$' !in t
         case Literal(_) => |rest| > 0 ==> rest[0] != '\''
         case Parameter(_) => |rest| > 0 ==> !IsDigit(rest[0])
  }

  lemma OutsideCopies(c: char, rest: string)
    requires c != '\'' && c != '$'
    ensures Outside([c] + rest) == [c] + Outside(rest)
  {
    assert ([c] + rest)[1..] == rest;
  }

  lemma {:induction false} CodePasses(t: string, rest: string)
    requires '\'' !in t && '$' !in t
    ensures Outside(t + rest) == t + Outside(rest)
  {
    if t == "" {
      assert t + rest == rest;
    } else {
      CodePasses(t[1..], rest);
      assert t + rest == [t[0]] + (t[1..] + rest);
      OutsideCopies(t[0], t[1..] + rest);
      Assoc([t[0]], t[1..], Outside(rest));
      assert t == [t[0]] + t[1..];
    }
  }

  lemma InsideCopies(head: string, rest: string)
    requires head == "''" || (|head| == 1 && head[0] != '\'')
    ensures Inside(head + rest) == head + Inside(rest)
  {
    assert (head + rest)[|head|..] == rest;
  }

  lemma {:induction false} BodyPasses(body: string, rest: string)
    requires |rest| > 0 ==> rest[0] != '\''
    ensures Inside(DoubleSingles(body) + ("'" + rest)) == DoubleSingles(body) + ("'" + Outside(rest))
  {
    if body == "" {
      var s := DoubleSingles(body) + ("'" + rest);
      assert s == "'" + rest && s[1..] == rest;
    } else {
      var head, tail := if body[0] == '\'' then "''" else [body[0]], DoubleSingles(body[1..]);
      BodyPasses(body[1..], rest);
      Assoc(head, tail, "'" + rest);
      InsideCopies(head, tail + ("'" + rest));
      Assoc(head, tail, "'" + Outside(rest));
    }
  }

  lemma ParameterConverts(n: nat, rest: string)
    requires |rest| > 0 ==> !IsDigit(rest[0])
    ensures Outside("$" + Decimal(n) + rest) == "?" + Outside(rest)
  {
    hide Decimal, LeadingDigits;
    var d := Decimal(n);
    var s := "$" + d + rest;
    assert s[1] == d[0] && s[1..] == d + rest;
    DigitsStop(d, rest);
    assert s[1 + |d|..] == rest;
  }

  lemma DigitsStop(d: string, rest: string)
    requires (forall k :: 0 <= k < |d| ==> IsDigit(d[k])) && (|rest| > 0 ==> !IsDigit(rest[0]))
    ensures LeadingDigits(d + rest) == |d|
  {
    var s := d + rest;
    assert forall k :: 0 <= k < |d| ==> s[k] == d[k];
    assert |d| < |s| ==> s[|d|] == rest[0];
  }

  lemma LiteralPasses(body: string, rest: string)
    requires |rest| > 0 ==> rest[0] != '\''
    ensures Outside(SegmentText(Literal(body)) + rest) == SegmentText(Literal(body)) + Outside(rest)
  {
    hide DoubleSingles, Inside;
    var q := DoubleSingles(body);
    BodyPasses(body, rest);
    Requote(q, rest);
    Requote(q, Outside(rest));
    OpenQuote(q + ("'" + rest));
  }

  lemma OpenQuote(s: string)
    ensures Outside("'" + s) == "'" + Inside(s)
  {
    assert ("'" + s)[1..] == s;
  }

  lemma Requote(q: string, rest: string)
    ensures "'" + (q + "'") + rest == "'" + (q + ("'" + rest))
  {
    Assoc(q, "'", rest);
    Assoc("'", q + "'", rest);
  }

  /**
   * Outside string literals every parameter becomes a question mark; string
   * literals, doubled quotes included, and all other text are left unchanged.
   */
  lemma {:induction false} ConvertsSegments(segs: seq<Segment>)
    requires WellSeparated(segs)
    ensures Outside(SegmentsText(segs)) == QuestionText(segs)
  {
    hide Outside, DoubleSingles;
    if |segs| > 0 {
      var rest := SegmentsText(segs[1..]);
      ConvertsSegments(segs[1..]);
      match segs[0] {
        case Code(t) => CodePasses(t, rest);
        case Literal(b) => LiteralPasses(b, rest);
        case Parameter(n) => ParameterConverts(n, rest);
      }
    } else {
      EmptyConverts();
    }
  }

  lemma EmptyConverts()
    ensures Outside("") == ""
  {
  }
}
