/** How column types are compared: aliases, letter case and lengths do not matter. */
module SqlTypes {
  import opened Options
  import opened SqlText

  function LowerChar(c: char): char {
    if 'A' <= c <= 'Z' then c - 'A' + 'a' else c
  }

  function Lower(s: string): (t: string)
    ensures |t| == |s|
    ensures forall i :: 0 <= i < |s| ==> t[i] == LowerChar(s[i])
  {
    seq(|s|, i requires 0 <= i < |s| => LowerChar(s[i]))
  }

  function TrimStart(s: string): string {
    if |s| > 0 && IsSpace(s[0]) then TrimStart(s[1..]) else s
  }

  function TrimEnd(s: string): string {
    if |s| > 0 && IsSpace(s[|s| - 1]) then TrimEnd(s[..|s| - 1]) else s
  }

  function Trim(s: string): string {
    TrimEnd(TrimStart(s))
  }

  /** The first position of a character; the length where there is none. */
  function FirstOf(s: string, c: char): (i: nat)
    ensures i <= |s| && (i < |s| ==> s[i] == c) && forall j :: 0 <= j < i ==> s[j] != c
  {
    if |s| == 0 || s[0] == c then 0 else 1 + FirstOf(s[1..], c)
  }

  /** One after the last position of a character; zero where there is none. */
  function AfterLast(s: string, c: char): (i: nat)
    ensures i <= |s| && (i > 0 ==> s[i - 1] == c) && forall j :: i <= j < |s| ==> s[j] != c
  {
    if |s| == 0 || s[|s| - 1] == c then |s| else AfterLast(s[..|s| - 1], c)
  }

  /** Takes out the part from the first opening to the last closing parenthesis. */
  function WithoutLength(s: string): string {
    var from, to := FirstOf(s, '('), AfterLast(s, ')');
    if from < to then s[..from] + s[to..] else s
  }

  function Alias(base: string): string {
    if base == "int" || base == "int4" || base == "serial" then "integer"
    else if base == "int8" || base == "bigserial" then "bigint"
    else if base == "int2" || base == "smallserial" then "smallint"
    else if base == "float4" then "real"
    else if base == "float8" || base == "double" then "double precision"
    else if base == "bool" then "boolean"
    else if base == "varchar" then "character varying"
    else if base == "char" then "character"
    else if base == "timestamptz" then "timestamp with time zone"
    else base
  }

  function BaseType(t: string): string {
    Trim(WithoutLength(Trim(Lower(t))))
  }

  function NormalizeType(t: string): string {
    Alias(BaseType(t))
  }

  // --------------------------------------------- normal forms are fixed

  predicate NoLength(s: string) {
    forall i, j :: 0 <= i < j < |s| ==> !(s[i] == '(' && s[j] == ')')
  }

  predicate LowerCase(s: string) {
    forall i :: 0 <= i < |s| ==> LowerChar(s[i]) == s[i]
  }

  predicate NoSpaceAtEnds(s: string) {
    |s| > 0 ==> !IsSpace(s[0]) && !IsSpace(s[|s| - 1])
  }

  predicate Plain(s: string) {
    LowerCase(s) && NoSpaceAtEnds(s) && NoLength(s)
  }

  lemma PlainIsBase(s: string)
    requires Plain(s)
    ensures BaseType(s) == s
  {
    assert Lower(s) == s;
    NothingToCut(s);
  }

  lemma NothingToCut(s: string)
    requires NoLength(s)
    ensures FirstOf(s, '(') >= AfterLast(s, ')')
  {
  }

  lemma {:induction false} TrimmedStart(s: string)
    ensures exists k :: 0 <= k <= |s| && TrimStart(s) == s[k..]
    ensures |TrimStart(s)| > 0 ==> !IsSpace(TrimStart(s)[0])
  {
    if |s| > 0 && IsSpace(s[0]) {
      TrimmedStart(s[1..]);
      var k :| 0 <= k <= |s[1..]| && TrimStart(s[1..]) == s[1..][k..];
      assert s[1..][k..] == s[k + 1..];
    } else {
      assert s[0..] == s;
    }
  }

  lemma {:induction false} TrimmedEnd(s: string)
    ensures TrimEnd(s) <= s
    ensures |TrimEnd(s)| > 0 ==> !IsSpace(TrimEnd(s)[|TrimEnd(s)| - 1])
  {
    if |s| > 0 && IsSpace(s[|s| - 1]) {
      TrimmedEnd(s[..|s| - 1]);
    }
  }

  /** Trimming takes a middle part. */
  lemma Trimmed(s: string) returns (k: nat)
    ensures k + |Trim(s)| <= |s| && Trim(s) == s[k..k + |Trim(s)|] && NoSpaceAtEnds(Trim(s))
  {
    TrimmedStart(s);
    TrimmedEnd(TrimStart(s));
    k :| 0 <= k <= |s| && TrimStart(s) == s[k..];
    assert Trim(s) == s[k..][..|Trim(s)|];
  }

  lemma TrimKeeps(s: string)
    ensures LowerCase(s) ==> LowerCase(Trim(s))
    ensures NoLength(s) ==> NoLength(Trim(s))
  {
    hide Trim;
    var k := Trimmed(s);
    var t := Trim(s);
    assert forall i :: 0 <= i < |t| ==> t[i] == s[k + i];
  }

  lemma CutLeavesNoLength(s: string)
    ensures NoLength(WithoutLength(s)) && (LowerCase(s) ==> LowerCase(WithoutLength(s)))
  {
    var from, to := FirstOf(s, '('), AfterLast(s, ')');
    assert from >= to ==> NoLength(s);
  }

  lemma BaseIsPlain(t: string)
    ensures Plain(BaseType(t))
  {
    hide Trim, NoLength, NoSpaceAtEnds, WithoutLength;
    var inner := Trim(Lower(t));
    TrimKeeps(Lower(t));
    CutLeavesNoLength(inner);
    TrimKeeps(WithoutLength(inner));
    var k := Trimmed(WithoutLength(inner));
  }

  /** Comparing normalised types is the same whichever alias one starts from. */
  lemma NormalizeTwice(t: string)
    ensures NormalizeType(NormalizeType(t)) == NormalizeType(t)
  {
    hide BaseType;
    BaseIsPlain(t);
    hide Plain;
    AliasTargets(BaseType(t));
    PlainIsBase(Alias(BaseType(t)));
  }

  lemma AliasTargets(base: string)
    requires Plain(base)
    ensures Plain(Alias(base)) && Alias(Alias(base)) == Alias(base)
  {
    hide Plain;
    PlainNumbers();
    PlainOthers();
    PlainLongNames();
    FixedNumbers();
    FixedOthers();
    FixedLongNames();
    assert Alias(base) in {"integer", "bigint", "smallint", "real", "double precision",
                           "boolean", "character varying", "character", "timestamp with time zone", base};
  }

  lemma PlainNumbers()
    ensures Plain("integer") && Plain("bigint") && Plain("smallint") && Plain("real")
  {
  }

  lemma PlainOthers()
    ensures Plain("boolean") && Plain("character") && Plain("double precision")
  {
  }

  lemma PlainLongNames()
    ensures Plain("character varying") && Plain("timestamp with time zone")
  {
  }

  lemma FixedNumbers()
    ensures Alias("integer") == "integer" && Alias("bigint") == "bigint" && Alias("smallint") == "smallint" && Alias("real") == "real"
  {
  }

  lemma FixedOthers()
    ensures Alias("boolean") == "boolean" && Alias("character") == "character" && Alias("double precision") == "double precision"
  {
  }

  lemma FixedLongNames()
    ensures Alias("character varying") == "character varying"
    ensures Alias("timestamp with time zone") == "timestamp with time zone"
  {
  }

  /** A database that reports `timestamp` by its full name reports another type. */
  lemma TimestampDiffers()
    ensures NormalizeType("timestamp") != NormalizeType("timestamp without time zone")
  {
    hide BaseType;
    FullNames();
    PlainIsBase("timestamp");
    PlainIsBase("timestamp without time zone");
    hide Plain;
    assert Alias("timestamp") == "timestamp";
  }

  lemma FullNames()
    ensures Plain("timestamp") && Plain("timestamp without time zone")
    ensures Alias("timestamp without time zone") == "timestamp without time zone"
  {
    assert Alias("timestamp without time zone") == "timestamp without time zone" by { hide Plain; }
    hide Alias;
  }
}
