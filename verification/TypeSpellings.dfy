/** Which spellings of a column type are the same type, and what type a field without one gets. */
module TypeSpellings {
  import opened Options
  import SqlText
  import opened SqlTypes
  import opened DdlGenerator
  import SchemaDiff

  /** The types with several names, each with all its names. */
  function Names(): (names: seq<seq<string>>)
    ensures |names| == 9
  {
    [["integer", "int", "int4", "serial"],
     ["bigint", "int8", "bigserial"],
     ["smallint", "int2", "smallserial"],
     ["real", "float4"],
     ["double precision", "float8", "double"],
     ["boolean", "bool"],
     ["character varying", "varchar"],
     ["character", "char"],
     ["timestamp with time zone", "timestamptz"]]
  }

  predicate NamesOfOne(a: string, b: string) {
    exists k :: 0 <= k < |Names()| && a in Names()[k] && b in Names()[k]
  }

  lemma NumberNames(s: string)
    ensures Alias(s) == "integer" <==> s in Names()[0]
    ensures Alias(s) == "bigint" <==> s in Names()[1]
    ensures Alias(s) == "smallint" <==> s in Names()[2]
  {
  }

  lemma RealNames(s: string)
    ensures Alias(s) == "real" <==> s in Names()[3]
    ensures Alias(s) == "double precision" <==> s in Names()[4]
    ensures Alias(s) == "boolean" <==> s in Names()[5]
  {
  }

  lemma TextNames(s: string)
    ensures Alias(s) == "character varying" <==> s in Names()[6]
    ensures Alias(s) == "character" <==> s in Names()[7]
    ensures Alias(s) == "timestamp with time zone" <==> s in Names()[8]
  {
  }

  /** The name that stands for all names of a type. */
  function Canonical(k: nat): string
    requires k < 9
  {
    ["integer", "bigint", "smallint", "real", "double precision", "boolean", "character varying", "character",
     "timestamp with time zone"][k]
  }

  lemma Stands(s: string, k: nat)
    requires k < 9
    ensures Alias(s) == Canonical(k) <==> s in Names()[k]
  {
    if k < 3 { NumberNames(s); } else if k < 6 { RealNames(s); } else { TextNames(s); }
    hide Alias;
    assert k in [0, 1, 2, 3, 4, 5, 6, 7, 8];
  }

  lemma ItselfOrStands(s: string)
    ensures Alias(s) == s || exists k: nat :: k < 9 && Alias(s) == Canonical(k)
  {
    var t := Alias(s);
    assert t == s || t == Canonical(0) || t == Canonical(1) || t == Canonical(2) || t == Canonical(3) || t == Canonical(4)
        || t == Canonical(5) || t == Canonical(6) || t == Canonical(7) || t == Canonical(8);
  }

  lemma SameAlias(a: string, b: string)
    ensures Alias(a) == Alias(b) <==> a == b || NamesOfOne(a, b)
  {
    hide Alias, Names, Canonical;
    ItselfOrStands(a);
    ItselfOrStands(b);
    forall k: nat | k < 9
      ensures Alias(a) == Canonical(k) <==> a in Names()[k]
      ensures Alias(b) == Canonical(k) <==> b in Names()[k]
    {
      Stands(a, k);
      Stands(b, k);
    }
    if Alias(a) == Alias(b) && a != b {
      var k: nat :| k < 9 && Alias(a) == Canonical(k);
      assert a in Names()[k] && b in Names()[k];
    }
    if NamesOfOne(a, b) {
      var k :| 0 <= k < |Names()| && a in Names()[k] && b in Names()[k];
      assert Alias(a) == Canonical(k);
    }
  }

  /** Written in lower case without length, two types are the same exactly when their names are, or are names of one type. */
  lemma SameTypeExactly(a: string, b: string)
    requires Plain(a) && Plain(b)
    ensures NormalizeType(a) == NormalizeType(b) <==> a == b || NamesOfOne(a, b)
  {
    PlainIsBase(a);
    PlainIsBase(b);
    hide Alias, BaseType, Plain, NamesOfOne;
    SameAlias(a, b);
  }

  /** The same text but for letter case. */
  predicate SameLetters(a: string, b: string) {
    |a| == |b| && forall i :: 0 <= i < |a| ==> a[i] == b[i] || Pair(a[i], b[i]) || Pair(b[i], a[i])
  }

  predicate Pair(upper: char, lower: char) {
    'A' <= upper <= 'Z' && 'a' <= lower <= 'z' && upper - 'A' == lower - 'a'
  }

  lemma LettersIgnored(a: string, b: string)
    requires SameLetters(a, b)
    ensures Lower(a) == Lower(b)
  {
  }

  lemma BaseIgnoresCase(a: string, b: string)
    requires Lower(a) == Lower(b)
    ensures BaseType(a) == BaseType(b)
  {
    hide Lower, Trim, WithoutLength;
  }

  /** Letter case plays no part. */
  lemma CaseIgnored(a: string, b: string)
    requires SameLetters(a, b)
    ensures NormalizeType(a) == NormalizeType(b)
  {
    hide Alias, BaseType;
    LettersIgnored(a, b);
    BaseIgnoresCase(a, b);
  }

  lemma Untrimmed(s: string)
    requires NoSpaceAtEnds(s)
    ensures Trim(s) == s
  {
  }

  lemma CutOut(front: string, inner: string, back: string)
    requires '(' !in front && ')' !in back
    ensures WithoutLength(front + ("(" + (inner + (")" + back)))) == front + back
  {
    var s, to := front + ("(" + (inner + (")" + back))), |front| + 1 + |inner| + 1;
    assert s[|front|] == '(' && s[to - 1] == ')';
    assert FirstOf(s, '(') == |front| by {
      assert forall i :: 0 <= i < |front| ==> s[i] == front[i];
    }
    assert AfterLast(s, ')') == to by {
      assert forall i :: to <= i < |s| ==> s[i] == back[i - to];
    }
    assert s[..|front|] == front && s[to..] == back;
  }

  /** A length behind a name, or in it, plays no part. */
  lemma LengthIgnored(front: string, inner: string, back: string)
    requires Plain(front + back) && front != "" && '(' !in front && ')' !in back
    ensures NormalizeType(front + ("(" + (inner + (")" + back)))) == NormalizeType(front + back)
  {
    hide Alias, Trim, WithoutLength, NoLength;
    var s := front + ("(" + (inner + (")" + back)));
    assert s[0] == (front + back)[0];
    assert |back| > 0 ==> s[|s| - 1] == (front + back)[|front + back| - 1];
    Untrimmed(Lower(s));
    assert forall i :: 0 <= i < |front| ==> (front + back)[i] == front[i];
    assert forall i :: 0 <= i < |back| ==> (front + back)[|front| + i] == back[i];
    assert Lower(s) == front + ("(" + (Lower(inner) + (")" + back)));
    CutOut(front, Lower(inner), back);
    PlainIsBase(front + back);
    Untrimmed(front + back);
  }

  predicate AllSpace(s: string) {
    forall i :: 0 <= i < |s| ==> SqlText.IsSpace(s[i])
  }

  lemma {:induction false} SpaceBefore(before: string, s: string)
    requires AllSpace(before)
    ensures TrimStart(before + s) == TrimStart(s)
  {
    if before == "" {
      assert before + s == s;
    } else {
      SpaceBefore(before[1..], s);
      assert (before + s)[1..] == before[1..] + s;
    }
  }

  lemma {:induction false} SpaceAfter(s: string, after: string)
    requires AllSpace(after)
    ensures TrimEnd(s + after) == TrimEnd(s)
  {
    if after == "" {
      assert s + after == s;
    } else {
      var n := |after| - 1;
      SpaceAfter(s, after[..n]);
      assert (s + after)[..|s + after| - 1] == s + after[..n];
    }
  }

  /** Spaces around a type play no part. */
  lemma SpaceIgnored(before: string, t: string, after: string)
    requires AllSpace(before) && AllSpace(after) && t != "" && NoSpaceAtEnds(t)
    ensures NormalizeType(before + (t + after)) == NormalizeType(t)
  {
    hide Alias, WithoutLength;
    var s := Lower(before + (t + after));
    assert s == before + (Lower(t) + after);
    SpaceBefore(before, Lower(t) + after);
    assert TrimStart(Lower(t) + after) == Lower(t) + after;
    SpaceAfter(Lower(t), after);
    assert TrimStart(Lower(t)) == Lower(t);
  }

  lemma NumberLetters()
    ensures SameLetters("INTEGER", "integer") && SameLetters("BOOLEAN", "boolean")
  {
  }

  lemma OtherLetters()
    ensures SameLetters("TIMESTAMPTZ", "timestamptz") && SameLetters("BYTEA", "bytea") && SameLetters("TEXT", "text")
  {
  }

  /** What a field without a type gets, by its initial value, among the types that are compared. */
  lemma InferredTypes(entry: Entry)
    requires entry.sqlType.None? && entry.length.None?
    ensures NormalizeType(ResolveColumnType(entry, Number)) == NormalizeType("integer")
    ensures NormalizeType(ResolveColumnType(entry, Boolean)) == NormalizeType("boolean")
    ensures NormalizeType(ResolveColumnType(entry, Date)) == NormalizeType("timestamptz")
    ensures NormalizeType(ResolveColumnType(entry, Bytes)) == NormalizeType("bytea")
    ensures forall initial :: initial in {Nothing, Text, Other} ==> NormalizeType(ResolveColumnType(entry, initial)) == NormalizeType("text")
  {
    hide NormalizeType, SameLetters;
    NumberLetters();
    OtherLetters();
    CaseIgnored("INTEGER", "integer");
    CaseIgnored("BOOLEAN", "boolean");
    CaseIgnored("TIMESTAMPTZ", "timestamptz");
    CaseIgnored("BYTEA", "bytea");
    CaseIgnored("TEXT", "text");
  }

  lemma VarcharLetters(digits: string)
    requires forall i :: 0 <= i < |digits| ==> '0' <= digits[i] <= '9'
    ensures SameLetters("VARCHAR(" + digits + ")", "varchar" + ("(" + (digits + (")" + ""))))
    ensures Plain("varchar" + "") && "varchar" + "" == "varchar"
  {
    var a, b := "VARCHAR(" + digits + ")", "varchar" + ("(" + (digits + (")" + "")));
    assert forall i :: 8 <= i < 8 + |digits| ==> a[i] == digits[i - 8] == b[i];
  }

  /** A type that is given comes first, then a length, which makes the field a varchar whatever its initial value. */
  lemma GivenTypes(entry: Entry, initial: Initial)
    ensures entry.sqlType.Some? && entry.sqlType.value != "" ==> ResolveColumnType(entry, initial) == entry.sqlType.value
    ensures (entry.sqlType.None? || entry.sqlType.value == "") && entry.length.Some? ==>
      NormalizeType(ResolveColumnType(entry, initial)) == NormalizeType("varchar")
  {
    hide NormalizeType, SameLetters, Plain, SqlText.Decimal;
    if !HasType(entry) && entry.length.Some? {
      var digits := SqlText.Decimal(entry.length.value);
      VarcharLetters(digits);
      CaseIgnored("VARCHAR(" + digits + ")", "varchar" + ("(" + (digits + (")" + ""))));
      LengthIgnored("varchar", digits, "");
    }
  }

  /** What the diff compares a field with: its given type or a varchar of its length, but TEXT for any other field, whatever its
      initial value, and for every field of an embeddable, even one with a type. */
  lemma ComparedTypes(field: Field)
    ensures field.Own? && HasType(field.entry) ==> SchemaDiff.WantedType(field) == field.entry.sqlType.value
    ensures field.Own? && !HasType(field.entry) && field.entry.length.Some? ==>
      NormalizeType(SchemaDiff.WantedType(field)) == NormalizeType("varchar")
    ensures field.Embedded? || (!HasType(field.entry) && field.entry.length.None?) ==>
      NormalizeType(SchemaDiff.WantedType(field)) == NormalizeType("text")
  {
    hide NormalizeType, SameLetters;
    OtherLetters();
    CaseIgnored("TEXT", "text");
    if field.Own? { GivenTypes(field.entry, Nothing); }
  }
}
