/** Names that printing never gives: other spellings of the prefixes, omitted directions, and names that are refused. */
module UnprintedNames {
  import opened Options
  import opened SqlText
  import opened DerivedQuery
  import opened Words
  import opened DerivedQueryParser
  import opened ParserRoundTrip

  /** The outcome of a name hangs on its prefix alone. */
  lemma SamePrefixSameQuery(a: string, b: string)
    requires a != "" && b != "" && ParsePrefix(a) == ParsePrefix(b)
    ensures Parsed(a) == Parsed(b)
  {
    hide ParsePrefix, OrderBySplit, ParsedPredicate;
  }

  lemma RemoveParses(rest: string)
    ensures ParsePrefix("removeBy" + rest) == Ok(Prefix(Delete, false, None, rest))
  {
    var s := "removeBy" + rest;
    NotDistinct(s);
    NoFirst(s);
    NotBeginning(s, "findAllBy", 0);
    NotBeginning(s, "findBy", 0);
    NotBeginning(s, "countBy", 0);
    NotBeginning(s, "deleteBy", 0);
    AfterBeginning("removeBy", rest);
    hide After, ParseFirst;
  }

  /** `removeBy` asks for what `deleteBy` asks for. */
  lemma RemoveIsDelete(rest: string)
    ensures ParsePrefix("removeBy" + rest) == ParsePrefix("deleteBy" + rest)
    ensures Parsed("removeBy" + rest) == Parsed("deleteBy" + rest)
  {
    hide ParsePrefix, Parsed;
    RemoveParses(rest);
    DeleteParses(rest);
    SamePrefixSameQuery("removeBy" + rest, "deleteBy" + rest);
  }

  lemma FindAllParses(rest: string)
    ensures ParsePrefix("findAllBy" + rest) == Ok(Prefix(Find, false, None, rest))
  {
    var s := "findAllBy" + rest;
    NotDistinct(s);
    NoFirst(s);
    AfterBeginning("findAllBy", rest);
    hide After, ParseFirst;
  }

  /** `findAllBy` asks for what `findBy` asks for. */
  lemma FindAllIsFind(rest: string)
    ensures ParsePrefix("findAllBy" + rest) == ParsePrefix("findBy" + rest)
    ensures Parsed("findAllBy" + rest) == Parsed("findBy" + rest)
  {
    hide ParsePrefix, Parsed;
    FindAllParses(rest);
    FindParses(rest);
    SamePrefixSameQuery("findAllBy" + rest, "findBy" + rest);
  }

  /** A name that begins with neither is known by its first words alone. */
  lemma FirstOrTop(name: string, tail: string)
    requires name == "findFirst" + tail || name == "findTop" + tail
    ensures ParsePrefix(name) == var first := ParseFirst(name); if first.Some? then Ok(first.value) else Err(UnknownPrefix)
  {
    NotDistinct(name);
    assert name[0] == 'f' && (name[4] == 'F' || name[4] == 'T');
    NotBeginning(name, "findAllBy", 4);
    NotBeginning(name, "findBy", 4);
    NotBeginning(name, "countBy", 0);
    NotBeginning(name, "deleteBy", 0);
    NotBeginning(name, "removeBy", 0);
    NotBeginning(name, "existsBy", 0);
    hide After, ParseFirst;
  }

  lemma SameFirst(tail: string)
    ensures ParseFirst("findTop" + tail) == ParseFirst("findFirst" + tail)
  {
    NotBeginning("findTop" + tail, "findFirst", 4);
    AfterBeginning("findFirst", tail);
    AfterBeginning("findTop", tail);
    hide After, ParseLimited;
  }

  /** `findTop`, whatever follows it, is `findFirst`. */
  lemma TopIsFirst(tail: string)
    ensures ParsePrefix("findTop" + tail) == ParsePrefix("findFirst" + tail)
    ensures Parsed("findTop" + tail) == Parsed("findFirst" + tail)
  {
    hide ParsePrefix, Parsed, ParseFirst;
    FirstOrTop("findTop" + tail, tail);
    FirstOrTop("findFirst" + tail, tail);
    SameFirst(tail);
    SamePrefixSameQuery("findTop" + tail, "findFirst" + tail);
  }

  lemma FirstLimited(tail: string)
    ensures ParsePrefix("findFirst" + tail) == var first := ParseLimited(tail); if first.Some? then Ok(first.value) else Err(UnknownPrefix)
  {
    FirstOrTop("findFirst" + tail, tail);
    AfterBeginning("findFirst", tail);
    hide After, ParsePrefix, ParseLimited;
  }

  /** The number in front of By limits the rows; a rest with a line terminator is not accepted. */
  lemma FirstDigits(digits: string, rest: string)
    requires digits != "" && forall i :: 0 <= i < |digits| ==> IsDigit(digits[i])
    ensures ParsePrefix("findFirst" + (digits + ("By" + rest))) ==
      if '\n' in rest || '\r' in rest || '\U{2028}' in rest || '\U{2029}' in rest then Err(UnknownPrefix)
      else Ok(Prefix(Find, false, Some(Number(digits)), rest))
  {
    hide ParsePrefix, ParseLimited;
    FirstLimited(digits + ("By" + rest));
    LimitParses(digits, rest);
  }

  lemma OneDigit(c: char)
    requires IsDigit(c)
    ensures Number([c]) == DigitValue(c)
    ensures [c] != "" && forall i :: 0 <= i < 1 ==> IsDigit([c][i])
  {
    assert [c][..0] == "";
  }

  /** By without a number. */
  lemma NoDigits(rest: string)
    ensures ParseLimited("By" + rest) == if OneLine(rest) then Some(Prefix(Find, false, Some(1), rest)) else None
  {
    var tail := "By" + rest;
    AfterBeginning("By", rest);
    assert LeadingDigits(tail) == 0 && tail[0..] == tail;
    hide After;
  }

  /** Without a number the limit is one. */
  lemma FirstIsOne(rest: string)
    ensures ParsePrefix("findFirstBy" + rest) == ParsePrefix("findFirst1By" + rest)
    ensures Parsed("findFirstBy" + rest) == Parsed("findFirst1By" + rest)
  {
    hide ParsePrefix, ParseLimited, Parsed, Number;
    assert "findFirstBy" + rest == "findFirst" + ("By" + rest);
    assert "findFirst1By" + rest == "findFirst" + (['1'] + ("By" + rest));
    FirstLimited("By" + rest);
    NoDigits(rest);
    OneDigit('1');
    FirstDigits(['1'], rest);
    SamePrefixSameQuery("findFirstBy" + rest, "findFirst1By" + rest);
  }

  /** `findDistinct` must be followed by By. */
  lemma DistinctNeedsBy(tail: string)
    ensures ParsePrefix("findDistinct" + tail) ==
      if "By" <= tail then Ok(Prefix(Find, true, None, tail[2..])) else Err(ExpectedBy)
  {
    var s := "findDistinct" + tail;
    AfterBeginning("findDistinct", tail);
    if "By" <= tail {
      assert tail == "By" + tail[2..];
      assert s == "findDistinctBy" + tail[2..];
      AfterBeginning("findDistinctBy", tail[2..]);
    } else {
      assert |tail| > 1 ==> s[12] == tail[0] && s[13] == tail[1];
      assert |tail| > 1 ==> tail[0] != 'B' || tail[1] != 'y';
    }
    hide ParseFirst, ParsePlainPrefix;
  }

  /** The beginnings a name may have. */
  predicate KnownBeginning(name: string) {
    "findDistinct" <= name || "findAllBy" <= name || "findBy" <= name || "countBy" <= name || "deleteBy" <= name ||
    "removeBy" <= name || "existsBy" <= name || "findFirst" <= name || "findTop" <= name
  }

  /** Any other name is refused. */
  lemma OthersUnknown(name: string)
    requires !KnownBeginning(name)
    ensures ParsePrefix(name) == Err(UnknownPrefix)
    ensures name != "" ==> Parsed(name) == Err(UnknownPrefix)
  {
    assert "findDistinct" <= "findDistinctBy";
  }

  /** A direction's characters, before a capital or the end. */
  predicate Directs(s: string, descending: bool, i: nat) {
    var word := if descending then "Desc" else "Asc";
    i <= |s| && word <= s[i..] && (i + |word| < |s| ==> 'A' <= s[i + |word|] <= 'Z')
  }

  lemma DirectsThere(s: string, descending: bool, i: nat)
    ensures DirectionAt(s, descending, i) <==> Directs(s, descending, i)
  {
    var word := if descending then "Desc" else "Asc";
    if i <= |s| && i + |word| <= |s| {
      assert s[i..][..|word|] == s[i..i + |word|];
    }
  }

  /** A property to order by ends in front of the first direction behind its first character, and there only. */
  lemma {:induction false} FirstDirection(s: string, from: nat)
    ensures match EarliestDirection(s, from)
      case None => forall i: nat, descending :: from <= i ==> !Directs(s, descending, i)
      case Some((k, descending)) => k >= from && Directs(s, descending, k) && forall i: nat, d :: from <= i < k ==> !Directs(s, d, i)
    decreases |s| + 1 - from
  {
    hide Directs, DirectionAt;
    forall i: nat, d ensures DirectionAt(s, d, i) <==> Directs(s, d, i) { DirectsThere(s, d, i); }
    if from <= |s| {
      FirstDirection(s, from + 1);
    } else {
      forall i: nat, d | from <= i ensures !Directs(s, d, i) { Outside(s, d, i); }
    }
  }

  lemma Outside(s: string, descending: bool, i: nat)
    requires i > |s|
    ensures !Directs(s, descending, i)
  {
  }

  /** Without a direction the order is ascending. */
  lemma OmittedDirection(x: OrderBy)
    requires |x.property| > 0 && GoodOrderName(x.property)
    ensures Orders(UpperFirst(x.property)) == [OrderBy(x.property, false)]
  {
    hide UpperFirst, LowerFirst, DirectionAt;
    LowerUndoesUpper(x.property);
    NoDirection(UpperFirst(x.property), 1);
  }

  lemma {:induction false} NoDirection(s: string, from: nat)
    requires forall i: nat, descending :: from <= i ==> !DirectionAt(s, descending, i)
    ensures EarliestDirection(s, from) == None
    decreases |s| + 1 - from
  {
    hide DirectionAt;
    if from <= |s| { NoDirection(s, from + 1); }
  }

  /** The prefixes, each up to its By. */
  predicate IsPrefix(words: string) {
    words in ["findBy", "findAllBy", "findDistinctBy", "findFirstBy", "findTopBy", "countBy", "deleteBy", "removeBy", "existsBy"]
  }

  lemma PrefixRest(words: string, rest: string)
    requires IsPrefix(words) && OneLine(rest)
    ensures ParsePrefix(words + rest).Ok? && ParsePrefix(words + rest).value.rest == rest
  {
    hide ParsePrefix, OneLine, Parsed, ParseLimited;
    match words {
      case "findBy" => FindParses(rest);
      case "findAllBy" => FindAllParses(rest);
      case "findDistinctBy" => DistinctParses(rest);
      case "findFirstBy" => FirstByParses(rest);
      case "findTopBy" =>
        TopIsFirst("By" + rest);
        assert "findTopBy" + rest == "findTop" + ("By" + rest) && "findFirstBy" + rest == "findFirst" + ("By" + rest);
        FirstByParses(rest);
      case "countBy" => CountParses(rest);
      case "deleteBy" => DeleteParses(rest);
      case "removeBy" => RemoveParses(rest);
      case "existsBy" => ExistsParses(rest);
    }
  }

  lemma FirstByParses(rest: string)
    requires OneLine(rest)
    ensures ParsePrefix("findFirstBy" + rest) == Ok(Prefix(Find, false, Some(1), rest))
  {
    hide ParsePrefix, ParseLimited, OneLine;
    assert "findFirstBy" + rest == "findFirst" + ("By" + rest);
    FirstLimited("By" + rest);
    NoDigits(rest);
  }

  lemma DistinctParses(rest: string)
    ensures ParsePrefix("findDistinctBy" + rest) == Ok(Prefix(Find, true, None, rest))
  {
    hide ParsePrefix;
    assert "findDistinctBy" + rest == "findDistinct" + ("By" + rest);
    assert ("By" + rest)[2..] == rest;
    DistinctNeedsBy("By" + rest);
  }

  /** A name ends nowhere: not before its properties, not before its orders, and is not empty. */
  lemma Unfinished(words: string, orders: string)
    requires IsPrefix(words) && OneLine(orders)
    ensures Parsed("") == Err(EmptyName)
    ensures Parsed(words) == Err(NothingAfterBy)
    ensures Parsed(words + ("OrderBy" + orders)) == Err(if orders == "" then NothingAfterOrderBy else NothingBeforeOrderBy)
  {
    hide ParsePrefix, Orders, IndexOf, OneLine;
    LiteralOneLine();
    assert OneLine("") && words + "" == words;
    PrefixRest(words, "");
    OneLineConcat("OrderBy", orders);
    PrefixRest(words, "OrderBy" + orders);
    FirstOrderBy("", orders);
    assert "" + ("OrderBy" + orders) == "OrderBy" + orders;
  }
}
