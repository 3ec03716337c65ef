/** Parsing undoes printing: the method name of a descriptor parses to that descriptor. */
module ParserRoundTrip {
  import opened Options
  import opened SqlText
  import opened Words
  import opened DerivedQuery
  import opened DerivedQueryParser
  import opened OperatorNames

  // --------------------------------------------------------- printing

  function UpperFirst(s: string): string
    requires |s| > 0
  {
    [if IsLower(s[0]) then s[0] - 'a' + 'A' else s[0]] + s[1..]
  }

  /** The words of the method name; equality has none. */
  function OperatorText(op: Operator): (text: string)
    ensures text == if op == Equals then "" else OperatorName(op)
  {
    match op
    case Equals => "" case Like => "Like" case StartingWith => "StartingWith" case EndingWith => "EndingWith"
    case Containing => "Containing" case GreaterThan => "GreaterThan" case GreaterThanEqual => "GreaterThanEqual"
    case LessThan => "LessThan" case LessThanEqual => "LessThanEqual" case Between => "Between" case In => "In"
    case NotIn => "NotIn" case IsNull => "IsNull" case IsNotNull => "IsNotNull" case Not => "Not" case True => "True"
    case False => "False" case SimilarTo => "SimilarTo"
  }

  function DirectionText(descending: bool): (text: string)
    ensures text == DirectionName(descending)
  {
    if descending then "Desc" else "Asc"
  }

  function PartText(x: PropertyExpression): string
    requires |x.property| > 0
  {
    UpperFirst(x.property) + OperatorText(x.operator)
  }

  function PartTexts(xs: seq<PropertyExpression>): (texts: seq<string>)
    requires forall i :: 0 <= i < |xs| ==> |xs[i].property| > 0
    ensures |texts| == |xs|
  {
    seq(|xs|, i requires 0 <= i < |xs| => PartText(xs[i]))
  }

  function OrdersText(orders: seq<OrderBy>): string
    requires forall i :: 0 <= i < |orders| ==> |orders[i].property| > 0
  {
    if |orders| == 0 then ""
    else UpperFirst(orders[0].property) + (DirectionText(orders[0].descending) + OrdersText(orders[1..]))
  }

  function ConnectorName(c: Connector): string {
    if c.AllOf? then "And" else "Or"
  }

  function PrefixText(d: Descriptor): string {
    match d.action
    case Find =>
      if d.distinct then "findDistinctBy"
      else if d.limit.Some? then "findFirst" + (Decimal(d.limit.value) + "By")
      else "findBy"
    case Count => "countBy"
    case Delete => "deleteBy"
    case Exists => "existsBy"
  }

  function OrderByText(orders: seq<OrderBy>): string
    requires forall i :: 0 <= i < |orders| ==> |orders[i].property| > 0
  {
    if |orders| == 0 then "" else "OrderBy" + OrdersText(orders)
  }

  function Printed(d: Descriptor): string
    requires Printable(d)
  {
    PrefixText(d) + (Joined(PartTexts(d.properties), ConnectorName(d.connector)) + OrderByText(d.orderBy))
  }

  // ------------------------------------------------------- conditions

  /** A property of a predicate: its capitalised name ends in a lower-case letter and in no operator's name,
      and holds no And or Or at a word boundary, and no OrderBy. */
  ghost predicate GoodName(p: string) {
    && |p| > 0 && IsLower(p[0]) && OneLine(p)
    && var name := UpperFirst(p);
       && EndsLower(name)
       && (forall op :: !EndsWith(name, OperatorName(op)))
       && NowhereAtBoundary(name, "And") && NowhereAtBoundary(name, "Or")
       && forall i: nat :: i < |name| ==> !Occurs(name, "OrderBy", i)
  }

  /** A property to order by: its capitalised name holds no Asc or Desc at a word boundary. */
  ghost predicate GoodOrderName(p: string) {
    && |p| > 0 && IsLower(p[0]) && OneLine(p)
    && forall i: nat, descending :: 0 < i ==> !DirectionAt(UpperFirst(p), descending, i)
  }

  ghost predicate GoodOrders(orders: seq<OrderBy>) {
    forall i :: 0 <= i < |orders| ==> |orders[i].property| > 0 && GoodOrderName(orders[i].property)
  }

  /** The descriptors that a method name can express. */
  ghost predicate Printable(d: Descriptor) {
    && |d.properties| > 0 && (|d.properties| == 1 ==> d.connector.AllOf?)
    && (forall i :: 0 <= i < |d.properties| ==>
          && |d.properties[i].property| > 0 && GoodName(d.properties[i].property)
          && d.properties[i].paramCount == ParamCount(d.properties[i].operator))
    && GoodOrders(d.orderBy)
    && (d.distinct ==> d.action.Find? && d.limit.None?) && (d.limit.Some? ==> d.action.Find?)
  }

  // -------------------------------------------------------- one property

  lemma LowerUndoesUpper(p: string)
    requires |p| > 0 && IsLower(p[0])
    ensures LowerFirst(UpperFirst(p)) == p && StartsUpper(UpperFirst(p)) && |UpperFirst(p)| == |p|
  {
  }

  lemma EndsWithConcat(a: string, b: string)
    ensures EndsWith(a + b, b) && (a + b)[..|a + b| - |b|] == a
  {
  }

  /** Of two suffixes the shorter is a suffix of the longer; and what lies before is shared. */
  lemma TwoSuffixes(a: string, b: string, w: string)
    requires EndsWith(a + b, w) && |w| >= |b|
    ensures EndsWith(w, b) && EndsWith(a, w[..|w| - |b|])
  {
    var s := a + b;
    assert s[|s| - |w|..] == w;
    assert w[|w| - |b|..] == s[|s| - |b|..] == b;
    assert w[..|w| - |b|] == s[|s| - |w|..|a|] == a[|a| - (|w| - |b|)..];
  }

  lemma {:induction false} FirstFound(expr: string, ops: seq<Operator>, k: nat)
    requires k < |ops| && EndsWith(expr, OperatorName(ops[k])) && |expr| > |OperatorName(ops[k])|
    requires forall j :: 0 <= j < k ==> !EndsWith(expr, OperatorName(ops[j]))
    ensures OperatorOf(expr, ops) == ops[k]
    decreases |ops|
  {
    hide OperatorName, EndsWith;
    if k > 0 {
      FirstFound(expr, ops[1..], k - 1);
    }
  }

  lemma {:induction false} NoneFound(expr: string, ops: seq<Operator>)
    requires forall op :: !EndsWith(expr, OperatorName(op))
    ensures OperatorOf(expr, ops) == Equals
    decreases |ops|
  {
    hide OperatorName, EndsWith;
    if |ops| > 0 {
      NoneFound(expr, ops[1..]);
    }
  }

  /** No longer operator's name ends the printed property. */
  lemma OperatorFound(name: string, op: Operator)
    requires |name| > 0 && forall o :: !EndsWith(name, OperatorName(o))
    ensures OperatorOf(name + OperatorName(op), ByLength()) == op
  {
    var expr := name + OperatorName(op);
    EndsWithConcat(name, OperatorName(op));
    RankInList(op);
    hide OperatorName, EndsWith, ByLength, Rank;
    forall j: nat | j < Rank(op) ensures !EndsWith(expr, OperatorName(ByLength()[j])) {
      var o := ByLength()[j];
      ListInRank(j);
      LongerFirst(o, op);
      NameLength(o);
      NameLength(op);
      NotEarlier(name, op, o);
    }
    FirstFound(expr, ByLength(), Rank(op));
  }

  lemma NotEarlier(name: string, op: Operator, o: Operator)
    requires forall x :: !EndsWith(name, OperatorName(x))
    requires o != op && |OperatorName(o)| >= |OperatorName(op)|
    ensures !EndsWith(name + OperatorName(op), OperatorName(o))
  {
    assert OperatorName(NotIn)[..3] == OperatorName(Not) && |OperatorName(In)| == 2;
    if EndsWith(name + OperatorName(op), OperatorName(o)) {
      TwoSuffixes(name, OperatorName(op), OperatorName(o));
      OnlySuffix(o, op);
    }
  }

  predicate TakenFor(name: string, op: Operator) {
    EndsWith(name, OperatorName(op)) && |name| > |OperatorName(op)|
  }

  lemma {:induction false} SomeFound(expr: string, ops: seq<Operator>, k: nat)
    requires k < |ops| && TakenFor(expr, ops[k])
    ensures TakenFor(expr, OperatorOf(expr, ops))
    decreases |ops|
  {
    hide OperatorName, EndsWith;
    if !TakenFor(expr, ops[0]) {
      SomeFound(expr, ops[1..], k - 1);
    }
  }

  lemma {:induction false} NoneTaken(expr: string, ops: seq<Operator>)
    requires forall op :: !TakenFor(expr, op)
    ensures OperatorOf(expr, ops) == Equals
    decreases |ops|
  {
    hide OperatorName, EndsWith;
    if |ops| > 0 {
      assert !TakenFor(expr, ops[0]);
      NoneTaken(expr, ops[1..]);
    }
  }

  /** A bare property is read as a comparison with itself exactly when no operator's name ends it: `stockIn` is not. */
  lemma BareExactly(name: string)
    requires |name| > 0
    ensures ParsePropertyExpression(name) == PropertyExpression(LowerFirst(name), Equals, 1) <==> forall op :: !TakenFor(name, op)
  {
    hide OperatorName, EndsWith, ByLength, Rank;
    if op :| TakenFor(name, op) {
      RankInList(op);
      NameLength(OperatorOf(name, ByLength()));
      SomeFound(name, ByLength(), Rank(op));
      assert |ParsePropertyExpression(name).property| < |name|;
    } else {
      NoneTaken(name, ByLength());
      assert !TakenFor(name, Equals);
    }
  }

  lemma PartParses(x: PropertyExpression)
    requires GoodName(x.property) && x.paramCount == ParamCount(x.operator)
    ensures PartText(x) != "" && ParsePropertyExpression(PartText(x)) == x
  {
    var name := UpperFirst(x.property);
    LowerUndoesUpper(x.property);
    hide UpperFirst, LowerFirst, OperatorName, EndsWith, ByLength;
    if x.operator == Equals {
      assert PartText(x) == name;
      NoneFound(name, ByLength());
    } else {
      OperatorFound(name, x.operator);
      EndsWithConcat(name, OperatorName(x.operator));
    }
  }

  // --------------------------------------------------- the predicate part

  /** An operator behind the name brings no connector at a boundary. */
  lemma PartSeparable(x: PropertyExpression, w: string)
    requires GoodName(x.property) && w in {"And", "Or"}
    ensures Separable(PartText(x), w)
  {
    var name, op := UpperFirst(x.property), OperatorText(x.operator);
    LowerUndoesUpper(x.property);
    NameLetters(x.operator);
    if op == "" {
      assert name + op == name;
    } else {
      hide OperatorName, EndsWith;
      forall i: nat | i <= |name + op| ensures !AtBoundary(name + op, w, i) {
        NoBoundaryInPart(name, op, w, i);
      }
    }
  }

  lemma NoBoundaryInPart(name: string, op: string, w: string, i: nat)
    requires w in {"And", "Or"} && NowhereAtBoundary(name, w) && StartsUpper(name) && EndsLower(name) && Letters(op) && i <= |name + op|
    ensures !AtBoundary(name + op, w, i)
  {
    var s := name + op;
    if i + |w| > |s| {
    } else if i >= |name| {
      NotThisLetter(s, w, i);
    } else if i + |w| > |name| {
      NoStraddle(name, op, w, i);
    } else {
      OccursLeft(name, op, w, i);
      assert !AtBoundary(name, w, i);
      assert i > 0 ==> s[i - 1] == name[i - 1];
      assert i + |w| < |name| ==> s[i + |w|] == name[i + |w|];
      assert i + |w| == |name| ==> s[i + |w|] == op[0];
    }
  }

  predicate WithoutOrderBy(s: string) {
    forall i: nat :: i < |s| ==> !Occurs(s, "OrderBy", i)
  }

  /** OrderBy reaches over the beginning of a capitalised text only with its By. */
  lemma OrderByStraddles(left: string, right: string, i: nat)
    requires i < |left| < i + 7 && |right| > 1 && IsUpper(right[0]) && !(right[0] == 'B' && right[1] == 'y')
    ensures !Occurs(left + right, "OrderBy", i)
  {
    var s := left + right;
    if i + 7 <= |s| {
      OccursAt(s, "OrderBy", i);
      var k := |left| - i;
      assert s[i + k] == right[0];
      assert k < 6 ==> s[i + k + 1] == right[1];
    }
  }

  lemma PartWithoutOrderBy(x: PropertyExpression)
    requires GoodName(x.property)
    ensures WithoutOrderBy(PartText(x))
  {
    var name, op := UpperFirst(x.property), OperatorText(x.operator);
    NameLetters(x.operator);
    hide OperatorName, EndsWith, UpperFirst;
    if op == "" {
      assert name + op == name;
    } else {
      forall i: nat | i < |name + op| ensures !Occurs(name + op, "OrderBy", i) {
        if i >= |name| {
          NotOccurring(name + op, i);
        } else if i + 7 > |name| {
          OrderByStraddles(name, op, i);
        } else {
          OccursLeft(name, op, "OrderBy", i);
        }
      }
    }
  }

  lemma NotOccurring(s: string, i: nat)
    requires i < |s| && s[i] != 'O'
    ensures !Occurs(s, "OrderBy", i)
  {
    if i + 7 <= |s| {
      OccursAt(s, "OrderBy", i);
    }
  }

  /** The first OrderBy of the whole text is the printed one. */
  lemma {:induction false} JoinedWithoutOrderBy(parts: seq<string>, w: string, tail: string, i: nat)
    requires |parts| > 0 && (w == "And" || w == "Or") && (tail == "" || (|tail| > 1 && tail[..2] == "Or"))
    requires forall k :: 0 <= k < |parts| ==> StartsUpper(parts[k]) && WithoutOrderBy(parts[k])
    requires i < |Joined(parts, w)|
    ensures !Occurs(Joined(parts, w) + tail, "OrderBy", i)
    decreases |parts|
  {
    hide Occurs, WithoutOrderBy;
    var part := parts[0];
    if |parts| == 1 {
      PartThen(part, tail, i);
    } else {
      var rest := Joined(parts[1..], w) + tail;
      assert Joined(parts, w) + tail == part + (w + rest);
      JoinedStartsUpper(parts[1..], w);
      assert StartsUpper(rest);
      if i < |part| + |w| {
        PartAndConnector(part, w, rest, i);
      } else {
        JoinedWithoutOrderBy(parts[1..], w, tail, i - |part| - |w|);
        hide Occurs, Joined, WithoutOrderBy;
        assert part + (w + rest) == (part + w) + rest;
        OccursRight(part + w, rest, "OrderBy", i - |part + w|);
      }
    }
  }

  lemma PartAndConnector(part: string, w: string, rest: string, i: nat)
    requires WithoutOrderBy(part) && (w == "And" || w == "Or") && StartsUpper(rest) && i < |part| + |w|
    ensures !Occurs(part + (w + rest), "OrderBy", i)
  {
    if i < |part| {
      assert (w + rest)[..2] == w[..2];
      PartThen(part, w + rest, i);
    } else {
      NotInConnector(part, w, rest, i - |part|);
    }
  }

  lemma PartThen(part: string, after: string, i: nat)
    requires WithoutOrderBy(part) && i < |part|
    requires after == "" || (|after| > 1 && after[..2] == "Or") || (|after| > 1 && after[..2] == "An")
    ensures !Occurs(part + after, "OrderBy", i)
  {
    if after == "" {
      assert part + after == part;
    } else if i + 7 > |part| {
      assert after[..2][0] == after[0] && after[..2][1] == after[1];
      OrderByStraddles(part, after, i);
    } else {
      OccursLeft(part, after, "OrderBy", i);
    }
  }

  lemma NotInConnector(part: string, w: string, rest: string, k: nat)
    requires (w == "And" || w == "Or") && k < |w| && StartsUpper(rest)
    ensures !Occurs(part + (w + rest), "OrderBy", |part| + k)
  {
    OccursRight(part, w + rest, "OrderBy", k);
    if k + 7 <= |w + rest| {
      assert (w + rest)[k] == w[k] && (w + rest)[|w|] == rest[0];
      if w == "Or" && k == 0 {
        OccursAt(w + rest, "OrderBy", 0);
        assert "OrderBy"[2] == 'd' && (w + rest)[0 + 2] == rest[0];
      } else {
        assert (w + rest)[k] != 'O';
        NotOccurring(w + rest, k);
      }
    }
  }

  // ----------------------------------------------------------- order by

  lemma NoEarlierDirection(name: string, after: string, descending: bool, k: nat)
    requires !DirectionAt(name, descending, k) && StartsUpper(after) && k < |name|
    ensures !DirectionAt(name + after, descending, k)
  {
    var s, dir := name + after, DirectionName(descending);
    if k + |dir| > |name| {
      NoStraddle(name, after, dir, k);
    } else {
      OccursLeft(name, after, dir, k);
      assert k + |dir| < |name| ==> s[k + |dir|] == name[k + |dir|];
      assert k + |dir| == |name| ==> s[k + |dir|] == after[0];
    }
  }

  lemma OrdersStartUpper(orders: seq<OrderBy>)
    requires GoodOrders(orders)
    ensures |orders| > 0 ==> StartsUpper(OrdersText(orders))
  {
    if |orders| > 0 {
      LowerUndoesUpper(orders[0].property);
    }
  }

  /** Reading the order list gives the printed list back. */
  lemma {:induction false} OrdersParse(orders: seq<OrderBy>)
    requires GoodOrders(orders)
    ensures Orders(OrdersText(orders)) == orders
    decreases |orders|
  {
    if |orders| > 0 {
      var x, rest := orders[0], OrdersText(orders[1..]);
      var name, dir := UpperFirst(x.property), DirectionName(x.descending);
      OrdersParse(orders[1..]);
      OrdersStartUpper(orders[1..]);
      OneOrder(x, rest);
      assert orders == [x] + orders[1..];
    }
  }

  lemma DirectionFound(x: OrderBy, rest: string)
    requires |x.property| > 0 && GoodOrderName(x.property) && (rest == "" || StartsUpper(rest))
    ensures var name := UpperFirst(x.property);
      EarliestDirection(name + (DirectionName(x.descending) + rest), 1) == Some((|name|, x.descending))
  {
    var name, dir := UpperFirst(x.property), DirectionName(x.descending);
    var s := name + (dir + rest);
    LowerUndoesUpper(x.property);
    forall k: nat | 1 <= k < |name| ensures !DirectionAt(s, true, k) && !DirectionAt(s, false, k) {
      NoEarlierDirection(name, dir + rest, true, k);
      NoEarlierDirection(name, dir + rest, false, k);
    }
    DirectionStands(name, x.descending, rest);
    hide UpperFirst, DirectionAt, DirectionName;
    EarliestIs(s, 1, |name|, x.descending);
  }

  lemma DirectionStands(name: string, descending: bool, rest: string)
    requires rest == "" || StartsUpper(rest)
    ensures DirectionAt(name + (DirectionName(descending) + rest), descending, |name|)
  {
    var dir := DirectionName(descending);
    OccursRight(name, dir + rest, dir, 0);
    assert (dir + rest)[..|dir|] == dir;
    assert rest != "" ==> (name + (dir + rest))[|name| + |dir|] == rest[0];
  }

  lemma OrdersStep(s: string, i: nat, descending: bool)
    requires EarliestDirection(s, 1) == Some((i, descending))
    ensures i + |DirectionName(descending)| <= |s|
    ensures i >= 1 && Orders(s) == [Directed(s[..i], descending)] + Orders(s[i + |DirectionName(descending)|..])
  {
    hide DirectionAt, EarliestDirection, LowerFirst, Directed, DirectionName;
    var best := EarliestDirection(s, 1);
    DirectionFits(s, best.value.1, best.value.0);
  }

  lemma OneOrder(x: OrderBy, rest: string)
    requires |x.property| > 0 && GoodOrderName(x.property) && (rest == "" || StartsUpper(rest))
    ensures Orders(UpperFirst(x.property) + (DirectionName(x.descending) + rest)) == [x] + Orders(rest)
  {
    var name, dir := UpperFirst(x.property), DirectionName(x.descending);
    var s := name + (dir + rest);
    LowerUndoesUpper(x.property);
    DirectionFound(x, rest);
    OrdersStep(s, |name|, x.descending);
    hide UpperFirst, LowerFirst, EarliestDirection, GoodOrderName, Orders;
    assert s[..|name|] == name && s[|name| + |dir|..] == rest;
  }

  // ------------------------------------------------------------- prefix

  lemma AfterBeginning(beginning: string, rest: string)
    ensures After(beginning + rest, beginning) == Some(rest)
  {
    assert (beginning + rest)[|beginning|..] == rest;
  }

  lemma NotBeginning(s: string, beginning: string, i: nat)
    requires i < |beginning| && i < |s| && s[i] != beginning[i]
    ensures After(s, beginning) == None
  {
  }

  lemma {:induction false} DigitsEnd(digits: string, rest: string)
    requires (forall i :: 0 <= i < |digits| ==> IsDigit(digits[i])) && |rest| > 0 && !IsDigit(rest[0])
    ensures LeadingDigits(digits + rest) == |digits|
    decreases |digits|
  {
    if |digits| == 0 {
      assert digits + rest == rest;
    } else {
      DigitsEnd(digits[1..], rest);
      assert (digits + rest)[1..] == digits[1..] + rest;
    }
  }

  /** A number and By. */
  lemma LimitParses(digits: string, rest: string)
    requires digits != "" && forall i :: 0 <= i < |digits| ==> IsDigit(digits[i])
    ensures ParseLimited(digits + ("By" + rest)) ==
      if OneLine(rest) then Some(Prefix(Find, false, Some(Number(digits)), rest)) else None
  {
    var tail := digits + ("By" + rest);
    DigitsEnd(digits, "By" + rest);
    AfterBeginning("By", rest);
    hide After, Number, LeadingDigits;
    assert tail[..|digits|] == digits && tail[|digits|..] == "By" + rest;
  }

  /** find, First, the number in decimals, By. */
  lemma FirstParses(n: nat, rest: string)
    requires OneLine(rest)
    ensures ParseFirst("findFirst" + (Decimal(n) + ("By" + rest))) == Some(Prefix(Find, false, Some(n), rest))
  {
    AfterBeginning("findFirst", Decimal(n) + ("By" + rest));
    hide After, Decimal, Number, ParseLimited, OneLine;
    NumberOfDecimal(n);
    LimitParses(Decimal(n), rest);
  }

  lemma NoFirst(s: string)
    requires |s| > 4 && s[4] != 'F' && s[4] != 'T'
    ensures ParseFirst(s) == None
  {
    NotBeginning(s, "findFirst", 4);
    NotBeginning(s, "findTop", 4);
  }

  lemma NotDistinct(s: string)
    requires |s| > 4 && s[4] != 'D'
    ensures After(s, "findDistinctBy") == None && After(s, "findDistinct") == None
  {
    NotBeginning(s, "findDistinctBy", 4);
    NotBeginning(s, "findDistinct", 4);
  }

  lemma FindParses(rest: string)
    ensures ParsePrefix("findBy" + rest) == Ok(Prefix(Find, false, None, rest))
  {
    var s := "findBy" + rest;
    NotDistinct(s);
    NoFirst(s);
    NotBeginning(s, "findAllBy", 4);
    AfterBeginning("findBy", rest);
    hide After, ParseFirst;
  }

  lemma CountParses(rest: string)
    ensures ParsePrefix("countBy" + rest) == Ok(Prefix(Count, false, None, rest))
  {
    var s := "countBy" + rest;
    NotDistinct(s);
    NoFirst(s);
    NotBeginning(s, "findAllBy", 0);
    NotBeginning(s, "findBy", 0);
    AfterBeginning("countBy", rest);
    hide After, ParseFirst;
  }

  lemma DeleteParses(rest: string)
    ensures ParsePrefix("deleteBy" + rest) == Ok(Prefix(Delete, false, None, rest))
  {
    var s := "deleteBy" + rest;
    NotDistinct(s);
    NoFirst(s);
    NotBeginning(s, "findAllBy", 0);
    NotBeginning(s, "findBy", 0);
    NotBeginning(s, "countBy", 0);
    AfterBeginning("deleteBy", rest);
    hide After, ParseFirst;
  }

  lemma ExistsParses(rest: string)
    ensures ParsePrefix("existsBy" + rest) == Ok(Prefix(Exists, false, None, rest))
  {
    var s := "existsBy" + rest;
    NotDistinct(s);
    NoFirst(s);
    NotBeginning(s, "findAllBy", 0);
    NotBeginning(s, "findBy", 0);
    NotBeginning(s, "countBy", 0);
    NotBeginning(s, "deleteBy", 0);
    NotBeginning(s, "removeBy", 0);
    AfterBeginning("existsBy", rest);
    hide After, ParseFirst;
  }

  lemma PrefixParses(d: Descriptor, rest: string)
    requires Printable(d) && OneLine(rest)
    ensures ParsePrefix(PrefixText(d) + rest) == Ok(Prefix(d.action, d.distinct, d.limit, rest))
  {
    hide GoodName, GoodOrders, After, ParseFirst, OneLine;
    match d.action
    case Count => CountParses(rest);
    case Delete => DeleteParses(rest);
    case Exists => ExistsParses(rest);
    case Find =>
      if d.distinct {
        AfterBeginning("findDistinctBy", rest);
      } else if d.limit.Some? {
        var s := "findFirst" + (Decimal(d.limit.value) + ("By" + rest));
        assert PrefixText(d) + rest == s;
        NotDistinct(s);
        FirstParses(d.limit.value, rest);
      } else {
        FindParses(rest);
      }
  }

  // ------------------------------------------------------------ one line

  lemma OneLineConcat(a: string, b: string)
    requires OneLine(a) && OneLine(b)
    ensures OneLine(a + b)
  {
  }

  lemma PartOneLine(x: PropertyExpression)
    requires GoodName(x.property)
    ensures OneLine(PartText(x))
  {
    UpperOneLine(x.property);
    NameOneLine(x.operator);
  }

  lemma UpperOneLine(p: string)
    requires |p| > 0 && OneLine(p)
    ensures OneLine(UpperFirst(p))
  {
  }

  lemma NameOneLine(op: Operator)
    ensures OneLine(OperatorName(op))
  {
    NameLetters(op);
    hide OperatorName;
  }

  lemma {:induction false} JoinedOneLine(parts: seq<string>, w: string)
    requires OneLine(w) && forall i :: 0 <= i < |parts| ==> OneLine(parts[i])
    ensures OneLine(Joined(parts, w))
    decreases |parts|
  {
    if |parts| > 1 {
      JoinedOneLine(parts[1..], w);
      OneLineConcat(parts[0], w);
      OneLineConcat(parts[0] + w, Joined(parts[1..], w));
    }
  }

  lemma {:induction false} OrdersOneLine(orders: seq<OrderBy>)
    requires GoodOrders(orders)
    ensures OneLine(OrdersText(orders))
    decreases |orders|
  {
    if |orders| > 0 {
      OrdersOneLine(orders[1..]);
      UpperOneLine(orders[0].property);
      OneLineConcat(DirectionName(orders[0].descending), OrdersText(orders[1..]));
      OneLineConcat(UpperFirst(orders[0].property), DirectionName(orders[0].descending) + OrdersText(orders[1..]));
    }
  }

  lemma RestOneLine(d: Descriptor)
    requires Printable(d)
    ensures OneLine(Joined(PartTexts(d.properties), ConnectorName(d.connector)) + OrderByText(d.orderBy))
  {
    hide GoodName, PartText, OneLine;
    forall i | 0 <= i < |d.properties| ensures OneLine(PartTexts(d.properties)[i]) {
      PartOneLine(d.properties[i]);
    }
    ConnectorOneLine(d.connector);
    JoinedOneLine(PartTexts(d.properties), ConnectorName(d.connector));
    OrdersOneLine(d.orderBy);
    LiteralOneLine();
    if |d.orderBy| > 0 {
      OneLineConcat("OrderBy", OrdersText(d.orderBy));
    }
    OneLineConcat(Joined(PartTexts(d.properties), ConnectorName(d.connector)), OrderByText(d.orderBy));
  }

  lemma ConnectorOneLine(c: Connector)
    ensures OneLine(ConnectorName(c))
  {
  }

  lemma LiteralOneLine()
    ensures OneLine("OrderBy") && OneLine("")
  {
  }

  // -------------------------------------------------------- the round trip

  lemma PartsSplit(d: Descriptor)
    requires Printable(d)
    ensures SplitProperties(Joined(PartTexts(d.properties), ConnectorName(d.connector))) == (PartTexts(d.properties), d.connector)
  {
    hide GoodName, PartText, Positions, SplitAt, Ascending, AtBoundary;
    var texts := PartTexts(d.properties);
    forall i | 0 <= i < |texts| ensures Separable(texts[i], "And") && Separable(texts[i], "Or") {
      PartSeparable(d.properties[i], "And");
      PartSeparable(d.properties[i], "Or");
    }
    hide Separable;
    if |texts| == 1 {
      assert texts == [texts[0]];
      assert "" + texts[0] == texts[0];
      NoCut("", texts[0], "And");
      NoCut("", texts[0], "Or");
    } else if d.connector.AllOf? {
      AndsSplit(texts);
    } else {
      OrsSplit(texts);
    }
  }

  lemma AndsSplit(texts: seq<string>)
    requires |texts| > 1 && forall i :: 0 <= i < |texts| ==> Separable(texts[i], "And")
    ensures SplitProperties(Joined(texts, "And")) == (texts, AllOf)
  {
    hide Positions, SplitAt, Ascending, AtBoundary;
    var s := Joined(texts, "And");
    assert "" + s == s;
    SplitJoined("", texts, "And");
    assert s == "" + texts[0] + ("And" + Joined(texts[1..], "And"));
    FirstCut("", texts[0], "And", texts[1..], s);
  }

  lemma OrsSplit(texts: seq<string>)
    requires |texts| > 1 && forall i :: 0 <= i < |texts| ==> Separable(texts[i], "And") && Separable(texts[i], "Or")
    ensures SplitProperties(Joined(texts, "Or")) == (texts, AnyOf)
  {
    hide Positions, SplitAt, Ascending, AtBoundary;
    var s := Joined(texts, "Or");
    assert "" + s == s;
    SplitJoined("", texts, "Or");
    assert s == "" + texts[0] + ("Or" + Joined(texts[1..], "Or"));
    FirstCut("", texts[0], "Or", texts[1..], s);
    forall k: nat | k <= |s| ensures !AtBoundary(s, "And", k) {
      JoinedHasNone("", texts, "And", "Or", k);
    }
    NoPosition(s, "And", 0);
  }

  lemma PartsParse(d: Descriptor)
    requires Printable(d)
    ensures forall i :: 0 <= i < |d.properties| ==> PartTexts(d.properties)[i] != ""
    ensures ParsedParts(PartTexts(d.properties)) == d.properties
  {
    hide GoodName, PartText, ParsePropertyExpression;
    forall i | 0 <= i < |d.properties|
      ensures PartTexts(d.properties)[i] != "" && ParsePropertyExpression(PartTexts(d.properties)[i]) == d.properties[i]
    {
      PartParses(d.properties[i]);
    }
  }

  /** The first OrderBy is the printed one, and behind it stands the order list. */
  lemma OrderBySplits(d: Descriptor)
    requires Printable(d)
    ensures var joined := Joined(PartTexts(d.properties), ConnectorName(d.connector));
      joined != "" && OrderBySplit(joined + OrderByText(d.orderBy)) == Ok((joined, d.orderBy))
  {
    hide GoodName, PartText, Occurs, Orders, OrdersText;
    var texts, tail := PartTexts(d.properties), OrderByText(d.orderBy);
    var joined := Joined(texts, ConnectorName(d.connector));
    forall i | 0 <= i < |texts| ensures StartsUpper(texts[i]) && WithoutOrderBy(texts[i]) {
      PartSeparable(d.properties[i], "And");
      PartWithoutOrderBy(d.properties[i]);
    }
    JoinedStartsUpper(texts, ConnectorName(d.connector));
    assert |d.orderBy| > 0 ==> tail[..2] == "Or";
    forall i: nat | i < |joined| ensures !Occurs(joined + tail, "OrderBy", i) {
      JoinedWithoutOrderBy(texts, ConnectorName(d.connector), tail, i);
    }
    hide Joined, StartsUpper, WithoutOrderBy;
    if |d.orderBy| == 0 {
      assert joined + tail == joined;
      NoOrderBy(joined);
    } else {
      FirstOrderBy(joined, OrdersText(d.orderBy));
      OrdersParse(d.orderBy);
      OrdersStartUpper(d.orderBy);
      assert |OrdersText(d.orderBy)| > 0 by { assert StartsUpper(OrdersText(d.orderBy)); StartsNotEmpty(OrdersText(d.orderBy)); }
    }
  }

  lemma StartsNotEmpty(s: string)
    requires StartsUpper(s)
    ensures |s| > 0
  {
  }

  lemma NoOrderBy(s: string)
    requires WithoutOrderBy(s) || forall i: nat :: i < |s| ==> !Occurs(s, "OrderBy", i)
    ensures IndexOf(s, "OrderBy", 0) == None
  {
    IndexOfIsFirst(s, "OrderBy", 0);
  }

  lemma FirstOrderBy(s: string, rest: string)
    requires forall i: nat :: i < |s| ==> !Occurs(s + ("OrderBy" + rest), "OrderBy", i)
    ensures IndexOf(s + ("OrderBy" + rest), "OrderBy", 0) == Some(|s|)
    ensures (s + ("OrderBy" + rest))[..|s|] == s && (s + ("OrderBy" + rest))[|s| + 7..] == rest
  {
    hide Occurs, IndexOf;
    FirstWord(s, "OrderBy", rest);
  }

  lemma FirstWord(s: string, w: string, rest: string)
    requires |w| > 0 && forall i: nat :: i < |s| ==> !Occurs(s + (w + rest), w, i)
    ensures IndexOf(s + (w + rest), w, 0) == Some(|s|)
    ensures (s + (w + rest))[..|s|] == s && (s + (w + rest))[|s| + |w|..] == rest
  {
    var text := s + (w + rest);
    assert (w + rest)[0..0 + |w|] == w;
    OccursRight(s, w + rest, w, 0);
    IndexOfIsFirst(text, w, 0);
    assert Occurs(text, w, |s|);
    hide Occurs, IndexOf;
  }

  /** Parsing the printed name of a printable descriptor gives the descriptor. */
  lemma ParseUndoesPrint(d: Descriptor)
    requires Printable(d)
    ensures Parsed(Printed(d)) == Ok(d)
  {
    var joined := Joined(PartTexts(d.properties), ConnectorName(d.connector));
    RestOneLine(d);
    PrefixParses(d, joined + OrderByText(d.orderBy));
    OrderBySplits(d);
    PartsSplit(d);
    PartsParse(d);
    PrefixNotEmpty(d);
    hide Printable, ParsePrefix, OrderBySplit, SplitProperties, ParsedParts, Joined, PartTexts, PrefixText, OneLine, OrderByText;
  }

  lemma PrefixNotEmpty(d: Descriptor)
    ensures PrefixText(d) != ""
  {
  }
}
