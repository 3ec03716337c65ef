/** What the characters of the seek condition mean to the database that reads them. */
module SeekReading {
  import opened Options
  import opened SqlText
  import opened ThreeValued
  import opened RelayCursor
  import opened RelaySeek
  import opened SqlReader
  import opened ReadBack
  import opened ReadChains
  import C = SqlCondition
  import SqlUtils

  // -------------------------------------------------- SQL evaluation

  /** What a comparison, known by its characters, says of two cells; NULL compares with nothing. */
  function Spelled(spelling: string, x: Cell, y: Cell): Truth {
    if x.Null? || y.Null? then Unknown
    else match spelling
      case "=" => Of(x.v == y.v)
      case "<" => Of(x.v < y.v)
      case ">" => Of(x.v > y.v)
      case _ => Unknown
  }

  /** The truth of a condition on a row, its parameters bound from `offset` on. */
  function SeekTruth(c: C.Cond, offset: nat, params: seq<Cell>, row: map<string, Cell>): Truth {
    match c
    case Compare(column, spelling, n) =>
      if offset <= n < offset + |params| then Spelled(spelling, CellIn(row, column), params[n - offset]) else Unknown
    case Both(l, r) => And(SeekTruth(l, offset, params, row), SeekTruth(r, offset, params, row))
    case Either(l, r) => Or(SeekTruth(l, offset, params, row), SeekTruth(r, offset, params, row))
    case _ => Unknown
  }

  /** Every parameter the condition names is bound. */
  predicate AllBound(c: C.Cond, offset: nat, count: nat) {
    match c
    case Compare(_, _, n) => offset <= n < offset + count
    case Both(l, r) => AllBound(l, offset, count) && AllBound(r, offset, count)
    case Either(l, r) => AllBound(l, offset, count) && AllBound(r, offset, count)
    case _ => false
  }

  /** The truth of a text; None if the database refuses it: it is no condition, or a parameter is missing. */
  function TextTruth(sql: string, offset: nat, params: seq<Cell>, row: map<string, Cell>): Option<Truth> {
    var c := ReadCondition(sql);
    if c.Some? && AllBound(c.value, offset, |params|) then Some(SeekTruth(c.value, offset, params, row)) else None
  }

  /** The text the builder is given when both rewrites are done. */
  function SeekSql(cols: seq<SortColumn>, backward: bool, values: seq<Cell>, offset: nat): string {
    "(" + Render(SeekPieces(cols, backward, FinalStage(cols, values, offset))) + ")"
  }

  predicate NameableKeys(cols: seq<SortColumn>) {
    forall i :: 0 <= i < |cols| ==> Nameable(cols[i].column)
  }

  // ------------------------------------------------------- the parts

  predicate Numbered(part: seq<Atom>) {
    forall j :: 0 <= j < |part| ==> part[j].hole.Param?
  }

  predicate NameableAtoms(part: seq<Atom>) {
    forall j :: 0 <= j < |part| ==> Nameable(part[j].column)
  }

  /** The conditions of a part. */
  function AtomConds(part: seq<Atom>): (conds: seq<C.Cond>)
    requires Numbered(part)
    ensures |conds| == |part|
    ensures forall j :: 0 <= j < |part| ==> conds[j] == C.Compare(part[j].column, OpText(part[j].op), part[j].hole.n)
  {
    seq(|part|, j requires 0 <= j < |part| => C.Compare(part[j].column, OpText(part[j].op), part[j].hole.n))
  }

  function AtomTexts(part: seq<Atom>): (ts: seq<string>)
    ensures |ts| == |part| && forall j :: 0 <= j < |part| ==> ts[j] == ConditionText(part[j])
  {
    seq(|part|, j requires 0 <= j < |part| => ConditionText(part[j]))
  }

  function PartCond(part: seq<Atom>): C.Cond
    requires |part| > 0 && Numbered(part)
  {
    Chained(AtomConds(part)[0], AtomConds(part)[1..], true)
  }

  lemma OpsKnown(op: CmpOp)
    ensures C.OpOf(OpText(op)).Some?
  {
  }

  lemma AtomReads(a: Atom)
    requires a.hole.Param? && Nameable(a.column)
    ensures Reads(ConditionText(a), C.Compare(a.column, OpText(a.op), a.hole.n))
    ensures Readable(C.Compare(a.column, OpText(a.op), a.hole.n))
  {
    hide Reads, Nameable, Render, C.OpOf, OpText;
    var c := C.Compare(a.column, OpText(a.op), a.hole.n);
    OpsKnown(a.op);
    assert C.CondPieces(c) == AtomPieces(a);
    RenderAtom(a);
    TextRead(c);
  }

  lemma PartText(part: seq<Atom>)
    ensures Render(PartPieces(part)) == "(" + (Join(AtomTexts(part), " AND ") + ")")
  {
    hide Render, PartPieces, ConditionText;
    RenderPart(part, AtomTexts(part));
  }

  /** What stands in parentheses and is no distance is read through. */
  lemma ParenthesesRead(t: string, c: C.Cond)
    requires forall rest :: ReadDistance(t + (")" + rest)).None? && ReadChain(t + (")" + rest), false) == Some(Parsed(c, ")" + rest))
    ensures Reads("(" + (t + ")"), c)
  {
    hide ReadPrim, ReadChain, ReadDistance, NoDigitFirst;
    forall rest | NoDigitFirst(rest) ensures ReadPrim("(" + (t + ")") + rest) == Some(Parsed(c, rest)) {
      assert "(" + (t + ")") + rest == "(" + (t + (")" + rest));
      InParens(t + (")" + rest), c, rest);
    }
  }

  lemma CloseEnds(rest: string)
    ensures Ends(")" + rest)
  {
    Differs(" AND ", ")" + rest, 0);
    Differs(" OR ", ")" + rest, 0);
  }

  lemma PartReads(part: seq<Atom>)
    requires |part| > 0 && Numbered(part) && NameableAtoms(part)
    ensures Reads(Render(PartPieces(part)), PartCond(part))
  {
    hide Reads, ReadChain, ReadDistance, Render, PartPieces, Nameable, Chained, ConditionText, Join, Readable, Ends;
    var ts, conds := AtomTexts(part), AtomConds(part);
    forall j | 0 <= j < |part| ensures Reads(ts[j], conds[j]) { AtomReads(part[j]); }
    PartText(part);
    var t := Join(ts, " AND ");
    forall rest ensures ReadDistance(t + (")" + rest)).None? && ReadChain(t + (")" + rest), false) == Some(Parsed(PartCond(part), ")" + rest)) {
      CloseEnds(rest);
      ReadsJoined(ts, conds, true, ")" + rest);
      FirstText(ts, " AND ", ")" + rest);
      AtomNoDistance(part[0], BehindFirst(ts, true, ")" + rest));
    }
    ParenthesesRead(t, PartCond(part));
  }

  lemma AtomNoDistance(a: Atom, rest: string)
    requires Nameable(a.column)
    ensures ReadDistance(ConditionText(a) + rest).None?
  {
    hide Nameable, ReadName, PieceText, C.OpOf, ReadMetric, SqlUtils.QuoteIdentifier;
    var t := PieceText(a.hole) + rest;
    var tail := " " + OpText(a.op) + " " + t;
    assert ConditionText(a) + rest == C.Quoted(a.column) + tail;
    OpsKnown(a.op);
    OperatorIsNoMetric(OpText(a.op), t);
    ReadsName(a.column, tail);
  }

  // -------------------------------------------------- the whole text

  function PartTexts(parts: seq<seq<Atom>>): (ts: seq<string>)
    ensures |ts| == |parts| && forall d :: 0 <= d < |parts| ==> ts[d] == Render(PartPieces(parts[d]))
  {
    seq(|parts|, d requires 0 <= d < |parts| => Render(PartPieces(parts[d])))
  }

  predicate AllNumbered(parts: seq<seq<Atom>>) {
    forall d :: 0 <= d < |parts| ==> |parts[d]| > 0 && Numbered(parts[d])
  }

  function PartConds(parts: seq<seq<Atom>>): (conds: seq<C.Cond>)
    requires AllNumbered(parts)
    ensures |conds| == |parts| && forall d :: 0 <= d < |parts| ==> conds[d] == PartCond(parts[d])
  {
    seq(|parts|, d requires 0 <= d < |parts| => PartCond(parts[d]))
  }

  lemma WholeText(parts: seq<seq<Atom>>)
    ensures Render(WherePieces(parts)) == Join(PartTexts(parts), " OR ")
  {
    hide Render, PartPieces, WherePieces;
    RenderSeek(parts, PartTexts(parts));
  }

  lemma OpensParenthesis(parts: seq<seq<Atom>>, rest: string)
    requires |parts| > 0
    ensures ReadDistance(Join(PartTexts(parts), " OR ") + rest).None?
  {
    hide PartPieces, Render, ConditionText;
    var ts := PartTexts(parts);
    PartText(parts[0]);
    FirstText(ts, " OR ", rest);
    NoName(Join(ts, " OR ") + rest);
  }

  /** The text of numbered parts is read as their connection. */
  lemma SeekReads(parts: seq<seq<Atom>>)
    requires |parts| > 0 && AllNumbered(parts) && forall d :: 0 <= d < |parts| ==> NameableAtoms(parts[d])
    ensures ReadCondition("(" + Render(WherePieces(parts)) + ")") == Some(Chained(PartConds(parts)[0], PartConds(parts)[1..], false))
  {
    hide Reads, ReadChain, ReadDistance, ReadPrim, Render, PartPieces, WherePieces, Nameable, Chained, Join, NameableAtoms, Ends, PartCond;
    var ts, conds := PartTexts(parts), PartConds(parts);
    forall d | 0 <= d < |parts| ensures Reads(ts[d], conds[d]) { PartReads(parts[d]); }
    WholeText(parts);
    var t, c := Join(ts, " OR "), Chained(conds[0], conds[1..], false);
    CloseEnds("");
    assert ")" + "" == ")";
    ReadsJoined(ts, conds, false, ")");
    OpensParenthesis(parts, ")");
    InParens(t + ")", c, "");
    assert "(" + t + ")" == "(" + (t + ")");
    Alone("(" + (t + ")"), c, "");
  }

  // --------------------------------------------------------- meaning

  lemma SeekComposes(offset: nat, params: seq<Cell>, row: map<string, Cell>)
    ensures Compositional(c => SeekTruth(c, offset, params, row))
  {
  }

  /** The truth of each condition on a row. */
  function SeekTruths(conds: seq<C.Cond>, offset: nat, params: seq<Cell>, row: map<string, Cell>): (ts: seq<Truth>)
    ensures |ts| == |conds| && forall i :: 0 <= i < |conds| ==> ts[i] == SeekTruth(conds[i], offset, params, row)
  {
    seq(|conds|, i requires 0 <= i < |conds| => SeekTruth(conds[i], offset, params, row))
  }

  lemma ChainTruth(conds: seq<C.Cond>, and: bool, offset: nat, params: seq<Cell>, row: map<string, Cell>)
    requires |conds| > 0
    ensures SeekTruth(Chained(conds[0], conds[1..], and), offset, params, row)
         == ConnectedTruth(SeekTruths(conds, offset, params, row), and)
  {
    hide SeekTruth, ConnectedTruth, Chained, Compositional;
    var truth := (c: C.Cond) => SeekTruth(c, offset, params, row);
    SeekComposes(offset, params, row);
    ChainMeans(truth, conds[0], conds[1..], and);
    assert SeekTruths(conds, offset, params, row) == [truth(conds[0])] + Each(truth, conds[1..]);
  }

  /** The strict comparison moves past the cursor in the direction of the column. */
  lemma StrictMeans(dir: Direction, backward: bool, x: Cell, y: Cell)
    ensures Spelled(OpText(StrictOp(dir, backward)), x, y).True? <==> if backward then Sooner(dir, x, y) else Sooner(dir, y, x)
  {
  }

  lemma EqualMeans(x: Cell, y: Cell)
    ensures Spelled(OpText(Eq), x, y).True? <==> SameValue(x, y)
  {
  }

  /** A comparison of a part, its parameter bound to the cursor value of its column. */
  lemma AtomMeaning(cols: seq<SortColumn>, backward: bool, values: seq<Cell>, offset: nat, row: map<string, Cell>, d: nat, j: nat)
    requires j <= d < |cols| <= |values| && Numbered(SeekParts(cols, backward, values, offset)[d])
    ensures SeekTruth(AtomConds(SeekParts(cols, backward, values, offset)[d])[j], offset, SeekParams(cols, values), row)
         == Spelled(OpText(OpAt(cols, backward, d, j)), KeyOf(cols, row)[j], values[j])
  {
    hide Base, Collected, Slot, HoleAt, SeekTruth, OpText, Spelled, OpAt;
    PlaceholdersResolve(cols, backward, values, offset);
    var part, params := SeekParts(cols, backward, values, offset)[d], SeekParams(cols, values);
    assert Bound(part[j].hole, offset, params);
    CompareTruth(part[j].column, OpText(part[j].op), part[j].hole.n, offset, params, row);
  }

  /** A part is true where its column decides. */
  lemma PartMeaning(cols: seq<SortColumn>, backward: bool, values: seq<Cell>, offset: nat, row: map<string, Cell>, d: nat)
    requires |cols| <= |values| && d < |cols|
    requires Numbered(SeekParts(cols, backward, values, offset)[d])
    ensures var key, at := KeyOf(cols, row), values[..|cols|];
      SeekTruth(PartCond(SeekParts(cols, backward, values, offset)[d]), offset, SeekParams(cols, values), row).True? ==
        if backward then DecidedAt(cols, key, at, d) else DecidedAt(cols, at, key, d)
  {
    hide Collected, SeekTruth, Chained, Spelled, OpText, StrictOp, Sooner, SameValue, ConnectedTruth, All, HoleAt;
    var part, params, key := SeekParts(cols, backward, values, offset)[d], SeekParams(cols, values), KeyOf(cols, row);
    var truths := SeekTruths(AtomConds(part), offset, params, row);
    ChainTruth(AtomConds(part), true, offset, params, row);
    AllOfThem(truths);
    forall j | 0 <= j <= d
      ensures truths[j].True? <==> if j < d then SameValue(key[j], values[j])
        else if backward then Sooner(cols[d].direction, key[d], values[d]) else Sooner(cols[d].direction, values[d], key[d])
    {
      AtomMeaning(cols, backward, values, offset, row, d, j);
      EqualMeans(key[j], values[j]);
      StrictMeans(cols[j].direction, backward, key[j], values[j]);
    }
    forall j | 0 <= j < d ensures SameValue(values[j], key[j]) <==> SameValue(key[j], values[j]) {
      SameValueEither(key[j], values[j]);
    }
  }

  lemma SameValueEither(x: Cell, y: Cell)
    ensures SameValue(x, y) <==> SameValue(y, x)
  {
  }

  lemma AllOfThem(truths: seq<Truth>)
    ensures ConnectedTruth(truths, true).True? <==> forall i :: 0 <= i < |truths| ==> truths[i].True?
  {
    AllIsTrue(truths);
  }

  lemma CompareTruth(column: string, spelling: string, n: nat, offset: nat, params: seq<Cell>, row: map<string, Cell>)
    requires offset <= n < offset + |params|
    ensures SeekTruth(C.Compare(column, spelling, n), offset, params, row) == Spelled(spelling, CellIn(row, column), params[n - offset])
  {
  }

  /** With a value for every key column all placeholders are numbered. */
  lemma AllNumberedWhenValued(cols: seq<SortColumn>, backward: bool, values: seq<Cell>, offset: nat)
    requires |cols| <= |values|
    ensures AllNumbered(SeekParts(cols, backward, values, offset))
  {
    hide Collected, Slot, HoleAt;
    PlaceholdersResolve(cols, backward, values, offset);
    var parts: seq<seq<Atom>>, params := SeekParts(cols, backward, values, offset), SeekParams(cols, values);
    forall d, j | 0 <= d < |parts| && 0 <= j < |parts[d]| ensures parts[d][j].hole.Param? {
      assert Bound(parts[d][j].hole, offset, params);
    }
  }

  lemma KeysNameable(cols: seq<SortColumn>, backward: bool, values: seq<Cell>, offset: nat, d: nat)
    requires NameableKeys(cols) && d < |cols|
    ensures NameableAtoms(SeekParts(cols, backward, values, offset)[d])
  {
    hide Nameable, HoleAt;
  }

  lemma {:induction false} ChainBound(first: C.Cond, more: seq<C.Cond>, and: bool, offset: nat, count: nat)
    ensures AllBound(Chained(first, more, and), offset, count) <==>
      AllBound(first, offset, count) && forall i :: 0 <= i < |more| ==> AllBound(more[i], offset, count)
    decreases |more|
  {
    if |more| > 0 {
      ChainBound(Connect(first, more[0], and), more[1..], and, offset, count);
      assert AllBound(Connect(first, more[0], and), offset, count) <==> AllBound(first, offset, count) && AllBound(more[0], offset, count);
      assert forall i :: 1 <= i < |more| ==> more[i] == more[1..][i - 1];
    }
  }

  lemma PartBound(part: seq<Atom>, offset: nat, params: seq<Cell>)
    requires |part| > 0 && Numbered(part) && forall j :: 0 <= j < |part| ==> Bound(part[j].hole, offset, params)
    ensures AllBound(PartCond(part), offset, |params|)
  {
    hide Chained;
    var conds := AtomConds(part);
    forall j | 0 <= j < |conds| ensures AllBound(conds[j], offset, |params|) {
      assert Bound(part[j].hole, offset, params);
    }
    ChainBound(conds[0], conds[1..], true, offset, |params|);
  }

  /** With a value for every key column the text is read, and all its parameters are bound. */
  lemma SeekRuns(cols: seq<SortColumn>, backward: bool, values: seq<Cell>, offset: nat, row: map<string, Cell>)
    requires 0 < |cols| <= |values| && NameableKeys(cols) && AllNumbered(SeekParts(cols, backward, values, offset))
    ensures var conds := PartConds(SeekParts(cols, backward, values, offset));
      TextTruth(SeekSql(cols, backward, values, offset), offset, SeekParams(cols, values), row)
        == Some(SeekTruth(Chained(conds[0], conds[1..], false), offset, SeekParams(cols, values), row))
  {
    hide Chained, ReadCondition, SeekTruth, Part, PartCond, Bound, Collected, WherePieces, NameableKeys, NameableAtoms, AllBound;
    var parts: seq<seq<Atom>>, params := SeekParts(cols, backward, values, offset), SeekParams(cols, values);
    var conds := PartConds(parts);
    PlaceholdersResolve(cols, backward, values, offset);
    forall d | 0 <= d < |parts| ensures NameableAtoms(parts[d]) && AllBound(conds[d], offset, |params|) {
      KeysNameable(cols, backward, values, offset, d);
      PartBound(parts[d], offset, params);
    }
    SeekReads(parts);
    ChainBound(conds[0], conds[1..], false, offset, |params|);
  }

  /**
   * For any sort columns, directions, cursor values, parameter offset and row,
   * NULLs included: the text the database is sent, read as SQL, is true of
   * exactly the rows strictly after the cursor in the sort order, or strictly
   * before it when paging backward.
   */
  lemma SeekIsLexicographic(cols: seq<SortColumn>, backward: bool, values: seq<Cell>, offset: nat, row: map<string, Cell>)
    requires 0 < |cols| <= |values| && NameableKeys(cols)
    ensures var key, at := KeyOf(cols, row), values[..|cols|];
      var truth := TextTruth(SeekSql(cols, backward, values, offset), offset, SeekParams(cols, values), row);
      && truth.Some?
      && truth.value.True? == if backward then LexLess(cols, key, at) else LexLess(cols, at, key)
  {
    hide Base, Collected, SeekTruth, TextTruth, SeekSql, Chained, PartCond, LexLess, DecidedAt, NameableKeys, Part;
    AllNumberedWhenValued(cols, backward, values, offset);
    var parts: seq<seq<Atom>>, params := SeekParts(cols, backward, values, offset), SeekParams(cols, values);
    var key, at, conds := KeyOf(cols, row), values[..|cols|], PartConds(parts);
    SeekRuns(cols, backward, values, offset, row);
    ChainTruth(conds, false, offset, params, row);
    var truths := SeekTruths(conds, offset, params, row);
    AnyIsTrue(truths);
    forall d | 0 <= d < |cols|
      ensures truths[d].True? <==> if backward then DecidedAt(cols, key, at, d) else DecidedAt(cols, at, key, d)
    {
      PartMeaning(cols, backward, values, offset, row, d);
    }
    LexLessIsDecided(cols, key, at);
    LexLessIsDecided(cols, at, key);
  }

  // ------------------------------------------------ too short a cursor

  /** A mark where a parameter should stand is refused. */
  lemma MarkRefused(a: Atom)
    requires a.hole.CursorMark? && Nameable(a.column)
    ensures Refused(ConditionText(a))
  {
    hide ReadPrim, ReadTest, PieceText, Nameable, SqlUtils.QuoteIdentifier;
    forall rest ensures ReadPrim(ConditionText(a) + rest) == None {
      var t := PieceText(a.hole) + rest;
      var tail := " " + OpText(a.op) + " " + t;
      assert ConditionText(a) + rest == C.Quoted(a.column) + tail;
      OpsKnown(a.op);
      ReadsColumn(a.column, tail);
      MarkIsNoParam(a.hole, rest);
      NoMarkTest(a.column, OpText(a.op), t);
    }
  }

  lemma NoMarkTest(column: string, spelling: string, t: string)
    requires C.OpOf(spelling).Some? && |t| > 0 && t[0] == '$' && ReadParam(t).None?
    ensures ReadTest(column, " " + spelling + " " + t) == None
  {
    hide C.OpOf, ReadOperator, ReadParam;
    OnlyCompares(spelling, t);
    ReadsOperator(spelling, t);
  }

  lemma MarkIsNoParam(mark: Piece, rest: string)
    requires mark.CursorMark?
    ensures var t := PieceText(mark) + rest; |t| > 0 && t[0] == '$' && ReadParam(t).None?
  {
    hide Decimal;
    var t := PieceText(mark) + rest;
    assert t[1] == '_';
    assert t[1..][0] == '_';
  }

  /** Parentheses around what is refused are refused. */
  lemma ParenthesesRefused(inner: string)
    requires ReadDistance(inner).None? && ReadChain(inner, false) == None
    ensures ReadPrim("(" + inner) == None
  {
    hide ReadDistance, ReadChain;
    Behind("(", inner);
    Differs("NOT (", "(" + inner, 0);
    Differs("1 = 0", "(" + inner, 0);
  }

  /** A part is refused if one of its comparisons has a mark and those before it are numbered. */
  lemma PartRefused(part: seq<Atom>, k: nat)
    requires k < |part| && part[k].hole.CursorMark? && Numbered(part[..k]) && NameableAtoms(part)
    ensures Refused(Render(PartPieces(part)))
  {
    hide Reads, ReadChain, ReadDistance, ReadPrim, Render, PartPieces, Nameable, ConditionText, Join, Readable, Refused;
    var ts, conds := AtomTexts(part), AtomConds(part[..k]);
    forall j | 0 <= j < k ensures Reads(ts[j], conds[j]) {
      assert part[..k][j] == part[j];
      AtomReads(part[j]);
    }
    MarkRefused(part[k]);
    PartText(part);
    var t := Join(ts, " AND ");
    forall rest ensures ReadPrim("(" + (t + ")") + rest) == None {
      assert "(" + (t + ")") + rest == "(" + (t + (")" + rest));
      RefusedJoined(ts, conds, true, ")" + rest);
      FirstText(ts, " AND ", ")" + rest);
      AtomNoDistance(part[0], BehindFirst(ts, true, ")" + rest));
      ParenthesesRefused(t + (")" + rest));
    }
    AllRefused("(" + (t + ")"));
  }

  lemma AllRefused(t: string)
    requires forall rest :: ReadPrim(t + rest) == None
    ensures Refused(t)
  {
    hide ReadPrim;
  }

  /** A text is refused if one of its parts is and those before it are numbered. */
  lemma SeekRefused(parts: seq<seq<Atom>>, k: nat, j: nat)
    requires k < |parts| && j < |parts[k]| && parts[k][j].hole.CursorMark? && Numbered(parts[k][..j]) && AllNumbered(parts[..k])
    requires forall d :: 0 <= d < |parts| ==> NameableAtoms(parts[d])
    ensures ReadCondition("(" + Render(WherePieces(parts)) + ")") == None
  {
    hide Reads, ReadChain, ReadDistance, ReadPrim, Render, PartPieces, WherePieces, Join, NameableAtoms, PartCond, Refused;
    var ts, conds := PartTexts(parts), PartConds(parts[..k]);
    forall d | 0 <= d < k ensures Reads(ts[d], conds[d]) {
      assert parts[..k][d] == parts[d];
      PartReads(parts[d]);
    }
    PartRefused(parts[k], j);
    WholeText(parts);
    var t := Join(ts, " OR ");
    RefusedJoined(ts, conds, false, ")");
    OpensParenthesis(parts, ")");
    ParenthesesRefused(t + ")");
    assert "(" + t + ")" == "(" + (t + ")");
    AsOperand("(" + (t + ")"));
    NoChain("(" + (t + ")"), true);
    NoChain("(" + (t + ")"), false);
  }

  /** The database accepts the text exactly when the cursor carries a value for every key column. */
  lemma RunnableExactly(cols: seq<SortColumn>, backward: bool, values: seq<Cell>, offset: nat, row: map<string, Cell>)
    requires |cols| > 0 && NameableKeys(cols)
    ensures TextTruth(SeekSql(cols, backward, values, offset), offset, SeekParams(cols, values), row).Some? <==> |cols| <= |values|
  {
    hide TextTruth, LexLess, NameableKeys, WherePieces, Collected, ReadCondition, NameableAtoms;
    if |cols| <= |values| {
      SeekIsLexicographic(cols, backward, values, offset, row);
    } else {
      var parts: seq<seq<Atom>>, k := SeekParts(cols, backward, values, offset), |values|;
      forall d | 0 <= d < |parts| ensures NameableAtoms(parts[d]) { KeysNameable(cols, backward, values, offset, d); }
      NumberedBelow(cols, backward, values, offset);
      SeekRefused(parts, k, k);
      NotCondition(SeekSql(cols, backward, values, offset), offset, SeekParams(cols, values), row);
    }
  }

  lemma NotCondition(sql: string, offset: nat, params: seq<Cell>, row: map<string, Cell>)
    requires ReadCondition(sql) == None
    ensures TextTruth(sql, offset, params, row) == None
  {
  }

  lemma NumberedBelow(cols: seq<SortColumn>, backward: bool, values: seq<Cell>, offset: nat)
    requires |values| < |cols|
    ensures var parts, k := SeekParts(cols, backward, values, offset), |values|;
      AllNumbered(parts[..k]) && Numbered(parts[k][..k]) && parts[k][k].hole.CursorMark?
  {
    hide Slot;
    var n, k := |cols|, |values|;
    var parts: seq<seq<Atom>> := SeekParts(cols, backward, values, offset);
    forall d, j | 0 <= j <= d < n && j < k ensures parts[d][j].hole.Param? { SlotBelow(n, d, j, k); }
  }

  lemma SlotBelow(n: nat, d: nat, j: nat, k: nat)
    requires j <= d < n && j < k <= n
    ensures Slot(n, d, j) < Base(n, k)
  {
    SlotsDistinct(n, d, j, d, j);
    if j + 1 < k { BaseGrows(n, j + 1, k); }
  }
}
