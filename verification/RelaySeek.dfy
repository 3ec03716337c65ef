/** The order a seek condition is about, the parameters it is given, and where positional binding would break it. */
module RelaySeek {
  import opened SqlText
  import opened RelayCursor

  // --------------------------------------------- lexicographic order

  /** SQL equality: NULL equals nothing. */
  predicate SameValue(x: Cell, y: Cell) {
    x.Val? && x == y
  }

  /** Whether x sorts strictly before y in a column of this direction. */
  predicate Sooner(dir: Direction, x: Cell, y: Cell) {
    x.Val? && y.Val? && if dir == Asc then x.v < y.v else x.v > y.v
  }

  /** The row-value comparison (a1, ..., an) before (b1, ..., bn), each column in its own direction. */
  ghost predicate LexLess(cols: seq<SortColumn>, a: seq<Cell>, b: seq<Cell>)
    requires |a| == |b| == |cols|
  {
    |cols| > 0 &&
    (Sooner(cols[0].direction, a[0], b[0]) || (SameValue(a[0], b[0]) && LexLess(cols[1..], a[1..], b[1..])))
  }

  /** Column d decides: the earlier columns agree and column d is strictly sooner. */
  ghost predicate DecidedAt(cols: seq<SortColumn>, a: seq<Cell>, b: seq<Cell>, d: nat)
    requires |a| == |b| == |cols| && d < |cols|
  {
    Sooner(cols[d].direction, a[d], b[d]) && forall j :: 0 <= j < d ==> SameValue(a[j], b[j])
  }

  lemma {:induction false} LexLessIsDecided(cols: seq<SortColumn>, a: seq<Cell>, b: seq<Cell>)
    requires |a| == |b| == |cols|
    ensures LexLess(cols, a, b) <==> exists d :: 0 <= d < |cols| && DecidedAt(cols, a, b, d)
  {
    if |cols| > 0 {
      var cols', a', b' := cols[1..], a[1..], b[1..];
      LexLessIsDecided(cols', a', b');
      if LexLess(cols, a, b) {
        if Sooner(cols[0].direction, a[0], b[0]) {
          assert DecidedAt(cols, a, b, 0);
        } else {
          var d :| 0 <= d < |cols'| && DecidedAt(cols', a', b', d);
          forall j | 0 <= j < d + 1 ensures SameValue(a[j], b[j]) {
            if j > 0 { assert SameValue(a'[j - 1], b'[j - 1]); }
          }
          assert DecidedAt(cols, a, b, d + 1);
        }
      }
      forall d | 0 <= d < |cols| && DecidedAt(cols, a, b, d) ensures LexLess(cols, a, b) {
        if d > 0 { assert DecidedAt(cols', a', b', d - 1); }
      }
    }
  }

  // ------------------------------------------------ keys and parameters

  function CellIn(row: map<string, Cell>, column: string): Cell {
    if column in row then row[column] else Null
  }

  /** A placeholder that the parameters, bound from `offset` on, give a value to. */
  predicate Bound(hole: Piece, offset: nat, params: seq<Cell>) {
    hole.Param? && offset <= hole.n < offset + |params|
  }

  /** Every placeholder of the condition has a value: the statement can run. */
  predicate Runnable(parts: seq<seq<Atom>>, offset: nat, params: seq<Cell>) {
    forall d, j :: 0 <= d < |parts| && 0 <= j < |parts[d]| ==> Bound(parts[d][j].hole, offset, params)
  }

  function KeyOf(cols: seq<SortColumn>, row: map<string, Cell>): (key: seq<Cell>)
    ensures |key| == |cols|
    ensures forall j :: 0 <= j < |cols| ==> key[j] == CellIn(row, cols[j].column)
  {
    seq(|cols|, j requires 0 <= j < |cols| => CellIn(row, cols[j].column))
  }

  /** The stage both rewrites end in. */
  function FinalStage(cols: seq<SortColumn>, values: seq<Cell>, offset: nat): Stage {
    var m := Cutoff(|cols|, values);
    Stage(m, offset, Base(|cols|, m))
  }

  /** The condition as it reaches the database, and its parameters. */
  function SeekParts(cols: seq<SortColumn>, backward: bool, values: seq<Cell>, offset: nat): seq<seq<Atom>> {
    Parts(cols, backward, FinalStage(cols, values, offset))
  }

  function SeekParams(cols: seq<SortColumn>, values: seq<Cell>): seq<Cell> {
    Collected(|cols|, values, Cutoff(|cols|, values))
  }

  /**
   * With a value for every column, each placeholder is its own parameter and
   * resolves to its own column's cursor value, and n(n+1)/2 parameters are sent.
   */
  lemma PlaceholdersResolve(cols: seq<SortColumn>, backward: bool, values: seq<Cell>, offset: nat)
    requires |cols| <= |values|
    ensures var parts, params := SeekParts(cols, backward, values, offset), SeekParams(cols, values);
      && Runnable(parts, offset, params)
      && (forall d, j :: 0 <= j <= d < |cols| ==> params[parts[d][j].hole.n - offset] == values[j])
      && (forall d, j, e, i :: 0 <= j <= d < |cols| && 0 <= i <= e < |cols| && parts[d][j].hole == parts[e][i].hole
            ==> d == e && j == i)
      && 2 * |params| == |cols| * (|cols| + 1)
  {
    var n := |cols|;
    var parts: seq<seq<Atom>>, params := SeekParts(cols, backward, values, offset), SeekParams(cols, values);
    forall d, j | 0 <= j <= d < n
      ensures parts[d][j].hole == Param(offset + Slot(n, d, j)) && Slot(n, d, j) < |params|
      ensures params[Slot(n, d, j)] == values[j]
    {
      CollectedAt(n, values, n, d, j);
    }
    forall d, j, e, i | 0 <= j <= d < n && 0 <= i <= e < n && parts[d][j].hole == parts[e][i].hole
      ensures d == e && j == i
    {
      SlotsDistinct(n, d, j, e, i);
    }
    BaseTotal(n, n);
  }

  // ----------------------------------------------- positional binding

  /** The parameter numbers of a part: those of its placeholders. */
  function Holes(part: seq<Atom>): seq<nat> {
    if |part| == 0 then [] else (if part[0].hole.Param? then [part[0].hole.n] else []) + Holes(part[1..])
  }

  lemma NumbersOfAtom(a: Atom)
    ensures Numbers(AtomPieces(a)) == if a.hole.Param? then [a.hole.n] else []
  {
    var ps := AtomPieces(a);
    assert ps[1..] == [a.hole] && ps[1..][1..] == [];
    assert Numbers(ps[1..]) == if a.hole.Param? then [a.hole.n] else [];
  }

  function AtomsPieces(part: seq<Atom>): seq<seq<Piece>> {
    seq(|part|, j requires 0 <= j < |part| => AtomPieces(part[j]))
  }

  lemma {:induction false} NumbersOfConjunction(part: seq<Atom>)
    ensures Numbers(JoinPieces(AtomsPieces(part), " AND ")) == Holes(part)
  {
    if |part| > 1 {
      NumbersOfAtom(part[0]);
      NumbersOfConjunction(part[1..]);
      assert AtomsPieces(part)[1..] == AtomsPieces(part[1..]);
      NumbersOfJoin(AtomsPieces(part), " AND ");
    } else if |part| == 1 {
      NumbersOfAtom(part[0]);
      assert Holes(part[1..]) == [];
    }
  }

  lemma NumbersOfPart(part: seq<Atom>)
    ensures Numbers(PartPieces(part)) == Holes(part)
  {
    var inner, close := ConjunctionPieces(part), [Lit(")")];
    NumbersOfConjunction(part);
    assert inner == JoinPieces(AtomsPieces(part), " AND ");
    NumbersConcat(inner, close);
    assert close[1..] == [];
    assert PartPieces(part)[1..] == inner + close;
  }

  lemma NumbersOfWhere(rows: seq<seq<Atom>>)
    requires |rows| > 0
    ensures Numbers(WherePieces(rows)) == Holes(rows[0]) + if |rows| == 1 then [] else Numbers(WherePieces(rows[1..]))
  {
    hide PartPieces, Holes;
    var pss := seq(|rows|, d requires 0 <= d < |rows| => PartPieces(rows[d]));
    var rest := rows[1..];
    NumbersOfPart(rows[0]);
    if |rows| > 1 {
      assert pss[1..] == seq(|rest|, d requires 0 <= d < |rest| => PartPieces(rest[d]));
      NumbersOfJoin(pss, " OR ");
    }
  }

  lemma FirstTwoParts(cols: seq<SortColumn>, backward: bool, values: seq<Cell>, offset: nat)
    requires |cols| <= |values|
    ensures var parts := SeekParts(cols, backward, values, offset);
      && (|cols| > 0 ==> Holes(parts[0]) == [offset])
      && (|cols| > 1 ==> Holes(parts[1]) == [offset + 1, offset + |cols|])
  {
    var n, parts: seq<seq<Atom>> := |cols|, SeekParts(cols, backward, values, offset);
    assert forall d, j :: 0 <= j <= d < n ==> parts[d][j].hole == Param(offset + Slot(n, d, j)) by {
      forall d, j | 0 <= j <= d < n ensures Slot(n, d, j) < Base(n, n) { SlotsDistinct(n, d, j, d, j); }
    }
    if n > 0 {
      assert parts[0][1..] == [] && Holes(parts[0][1..]) == [];
      assert Base(n, 0) == 0;
    }
    if n > 1 {
      assert Slot(n, 1, 1) == Base(n, 1) == n && Slot(n, 1, 0) == 1;
      var tail := parts[1][1..];
      assert tail == [parts[1][1]] && tail[1..] == [];
      assert Holes(tail) == [offset + n];
    }
  }

  /**
   * The parameters stand in the text in order of their numbers exactly when
   * there are at most two key columns. Drivers that turn every `$n` into `?`
   * and bind by position therefore mis-bind from three key columns on.
   */
  lemma PositionalExactly(cols: seq<SortColumn>, backward: bool, values: seq<Cell>, offset: nat)
    requires 0 < |cols| <= |values|
    ensures LeftToRight(Numbers(SeekPieces(cols, backward, FinalStage(cols, values, offset))), offset) <==> |cols| <= 2
  {
    hide Holes, WherePieces, Part, Base, Slot;
    var parts := SeekParts(cols, backward, values, offset);
    var numbers := Numbers(WherePieces(parts));
    FirstTwoParts(cols, backward, values, offset);
    NumbersOfWhere(parts);
    if |cols| > 1 {
      var rest := parts[1..];
      NumbersOfWhere(rest);
      assert rest[0] == parts[1];
      assert |cols| == 2 <==> |rest| == 1;
      assert numbers[2] == offset + |cols|;
    }
  }

  /** From three key columns on, the third `?` compares the second column with the first column's cursor value. */
  lemma ThirdQuestionMark(cols: seq<SortColumn>, backward: bool, values: seq<Cell>, offset: nat)
    requires 3 <= |cols| <= |values|
    ensures var numbers, params := Numbers(SeekPieces(cols, backward, FinalStage(cols, values, offset))), SeekParams(cols, values);
      && |numbers| >= 3 && numbers[..3] == [offset, offset + 1, offset + |cols|]
      && |params| > |cols| && params[2] == values[0] && params[|cols|] == values[1]
  {
    hide Holes, WherePieces, Part, Slot, Base, Collected;
    var parts: seq<seq<Atom>> := SeekParts(cols, backward, values, offset);
    ThirdParameter(cols, values);
    FirstTwoParts(cols, backward, values, offset);
    NumbersOfWhere(parts);
    NumbersOfWhere(parts[1..]);
    assert parts[1..][0] == parts[1];
  }

  lemma ThirdParameter(cols: seq<SortColumn>, values: seq<Cell>)
    requires 3 <= |cols| <= |values|
    ensures var params := SeekParams(cols, values);
      |params| > |cols| && params[2] == values[0] && params[|cols|] == values[1]
  {
    hide Collected;
    var n := |cols|;
    CollectedAt(n, values, n, 2, 0);
    CollectedAt(n, values, n, 1, 1);
    assert Slot(n, 2, 0) == 2 && Slot(n, 1, 1) == n by { assert Base(n, 0) == 0 && Base(n, 1) == n; }
  }
}
