/** Chains of conditions are read back with their meaning, and refused if one of them is. */
module ReadChains {
  import opened Options
  import opened SqlText
  import opened SqlCondition
  import opened SqlReader
  import opened ReadBack
  import opened ThreeValued

  // ------------------------------------------------------------ chains

  function Texts(conds: seq<Cond>): (ts: seq<string>)
    ensures |ts| == |conds| && forall i :: 0 <= i < |conds| ==> ts[i] == Render(CondPieces(conds[i]))
  {
    seq(|conds|, i requires 0 <= i < |conds| => Render(CondPieces(conds[i])))
  }

  /** A condition and more, connected from the left. */
  function Chained(first: Cond, more: seq<Cond>, and: bool): Cond
    decreases |more|
  {
    if |more| == 0 then first else Chained(Connect(first, more[0], and), more[1..], and)
  }

  predicate AllReadable(conds: seq<Cond>) {
    forall i :: 0 <= i < |conds| ==> Readable(conds[i])
  }

  /** What ends a chain of this kind: a digit would belong to its last parameter, AND binds closer than OR. */
  predicate EndsChain(rest: string, and: bool) {
    NoDigitFirst(rest) && !(Connective(and) <= rest) && !(" AND " <= rest)
  }

  /** The text is read as the condition, whatever follows it but a digit. */
  ghost predicate Reads(t: string, c: Cond) {
    forall rest :: NoDigitFirst(rest) ==> ReadPrim(t + rest) == Some(Parsed(c, rest))
  }

  ghost predicate AllRead(ts: seq<string>, conds: seq<Cond>) {
    |ts| >= |conds| && forall i :: 0 <= i < |conds| ==> Reads(ts[i], conds[i])
  }

  lemma TextRead(c: Cond)
    requires Readable(c)
    ensures Reads(Render(CondPieces(c)), c)
  {
    hide ReadPrim, Render, CondPieces, Readable, NoDigitFirst;
    forall rest | NoDigitFirst(rest) ensures ReadPrim(Render(CondPieces(c)) + rest) == Some(Parsed(c, rest)) {
      ReadsPrim(c, rest);
    }
  }

  lemma TextsRead(conds: seq<Cond>)
    requires AllReadable(conds)
    ensures AllRead(Texts(conds), conds)
  {
    hide Reads, Render, CondPieces, Readable;
    forall i | 0 <= i < |conds| ensures Reads(Texts(conds)[i], conds[i]) { TextRead(conds[i]); }
  }

  lemma ReadFirst(ts: seq<string>, conds: seq<Cond>, rest: string)
    requires |conds| > 0 && AllRead(ts, conds) && NoDigitFirst(rest)
    ensures ReadPrim(ts[0] + rest) == Some(Parsed(conds[0], rest))
    ensures AllRead(ts[1..], conds[1..])
  {
    hide ReadPrim, NoDigitFirst;
    assert Reads(ts[0], conds[0]);
  }

  /** What stands behind the first text. */
  function BehindFirst(ts: seq<string>, and: bool, rest: string): string
    requires |ts| > 0
  {
    if |ts| == 1 then rest else Connective(and) + (Join(ts[1..], Connective(and)) + rest)
  }

  lemma FirstText(ts: seq<string>, sep: string, rest: string)
    requires |ts| > 0
    ensures Join(ts, sep) + rest == ts[0] + if |ts| == 1 then rest else sep + (Join(ts[1..], sep) + rest)
  {
    if |ts| > 1 {
      var tail := Join(ts[1..], sep);
      Assoc(sep, tail, rest);
      Assoc(ts[0], sep + tail, rest);
    }
  }

  /** No digit follows the first text, nor an AND that would bind closer. */
  lemma BehindEnds(ts: seq<string>, and: bool, rest: string)
    requires |ts| > 0 && (|ts| == 1 ==> EndsChain(rest, and))
    ensures NoDigitFirst(BehindFirst(ts, and, rest)) && (!and ==> !(" AND " <= BehindFirst(ts, and, rest)))
  {
    if |ts| > 1 && !and { Differs(" AND ", BehindFirst(ts, and, rest), 1); }
  }

  lemma {:induction false} ReadsRest(sofar: Cond, ts: seq<string>, conds: seq<Cond>, and: bool, rest: string)
    requires |ts| == |conds| > 0 && AllRead(ts, conds) && EndsChain(rest, and)
    ensures ReadMore(sofar, Connective(and) + (Join(ts, Connective(and)) + rest), and) == Some(Parsed(Chained(sofar, conds, and), rest))
    decreases |conds|
  {
    hide ReadMore, ReadOperand, ReadPrim, Connect, Reads, AllRead, NoDigitFirst;
    var acc, behind := Connect(sofar, conds[0], and), BehindFirst(ts, and, rest);
    FirstText(ts, Connective(and), rest);
    BehindEnds(ts, and, rest);
    ReadFirst(ts, conds, behind);
    Operand(ts[0] + behind, and, conds[0], behind);
    GoesOn(sofar, ts[0] + behind, and, conds[0], behind);
    if |conds| == 1 {
      Stops(acc, rest, and);
      assert Chained(acc, conds[1..], and) == acc;
    } else {
      ReadsRest(acc, ts[1..], conds[1..], and, rest);
    }
  }

  /** Conditions joined by one connective are read as their connection, from the left. */
  lemma ReadsJoined(ts: seq<string>, conds: seq<Cond>, and: bool, rest: string)
    requires |ts| == |conds| > 0 && AllRead(ts, conds) && Ends(rest)
    ensures ReadChain(Join(ts, Connective(and)) + rest, false) == Some(Parsed(Chained(conds[0], conds[1..], and), rest))
  {
    hide ReadMore, ReadOperand, ReadPrim, ReadChain, Chained, Reads, AllRead, NoDigitFirst;
    var text, behind := Join(ts, Connective(and)) + rest, BehindFirst(ts, and, rest);
    FirstText(ts, Connective(and), rest);
    BehindEnds(ts, and, rest);
    ReadFirst(ts, conds, behind);
    Operand(text, and, conds[0], behind);
    Starts(text, and, conds[0], behind);
    if |conds| == 1 {
      Stops(conds[0], rest, and);
      OnlyOne(conds[0], conds[1..], and);
    } else {
      ReadsRest(conds[0], ts[1..], conds[1..], and, rest);
    }
    WholeChain(text, and, Chained(conds[0], conds[1..], and), rest);
  }

  lemma OnlyOne(first: Cond, more: seq<Cond>, and: bool)
    requires |more| == 0
    ensures Chained(first, more, and) == first
  {
  }

  /** The text of joined conditions is read back. */
  lemma ReadsConditions(conds: seq<Cond>, and: bool)
    requires |conds| > 0 && AllReadable(conds)
    ensures ReadCondition(Join(Texts(conds), Connective(and))) == Some(Chained(conds[0], conds[1..], and))
  {
    hide ReadChain, Chained, Texts, Join, Readable;
    TextsRead(conds);
    ReadsJoined(Texts(conds), conds, and, "");
    assert Join(Texts(conds), Connective(and)) + "" == Join(Texts(conds), Connective(and));
  }

  /** The text of one condition is read back. */
  lemma ReadsCondition(c: Cond)
    requires Readable(c)
    ensures ReadCondition(Render(CondPieces(c))) == Some(c)
  {
    hide Readable, Render, CondPieces, ReadCondition;
    ReadsConditions([c], true);
    assert Texts([c]) == [Render(CondPieces(c))];
    assert [c][1..] == [];
  }

  function Truths(db: Database, conds: seq<Cond>, row: Row, env: nat -> Value): (ts: seq<Truth>)
    ensures |ts| == |conds| && forall i :: 0 <= i < |conds| ==> ts[i] == CondTruth(db, conds[i], row, env)
  {
    seq(|conds|, i requires 0 <= i < |conds| => CondTruth(db, conds[i], row, env))
  }

  function Two(t: Truth, u: Truth, and: bool): Truth {
    if and then And(t, u) else Or(t, u)
  }

  lemma FirstTwo(t: Truth, u: Truth, ts: seq<Truth>, and: bool)
    ensures ConnectedTruth([Two(t, u, and)] + ts, and) == ConnectedTruth([t] + ([u] + ts), and)
  {
    hide ConnectedTruth;
    ConsTruth(Two(t, u, and), ts, and);
    ConsTruth(t, [u] + ts, and);
    ConsTruth(u, ts, and);
  }

  lemma ConsTruth(t: Truth, ts: seq<Truth>, and: bool)
    ensures ConnectedTruth([t] + ts, and) == Two(t, ConnectedTruth(ts, and), and)
  {
    assert ([t] + ts)[1..] == ts;
  }

  lemma OneTruth(t: Truth, and: bool)
    ensures ConnectedTruth([t], and) == t
  {
    assert [t][1..] == [] && All([]) == True && Any([]) == False;
  }

  /** Any reading that gives a pair the truth of its halves together. */
  ghost predicate Compositional(truth: Cond -> Truth) {
    forall l, r, and :: truth(Connect(l, r, and)) == Two(truth(l), truth(r), and)
  }

  function Each(truth: Cond -> Truth, conds: seq<Cond>): (ts: seq<Truth>)
    ensures |ts| == |conds| && forall i :: 0 <= i < |conds| ==> ts[i] == truth(conds[i])
  {
    seq(|conds|, i requires 0 <= i < |conds| => truth(conds[i]))
  }

  /** A connection means all, or any, of what it connects. */
  lemma {:induction false} ChainMeans(truth: Cond -> Truth, first: Cond, more: seq<Cond>, and: bool)
    requires Compositional(truth)
    ensures truth(Chained(first, more, and)) == ConnectedTruth([truth(first)] + Each(truth, more), and)
    decreases |more|
  {
    hide ConnectedTruth, Connect, Two, Compositional;
    if |more| == 0 {
      OneTruth(truth(first), and);
      assert [truth(first)] + Each(truth, more) == [truth(first)];
    } else {
      var rest := Each(truth, more[1..]);
      ChainMeans(truth, Connect(first, more[0], and), more[1..], and);
      Composes(truth, first, more[0], and);
      FirstTwo(truth(first), truth(more[0]), rest, and);
      assert Each(truth, more) == [truth(more[0])] + rest;
    }
  }

  lemma Composes(truth: Cond -> Truth, l: Cond, r: Cond, and: bool)
    requires Compositional(truth)
    ensures truth(Connect(l, r, and)) == Two(truth(l), truth(r), and)
  {
  }

  lemma ConnectedMeans(db: Database, conds: seq<Cond>, and: bool, row: Row, env: nat -> Value)
    requires |conds| > 0
    ensures CondTruth(db, Chained(conds[0], conds[1..], and), row, env) == ConnectedTruth(Truths(db, conds, row, env), and)
  {
    hide CondTruth, ConnectedTruth, Chained, Connect;
    var truth := (c: Cond) => CondTruth(db, c, row, env);
    forall l, r, both ensures truth(Connect(l, r, both)) == Two(truth(l), truth(r), both) { PairMeans(db, l, r, both, row, env); }
    ChainMeans(truth, conds[0], conds[1..], and);
    assert Truths(db, conds, row, env) == [truth(conds[0])] + Each(truth, conds[1..]);
  }

  lemma PairMeans(db: Database, l: Cond, r: Cond, and: bool, row: Row, env: nat -> Value)
    ensures CondTruth(db, Connect(l, r, and), row, env) == Two(CondTruth(db, l, row, env), CondTruth(db, r, row, env), and)
  {
    hide And, Or, InTruth, CellIn, OpOf;
    assert Connect(l, r, and) == if and then Both(l, r) else Either(l, r);
  }

  /** The text of joined conditions means all, or any, of them. */
  lemma TextMeans(db: Database, conds: seq<Cond>, and: bool, row: Row, env: nat -> Value)
    requires |conds| > 0 && AllReadable(conds)
    ensures TextTruth(db, Join(Texts(conds), Connective(and)), row, env)
         == Some(ConnectedTruth(Truths(db, conds, row, env), and))
  {
    hide ReadCondition, Chained, CondTruth, ConnectedTruth, Texts, Join, Readable;
    ReadsConditions(conds, and);
    ConnectedMeans(db, conds, and, row, env);
  }

  // ------------------------------------------------------ what is no condition

  /** Text that is not read as a condition, whatever follows it. */
  ghost predicate Refused(t: string) {
    forall rest :: ReadPrim(t + rest) == None
  }

  /** Behind conditions that are read, one that is refused makes the chain be refused. */
  lemma {:induction false} RefusedRest(sofar: Cond, ts: seq<string>, conds: seq<Cond>, and: bool, rest: string)
    requires |ts| > |conds| && AllRead(ts, conds) && Refused(ts[|conds|])
    ensures ReadMore(sofar, Connective(and) + (Join(ts, Connective(and)) + rest), and) == None
    decreases |conds|
  {
    hide ReadMore, ReadOperand, ReadPrim, Connect, Refused, NoDigitFirst, Reads, AllRead;
    var behind := BehindFirst(ts, and, rest);
    FirstText(ts, Connective(and), rest);
    if |conds| == 0 {
      RefusedOperand(ts[0], behind, and);
      NoFurther(sofar, ts[0] + behind, and);
    } else {
      BehindEnds(ts, and, rest);
      ReadFirst(ts, conds, behind);
      RefusedRest(Connect(sofar, conds[0], and), ts[1..], conds[1..], and, rest);
      Operand(ts[0] + behind, and, conds[0], behind);
      GoesOn(sofar, ts[0] + behind, and, conds[0], behind);
    }
  }

  lemma RefusedOperand(t: string, rest: string, and: bool)
    requires Refused(t)
    ensures ReadOperand(t + rest, and) == None
  {
    hide ReadPrim, ReadMore;
    AsOperand(t + rest);
    assert ReadPrim(t + rest) == None;
  }

  lemma NoFurther(sofar: Cond, t: string, and: bool)
    requires ReadOperand(t, and) == None
    ensures ReadMore(sofar, Connective(and) + t, and) == None
  {
    hide ReadOperand;
    Behind(Connective(and), t);
  }

  lemma NoChain(s: string, and: bool)
    requires ReadOperand(s, and) == None
    ensures ReadChain(s, and) == None
  {
    hide ReadOperand;
  }

  /** A list of conditions of which one is refused is no condition. */
  lemma RefusedJoined(ts: seq<string>, conds: seq<Cond>, and: bool, rest: string)
    requires |ts| > |conds| && AllRead(ts, conds) && Refused(ts[|conds|])
    ensures ReadChain(Join(ts, Connective(and)) + rest, false) == None
  {
    hide ReadChain, ReadMore, ReadOperand, ReadPrim, Refused, NoDigitFirst, Reads, AllRead;
    var behind := BehindFirst(ts, and, rest);
    var text := ts[0] + behind;
    FirstText(ts, Connective(and), rest);
    if |conds| == 0 {
      RefusedOperand(ts[0], behind, and);
      NoChain(text, and);
    } else {
      BehindEnds(ts, and, rest);
      ReadFirst(ts, conds, behind);
      RefusedRest(conds[0], ts[1..], conds[1..], and, rest);
      Operand(text, and, conds[0], behind);
      Starts(text, and, conds[0], behind);
    }
    if and {
      AsOperand(text);
      NoChain(text, false);
    }
  }

  /** A column in front of the constant that replaces an empty list is refused, negated or not. */
  lemma ColumnBeforeConstant(column: string)
    requires Nameable(column)
    ensures Refused(Quoted(column) + " (1=0)") && Refused("NOT (" + Quoted(column) + " (1=0))")
  {
    hide ReadPrim, Quoted, Nameable;
    forall rest ensures ReadPrim(Quoted(column) + " (1=0)" + rest) == None {
      ConstantIsNoTest(column, rest);
      Assoc(Quoted(column), " (1=0)", rest);
    }
    forall rest ensures ReadPrim("NOT (" + Quoted(column) + " (1=0))" + rest) == None {
      var inner := Quoted(column) + (" (1=0)" + (")" + rest));
      ConstantIsNoTest(column, ")" + rest);
      NotRefused(inner);
      assert "NOT (" + Quoted(column) + " (1=0))" + rest == "NOT (" + inner;
    }
  }

  lemma ConstantIsNoTest(column: string, rest: string)
    requires Nameable(column)
    ensures ReadPrim(Quoted(column) + (" (1=0)" + rest)) == None
  {
    hide ReadPrim, Quoted, Nameable;
    var s := " (1=0)" + rest;
    ReadsColumn(column, s);
    assert s[1] == '(';
    Differs(" IS NULL", s, 1);
    Differs(" IS NOT NULL", s, 1);
    Differs(" = TRUE", s, 1);
    Differs(" = FALSE", s, 1);
    Differs(" IN (", s, 1);
    Differs(" BETWEEN ", s, 1);
    NoOperator(s);
  }

  lemma NoOperator(s: string)
    requires |s| > 1 && s[1] == '('
    ensures ReadOperator(s) == None
  {
    Differs(" = ", s, 1);
    Differs(" <> ", s, 1);
    Differs(" != ", s, 1);
    Differs(" > ", s, 1);
    Differs(" >= ", s, 1);
    Differs(" < ", s, 1);
    Differs(" <= ", s, 1);
    Differs(" LIKE ", s, 1);
  }

  lemma NotRefused(inner: string)
    requires ReadPrim(inner) == None
    ensures ReadPrim("NOT (" + inner) == None
  {
    hide ReadPrim;
    AsOperand(inner);
    NoChain(inner, true);
    NoChain(inner, false);
    NotOfNothing(inner);
  }

  lemma NotOfNothing(inner: string)
    requires ReadChain(inner, false) == None
    ensures ReadPrim("NOT (" + inner) == None
  {
    hide ReadChain;
    Behind("NOT (", inner);
  }
}
