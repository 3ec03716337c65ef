/** For which names of tables and columns binding writes the intended statement whatever the lists hold. */
module BindingNames {
  import opened Options
  import opened SqlText
  import opened SqlCondition
  import opened QueryTemplate
  import opened CompiledQuery
  import opened QueryCompiler
  import opened DerivedEquivalence
  import D = DerivedQuery

  /** A given of either kind; only the kind decides what is searched. */
  function Kind(list: bool): Given {
    if list then Spread([]) else Scalar(Undefined)
  }

  ghost predicate OfKinds(givens: seq<Given>, lists: seq<bool>) {
    |givens| == |lists| && forall i :: 0 <= i < |givens| ==> givens[i].Spread? == lists[i]
  }

  lemma SameSearch(sql: string, from: nat, n: nat, g: Given)
    requires from <= |sql|
    ensures FindHole(sql, from, n, g) == FindHole(sql, from, n, Kind(g.Spread?)) && HoleText(g, n) == HoleText(Kind(g.Spread?), n)
  {
    HoleCases(sql, from, n, g);
    HoleCases(sql, from, n, Kind(g.Spread?));
  }

  /** The searches stop at their own holes from the first list on, whose length moves all later numbers. Before it they may
      stop too early, where the same placeholder is written back. */
  predicate StopsAtHoles(sql: string, slots: seq<Slot>, lists: seq<bool>, n: nat, lastPos: nat, moved: bool)
    requires lastPos <= |sql|
    decreases |lists|
  {
    if |lists| == 0 then true
    else
      var hole, idx := FromHole(slots), FindHole(sql, lastPos, n, Kind(lists[0]));
      && |hole| > 0 && idx != -1
      && (moved || lists[0] ==> idx == HoleAt(sql, slots))
      && (HoleEnds(sql, idx, n, Kind(lists[0]));
          StopsAtHoles(sql, hole[1..], lists[1..], n + 1, idx + |HoleText(Kind(lists[0]), n)|, moved || lists[0]))
  }

  lemma StopsFirst(sql: string, slots: seq<Slot>, lists: seq<bool>, n: nat, lastPos: nat, moved: bool)
    requires lastPos <= |sql| && |lists| > 0 && |FromHole(slots)| > 0 && FindHole(sql, lastPos, n, Kind(lists[0])) != -1
    ensures var idx := FindHole(sql, lastPos, n, Kind(lists[0]));
      && idx + |HoleText(Kind(lists[0]), n)| <= |sql|
      && (StopsAtHoles(sql, slots, lists, n, lastPos, moved) <==>
            && (moved || lists[0] ==> idx == HoleAt(sql, slots))
            && StopsAtHoles(sql, FromHole(slots)[1..], lists[1..], n + 1, idx + |HoleText(Kind(lists[0]), n)|, moved || lists[0]))
  {
    HoleEnds(sql, FindHole(sql, lastPos, n, Kind(lists[0])), n, Kind(lists[0]));
  }

  lemma StopsHere(sql: string, slots: seq<Slot>, lists: seq<bool>, n: nat, lastPos: nat, moved: bool)
    requires lastPos <= |sql| && |lists| > 0 && StopsAtHoles(sql, slots, lists, n, lastPos, moved)
    ensures |FromHole(slots)| > 0 && FindHole(sql, lastPos, n, Kind(lists[0])) != -1
  {
  }

  lemma NoneLeft(sql: string, slots: seq<Slot>, givens: seq<Given>, n: nat, lastPos: nat, o: nat)
    requires lastPos <= |sql| && |givens| == 0
    ensures FindsHoles(sql, slots, givens, n, lastPos, o)
  {
  }

  /** A scalar with its own number is written back unchanged. */
  lemma Unmoved(g: Given, n: nat)
    ensures g.Scalar? ==> FilledText(g, n) == HoleText(g, n) && Width(g) == 1
  {
  }

  /** Then the holes are found for all lists. */
  lemma {:induction false} StoppingFinds(sql: string, slots: seq<Slot>, lists: seq<bool>, givens: seq<Given>,
                                         n: nat, lastPos: nat, o: nat, moved: bool)
    requires lastPos <= |sql| && StopsAtHoles(sql, slots, lists, n, lastPos, moved)
    requires OfKinds(givens, lists) && (!moved ==> o == n)
    ensures FindsHoles(sql, slots, givens, n, lastPos, o)
    decreases |givens|
  {
    hide FindHole, HoleHere, FromHole, HoleAt, HoleText, FilledText, StopsAtHoles, FindsHoles;
    if |givens| == 0 {
      NoneLeft(sql, slots, givens, n, lastPos, o);
    } else {
      var g := givens[0];
      SameSearch(sql, lastPos, n, g);
      Unmoved(g, n);
      StopsHere(sql, slots, lists, n, lastPos, moved);
      StopsFirst(sql, slots, lists, n, lastPos, moved);
      FindsFirst(sql, slots, givens, n, lastPos, o);
      var next := FindHole(sql, lastPos, n, g) + |HoleText(g, n)|;
      StoppingFinds(sql, FromHole(slots)[1..], lists[1..], givens[1..], n + 1, next, o + Width(g), moved || lists[0]);
    }
  }

  lemma PairDiffers(n: nat, o: nat, g: Given)
    requires g.Spread? && |g.values| == 2
    ensures FilledText(g, o) != HoleText(g, n)
  {
    hide Decimal;
    var ts := seq(2, i requires 0 <= i < 2 => "$" + Decimal(o + i));
    assert ts[1..] == [ts[1]] && Join([ts[1]], ", ") == ts[1];
    var list := ts[0] + (", " + ts[1]);
    assert Join(ts, ", ") == list;
    assert DollarList(o, |g.values|) == list;
    assert list[|ts[0]|] == ',' && FilledText(g, o)[4 + |ts[0]|] == ',';
    forall i | 0 <= i < |HoleText(g, n)| ensures HoleText(g, n)[i] != ',' {
      assert 5 <= i < 5 + |Decimal(n)| ==> HoleText(g, n)[i] == Decimal(n)[i - 5];
    }
  }

  predicate PairOrScalar(g: Given) {
    g.Spread? ==> |g.values| == 2
  }

  /** All lists are pairs. */
  ghost predicate Pairs(givens: seq<Given>) {
    forall g :: g in givens ==> PairOrScalar(g)
  }

  /** If the holes are found where all lists are pairs, the searches stop. */
  lemma {:induction false} FindingStops(sql: string, slots: seq<Slot>, lists: seq<bool>, givens: seq<Given>,
                                        n: nat, lastPos: nat, o: nat, moved: bool)
    requires lastPos <= |sql| && FindsHoles(sql, slots, givens, n, lastPos, o)
    requires OfKinds(givens, lists) && Pairs(givens) && if moved then o > n else o == n
    ensures StopsAtHoles(sql, slots, lists, n, lastPos, moved)
    decreases |givens|
  {
    hide FindHole, HoleHere, FromHole, HoleAt, Decimal;
    if |givens| > 0 {
      var g := givens[0];
      SameSearch(sql, lastPos, n, g);
      HoleCases(sql, lastPos, n, g);
      StopsFirst(sql, slots, lists, n, lastPos, moved);
      FindsFirst(sql, slots, givens, n, lastPos, o);
      assert g in givens && PairOrScalar(g);
      if g.Spread? {
        PairDiffers(n, o, g);
      } else if moved {
        ScalarMoved(n, o);
      }
      hide HoleText, FilledText, StopsAtHoles, FindsHoles;
      var next := FindHole(sql, lastPos, n, g) + |HoleText(g, n)|;
      FindingStops(sql, FromHole(slots)[1..], lists[1..], givens[1..], n + 1, next, o + Width(g), moved || lists[0]);
    }
  }

  lemma ScalarMoved(n: nat, o: nat)
    requires n != o
    ensures "$" + Decimal(o) != "$" + Decimal(n)
  {
    hide Decimal;
    assert ("$" + Decimal(o))[1..] == Decimal(o) && ("$" + Decimal(n))[1..] == Decimal(n);
    if Decimal(o) == Decimal(n) { DecimalInjective(o, n); }
  }

  // ------------------------------------------------------- of a descriptor

  /** Which of a descriptor's parameters are lists. */
  function ListParams(d: D.Descriptor, m: D.Metadata): seq<bool>
    requires Compilable(d, m)
  {
    var preds := Preds(d.properties, m);
    var bs := Bindings(preds, |preds|);
    seq(|bs|, i requires 0 <= i < |bs| => bs[i].transform == SpreadList)
  }

  /** In the template, from the first list on, no text in front of a hole holds the hole's placeholder. */
  predicate NamesFound(d: D.Descriptor, m: D.Metadata)
    requires Compilable(d, m)
  {
    StopsAtHoles(SlotsText(QuerySlots(d, m)), QuerySlots(d, m), ListParams(d, m), 1, 0, false)
  }

  /** The bound statement. */
  function BoundSql(d: D.Descriptor, m: D.Metadata, args: seq<Value>): string
    requires Compilable(d, m)
  {
    Passed(SlotsText(QuerySlots(d, m)), AllGivens(d, m, args), 1, 0, 1).sql
  }

  lemma KindsOf(d: D.Descriptor, m: D.Metadata, args: seq<Value>)
    requires Compilable(d, m)
    ensures OfKinds(AllGivens(d, m, args), ListParams(d, m))
  {
    hide ApplyTransform;
  }

  /** Enough arguments, each a pair. */
  function AllPairs(count: nat): seq<Value> {
    seq(count, _ => List([Undefined, Undefined]))
  }

  lemma OwnIndexes(op: D.Operator, a: nat)
    requires op != D.SimilarTo
    ensures forall b :: b in ExprBindings(op, a) ==> b.argIndex < a + D.ParamCount(op)
  {
    OperatorFacts(op, "", 0);
    hide OperatorToSql, D.ParamCount;
  }

  lemma {:induction false} ArgIndexes(preds: seq<Pred>, k: nat)
    requires k <= |preds| && Filters(preds)
    ensures forall b :: b in Bindings(preds, k) ==> b.argIndex < Before(preds, k)
    ensures forall i :: 0 <= i < k ==> Before(preds, i) + D.ParamCount(preds[i].op) <= Before(preds, k)
  {
    hide ExprBindings, D.ParamCount, SlotsText, ExprSlots, PredText, OperatorToSql, Bindings, Before;
    if k == 0 {
      NonePassed(preds);
    } else {
      ArgIndexes(preds, k - 1);
      OnePassed(preds, k - 1);
      OwnIndexes(preds[k - 1].op, Before(preds, k - 1));
    }
  }

  lemma PairsGiven(d: D.Descriptor, m: D.Metadata) returns (args: seq<Value>)
    requires Compilable(d, m)
    ensures AllListed(Preds(d.properties, m), args) && Pairs(AllGivens(d, m, args))
  {
    var preds := Preds(d.properties, m);
    var count, bs := Before(preds, |preds|), Bindings(preds, |preds|);
    args := AllPairs(count);
    ArgIndexes(preds, |preds|);
    hide Bindings, Before, ApplyTransform, Preds, ExprBindings;
    forall i | 0 <= i < |preds| ensures Listed(preds[i].op, args, Before(preds, i)) {
      PairListed(preds[i].op, count, Before(preds, i));
    }
    forall i | 0 <= i < |bs| ensures PairOrScalar(GivenBy(bs[i], args)) {
      assert bs[i] in bs;
      PairGiven(bs[i], count);
    }
  }

  lemma PairGiven(b: ParamBinding, count: nat)
    requires b.argIndex < count
    ensures PairOrScalar(GivenBy(b, AllPairs(count)))
  {
    hide ApplyTransform;
  }

  lemma PairListed(op: D.Operator, count: nat, a: nat)
    requires op != D.SimilarTo && a + D.ParamCount(op) <= count
    ensures Listed(op, AllPairs(count), a)
  {
  }

  /** Binding writes the intended statement for all arguments whose lists have elements, if and only if the searches stop at their
      own holes from the first list on. */
  lemma NamesExactly(d: D.Descriptor, m: D.Metadata)
    requires Compilable(d, m)
    ensures (forall args :: AllListed(Preds(d.properties, m), args) ==> BoundSql(d, m, args) == Intended(d, m, args)) <==> NamesFound(d, m)
  {
    hide SlotsText, QuerySlots, Fits, BoundText, Bindings, Preds, AllListed, Intended, FindsHoles, Passed, Clear, SafeNames, StopsAtHoles, AllGivens;
    hide ListParams;
    forall args | AllListed(Preds(d.properties, m), args)
      ensures BoundSql(d, m, args) == Intended(d, m, args) <==> FindsAll(d, m, args)
    {
      BoundExactly(d, m, args);
    }
    if NamesFound(d, m) {
      forall args | AllListed(Preds(d.properties, m), args) ensures FindsAll(d, m, args) {
        KindsOf(d, m, args);
        StoppingFinds(SlotsText(QuerySlots(d, m)), QuerySlots(d, m), ListParams(d, m), AllGivens(d, m, args), 1, 0, 1, false);
      }
    }
    if forall args :: AllListed(Preds(d.properties, m), args) ==> BoundSql(d, m, args) == Intended(d, m, args) {
      var args := PairsGiven(d, m);
      KindsOf(d, m, args);
      assert FindsAll(d, m, args);
      FindingStops(SlotsText(QuerySlots(d, m)), QuerySlots(d, m), ListParams(d, m), AllGivens(d, m, args), 1, 0, 1, false);
    }
  }

  lemma BoundExactly(d: D.Descriptor, m: D.Metadata, args: seq<Value>)
    requires Compilable(d, m) && AllListed(Preds(d.properties, m), args)
    ensures BoundSql(d, m, args) == Intended(d, m, args) <==> FindsAll(d, m, args)
  {
    hide SlotsText, QuerySlots, Fits, BoundText, Bindings, Preds, AllListed, Intended, FindsHoles, Passed, Clear, SafeNames, AllGivens;
    BoundStatement(d, m, args);
    TemplateExactly(SlotsText(QuerySlots(d, m)), QuerySlots(d, m), AllGivens(d, m, args));
  }
}
