/** SQL's three-valued logic: a condition is true, false or unknown. */
module ThreeValued {

  datatype Truth = True | False | Unknown

  function And(a: Truth, b: Truth): Truth {
    if a.False? || b.False? then False else if a.True? && b.True? then True else Unknown
  }

  function Or(a: Truth, b: Truth): Truth {
    if a.True? || b.True? then True else if a.False? && b.False? then False else Unknown
  }

  function Not(a: Truth): Truth {
    match a
    case True => False
    case False => True
    case Unknown => Unknown
  }

  function Of(b: bool): Truth {
    if b then True else False
  }

  /** Conjunction of a list of conditions; the empty conjunction is true. */
  function All(ts: seq<Truth>): Truth {
    if |ts| == 0 then True else And(ts[0], All(ts[1..]))
  }

  /** Disjunction of a list of conditions; the empty disjunction is false. */
  function Any(ts: seq<Truth>): Truth {
    if |ts| == 0 then False else Or(ts[0], Any(ts[1..]))
  }

  /** All or any of a list of conditions. */
  function ConnectedTruth(ts: seq<Truth>, and: bool): Truth {
    if and then All(ts) else Any(ts)
  }

  lemma {:induction false} AllIsTrue(ts: seq<Truth>)
    ensures All(ts).True? <==> forall i :: 0 <= i < |ts| ==> ts[i].True?
  {
    if |ts| > 0 {
      AllIsTrue(ts[1..]);
      assert forall i :: 0 <= i < |ts| - 1 ==> ts[1..][i] == ts[i + 1];
      assert forall i :: 1 <= i < |ts| ==> ts[i] == ts[1..][i - 1];
    }
  }

  lemma {:induction false} AnyIsTrue(ts: seq<Truth>)
    ensures Any(ts).True? <==> exists i :: 0 <= i < |ts| && ts[i].True?
  {
    if |ts| > 0 {
      AnyIsTrue(ts[1..]);
      assert forall i :: 0 <= i < |ts| - 1 ==> ts[1..][i] == ts[i + 1];
      assert forall i :: 1 <= i < |ts| ==> ts[i] == ts[1..][i - 1];
    }
  }

  lemma {:induction false} AllSnoc(ts: seq<Truth>, t: Truth)
    ensures All(ts + [t]) == And(All(ts), t)
  {
    if |ts| == 0 {
      assert (ts + [t])[1..] == [];
    } else {
      AllSnoc(ts[1..], t);
      assert (ts + [t])[1..] == ts[1..] + [t];
    }
  }

  lemma {:induction false} AnySnoc(ts: seq<Truth>, t: Truth)
    ensures Any(ts + [t]) == Or(Any(ts), t)
  {
    if |ts| == 0 {
      assert (ts + [t])[1..] == [];
    } else {
      AnySnoc(ts[1..], t);
      assert (ts + [t])[1..] == ts[1..] + [t];
    }
  }
}
