/**
 * SQL templates and their binding. A template is fixed text with numbered
 * holes, one for a scalar argument (`$n`) or one for a list (`IN ($n)`);
 * binding finds the holes by searching the text and renumbers them.
 */
module QueryTemplate {
  import opened SqlText
  import opened SqlCondition

  datatype Slot = Fixed(text: string) | One(n: nat) | Many(n: nat)

  function SlotText(s: Slot): string {
    match s
    case Fixed(t) => t
    case One(n) => "$" + Decimal(n)
    case Many(n) => "IN ($" + Decimal(n) + ")"
  }

  function SlotsText(slots: seq<Slot>): string {
    if |slots| == 0 then "" else SlotText(slots[0]) + SlotsText(slots[1..])
  }

  lemma SlotsTextCons(s: Slot, rest: seq<Slot>)
    ensures SlotsText([s] + rest) == SlotText(s) + SlotsText(rest)
  {
    assert ([s] + rest)[1..] == rest;
  }

  lemma {:induction false} SlotsTextConcat(a: seq<Slot>, b: seq<Slot>)
    ensures SlotsText(a + b) == SlotsText(a) + SlotsText(b)
  {
    hide SlotText;
    if a == [] {
      assert a + b == b;
    } else {
      SlotsTextConcat(a[1..], b);
      assert a + b == [a[0]] + (a[1..] + b);
      SlotsTextCons(a[0], a[1..] + b);
      Assoc(SlotText(a[0]), SlotsText(a[1..]), SlotsText(b));
    }
  }

  /** What an argument supplies to a hole. */
  datatype Given = Scalar(value: Value) | Spread(values: seq<Value>)

  function Supplied(g: Given): seq<Value> {
    if g.Scalar? then [g.value] else g.values
  }

  function Params(givens: seq<Given>): seq<Value> {
    if |givens| == 0 then [] else Supplied(givens[0]) + Params(givens[1..])
  }

  lemma {:induction false} ParamsConcat(a: seq<Given>, b: seq<Given>)
    ensures Params(a + b) == Params(a) + Params(b)
  {
    if a == [] {
      assert a + b == b;
    } else {
      ParamsConcat(a[1..], b);
      assert a + b == [a[0]] + (a[1..] + b);
      assert (a + b)[1..] == a[1..] + b;
      Assoc(Supplied(a[0]), Params(a[1..]), Params(b));
    }
  }

  function Width(g: Given): nat {
    |Supplied(g)|
  }

  function DollarList(from: nat, count: nat): string {
    Join(seq(count, i requires 0 <= i < count => "$" + Decimal(from + i)), ", ")
  }

  /** The text a filled hole becomes, its parameters numbered from `o` on. */
  function FilledText(g: Given, o: nat): string {
    match g
    case Scalar(_) => "$" + Decimal(o)
    case Spread(vs) => if |vs| == 0 then "(1=0)" else "IN (" + DollarList(o, |vs|) + ")"
  }

  /** The template with its holes filled in order. */
  function BoundText(slots: seq<Slot>, givens: seq<Given>, o: nat): string
    decreases |slots|
  {
    if |slots| == 0 then ""
    else if slots[0].Fixed? then slots[0].text + BoundText(slots[1..], givens, o)
    else if |givens| == 0 then SlotsText(slots)
    else FilledText(givens[0], o) + BoundText(slots[1..], givens[1..], o + Width(givens[0]))
  }

  /**
   * A template and the givens that fit it: holes numbered consecutively, list
   * holes for lists, and no digit directly after a scalar hole.
   */
  predicate Fits(slots: seq<Slot>, givens: seq<Given>, n: nat)
    decreases |slots|
  {
    if |slots| == 0 then |givens| == 0
    else match slots[0]
      case Fixed(t) => Fits(slots[1..], givens, n)
      case One(k) =>
        && k == n && |givens| > 0 && givens[0].Scalar? && Fits(slots[1..], givens[1..], n + 1)
        && NoDigitFirst(SlotsText(slots[1..]))
      case Many(k) => k == n && |givens| > 0 && givens[0].Spread? && Fits(slots[1..], givens[1..], n + 1)
  }

  // ------------------------------------------------------- the searches

  /** `\$n(?!\d)` at a position. */
  predicate ParamHere(sql: string, i: nat, n: nat)
    requires i <= |sql|
  {
    var pat := "$" + Decimal(n);
    pat <= sql[i..] && (i + |pat| < |sql| ==> !IsDigit(sql[i + |pat|]))
  }

  /** `IN \(\$n\)` at a position. */
  predicate ListHere(sql: string, i: nat, n: nat)
    requires i <= |sql|
  {
    SlotText(Many(n)) <= sql[i..]
  }

  /** The first match of the scalar pattern from a position on; -1 for none. */
  function FindParam(sql: string, from: nat, n: nat): (idx: int)
    requires from <= |sql|
    ensures idx == -1 || from <= idx <= |sql|
    ensures if idx == -1 then forall i :: from <= i <= |sql| ==> !ParamHere(sql, i, n)
            else ParamHere(sql, idx, n) && forall i :: from <= i < idx ==> !ParamHere(sql, i, n)
    decreases |sql| - from
  {
    if ParamHere(sql, from, n) then from else if from == |sql| then -1 else FindParam(sql, from + 1, n)
  }

  /** The first match of the list pattern from a position on; -1 for none. */
  function FindList(sql: string, from: nat, n: nat): (idx: int)
    requires from <= |sql|
    ensures idx == -1 || from <= idx <= |sql|
    ensures if idx == -1 then forall i :: from <= i <= |sql| ==> !ListHere(sql, i, n)
            else ListHere(sql, idx, n) && forall i :: from <= i < idx ==> !ListHere(sql, i, n)
    decreases |sql| - from
  {
    if ListHere(sql, from, n) then from else if from == |sql| then -1 else FindList(sql, from + 1, n)
  }

  /** The hole that takes a given, and the search for it. */
  function HoleText(g: Given, n: nat): string {
    SlotText(if g.Scalar? then One(n) else Many(n))
  }

  predicate HoleHere(sql: string, i: nat, n: nat, g: Given)
    requires i <= |sql|
  {
    if g.Scalar? then ParamHere(sql, i, n) else ListHere(sql, i, n)
  }

  function FindHole(sql: string, from: nat, n: nat, g: Given): (idx: int)
    requires from <= |sql|
    ensures idx == -1 || from <= idx <= |sql|
    ensures if idx == -1 then forall i :: from <= i <= |sql| ==> !HoleHere(sql, i, n, g)
            else HoleHere(sql, idx, n, g) && forall i :: from <= i < idx ==> !HoleHere(sql, i, n, g)
  {
    if g.Scalar? then FindParam(sql, from, n) else FindList(sql, from, n)
  }

  lemma HoleShape(g: Given, n: nat)
    ensures |HoleText(g, n)| > 0
    ensures g.Scalar? ==> HoleText(g, n) == "$" + Decimal(n)
    ensures g.Spread? ==> HoleText(g, n) == "IN ($" + Decimal(n) + ")"
    ensures forall j :: 0 < j < |HoleText(g, n)| ==> HoleText(g, n)[j] != HoleText(g, n)[0]
  {
    hide Decimal;
    if g.Spread? {
      var t := HoleText(g, n);
      forall j | 0 < j < |t| ensures t[j] != 'I' {
        if 5 <= j < |t| - 1 { assert t[j] == Decimal(n)[j - 5]; }
      }
    } else {
      assert forall j :: 0 < j < |HoleText(g, n)| ==> HoleText(g, n)[j] == Decimal(n)[j - 1];
    }
  }

  lemma HereByText(sql: string, i: nat, n: nat, g: Given)
    requires i <= |sql|
    ensures HoleHere(sql, i, n, g) <==>
      && HoleText(g, n) <= sql[i..]
      && (g.Scalar? && i + |HoleText(g, n)| < |sql| ==> !IsDigit(sql[i + |HoleText(g, n)|]))
  {
  }

  /** In front of a hole the search stops only where the fixed text itself holds the placeholder. */
  lemma HereInLead(sql: string, from: nat, lead: string, n: nat, g: Given, rest: string, i: nat)
    requires from <= |sql| && sql[from..] == lead + (HoleText(g, n) + rest) && i < |lead|
    ensures HoleHere(sql, from + i, n, g) <==> HoleHere(lead, i, n, g)
  {
    HoleShape(g, n);
    HereByText(sql, from + i, n, g);
    HereByText(lead, i, n, g);
    hide Decimal, SlotText, HoleText, HoleHere;
    var pat := HoleText(g, n);
    var t := sql[from + i..];
    assert t == sql[from..][i..] == lead[i..] + (pat + rest);
    if i + |pat| <= |lead| {
      assert t[..|pat|] == lead[i..][..|pat|];
      assert sql[from + i..][..|pat|] == t[..|pat|];
      assert pat <= t <==> pat <= lead[i..];
      if g.Scalar? {
        assert sql[from + i + |pat|] == t[|pat|];
        assert i + |pat| < |lead| ==> t[|pat|] == lead[i + |pat|];
      }
    } else {
      assert t[|lead| - i] == pat[0] != pat[|lead| - i];
    }
  }

  /** The search for a hole finds it, directly behind the fixed text, exactly when that text does not hold the same placeholder. */
  lemma FindsExactly(sql: string, from: nat, lead: string, n: nat, g: Given, rest: string)
    requires from <= |sql| && sql[from..] == lead + (HoleText(g, n) + rest) && (g.Scalar? ==> NoDigitFirst(rest))
    ensures from <= FindHole(sql, from, n, g) <= from + |lead|
    ensures FindHole(sql, from, n, g) == from + |lead| <==> forall i :: 0 <= i < |lead| ==> !HoleHere(lead, i, n, g)
  {
    HoleFound(sql, from, lead, n, g, rest);
    hide HoleHere, HoleText, FindHole;
    var idx := FindHole(sql, from, n, g);
    if idx < from + |lead| {
      HereInLead(sql, from, lead, n, g, rest, idx - from);
    } else {
      forall i | 0 <= i < |lead| ensures !HoleHere(lead, i, n, g) {
        HereInLead(sql, from, lead, n, g, rest, i);
      }
    }
  }

  lemma HoleFound(sql: string, from: nat, lead: string, n: nat, g: Given, rest: string)
    requires from <= |sql| && sql[from..] == lead + (HoleText(g, n) + rest) && (g.Scalar? ==> NoDigitFirst(rest))
    ensures HoleHere(sql, from + |lead|, n, g)
  {
    HereByText(sql, from + |lead|, n, g);
    hide Decimal, SlotText, HoleText, HoleHere;
    var pat, to := HoleText(g, n), from + |lead|;
    assert sql[to..] == sql[from..][|lead|..] == pat + rest;
    assert to + |pat| < |sql| ==> sql[to + |pat|] == sql[to..][|pat|] == rest[0];
  }

  /** Fixed text without a `$` in front of a digit holds no placeholder at all. */
  lemma NoneInTame(lead: string, n: nat, g: Given, i: nat)
    requires NoParam(lead) && i < |lead|
    ensures !HoleHere(lead, i, n, g)
  {
    HoleShape(g, n);
    HereByText(lead, i, n, g);
    hide SlotText, HoleText, HoleHere;
    var pat := HoleText(g, n);
    var j := if g.Scalar? then 0 else 4;
    assert pat[j] == '$' && pat[j + 1] == Decimal(n)[0];
  }

  // ------------------------------------------------- up to the next hole

  /** The fixed text in front of the first hole. */
  function Lead(slots: seq<Slot>): string {
    if |slots| == 0 || !slots[0].Fixed? then "" else slots[0].text + Lead(slots[1..])
  }

  /** The template from its first hole on. */
  function FromHole(slots: seq<Slot>): (rest: seq<Slot>)
    ensures |rest| > 0 ==> !rest[0].Fixed?
  {
    if |slots| == 0 || !slots[0].Fixed? then slots else FromHole(slots[1..])
  }

  lemma {:induction false} LeadSplits(slots: seq<Slot>, givens: seq<Given>, n: nat, o: nat)
    requires Fits(slots, givens, n)
    ensures Fits(FromHole(slots), givens, n)
    ensures |FromHole(slots)| > 0 <==> |givens| > 0
    ensures SlotsText(slots) == Lead(slots) + SlotsText(FromHole(slots))
    ensures BoundText(slots, givens, o) == Lead(slots) + BoundText(FromHole(slots), givens, o)
  {
    hide SlotText, FilledText;
    if |slots| > 0 && slots[0].Fixed? {
      LeadSplits(slots[1..], givens, n, o);
      FixedText(slots[0]);
      Assoc(slots[0].text, Lead(slots[1..]), SlotsText(FromHole(slots)));
      Assoc(slots[0].text, Lead(slots[1..]), BoundText(FromHole(slots), givens, o));
    }
  }

  lemma FixedText(s: Slot)
    requires s.Fixed?
    ensures SlotText(s) == s.text
  {
  }

  /** Filling scalar holes numbered from n with parameters numbered from n changes nothing. */
  lemma {:induction false} ScalarsUnchanged(slots: seq<Slot>, givens: seq<Given>, n: nat)
    requires Fits(slots, givens, n) && forall g :: g in givens ==> g.Scalar?
    ensures BoundText(slots, givens, n) == SlotsText(slots)
  {
    if |slots| > 0 {
      ScalarsUnchanged(slots[1..], if slots[0].Fixed? then givens else givens[1..], if slots[0].Fixed? then n else n + 1);
    }
  }

  /** Templates that fit one after the other fit joined, unless a digit would follow a hole. */
  lemma {:induction false} FitsConcat(a: seq<Slot>, b: seq<Slot>, ga: seq<Given>, gb: seq<Given>, n: nat)
    requires Fits(a, ga, n) && Fits(b, gb, n + |ga|) && NoDigitFirst(SlotsText(b))
    ensures Fits(a + b, ga + gb, n)
    decreases |a|
  {
    hide SlotText;
    if a == [] {
      assert a + b == b && ga + gb == gb;
    } else {
      assert a + b == [a[0]] + (a[1..] + b) && (a + b)[1..] == a[1..] + b;
      SlotsTextConcat(a[1..], b);
      if a[0].Fixed? {
        FitsConcat(a[1..], b, ga, gb, n);
      } else {
        assert (ga + gb)[1..] == ga[1..] + gb && (ga + gb)[0] == ga[0];
        FitsConcat(a[1..], b, ga[1..], gb, n + 1);
      }
    }
  }

  lemma BoundCons(s: Slot, rest: seq<Slot>, givens: seq<Given>, o: nat)
    ensures s.Fixed? ==> BoundText([s] + rest, givens, o) == s.text + BoundText(rest, givens, o)
    ensures !s.Fixed? && |givens| > 0 ==>
      BoundText([s] + rest, givens, o) == FilledText(givens[0], o) + BoundText(rest, givens[1..], o + Width(givens[0]))
  {
    assert ([s] + rest)[1..] == rest;
  }

  lemma ParamsCons(g: Given, rest: seq<Given>)
    ensures |Params([g] + rest)| == Width(g) + |Params(rest)|
  {
    assert ([g] + rest)[1..] == rest;
  }

  lemma {:induction false} BoundConcat(a: seq<Slot>, b: seq<Slot>, ga: seq<Given>, gb: seq<Given>, n: nat, o: nat)
    requires Fits(a, ga, n)
    ensures BoundText(a + b, ga + gb, o) == BoundText(a, ga, o) + BoundText(b, gb, o + |Params(ga)|)
    decreases |a|
  {
    hide SlotText, FilledText, SlotsText;
    if a == [] {
      assert a + b == b && ga + gb == gb;
      assert Params(ga) == [];
    } else {
      assert a + b == [a[0]] + (a[1..] + b) && a == [a[0]] + a[1..];
      if a[0].Fixed? {
        BoundConcat(a[1..], b, ga, gb, n, o);
        BoundCons(a[0], a[1..] + b, ga + gb, o);
        Assoc(a[0].text, BoundText(a[1..], ga, o), BoundText(b, gb, o + |Params(ga)|));
      } else {
        var g, o' := ga[0], o + Width(ga[0]);
        assert (ga + gb)[1..] == ga[1..] + gb && (ga + gb)[0] == g && ga == [g] + ga[1..];
        BoundConcat(a[1..], b, ga[1..], gb, n + 1, o');
        BoundCons(a[0], a[1..] + b, ga + gb, o);
        ParamsCons(g, ga[1..]);
        Assoc(FilledText(g, o), BoundText(a[1..], ga[1..], o'), BoundText(b, gb, o + |Params(ga)|));
      }
    }
  }
}
