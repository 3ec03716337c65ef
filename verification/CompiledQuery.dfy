/** Binding call arguments to a compiled query. */
module CompiledQuery {
  import opened SqlText
  import opened SqlCondition
  import opened QueryTemplate
  import DerivedQuery

  datatype Transform = Identity | PrefixWildcard | SuffixWildcard | WrapWildcard | SpreadList

  datatype ParamBinding = ParamBinding(argIndex: nat, transform: Transform)

  datatype Compiled = Compiled(sql: string, paramBindings: seq<ParamBinding>, expectedArgCount: nat)

  function ApplyTransform(arg: Value, t: Transform): Value {
    match t
    case Identity => arg
    case PrefixWildcard => Text("%" + DerivedQuery.EscapeLikeValue(arg))
    case SuffixWildcard => Text(DerivedQuery.EscapeLikeValue(arg) + "%")
    case WrapWildcard => Text("%" + (DerivedQuery.EscapeLikeValue(arg) + "%"))
    case SpreadList => arg
  }

  /** What a binding supplies: a list for a spread - none if the argument is not an array - else one value. */
  function GivenBy(b: ParamBinding, args: seq<Value>): Given {
    var arg := DerivedQuery.ArgAt(args, b.argIndex);
    if b.transform == SpreadList then Spread(if arg.List? then arg.vs else []) else Scalar(ApplyTransform(arg, b.transform))
  }

  function Givens(bs: seq<ParamBinding>, args: seq<Value>): (gs: seq<Given>)
    ensures |gs| == |bs| && forall i :: 0 <= i < |bs| ==> gs[i] == GivenBy(bs[i], args)
  {
    seq(|bs|, i requires 0 <= i < |bs| => GivenBy(bs[i], args))
  }

  // ------------------------------------------------------ the slow path

  datatype Bound = Bound(sql: string, params: seq<Value>)

  lemma HoleEnds(sql: string, i: nat, n: nat, g: Given)
    requires i <= |sql| && HoleHere(sql, i, n, g)
    ensures i + |HoleText(g, n)| <= |sql| && sql[i..i + |HoleText(g, n)|] == HoleText(g, n)
    ensures g.Scalar? && i + |HoleText(g, n)| < |sql| ==> !IsDigit(sql[i + |HoleText(g, n)|])
  {
    HereByText(sql, i, n, g);
    hide HoleText, HoleHere;
    assert sql[i..][..|HoleText(g, n)|] == HoleText(g, n);
  }

  /** The pass over the bindings, each searching for its placeholder from the end of the last match. A scalar without one is
      still pushed and counted, a list is not. */
  function Passed(sql: string, givens: seq<Given>, n: nat, lastPos: nat, o: nat): Bound
    requires lastPos <= |sql|
    decreases |givens|
  {
    if |givens| == 0 then Bound(sql[lastPos..], [])
    else
      var g, idx := givens[0], FindHole(sql, lastPos, n, givens[0]);
      if idx == -1 then
        var rest := Passed(sql, givens[1..], n + 1, lastPos, if g.Scalar? then o + 1 else o);
        Bound(rest.sql, (if g.Scalar? then Supplied(g) else []) + rest.params)
      else
        HoleEnds(sql, idx, n, g);
        var rest := Passed(sql, givens[1..], n + 1, idx + |HoleText(g, n)|, o + Width(g));
        Bound(sql[lastPos..idx] + (FilledText(g, o) + rest.sql), Supplied(g) + rest.params)
  }

  /**
   * The slow path: one pass over the bindings with a template index, an output
   * index and the position behind the last match.
   */
  method BindSlow(sql: string, bindings: seq<ParamBinding>, args: seq<Value>) returns (bound: string, params: seq<Value>)
    ensures Bound(bound, params) == Passed(sql, Givens(bindings, args), 1, 0, 1)
  {
    hide SlotText, FilledText, HoleText, FindHole, HoleHere, GivenBy, Decimal, ApplyTransform, Passed, Continues, FindParam, FindList;
    bound, params := "", [];
    var templateParamIdx: nat, outputParamIdx: nat, lastPos: nat := 1, 1, 0;
    ghost var givens := Givens(bindings, args);
    ghost var all := Passed(sql, givens, 1, 0, 1);
    PassBegins(sql, givens);
    for i := 0 to |bindings|
      invariant lastPos <= |sql| && templateParamIdx == i + 1
      invariant Continues(all, bound, params, Passed(sql, givens[i..], templateParamIdx, lastPos, outputParamIdx))
    {
      GivenCases(bindings[i], args);
      PassGoesOn(all, bound, params, sql, givens, i, templateParamIdx, lastPos, outputParamIdx);
      HoleCases(sql, lastPos, templateParamIdx, givens[i]);
      var arg := DerivedQuery.ArgAt(args, bindings[i].argIndex);
      if bindings[i].transform == SpreadList {
        var arr := if arg.List? then arg.vs else [];
        var idx := FindList(sql, lastPos, templateParamIdx);
        if idx != -1 {
          bound := bound + (sql[lastPos..idx] + FilledText(Spread(arr), outputParamIdx));
          params := params + arr;
          outputParamIdx := outputParamIdx + |arr|;
          lastPos := idx + |SlotText(Many(templateParamIdx))|;
        }
      } else {
        var idx := FindParam(sql, lastPos, templateParamIdx);
        if idx != -1 {
          bound := bound + (sql[lastPos..idx] + ("$" + Decimal(outputParamIdx)));
          lastPos := idx + |"$" + Decimal(templateParamIdx)|;
        }
        params := params + [ApplyTransform(arg, bindings[i].transform)];
        outputParamIdx := outputParamIdx + 1;
      }
      templateParamIdx := templateParamIdx + 1;
    }
    PassEnds(all, bound, params, sql, givens[|bindings|..], templateParamIdx, lastPos, outputParamIdx);
    if lastPos < |sql| {
      bound := bound + sql[lastPos..];
    }
  }

  /** What is written and pushed so far, and what the rest of the pass will add. */
  predicate Continues(all: Bound, written: string, pushed: seq<Value>, rest: Bound) {
    all.sql == written + rest.sql && all.params == pushed + rest.params
  }

  lemma PassBegins(sql: string, givens: seq<Given>)
    ensures Continues(Passed(sql, givens, 1, 0, 1), "", [], Passed(sql, givens[0..], 1, 0, 1))
  {
    hide Passed;
    assert givens[0..] == givens;
  }

  /** One binding: its value is pushed and what was found is written, whether or not its placeholder was found. */
  lemma PassGoesOn(all: Bound, written: string, pushed: seq<Value>, sql: string, givens: seq<Given>, i: nat, n: nat, lastPos: nat, o: nat)
    requires i < |givens| && lastPos <= |sql|
    requires Continues(all, written, pushed, Passed(sql, givens[i..], n, lastPos, o))
    ensures var g, idx := givens[i], FindHole(sql, lastPos, n, givens[i]);
      if idx == -1 then
        if g.Scalar? then Continues(all, written, pushed + Supplied(g), Passed(sql, givens[i + 1..], n + 1, lastPos, o + 1))
        else Continues(all, written, pushed, Passed(sql, givens[i + 1..], n + 1, lastPos, o))
      else
        && idx + |HoleText(g, n)| <= |sql|
        && Continues(all, written + (sql[lastPos..idx] + FilledText(g, o)), pushed + Supplied(g),
                     Passed(sql, givens[i + 1..], n + 1, idx + |HoleText(g, n)|, o + Width(g)))
  {
    hide FindHole, HoleText, FilledText, HoleHere;
    assert givens[i..][0] == givens[i] && givens[i..][1..] == givens[i + 1..];
    var g, idx := givens[i], FindHole(sql, lastPos, n, givens[i]);
    if idx != -1 {
      HoleEnds(sql, idx, n, g);
      var rest := Passed(sql, givens[i + 1..], n + 1, idx + |HoleText(g, n)|, o + Width(g));
      Regroup(written, sql[lastPos..idx], FilledText(g, o), rest.sql);
      Assoc(pushed, Supplied(g), rest.params);
    } else if g.Scalar? {
      Assoc(pushed, Supplied(g), Passed(sql, givens[i + 1..], n + 1, lastPos, o + 1).params);
    }
  }

  lemma Regroup(a: string, b: string, c: string, d: string)
    ensures a + (b + (c + d)) == a + (b + c) + d
  {
    Assoc(b, c, d);
    Assoc(a, b + c, d);
  }

  lemma PassEnds(all: Bound, written: string, pushed: seq<Value>, sql: string, givens: seq<Given>, n: nat, lastPos: nat, o: nat)
    requires lastPos <= |sql| && |givens| == 0 && Continues(all, written, pushed, Passed(sql, givens, n, lastPos, o))
    ensures all == Bound(written + sql[lastPos..], pushed)
  {
    assert pushed + [] == pushed;
  }

  lemma HoleCases(sql: string, from: nat, n: nat, g: Given)
    requires from <= |sql|
    ensures FindHole(sql, from, n, g) == if g.Scalar? then FindParam(sql, from, n) else FindList(sql, from, n)
    ensures HoleText(g, n) == if g.Scalar? then "$" + Decimal(n) else SlotText(Many(n))
    ensures g.Scalar? ==> Supplied(g) == [g.value] && forall o: nat :: FilledText(g, o) == "$" + Decimal(o)
    ensures g.Spread? ==> Supplied(g) == g.values
  {
  }

  lemma NoParams(givens: seq<Given>)
    ensures Params(givens[..0]) == []
  {
  }

  lemma GivenCases(b: ParamBinding, args: seq<Value>)
    ensures var arg := DerivedQuery.ArgAt(args, b.argIndex);
      GivenBy(b, args) == if b.transform == SpreadList then Spread(if arg.List? then arg.vs else [])
                          else Scalar(ApplyTransform(arg, b.transform))
  {
  }

  lemma NextParams(givens: seq<Given>, i: nat)
    requires i < |givens|
    ensures Params(givens[..i + 1]) == Params(givens[..i]) + if givens[i].Scalar? then [givens[i].value] else givens[i].values
  {
    assert givens[..i + 1] == givens[..i] + [givens[i]];
    ParamsConcat(givens[..i], [givens[i]]);
    assert [givens[i]][1..] == [];
  }

  // ------------------------------------------- when it finds its holes

  /** Every search stops at its own hole, or stops too early at the same placeholder and writes it back unchanged. */
  predicate FindsHoles(sql: string, slots: seq<Slot>, givens: seq<Given>, n: nat, lastPos: nat, o: nat)
    requires lastPos <= |sql|
    decreases |givens|
  {
    if |givens| == 0 then true
    else
      var g, hole, idx := givens[0], FromHole(slots), FindHole(sql, lastPos, n, givens[0]);
      && |hole| > 0 && idx != -1
      && (idx == HoleAt(sql, slots) || FilledText(g, o) == HoleText(g, n))
      && (HoleEnds(sql, idx, n, g); FindsHoles(sql, hole[1..], givens[1..], n + 1, idx + |HoleText(g, n)|, o + Width(g)))
  }

  /** What is left of the template stands at the end of the text, and the pass has not gone beyond its start. */
  ghost predicate Ahead(sql: string, slots: seq<Slot>, lastPos: nat) {
    |SlotsText(slots)| <= |sql| && lastPos <= |sql| - |SlotsText(slots)| && sql[|sql| - |SlotsText(slots)|..] == SlotsText(slots)
  }

  /** What the pass should still write. */
  function Wanted(sql: string, slots: seq<Slot>, givens: seq<Given>, lastPos: nat, o: nat): string
    requires |SlotsText(slots)| <= |sql| && lastPos <= |sql| - |SlotsText(slots)|
  {
    sql[lastPos..|sql| - |SlotsText(slots)|] + BoundText(slots, givens, o)
  }

  lemma Pieces(sql: string, s: nat, lastPos: nat, lead: string, pat: string, rest: string)
    requires lastPos <= s <= |sql| && sql[s..] == lead + (pat + rest)
    ensures var at := s + |lead|;
      && at + |pat| + |rest| == |sql| && sql[at..] == pat + rest && sql[at + |pat|..] == rest
      && sql[lastPos..] == sql[lastPos..at] + (pat + rest) && sql[lastPos..at] == sql[lastPos..s] + lead
  {
    var at := s + |lead|;
    assert sql[at..] == sql[s..][|lead|..];
    assert sql[at + |pat|..] == sql[at..][|pat|..];
    assert sql[lastPos..] == sql[lastPos..at] + sql[at..];
    assert sql[s..at] == sql[s..][..|lead|] == lead;
    assert sql[lastPos..at] == sql[lastPos..s] + sql[s..at];
  }

  /** The place of the next hole. */
  function HoleAt(sql: string, slots: seq<Slot>): int {
    |sql| - |SlotsText(FromHole(slots))|
  }

  /** Where the next hole stands, and where the search for it stops at the latest. */
  lemma NextHole(sql: string, slots: seq<Slot>, givens: seq<Given>, n: nat, lastPos: nat)
    requires Fits(slots, givens, n) && Ahead(sql, slots, lastPos) && |givens| > 0
    ensures |FromHole(slots)| > 0 && Fits(FromHole(slots)[1..], givens[1..], n + 1)
    ensures lastPos <= FindHole(sql, lastPos, n, givens[0]) <= HoleAt(sql, slots)
    ensures HoleText(givens[0], n) <= sql[HoleAt(sql, slots)..]
    ensures Ahead(sql, FromHole(slots)[1..], HoleAt(sql, slots) + |HoleText(givens[0], n)|)
    ensures |sql| - |SlotsText(FromHole(slots)[1..])| == HoleAt(sql, slots) + |HoleText(givens[0], n)|
    ensures FindHole(sql, lastPos, n, givens[0]) == HoleAt(sql, slots) <==>
      forall i :: 0 <= i < HoleAt(sql, slots) - lastPos ==> !HoleHere(sql[lastPos..HoleAt(sql, slots)], i, n, givens[0])
  {
    hide FindHole, HoleHere, Fits;
    HolePlace(sql, slots, givens, n, lastPos);
    hide HoleAt, FromHole, HoleText, Ahead, SlotsText;
    FindsExactly(sql, lastPos, sql[lastPos..HoleAt(sql, slots)], n, givens[0], SlotsText(FromHole(slots)[1..]));
  }

  lemma HolePlace(sql: string, slots: seq<Slot>, givens: seq<Given>, n: nat, lastPos: nat)
    requires Fits(slots, givens, n) && Ahead(sql, slots, lastPos) && |givens| > 0
    ensures |FromHole(slots)| > 0 && Fits(FromHole(slots)[1..], givens[1..], n + 1)
    ensures lastPos <= HoleAt(sql, slots) <= |sql| && HoleText(givens[0], n) <= sql[HoleAt(sql, slots)..]
    ensures Ahead(sql, FromHole(slots)[1..], HoleAt(sql, slots) + |HoleText(givens[0], n)|)
    ensures |sql| - |SlotsText(FromHole(slots)[1..])| == HoleAt(sql, slots) + |HoleText(givens[0], n)|
    ensures sql[lastPos..] == sql[lastPos..HoleAt(sql, slots)] + (HoleText(givens[0], n) + SlotsText(FromHole(slots)[1..]))
    ensures givens[0].Scalar? ==> NoDigitFirst(SlotsText(FromHole(slots)[1..]))
  {
    hide HoleText, HoleHere, SlotsText, BoundText, Fits, SlotText, FromHole;
    LeadSplits(slots, givens, n, 1);
    var g, hole := givens[0], FromHole(slots);
    assert |hole| > 0 && !hole[0].Fixed?;
    HoleOfSlot(hole, givens, n, 1);
    var s, rest := |sql| - |SlotsText(slots)|, SlotsText(hole[1..]);
    Pieces(sql, s, lastPos, Lead(slots), HoleText(g, n), rest);
  }

  lemma StillAhead(sql: string, slots: seq<Slot>, here: nat, earlier: nat)
    requires Ahead(sql, slots, here) && earlier <= here
    ensures Ahead(sql, slots, earlier)
  {
  }

  lemma WantedRest(sql: string, slots: seq<Slot>, givens: seq<Given>, lastPos: nat, end: nat, o: nat)
    requires Ahead(sql, slots, lastPos) && end == |sql| - |SlotsText(slots)|
    ensures lastPos <= end <= |sql| && Wanted(sql, slots, givens, lastPos, o) == sql[lastPos..end] + BoundText(slots, givens, o)
  {
  }

  /** What the pass should write up to the next hole, in it, and behind it. */
  lemma WantedNext(sql: string, slots: seq<Slot>, givens: seq<Given>, n: nat, lastPos: nat, o: nat)
    requires Fits(slots, givens, n) && Ahead(sql, slots, lastPos) && |givens| > 0
    ensures lastPos <= HoleAt(sql, slots) <= |sql| && |FromHole(slots)| > 0
    ensures Wanted(sql, slots, givens, lastPos, o) == sql[lastPos..HoleAt(sql, slots)]
      + (FilledText(givens[0], o) + BoundText(FromHole(slots)[1..], givens[1..], o + Width(givens[0])))
  {
    LeadSplits(slots, givens, n, o);
    var g, hole := givens[0], FromHole(slots);
    HoleOfSlot(hole, givens, n, o);
    hide FindHole, HoleText, FilledText, HoleHere, SlotsText, BoundText, Fits, SlotText;
    var s, rest := |sql| - |SlotsText(slots)|, SlotsText(hole[1..]);
    Pieces(sql, s, lastPos, Lead(slots), HoleText(g, n), rest);
    Assoc(sql[lastPos..s], Lead(slots), FilledText(g, o) + BoundText(hole[1..], givens[1..], o + Width(g)));
  }

  lemma HoleOfSlot(hole: seq<Slot>, givens: seq<Given>, n: nat, o: nat)
    requires |hole| > 0 && !hole[0].Fixed? && Fits(hole, givens, n) && |givens| > 0
    ensures SlotsText(hole) == HoleText(givens[0], n) + SlotsText(hole[1..])
    ensures Fits(hole[1..], givens[1..], n + 1) && (givens[0].Scalar? ==> NoDigitFirst(SlotsText(hole[1..])))
    ensures BoundText(hole, givens, o) == FilledText(givens[0], o) + BoundText(hole[1..], givens[1..], o + Width(givens[0]))
  {
    hide Decimal;
  }

  /** A placeholder filled with other text is told from the placeholder by what it begins with. */
  lemma FilledDiffers(g: Given, n: nat, o: nat, x: string, y: string)
    requires FilledText(g, o) != HoleText(g, n)
    requires g.Scalar? ==> NoDigitFirst(x) && NoDigitFirst(y)
    ensures FilledText(g, o) + x != HoleText(g, n) + y
  {
    HoleShape(g, n);
    hide HoleText, SlotText, Decimal;
    if FilledText(g, o) + x == HoleText(g, n) + y {
      if g.Scalar? {
        ScalarDiffers(Decimal(o), Decimal(n), x, y);
      } else {
        ListDiffers(g.values, n, o, x, y);
      }
    }
  }

  lemma ScalarDiffers(a: string, b: string, x: string, y: string)
    requires (forall i :: 0 <= i < |a| ==> IsDigit(a[i])) && forall i :: 0 <= i < |b| ==> IsDigit(b[i])
    requires NoDigitFirst(x) && NoDigitFirst(y) && "$" + a + x == "$" + b + y
    ensures a == b
  {
    assert ("$" + a + x)[1..] == a + x && ("$" + b + y)[1..] == b + y;
    Assoc(a, x, " ");
    Assoc(b, y, " ");
    DigitRunsAgree(a, b, x + " ", y + " ");
  }

  lemma ListDiffers(vs: seq<Value>, n: nat, o: nat, x: string, y: string)
    requires FilledText(Spread(vs), o) + x == "IN ($" + Decimal(n) + ")" + y
    ensures FilledText(Spread(vs), o) == "IN ($" + Decimal(n) + ")"
  {
    hide Decimal, DollarList;
    if |vs| > 0 {
      var more := MoreDollars(o, |vs|);
      OpensList(Decimal(o), more, x);
      OpensList(Decimal(n), "", y);
      assert FilledText(Spread(vs), o) == "IN (" + ("$" + Decimal(o) + more) + ")";
      DigitRunsAgree(Decimal(o), Decimal(n), more + ")" + x, ")" + y);
      var d := |Decimal(o)|;
      assert (Decimal(o) + (more + ")" + x))[d..] == more + ")" + x && (Decimal(n) + (")" + y))[d..] == ")" + y;
      assert (more + ")" + x)[0] == (")" + y)[0];
      assert more == "";
      OneElement(Decimal(o));
    }
  }

  lemma OneElement(digits: string)
    ensures "IN (" + ("$" + digits + "") + ")" == "IN ($" + digits + ")"
  {
  }

  lemma OpensList(digits: string, more: string, x: string)
    ensures ("IN (" + ("$" + digits + more) + ")" + x)[5..] == digits + (more + ")" + x)
    ensures ("IN ($" + digits + ")" + x)[5..] == digits + (")" + x)
  {
  }

  /** What a list of parameters says behind the first. */
  lemma MoreDollars(o: nat, count: nat) returns (more: string)
    requires count > 0
    ensures DollarList(o, count) == "$" + Decimal(o) + more && (more == "" || more[0] == ',') && (count == 1 ==> more == "")
  {
    hide Decimal;
    var ts := seq(count, i requires 0 <= i < count => "$" + Decimal(o + i));
    assert ts[0] == "$" + Decimal(o);
    more := if count == 1 then "" else ", " + Join(ts[1..], ", ");
  }

  /** What the pass writes from a place that is no digit on does not begin with one. */
  lemma {:induction false} PassedStarts(sql: string, givens: seq<Given>, n: nat, lastPos: nat, o: nat)
    requires lastPos < |sql| && !IsDigit(sql[lastPos])
    ensures NoDigitFirst(Passed(sql, givens, n, lastPos, o).sql)
    decreases |givens|
  {
    hide FindHole, HoleText, HoleHere;
    if |givens| > 0 {
      var g, idx := givens[0], FindHole(sql, lastPos, n, givens[0]);
      if idx == -1 {
        PassedStarts(sql, givens[1..], n + 1, lastPos, if g.Scalar? then o + 1 else o);
      } else {
        HoleEnds(sql, idx, n, g);
        FilledStarts(g, o);
      }
    }
  }

  lemma FilledStarts(g: Given, o: nat)
    ensures |FilledText(g, o)| > 0 && !IsDigit(FilledText(g, o)[0])
  {
    hide Decimal, DollarList;
  }

  /** A pattern whose first character occurs in it only once cannot begin inside another match of itself. */
  lemma NoOverlap(sql: string, idx: nat, at: nat, pat: string)
    requires |pat| > 0 && (forall j :: 0 < j < |pat| ==> pat[j] != pat[0])
    requires idx < at < |sql| && idx + |pat| <= |sql| && sql[idx..idx + |pat|] == pat && pat <= sql[at..]
    ensures idx + |pat| <= at
  {
    assert sql[at] == sql[at..][0] == pat[0];
    forall j | idx < j < idx + |pat| ensures sql[j] != pat[0] {
      assert sql[j] == sql[idx..idx + |pat|][j - idx];
    }
  }

  lemma Unfolded(sql: string, lastPos: nat, idx: nat, at: nat, pat: string, rest: string)
    requires lastPos <= idx && idx + |pat| <= at <= |sql| && sql[idx..idx + |pat|] == pat
    ensures sql[lastPos..at] + rest == sql[lastPos..idx] + (pat + (sql[idx + |pat|..at] + rest))
  {
    assert sql[lastPos..at] == sql[lastPos..idx] + (sql[idx..idx + |pat|] + sql[idx + |pat|..at]);
    Assoc(pat, sql[idx + |pat|..at], rest);
    Assoc(sql[lastPos..idx], pat + sql[idx + |pat|..at], rest);
  }

  /** A search that stops too early and writes something else spoils the text. */
  lemma Spoiled(sql: string, lastPos: nat, idx: nat, at: nat, g: Given, n: nat, o: nat, passed: string, rest: string)
    requires lastPos <= idx < at < |sql| && HoleHere(sql, idx, n, g) && HoleText(g, n) <= sql[at..]
    requires FilledText(g, o) != HoleText(g, n)
    requires g.Scalar? && idx + |HoleText(g, n)| < |sql| && !IsDigit(sql[idx + |HoleText(g, n)|]) ==> NoDigitFirst(passed)
    ensures sql[lastPos..idx] + (FilledText(g, o) + passed) != sql[lastPos..at] + (FilledText(g, o) + rest)
  {
    hide HoleText, HoleHere, FilledText;
    HoleEnds(sql, idx, n, g);
    HoleShape(g, n);
    FilledStarts(g, o);
    var pat, filled := HoleText(g, n), FilledText(g, o);
    var next := idx + |pat|;
    NoOverlap(sql, idx, at, pat);
    var y := sql[next..at] + (filled + rest);
    Unfolded(sql, lastPos, idx, at, pat, filled + rest);
    if g.Scalar? {
      if next < at { assert y[0] == sql[next]; } else { assert y == filled + rest; }
    }
    FilledDiffers(g, n, o, passed, y);
    SamePrefix(sql[lastPos..idx], filled + passed, pat + y);
  }

  lemma SamePrefix(p: string, a: string, b: string)
    ensures p + a == p + b <==> a == b
  {
    assert (p + a)[|p|..] == a && (p + b)[|p|..] == b;
  }

  /** The pass pushes all parameters, and writes the template with its holes filled exactly when it finds its holes. */
  lemma {:induction false} PassExactly(sql: string, slots: seq<Slot>, givens: seq<Given>, n: nat, lastPos: nat, o: nat)
    requires Fits(slots, givens, n) && Ahead(sql, slots, lastPos)
    ensures Passed(sql, givens, n, lastPos, o).params == Params(givens)
    ensures Passed(sql, givens, n, lastPos, o).sql == Wanted(sql, slots, givens, lastPos, o)
      <==> FindsHoles(sql, slots, givens, n, lastPos, o)
    decreases |givens|
  {
    hide FindHole, HoleText, FilledText, HoleHere, SlotsText, BoundText, Fits, Passed, FromHole, Wanted, Ahead, FindsHoles, HoleAt;
    if |givens| == 0 {
      NothingLeft(sql, slots, givens, n, lastPos, o);
    } else {
      NextHole(sql, slots, givens, n, lastPos);
      PassedFirst(sql, givens, n, lastPos, o);
      FindsFirst(sql, slots, givens, n, lastPos, o);
      var g, idx := givens[0], FindHole(sql, lastPos, n, givens[0]);
      StillAhead(sql, FromHole(slots)[1..], HoleAt(sql, slots) + |HoleText(g, n)|, idx + |HoleText(g, n)|);
      PassExactly(sql, FromHole(slots)[1..], givens[1..], n + 1, idx + |HoleText(g, n)|, o + Width(g));
      PassStep(sql, slots, givens, n, lastPos, o);
    }
  }

  /** The text written for one hole is right exactly when the hole is found or written back, and the rest is right. */
  lemma PassStep(sql: string, slots: seq<Slot>, givens: seq<Given>, n: nat, lastPos: nat, o: nat)
    requires Fits(slots, givens, n) && Ahead(sql, slots, lastPos) && |givens| > 0
    requires lastPos <= FindHole(sql, lastPos, n, givens[0]) && |FromHole(slots)| > 0
    requires FindHole(sql, lastPos, n, givens[0]) + |HoleText(givens[0], n)| <= |sql|
    requires Ahead(sql, FromHole(slots)[1..], FindHole(sql, lastPos, n, givens[0]) + |HoleText(givens[0], n)|)
    ensures var g, idx, rest := givens[0], FindHole(sql, lastPos, n, givens[0]), FromHole(slots)[1..];
      var next := idx + |HoleText(g, n)|;
      Passed(sql, givens, n, lastPos, o).sql == Wanted(sql, slots, givens, lastPos, o) <==>
        && (idx == HoleAt(sql, slots) || FilledText(g, o) == HoleText(g, n))
        && Passed(sql, givens[1..], n + 1, next, o + Width(g)).sql == Wanted(sql, rest, givens[1..], next, o + Width(g))
  {
    hide FindHole, HoleText, FilledText, HoleHere, SlotsText, BoundText, Fits, Passed, FromHole, Wanted, Ahead, HoleAt;
    NextHole(sql, slots, givens, n, lastPos);
    WantedNext(sql, slots, givens, n, lastPos, o);
    PassedFirst(sql, givens, n, lastPos, o);
    var g, idx, rest := givens[0], FindHole(sql, lastPos, n, givens[0]), FromHole(slots)[1..];
    var next, at := idx + |HoleText(g, n)|, HoleAt(sql, slots);
    var passed, bound := Passed(sql, givens[1..], n + 1, next, o + Width(g)).sql, BoundText(rest, givens[1..], o + Width(g));
    WantedRest(sql, rest, givens[1..], next, at + |HoleText(g, n)|, o + Width(g));
    HoleEnds(sql, idx, n, g);
    if FilledText(g, o) == HoleText(g, n) || idx == at {
      RestDecides(sql, lastPos, idx, at, HoleText(g, n), FilledText(g, o), passed, bound);
    } else {
      HoleShape(g, n);
      if next < |sql| && !IsDigit(sql[next]) { PassedStarts(sql, givens[1..], n + 1, next, o + Width(g)); }
      Spoiled(sql, lastPos, idx, at, g, n, o, passed, bound);
    }
  }

  lemma PassedFirst(sql: string, givens: seq<Given>, n: nat, lastPos: nat, o: nat)
    requires lastPos <= |sql| && |givens| > 0 && FindHole(sql, lastPos, n, givens[0]) != -1
    ensures var g, idx := givens[0], FindHole(sql, lastPos, n, givens[0]);
      && idx + |HoleText(g, n)| <= |sql|
      && Passed(sql, givens, n, lastPos, o).sql
         == sql[lastPos..idx] + (FilledText(g, o) + Passed(sql, givens[1..], n + 1, idx + |HoleText(g, n)|, o + Width(g)).sql)
      && Passed(sql, givens, n, lastPos, o).params
         == Supplied(g) + Passed(sql, givens[1..], n + 1, idx + |HoleText(g, n)|, o + Width(g)).params
  {
    HoleEnds(sql, FindHole(sql, lastPos, n, givens[0]), n, givens[0]);
  }

  lemma FindsFirst(sql: string, slots: seq<Slot>, givens: seq<Given>, n: nat, lastPos: nat, o: nat)
    requires lastPos <= |sql| && |givens| > 0 && FindHole(sql, lastPos, n, givens[0]) != -1 && |FromHole(slots)| > 0
    ensures var g, idx := givens[0], FindHole(sql, lastPos, n, givens[0]);
      && idx + |HoleText(g, n)| <= |sql|
      && (FindsHoles(sql, slots, givens, n, lastPos, o) <==>
            && (idx == HoleAt(sql, slots) || FilledText(g, o) == HoleText(g, n))
            && FindsHoles(sql, FromHole(slots)[1..], givens[1..], n + 1, idx + |HoleText(g, n)|, o + Width(g)))
  {
    HoleEnds(sql, FindHole(sql, lastPos, n, givens[0]), n, givens[0]);
  }

  lemma RestDecides(sql: string, lastPos: nat, idx: nat, at: nat, pat: string, filled: string, passed: string, bound: string)
    requires lastPos <= idx <= at && at + |pat| <= |sql| && sql[idx..idx + |pat|] == pat && pat <= sql[at..]
    requires filled == pat || idx == at
    ensures sql[lastPos..idx] + (filled + passed) == sql[lastPos..at] + (filled + bound)
      <==> passed == sql[idx + |pat|..at + |pat|] + bound
  {
    var next := idx + |pat|;
    if idx == at {
      assert sql[next..next] + bound == bound;
      SamePrefix(sql[lastPos..at] + filled, passed, bound);
      Assoc(sql[lastPos..at], filled, passed);
      Assoc(sql[lastPos..at], filled, bound);
    } else {
      assert sql[lastPos..idx] + (filled + passed) == sql[lastPos..next] + passed;
      assert sql[at..at + |pat|] == pat;
      assert sql[lastPos..at] + (filled + bound) == sql[lastPos..next] + (sql[next..at + |pat|] + bound);
      SamePrefix(sql[lastPos..next], passed, sql[next..at + |pat|] + bound);
    }
  }

  lemma NothingLeft(sql: string, slots: seq<Slot>, givens: seq<Given>, n: nat, lastPos: nat, o: nat)
    requires Fits(slots, givens, n) && Ahead(sql, slots, lastPos) && |givens| == 0
    ensures Passed(sql, givens, n, lastPos, o) == Bound(Wanted(sql, slots, givens, lastPos, o), Params(givens))
    ensures FindsHoles(sql, slots, givens, n, lastPos, o)
  {
    hide SlotText;
    LeadSplits(slots, givens, n, o);
    assert sql[lastPos..] == sql[lastPos..|sql| - |SlotsText(slots)|] + sql[|sql| - |SlotsText(slots)|..];
  }

  // ---------------------------------------------- enough to find them

  /** No fixed text in front of a hole holds the placeholder of that hole. */
  predicate Clear(slots: seq<Slot>, givens: seq<Given>, n: nat)
    decreases |givens|
  {
    |givens| > 0 ==>
      && (forall i :: 0 <= i < |Lead(slots)| ==> !HoleHere(Lead(slots), i, n, givens[0]))
      && |FromHole(slots)| > 0 && Clear(FromHole(slots)[1..], givens[1..], n + 1)
  }

  /** From the end of the last hole, the search stops at the next one exactly when the fixed text between does not hold its placeholder. */
  lemma NextFound(sql: string, slots: seq<Slot>, givens: seq<Given>, n: nat, lastPos: nat)
    requires Fits(slots, givens, n) && Ahead(sql, slots, lastPos) && |givens| > 0 && lastPos == |sql| - |SlotsText(slots)|
    ensures HoleAt(sql, slots) == lastPos + |Lead(slots)|
    ensures FindHole(sql, lastPos, n, givens[0]) == HoleAt(sql, slots) <==>
      forall i :: 0 <= i < |Lead(slots)| ==> !HoleHere(Lead(slots), i, n, givens[0])
  {
    NextHole(sql, slots, givens, n, lastPos);
    LeadSplits(slots, givens, n, 1);
    hide FindHole, HoleText, HoleHere, SlotsText, Fits;
    assert sql[lastPos..][..|Lead(slots)|] == Lead(slots);
    assert sql[lastPos..HoleAt(sql, slots)] == Lead(slots);
  }

  lemma {:induction false} ClearFinds(sql: string, slots: seq<Slot>, givens: seq<Given>, n: nat, lastPos: nat, o: nat)
    requires Fits(slots, givens, n) && Ahead(sql, slots, lastPos) && lastPos == |sql| - |SlotsText(slots)| && Clear(slots, givens, n)
    ensures FindsHoles(sql, slots, givens, n, lastPos, o)
    decreases |givens|
  {
    hide FindHole, HoleText, HoleHere, SlotsText, Fits, FilledText;
    if |givens| > 0 {
      NextHole(sql, slots, givens, n, lastPos);
      NextFound(sql, slots, givens, n, lastPos);
      FindsFirst(sql, slots, givens, n, lastPos, o);
      hide FindsHoles, HoleAt, Ahead, FromHole;
      ClearFinds(sql, FromHole(slots)[1..], givens[1..], n + 1, HoleAt(sql, slots) + |HoleText(givens[0], n)|, o + Width(givens[0]));
    }
  }

  predicate TameSlots(slots: seq<Slot>) {
    forall i :: 0 <= i < |slots| && slots[i].Fixed? ==> Tame(slots[i].text)
  }

  lemma {:induction false} LeadTame(slots: seq<Slot>)
    requires TameSlots(slots)
    ensures Tame(Lead(slots)) && TameSlots(FromHole(slots))
  {
    if |slots| > 0 && slots[0].Fixed? {
      assert TameSlots(slots[1..]);
      LeadTame(slots[1..]);
      TameConcat(slots[0].text, Lead(slots[1..]));
    }
  }

  /** Fixed text without any `$` in front of a digit is clear of all placeholders. */
  lemma {:induction false} TameIsClear(slots: seq<Slot>, givens: seq<Given>, n: nat)
    requires Fits(slots, givens, n) && TameSlots(slots)
    ensures Clear(slots, givens, n)
    decreases |givens|
  {
    hide HoleHere, Tame;
    if |givens| > 0 {
      LeadTame(slots);
      LeadSplits(slots, givens, n, 1);
      var hole := FromHole(slots);
      HoleOfSlot(hole, givens, n, 1);
      assert TameSlots(hole[1..]);
      TameIsClear(hole[1..], givens[1..], n + 1);
      forall i | 0 <= i < |Lead(slots)| ensures !HoleHere(Lead(slots), i, n, givens[0]) {
        TameNoParam(Lead(slots));
        NoneInTame(Lead(slots), n, givens[0], i);
      }
    }
  }

  lemma TameNoParam(t: string)
    requires Tame(t)
    ensures NoParam(t)
  {
  }

  /** Without lists every placeholder is written back as it was, wherever it is found. */
  lemma {:induction false} ScalarsFind(sql: string, slots: seq<Slot>, givens: seq<Given>, n: nat, lastPos: nat)
    requires Fits(slots, givens, n) && Ahead(sql, slots, lastPos) && forall g :: g in givens ==> g.Scalar?
    ensures FindsHoles(sql, slots, givens, n, lastPos, n)
    decreases |givens|
  {
    hide FindHole, HoleHere, SlotsText, Fits;
    if |givens| > 0 {
      NextHole(sql, slots, givens, n, lastPos);
      FindsFirst(sql, slots, givens, n, lastPos, n);
      var g, idx := givens[0], FindHole(sql, lastPos, n, givens[0]);
      assert FilledText(g, n) == HoleText(g, n) && Width(g) == 1;
      hide FilledText, HoleText, FindsHoles;
      StillAhead(sql, FromHole(slots)[1..], HoleAt(sql, slots) + |HoleText(g, n)|, idx + |HoleText(g, n)|);
      ScalarsFind(sql, FromHole(slots)[1..], givens[1..], n + 1, idx + |HoleText(g, n)|);
    }
  }

  /** For a whole template: the pass gives it with its holes filled exactly when it finds them. */
  lemma TemplateExactly(sql: string, slots: seq<Slot>, givens: seq<Given>)
    requires sql == SlotsText(slots) && Fits(slots, givens, 1)
    ensures Passed(sql, givens, 1, 0, 1).params == Params(givens)
    ensures Passed(sql, givens, 1, 0, 1).sql == BoundText(slots, givens, 1) <==> FindsHoles(sql, slots, givens, 1, 0, 1)
    ensures Clear(slots, givens, 1) ==> FindsHoles(sql, slots, givens, 1, 0, 1)
    ensures (forall g :: g in givens ==> g.Scalar?) ==> FindsHoles(sql, slots, givens, 1, 0, 1) && BoundText(slots, givens, 1) == sql
  {
    hide Passed, FindsHoles, Clear, Fits, Params;
    assert sql[0..] == sql && sql[0..0] + BoundText(slots, givens, 1) == BoundText(slots, givens, 1);
    PassExactly(sql, slots, givens, 1, 0, 1);
    if Clear(slots, givens, 1) { ClearFinds(sql, slots, givens, 1, 0, 1); }
    if forall g :: g in givens ==> g.Scalar? {
      ScalarsFind(sql, slots, givens, 1, 0);
      ScalarsUnchanged(slots, givens, 1);
    }
  }

  /** Binding: the fast path when nothing is spread, else the slow path; both give what the slow path gives. */
  method BindCompiledQuery(compiled: Compiled, args: seq<Value>, ghost slots: seq<Slot>)
    returns (bound: string, params: seq<Value>)
    requires compiled.sql == SlotsText(slots) && Fits(slots, Givens(compiled.paramBindings, args), 1)
    ensures Bound(bound, params) == Passed(compiled.sql, Givens(compiled.paramBindings, args), 1, 0, 1)
  {
    hide SlotText, FilledText, SlotsText, BoundText, Fits, Params, GivenBy, Passed, FindsHoles, Clear;
    var bindings := compiled.paramBindings;
    var hasSpread := false;
    for i := 0 to |bindings|
      invariant hasSpread <==> exists k :: 0 <= k < i && bindings[k].transform == SpreadList
    {
      if bindings[i].transform == SpreadList {
        hasSpread := true;
      }
    }
    if !hasSpread {
      bound, params := compiled.sql, [];
      ghost var givens := Givens(bindings, args);
      NoParams(givens);
      for i := 0 to |bindings|
        invariant params == Params(givens[..i])
      {
        NextParams(givens, i);
        GivenCases(bindings[i], args);
        params := params + [ApplyTransform(DerivedQuery.ArgAt(args, bindings[i].argIndex), bindings[i].transform)];
      }
      assert givens[..|bindings|] == givens;
      forall g | g in givens ensures g.Scalar? {
        var k :| 0 <= k < |givens| && givens[k] == g;
        GivenCases(bindings[k], args);
      }
      TemplateExactly(compiled.sql, slots, givens);
    } else {
      bound, params := BindSlow(compiled.sql, bindings, args);
    }
  }
}
