/** Words inside camel-case names: where they occur, and where they stand at a word boundary. */
module Words {
  import opened Options

  predicate IsUpper(c: char) {
    'A' <= c <= 'Z'
  }

  predicate IsLower(c: char) {
    'a' <= c <= 'z'
  }

  /** The word stands at position i. */
  predicate Occurs(s: string, w: string, i: nat) {
    i + |w| <= |s| && s[i..i + |w|] == w
  }

  lemma OccursAt(s: string, w: string, i: nat)
    requires i + |w| <= |s|
    ensures Occurs(s, w, i) <==> forall k :: 0 <= k < |w| ==> s[i + k] == w[k]
  {
    if forall k :: 0 <= k < |w| ==> s[i + k] == w[k] {
      assert s[i..i + |w|] == w;
    }
    if s[i..i + |w|] == w {
      forall k | 0 <= k < |w| ensures s[i + k] == w[k] {
        assert s[i..i + |w|][k] == w[k];
      }
    }
  }

  /** The first occurrence from a position on. */
  function IndexOf(s: string, w: string, from: nat): (r: Option<nat>)
    ensures r.Some? ==> from <= r.value && r.value + |w| <= |s|
    decreases |s| + 1 - from
  {
    if from + |w| > |s| then None
    else if s[from..from + |w|] == w then Some(from)
    else IndexOf(s, w, from + 1)
  }

  lemma {:induction false} IndexOfIsFirst(s: string, w: string, from: nat)
    ensures var r := IndexOf(s, w, from);
      && (r.Some? ==> Occurs(s, w, r.value) && forall i: nat :: from <= i < r.value ==> !Occurs(s, w, i))
      && (r.None? ==> forall i: nat :: from <= i ==> !Occurs(s, w, i))
    decreases |s| + 1 - from
  {
    if from + |w| <= |s| && s[from..from + |w|] != w {
      IndexOfIsFirst(s, w, from + 1);
    }
  }

  /** A word of one upper-case letter followed by lower-case ones. */
  predicate Capitalised(w: string) {
    |w| > 0 && IsUpper(w[0]) && forall k :: 0 < k < |w| ==> IsLower(w[k])
  }

  predicate StartsUpper(s: string) {
    |s| > 0 && IsUpper(s[0])
  }

  predicate EndsLower(s: string) {
    |s| > 0 && IsLower(s[|s| - 1])
  }

  /** A capitalised word does not reach over the beginning of another. */
  lemma NoStraddle(left: string, right: string, w: string, i: nat)
    requires Capitalised(w) && StartsUpper(right) && i < |left| < i + |w|
    ensures !Occurs(left + right, w, i)
  {
    if i + |w| <= |left + right| {
      OccursAt(left + right, w, i);
      assert (left + right)[i + (|left| - i)] == right[0];
    }
  }

  lemma OccursLeft(left: string, right: string, w: string, i: nat)
    requires i + |w| <= |left|
    ensures Occurs(left + right, w, i) <==> Occurs(left, w, i)
  {
    assert (left + right)[i..i + |w|] == left[i..i + |w|];
  }

  lemma OccursRight(left: string, right: string, w: string, i: nat)
    ensures Occurs(left + right, w, |left| + i) <==> Occurs(right, w, i)
  {
    if i + |w| <= |right| {
      assert (left + right)[|left| + i..|left| + i + |w|] == right[i..i + |w|];
    }
  }

  // ------------------------------------------------ connector positions

  /** A connector stands between a lower-case letter (or the start) and an upper-case one (or the end). */
  predicate AtBoundary(s: string, w: string, i: nat) {
    && Occurs(s, w, i)
    && (i == 0 || IsLower(s[i - 1]))
    && (i + |w| == |s| || IsUpper(s[i + |w|]))
  }

  predicate NowhereAtBoundary(s: string, w: string) {
    forall i: nat :: i <= |s| ==> !AtBoundary(s, w, i)
  }

  function Positions(s: string, w: string, from: nat): seq<nat>
    requires |w| > 0
    decreases |s| + 1 - from
  {
    if from >= |s| then []
    else
      var idx := IndexOf(s, w, from);
      if idx.None? then []
      else if AtBoundary(s, w, idx.value) then [idx.value] + Positions(s, w, idx.value + |w|)
      else Positions(s, w, idx.value + 1)
  }

  /** The connector's characters, behind a small letter or the start, and before a capital or the end. */
  predicate Connects(s: string, w: string, i: nat) {
    && w <= s[if i <= |s| then i else |s|..]
    && (i > 0 && i <= |s| ==> 'a' <= s[i - 1] <= 'z')
    && (i + |w| < |s| ==> 'A' <= s[i + |w|] <= 'Z')
  }

  lemma ConnectsAtBoundary(s: string, w: string, i: nat)
    requires |w| > 0
    ensures AtBoundary(s, w, i) <==> i < |s| && Connects(s, w, i)
  {
    if i <= |s| && i + |w| <= |s| {
      assert s[i..][..|w|] == s[i..i + |w|];
    }
  }

  /** Two occurrences of a capitalised word do not overlap. */
  lemma NoOverlap(s: string, w: string, i: nat, j: nat)
    requires Capitalised(w) && Occurs(s, w, i) && Occurs(s, w, j) && i < j
    ensures i + |w| <= j
  {
    hide Occurs;
    if j < i + |w| {
      OccursChar(s, w, i, j - i);
      OccursChar(s, w, j, 0);
    }
  }

  lemma OccursChar(s: string, w: string, i: nat, k: nat)
    requires Occurs(s, w, i) && k < |w|
    ensures i + k < |s| && s[i + k] == w[k]
  {
    OccursAt(s, w, i);
  }

  predicate Found(s: string, w: string, from: nat, i: nat)
    requires |w| > 0
  {
    i in Positions(s, w, from)
  }

  /** What one step of the search finds, and where it goes on. */
  lemma FoundFrom(s: string, w: string, from: nat, i: nat)
    requires |w| > 0
    ensures var idx := IndexOf(s, w, from);
      Found(s, w, from, i) ==
        if from >= |s| || idx.None? then false
        else if AtBoundary(s, w, idx.value) then i == idx.value || Found(s, w, idx.value + |w|, i)
        else Found(s, w, idx.value + 1, i)
  {
    hide AtBoundary, IndexOf;
  }

  /** Before the first occurrence, and right behind it, nothing stands at a boundary. */
  lemma FirstComesFirst(s: string, w: string, from: nat, i: nat)
    requires Capitalised(w) && AtBoundary(s, w, i) && from <= i
    ensures var idx := IndexOf(s, w, from); idx.Some? && idx.value <= i && (idx.value < i ==> idx.value + |w| <= i)
  {
    hide Occurs, IndexOf, Capitalised;
    IndexOfIsFirst(s, w, from);
    var idx := IndexOf(s, w, from);
    if idx.Some? && idx.value < i { NoOverlap(s, w, idx.value, i); }
  }

  lemma {:induction false} FoundAtBoundary(s: string, w: string, from: nat, i: nat)
    requires Capitalised(w)
    ensures Found(s, w, from, i) <==> from <= i < |s| && AtBoundary(s, w, i)
    decreases |s| + 1 - from
  {
    assert |w| > 0;
    hide Capitalised, AtBoundary, IndexOf, Occurs, Found;
    FoundFrom(s, w, from, i);
    var idx := IndexOf(s, w, from);
    if from <= i && AtBoundary(s, w, i) { FirstComesFirst(s, w, from, i); }
    if from < |s| && idx.Some? {
      if AtBoundary(s, w, idx.value) {
        FoundAtBoundary(s, w, idx.value + |w|, i);
      } else {
        FoundAtBoundary(s, w, idx.value + 1, i);
      }
    }
  }

  /** The search finds exactly the places where the connector stands at a boundary. */
  lemma PositionsExactly(s: string, w: string, i: nat)
    requires Capitalised(w)
    ensures i in Positions(s, w, 0) <==> i < |s| && Connects(s, w, i)
  {
    FoundAtBoundary(s, w, 0, i);
    ConnectsAtBoundary(s, w, i);
  }

  method FindConnectorPositions(s: string, w: string) returns (positions: seq<nat>)
    requires |w| > 0
    ensures positions == Positions(s, w, 0)
  {
    hide Occurs, IndexOf;
    positions := [];
    var from: nat := 0;
    ghost var rest := Positions(s, w, 0);
    while from < |s|
      invariant rest == Positions(s, w, from) && positions + rest == Positions(s, w, 0)
      invariant from >= |s| ==> rest == []
      decreases |s| + 1 - from
    {
      IndexOfIsFirst(s, w, from);
      var idx := IndexOf(s, w, from);
      if idx.None? {
        break;
      }
      var i := idx.value;
      var validBefore := i == 0 || IsLower(s[i - 1]);
      var validAfter := i + |w| == |s| || IsUpper(s[i + |w|]);
      assert AtBoundary(s, w, i) == (validBefore && validAfter);
      if validBefore && validAfter {
        positions := positions + [i];
        from := i + |w|;
      } else {
        from := i + 1;
      }
      rest := Positions(s, w, from);
    }
  }

  lemma OnePosition(s: string, w: string, from: nat, idx: nat)
    requires |w| > 0 && from < |s| && IndexOf(s, w, from) == Some(idx)
    ensures Positions(s, w, from) ==
      if AtBoundary(s, w, idx) then [idx] + Positions(s, w, idx + |w|) else Positions(s, w, idx + 1)
  {
    hide AtBoundary, IndexOf;
  }

  lemma IndexAtMost(s: string, w: string, from: nat, i: nat)
    requires |w| > 0 && from <= i && AtBoundary(s, w, i)
    ensures from < |s| && IndexOf(s, w, from).Some? && IndexOf(s, w, from).value <= i
  {
    IndexOfIsFirst(s, w, from);
    assert Occurs(s, w, i);
    hide Occurs, IndexOf;
  }

  /** When the next boundary is known, so is the next position. */
  lemma {:induction false} NextPosition(s: string, w: string, from: nat, i: nat)
    requires |w| > 0 && from <= i && AtBoundary(s, w, i)
    requires forall k: nat :: from <= k < i ==> !AtBoundary(s, w, k)
    ensures Positions(s, w, from) == [i] + Positions(s, w, i + |w|)
    decreases |s| + 1 - from
  {
    hide Occurs, IndexOf, AtBoundary, Positions;
    IndexAtMost(s, w, from, i);
    var idx := IndexOf(s, w, from);
    OnePosition(s, w, from, idx.value);
    if idx.value < i {
      NextPosition(s, w, idx.value + 1, i);
    }
  }

  lemma {:induction false} NoPosition(s: string, w: string, from: nat)
    requires |w| > 0 && forall k: nat :: from <= k <= |s| ==> !AtBoundary(s, w, k)
    ensures Positions(s, w, from) == []
    decreases |s| + 1 - from
  {
    if from < |s| {
      IndexOfIsFirst(s, w, from);
      var idx := IndexOf(s, w, from);
      if idx.Some? {
        NoPosition(s, w, idx.value + 1);
      }
    }
  }

  // ------------------------------------------------------- splitting

  predicate Ascending(positions: seq<nat>, length: nat, start: nat, end: nat) {
    |positions| > 0 ==> start <= positions[0] && positions[0] + length <= end && Ascending(positions[1..], length, positions[0] + length, end)
  }

  function NonEmpty(part: string): seq<string> {
    if part == "" then [] else [part]
  }

  /** The non-empty parts between the positions. */
  function SplitAt(s: string, positions: seq<nat>, length: nat, start: nat): seq<string>
    requires start <= |s| && Ascending(positions, length, start, |s|)
    decreases |positions|
  {
    if |positions| == 0 then NonEmpty(s[start..])
    else NonEmpty(s[start..positions[0]]) + SplitAt(s, positions[1..], length, positions[0] + length)
  }

  method SplitAtPositions(s: string, positions: seq<nat>, length: nat) returns (parts: seq<string>)
    requires Ascending(positions, length, 0, |s|)
    ensures parts == SplitAt(s, positions, length, 0)
  {
    parts := [];
    var start: nat := 0;
    for i := 0 to |positions|
      invariant start <= |s| && Ascending(positions[i..], length, start, |s|)
      invariant parts + SplitAt(s, positions[i..], length, start) == SplitAt(s, positions, length, 0)
    {
      assert positions[i..][1..] == positions[i + 1..];
      var part := s[start..positions[i]];
      start := positions[i] + length;
      assert parts + (NonEmpty(part) + SplitAt(s, positions[i + 1..], length, start))
        == (parts + NonEmpty(part)) + SplitAt(s, positions[i + 1..], length, start);
      parts := parts + NonEmpty(part);
    }
    parts := parts + NonEmpty(s[start..]);
  }

  lemma {:induction false} PositionsAscend(s: string, w: string, from: nat, start: nat)
    requires |w| > 0 && start <= from
    ensures Ascending(Positions(s, w, from), |w|, start, |s|)
    decreases |s| + 1 - from
  {
    hide Occurs, IndexOf;
    if from < |s| {
      var idx := IndexOf(s, w, from);
      if idx.Some? {
        if AtBoundary(s, w, idx.value) {
          PositionsAscend(s, w, idx.value + |w|, idx.value + |w|);
          assert ([idx.value] + Positions(s, w, idx.value + |w|))[1..] == Positions(s, w, idx.value + |w|);
        } else {
          PositionsAscend(s, w, idx.value + 1, start);
        }
      }
    }
  }

  // ------------------------------------------- splitting undoes joining

  /** A part that a connector can follow: it ends in a lower-case letter and holds no connector at a boundary. */
  predicate Separable(part: string, w: string) {
    StartsUpper(part) && EndsLower(part) && NowhereAtBoundary(part, w)
  }

  /** The parts with the connector between them. */
  function Joined(parts: seq<string>, w: string): string {
    if |parts| == 0 then "" else if |parts| == 1 then parts[0] else parts[0] + w + Joined(parts[1..], w)
  }

  lemma {:induction false} JoinedStartsUpper(parts: seq<string>, w: string)
    requires |parts| > 0 && StartsUpper(parts[0])
    ensures StartsUpper(Joined(parts, w))
  {
  }

  /** Behind text that was taken already, no boundary stands inside the next part. */
  lemma NoneInside(before: string, part: string, after: string, w: string, i: nat)
    requires Capitalised(w) && Separable(part, w) && (after == "" || StartsUpper(after)) && (before == "" || EndsLower(before))
    requires |before| <= i < |before| + |part|
    ensures !AtBoundary(before + part + after, w, i)
  {
    var s := before + part + after;
    var k: nat := i - |before|;
    if i + |w| > |before| + |part| {
      if after != "" {
        NoStraddle(before + part, after, w, i);
      }
    } else {
      assert s == before + (part + after);
      OccursRight(before, part + after, w, k);
      OccursLeft(part, after, w, k);
      assert !AtBoundary(part, w, k);
      assert k > 0 ==> s[i - 1] == part[k - 1];
      assert k + |w| < |part| ==> s[i + |w|] == part[k + |w|];
      assert k + |w| == |part| && after != "" ==> s[i + |w|] == after[0];
    }
  }

  /** The last part holds no position. */
  lemma NoCut(before: string, part: string, w: string)
    requires Capitalised(w) && Separable(part, w) && (before == "" || EndsLower(before))
    ensures Positions(before + part, w, |before|) == []
  {
    hide AtBoundary, Positions;
    var s := before + part;
    assert s == before + part + "";
    forall k: nat | |before| <= k <= |s| ensures !AtBoundary(s, w, k) {
      if k < |s| { NoneInside(before, part, "", w, k); } else { NotAtEnd(s, w); }
    }
    NoPosition(s, w, |before|);
  }

  lemma NoneBefore(before: string, part: string, after: string, w: string)
    requires Capitalised(w) && Separable(part, w) && StartsUpper(after) && (before == "" || EndsLower(before))
    ensures forall k: nat :: |before| <= k < |before| + |part| ==> !AtBoundary(before + part + after, w, k)
  {
    forall k: nat | |before| <= k < |before| + |part| ensures !AtBoundary(before + part + after, w, k) {
      NoneInside(before, part, after, w, k);
    }
  }

  /** The next position is behind the next part. */
  lemma FirstCut(before: string, part: string, w: string, parts: seq<string>, s: string)
    requires Capitalised(w) && Separable(part, w) && (before == "" || EndsLower(before)) && |parts| > 0 && StartsUpper(parts[0])
    requires s == before + part + (w + Joined(parts, w))
    ensures Positions(s, w, |before|) == [|before| + |part|] + Positions(s, w, |before + part + w|)
  {
    hide AtBoundary, Positions, Joined;
    NoneBefore(before, part, w + Joined(parts, w), w);
    EndsWithPart(before, part, w);
    ConnectorStands(before + part, parts, w);
    NextPosition(s, w, |before|, |before| + |part|);
  }

  lemma EndsWithPart(before: string, part: string, w: string)
    requires Separable(part, w)
    ensures EndsLower(before + part)
  {
  }

  /** Splitting what was joined gives the parts back. */
  lemma {:induction false} SplitJoined(before: string, parts: seq<string>, w: string)
    requires Capitalised(w) && |w| > 1 && |parts| > 0 && forall i :: 0 <= i < |parts| ==> Separable(parts[i], w)
    requires before == "" || EndsLower(before)
    ensures var s := before + Joined(parts, w);
      && Ascending(Positions(s, w, |before|), |w|, |before|, |s|)
      && SplitAt(s, Positions(s, w, |before|), |w|, |before|) == parts
    decreases |parts|
  {
    hide AtBoundary, Positions;
    var s := before + Joined(parts, w);
    PositionsAscend(s, w, |before|, |before|);
    if |parts| == 1 {
      NoCut(before, parts[0], w);
      assert s[|before|..] == parts[0];
    } else {
      var taken := before + parts[0] + w;
      assert s == before + parts[0] + (w + Joined(parts[1..], w));
      assert s == taken + Joined(parts[1..], w);
      assert EndsLower(taken) && parts[0] != "";
      FirstCut(before, parts[0], w, parts[1..], s);
      hide Joined, Capitalised, Separable, SplitAt, EndsLower, StartsUpper, Ascending;
      SplitJoined(taken, parts[1..], w);
      CutOff(before, parts, w);
    }
  }

  /** The part before the first position, and the rest behind it. */
  lemma CutOff(before: string, parts: seq<string>, w: string)
    requires |parts| > 1 && parts[0] != "" && |w| > 0
    requires var s := before + Joined(parts, w); var taken := before + parts[0] + w;
      && Positions(s, w, |before|) == [|before| + |parts[0]|] + Positions(s, w, |taken|)
      && Ascending(Positions(s, w, |before|), |w|, |before|, |s|)
      && Ascending(Positions(s, w, |taken|), |w|, |taken|, |s|)
      && SplitAt(s, Positions(s, w, |taken|), |w|, |taken|) == parts[1..]
    ensures var s := before + Joined(parts, w);
      SplitAt(s, Positions(s, w, |before|), |w|, |before|) == parts
  {
    hide AtBoundary, Positions, Ascending;
    var s, i := before + Joined(parts, w), |before| + |parts[0]|;
    var rest := Positions(s, w, i + |w|);
    assert ([i] + rest)[1..] == rest;
    assert s[|before|..i] == parts[0];
    assert parts == [parts[0]] + parts[1..];
  }

  lemma NotAtEnd(s: string, w: string)
    requires |w| > 0
    ensures !AtBoundary(s, w, |s|)
  {
  }

  /** Between two parts the connector stands at a boundary. */
  lemma ConnectorStands(left: string, parts: seq<string>, w: string)
    requires EndsLower(left) && |parts| > 0 && StartsUpper(parts[0]) && |w| > 0
    ensures AtBoundary(left + (w + Joined(parts, w)), w, |left|)
  {
    var right := Joined(parts, w);
    JoinedStartsUpper(parts, w);
    assert (left + (w + right))[|left|..|left| + |w|] == w;
    assert (left + (w + right))[|left| + |w|] == right[0];
  }

  /** Another connector between the parts brings no boundary of this one. */
  lemma {:induction false} JoinedHasNone(before: string, parts: seq<string>, w: string, other: string, i: nat)
    requires Capitalised(w) && Capitalised(other) && |other| > 1
    requires |parts| > 0 && forall k :: 0 <= k < |parts| ==> Separable(parts[k], w)
    requires forall k :: 0 <= k < |other| ==> other[k] != w[0]
    requires (before == "" || EndsLower(before)) && i >= |before|
    ensures !AtBoundary(before + Joined(parts, other), w, i)
    decreases |parts|
  {
    hide AtBoundary;
    var s := before + Joined(parts, other);
    if |parts| == 1 {
      assert s == before + parts[0] + "";
      if i < |s| { NoneInside(before, parts[0], "", w, i); } else { NotPastEnd(s, w, i); }
    } else {
      var after := other + Joined(parts[1..], other);
      assert s == before + parts[0] + after;
      var taken := before + parts[0] + other;
      assert s == taken + Joined(parts[1..], other);
      if i < |before| + |parts[0]| {
        NoneInside(before, parts[0], after, w, i);
      } else if i < |taken| {
        NotThisLetter(s, w, i);
      } else {
        assert EndsLower(taken);
        JoinedHasNone(taken, parts[1..], w, other, i);
      }
    }
  }

  lemma NotPastEnd(s: string, w: string, i: nat)
    requires |w| > 0 && i >= |s|
    ensures !AtBoundary(s, w, i)
  {
  }

  lemma NotThisLetter(s: string, w: string, i: nat)
    requires |w| > 0 && i < |s| && s[i] != w[0]
    ensures !AtBoundary(s, w, i)
  {
    if i + |w| <= |s| {
      assert s[i..i + |w|][0] == s[i];
    }
  }
}
