/** Execution statistics per query pattern, with a bounded sorted sample of the durations. */
module QueryStatistics {
  import opened Options

  datatype PatternStats = PatternStats(
    count: nat, totalTime: real, maxTime: real, minTime: real, durations: seq<real>, lastAccess: int)

  predicate Sorted(s: seq<real>) {
    forall i, j :: 0 <= i < j < |s| ==> s[i] <= s[j]
  }

  /** What every recorded pattern keeps. */
  predicate Sound(e: PatternStats, maxDurations: nat) {
    && e.count >= |e.durations| > 0 && |e.durations| <= maxDurations && Sorted(e.durations)
    && 0.0 <= e.minTime == e.durations[0] && e.maxTime == e.durations[|e.durations| - 1]
    && Between(e.count, e.totalTime, e.minTime, e.maxTime)
  }

  /** A total of n durations, none below `low` and none above `high`. */
  predicate Between(n: nat, total: real, low: real, high: real) {
    n as real * low <= total <= n as real * high
  }

  /** The first position whose value is not below the given one. */
  method BinarySearchInsert(a: seq<real>, value: real) returns (index: nat)
    requires Sorted(a)
    ensures index <= |a|
    ensures (forall i :: 0 <= i < index ==> a[i] < value) && forall i :: index <= i < |a| ==> a[i] >= value
  {
    var lo: nat, hi: nat := 0, |a|;
    while lo < hi
      invariant lo <= hi <= |a|
      invariant (forall i :: 0 <= i < lo ==> a[i] < value) && forall i :: hi <= i < |a| ==> a[i] >= value
    {
      var mid := (lo + hi) / 2;
      if a[mid] < value {
        lo := mid + 1;
      } else {
        hi := mid;
      }
    }
    index := lo;
  }

  function Inserted(a: seq<real>, value: real, index: nat): seq<real>
    requires index <= |a|
  {
    a[..index] + [value] + a[index..]
  }

  /** Too long a sample loses its middle. */
  function Capped(a: seq<real>, maxDurations: nat): seq<real> {
    if |a| > maxDurations then a[..|a| / 2] + a[|a| / 2 + 1..] else a
  }

  lemma InsertedSorts(a: seq<real>, value: real, index: nat)
    requires Sorted(a) && index <= |a|
    requires (forall i :: 0 <= i < index ==> a[i] < value) && forall i :: index <= i < |a| ==> a[i] >= value
    ensures Sorted(Inserted(a, value, index)) && multiset(Inserted(a, value, index)) == multiset(a) + multiset{value}
    ensures Inserted(a, value, index)[0] == if |a| > 0 && a[0] < value then a[0] else value
    ensures Inserted(a, value, index)[|a|] == if |a| > 0 && a[|a| - 1] >= value then a[|a| - 1] else value
  {
    assert a == a[..index] + a[index..];
  }

  /** The sample that is left is within the limit and still has its shortest and its longest duration. */
  predicate EndsKept(a: seq<real>, maxDurations: nat)
    requires |a| > 0
  {
    var c := Capped(a, maxDurations);
    Sorted(c) && 0 < |c| <= maxDurations && c[0] == a[0] && c[|c| - 1] == a[|a| - 1]
  }

  /** Removing the middle of at least three keeps both ends. */
  lemma CappedKeepsEnds(a: seq<real>, maxDurations: nat)
    requires Sorted(a) && 0 < |a| <= maxDurations + 1 && maxDurations >= 2
    ensures EndsKept(a, maxDurations)
  {
  }

  /** Every sample that a limit allows, with one duration too many at most, keeps its ends exactly when the limit is at least two:
      room for one loses the longer of two, and room for none loses all. */
  lemma KeepsEndsExactly(maxDurations: nat)
    ensures (forall a :: Sorted(a) && 0 < |a| <= maxDurations + 1 ==> EndsKept(a, maxDurations)) <==> maxDurations >= 2
  {
    if maxDurations >= 2 {
      forall a | Sorted(a) && 0 < |a| <= maxDurations + 1 ensures EndsKept(a, maxDurations) {
        CappedKeepsEnds(a, maxDurations);
      }
    } else if maxDurations == 1 {
      OneIsTooFew(1.0, 2.0);
    } else {
      assert Sorted([1.0]) && !EndsKept([1.0], maxDurations);
    }
  }

  /** With room for one duration only, the longer of any two is lost. */
  lemma OneIsTooFew(shorter: real, longer: real)
    requires shorter < longer
    ensures Capped([shorter, longer], 1) == [shorter] && Sorted([shorter, longer]) && !EndsKept([shorter, longer], 1)
  {
  }

  /** One more duration between the extremes keeps the total between count times each. */
  lemma TotalsStay(n: nat, total: real, low: real, high: real, d: real, low': real, high': real)
    requires Between(n, total, low, high) && low' <= low && low' <= d && high <= high' && d <= high'
    ensures Between(n + 1, total + d, low', high')
  {
    var r := n as real;
    assert (n + 1) as real == r + 1.0;
    Grows(r, low', low);
    Grows(r, high, high');
    OneMore(r, low');
    OneMore(r, high');
    assert (n + 1) as real * low' <= r * low + d <= total + d;
    assert total + d <= r * high + d <= (n + 1) as real * high';
  }

  lemma Grows(r: real, a: real, b: real)
    requires r >= 0.0 && a <= b
    ensures r * a <= r * b
  {
  }

  lemma OneMore(r: real, a: real)
    ensures (r + 1.0) * a == r * a + a
  {
  }

  // ------------------------------------------------------ percentiles

  /** The rank of the p-th percentile: the share of the sample, rounded up. */
  function Rank(length: nat, p: nat): nat {
    if p * length == 0 then 0 else (p * length + 99) / 100 - 1
  }

  function Percentile(sorted: seq<real>, p: nat): real
    requires p <= 100
  {
    if |sorted| == 0 then 0.0
    else
      RankInRange(|sorted|, p);
      sorted[Rank(|sorted|, p)]
  }

  lemma RankInRange(length: nat, p: nat)
    requires length > 0 && p <= 100
    ensures Rank(length, p) < length
  {
    assert p * length <= 100 * length;
  }

  lemma RankGrows(length: nat, p: nat, q: nat)
    requires p <= q
    ensures Rank(length, p) <= Rank(length, q)
  {
    assert p * length <= q * length;
  }

  /** At least p percent of the sample is at most the p-th percentile, and fewer are among those before its rank. */
  lemma RankIsShare(length: nat, p: nat)
    requires length > 0 && 0 < p <= 100
    ensures 100 * (Rank(length, p) + 1) >= p * length && 100 * Rank(length, p) < p * length
  {
    assert p * length > 0;
  }

  /** The percentiles lie between the extremes, in their order, and so does the average. */
  lemma PercentilesInOrder(e: PatternStats, maxDurations: nat)
    requires Sound(e, maxDurations)
    ensures e.minTime <= Percentile(e.durations, 95) <= Percentile(e.durations, 99) <= e.maxTime
    ensures e.minTime <= e.totalTime / e.count as real <= e.maxTime
  {
    var n := |e.durations|;
    RankInRange(n, 95);
    RankInRange(n, 99);
    RankGrows(n, 95, 99);
    DivideBounds(e.count as real, e.totalTime, e.minTime, e.maxTime);
  }

  lemma DivideBounds(n: real, total: real, low: real, high: real)
    requires n > 0.0 && n * low <= total <= n * high
    ensures low <= total / n <= high
  {
    assert total / n * n == total;
  }

  lemma FirstSound(d: real, now: int, maxDurations: nat)
    requires d >= 0.0 && maxDurations >= 1
    ensures Sound(PatternStats(1, d, d, d, [d], now), maxDurations)
  {
    assert 1 as real * d == d;
  }

  /** Taking one name out of a list of distinct names. */
  lemma NameDropped(names: seq<string>, k: nat)
    requires k < |names| && forall i, j :: 0 <= i < j < |names| ==> names[i] != names[j]
    ensures var rest := names[..k] + names[k + 1..];
      && (forall i, j :: 0 <= i < j < |rest| ==> rest[i] != rest[j])
      && forall n :: n in rest <==> n in names && n != names[k]
  {
    var rest := names[..k] + names[k + 1..];
    forall n | n in names && n != names[k] ensures n in rest {
      var i :| 0 <= i < |names| && names[i] == n;
      assert rest[if i < k then i else i - 1] == n;
    }
  }

  // -------------------------------------------------------- collector

  class QueryStatisticsCollector {
    const maxPatterns: nat
    const maxDurations: nat
    var stats: map<string, PatternStats>
    /** The patterns in the order they were added. */
    var patterns: seq<string>

    ghost predicate Valid()
      reads this
    {
      && maxPatterns >= 1 && maxDurations >= 2
      && (forall i, j :: 0 <= i < j < |patterns| ==> patterns[i] != patterns[j])
      && (forall p :: p in patterns <==> p in stats)
      && |patterns| <= maxPatterns
      && forall p :: p in stats ==> Sound(stats[p], maxDurations)
    }

    constructor (maxPatterns: nat, maxDurations: nat)
      requires maxPatterns >= 1 && maxDurations >= 2
      ensures Valid() && stats == map[] && this.maxPatterns == maxPatterns && this.maxDurations == maxDurations
    {
      this.maxPatterns, this.maxDurations := maxPatterns, maxDurations;
      stats, patterns := map[], [];
    }

    predicate Oldest(k: nat)
      requires k < |patterns| && forall p :: p in patterns ==> p in stats
      reads this
    {
      && (forall i :: 0 <= i < k ==> stats[patterns[i]].lastAccess > stats[patterns[k]].lastAccess)
      && forall i :: k < i < |patterns| ==> stats[patterns[i]].lastAccess >= stats[patterns[k]].lastAccess
    }

    /** The pattern used least recently, the first added of several. */
    method FindOldest() returns (oldest: nat)
      requires |patterns| > 0 && forall p :: p in patterns ==> p in stats
      ensures oldest < |patterns| && Oldest(oldest)
    {
      oldest := 0;
      for i := 1 to |patterns|
        invariant oldest < i
        invariant forall j :: 0 <= j < oldest ==> stats[patterns[j]].lastAccess > stats[patterns[oldest]].lastAccess
        invariant forall j :: oldest < j < i ==> stats[patterns[j]].lastAccess >= stats[patterns[oldest]].lastAccess
      {
        if stats[patterns[i]].lastAccess < stats[patterns[oldest]].lastAccess {
          oldest := i;
        }
      }
    }

    method EvictLru() returns (ghost k: nat)
      requires Valid() && |patterns| > 0
      modifies this
      ensures Valid() && k < |old(patterns)| && old(Oldest(k))
      ensures patterns == old(patterns)[..k] + old(patterns)[k + 1..] && stats == old(stats) - {old(patterns)[k]}
    {
      hide Sound, Oldest;
      var oldest := FindOldest();
      k := oldest;
      NameDropped(patterns, k);
      var key := patterns[oldest];
      stats, patterns := stats - {key}, patterns[..oldest] + patterns[oldest + 1..];
    }

    /** The sample with one more duration, without its middle if that is one too many. */
    method Sampled(before: seq<real>, duration: real) returns (sample: seq<real>)
      requires maxDurations >= 2 && Sorted(before) && 0 < |before| <= maxDurations
      ensures Sorted(sample) && 0 < |sample| <= maxDurations && |sample| <= |before| + 1
      ensures sample[0] == if before[0] < duration then before[0] else duration
      ensures sample[|sample| - 1] == if before[|before| - 1] >= duration then before[|before| - 1] else duration
      ensures |before| < maxDurations ==> multiset(sample) == multiset(before) + multiset{duration}
    {
      var index := BinarySearchInsert(before, duration);
      var durations := Inserted(before, duration, index);
      InsertedSorts(before, duration, index);
      hide Inserted, Sorted;
      CappedKeepsEnds(durations, maxDurations);
      sample := Capped(durations, maxDurations);
    }

    /** The entry of a pattern with one more execution. */
    method Updated(entry: Option<PatternStats>, duration: real, now: int) returns (e: PatternStats)
      requires maxDurations >= 2 && duration >= 0.0
      requires entry.Some? ==> Sound(entry.value, maxDurations)
      ensures Sound(e, maxDurations) && e.lastAccess == now
      ensures e.count == 1 + (if entry.Some? then entry.value.count else 0)
      ensures e.totalTime == duration + (if entry.Some? then entry.value.totalTime else 0.0)
      ensures e.minTime == if entry.Some? && entry.value.minTime < duration then entry.value.minTime else duration
      ensures e.maxTime == if entry.Some? && entry.value.maxTime >= duration then entry.value.maxTime else duration
      ensures entry.None? ==> e.durations == [duration]
      ensures entry.Some? && |entry.value.durations| < maxDurations ==>
        multiset(e.durations) == multiset(entry.value.durations) + multiset{duration}
    {
      if entry.None? {
        FirstSound(duration, now, maxDurations);
        return PatternStats(1, duration, duration, duration, [duration], now);
      }
      var before := entry.value;
      var minTime := if duration < before.minTime then duration else before.minTime;
      var maxTime := if duration > before.maxTime then duration else before.maxTime;
      hide Sorted, Between;
      var sample := Sampled(before.durations, duration);
      TotalsStay(before.count, before.totalTime, before.minTime, before.maxTime, duration, minTime, maxTime);
      e := PatternStats(before.count + 1, before.totalTime + duration, maxTime, minTime, sample, now);
    }

    /** Keeps the entry of a pattern that is known, or for which there is room. */
    method Remember(pattern: string, e: PatternStats)
      requires Valid() && Sound(e, maxDurations) && (pattern in stats || |patterns| < maxPatterns)
      modifies this
      ensures Valid() && stats == old(stats)[pattern := e]
      ensures patterns == old(patterns) + if pattern in old(stats) then [] else [pattern]
    {
      hide Sound;
      if pattern !in stats {
        patterns := patterns + [pattern];
      }
      stats := stats[pattern := e];
    }

    /** Records one execution. A new pattern for which there is no room pushes out the one used least recently, the first added of several. */
    method Record(pattern: string, duration: real, now: int)
      requires Valid() && duration >= 0.0
      modifies this
      ensures Valid() && pattern in stats
      ensures stats[pattern].count == 1 + (if pattern in old(stats) then old(stats)[pattern].count else 0)
      ensures stats[pattern].totalTime == duration + (if pattern in old(stats) then old(stats)[pattern].totalTime else 0.0)
      ensures var known := pattern in old(stats);
        && stats[pattern].minTime == (if known && old(stats)[pattern].minTime < duration then old(stats)[pattern].minTime else duration)
        && stats[pattern].maxTime == (if known && old(stats)[pattern].maxTime >= duration then old(stats)[pattern].maxTime else duration)
        && stats[pattern].lastAccess == now
      ensures forall p :: p in stats && p != pattern ==> p in old(stats) && stats[p] == old(stats)[p]
      ensures pattern in old(stats) || |old(patterns)| < maxPatterns ==>
        patterns == old(patterns) + if pattern in old(stats) then [] else [pattern]
      ensures pattern !in old(stats) && |old(patterns)| == maxPatterns ==>
        exists k :: 0 <= k < |old(patterns)| && old(Oldest(k)) && patterns == old(patterns)[..k] + old(patterns)[k + 1..] + [pattern]
    {
      hide Sound, Oldest;
      if pattern !in stats && |patterns| >= maxPatterns {
        ghost var k := EvictLru();
      }
      var entry := if pattern in stats then Some(stats[pattern]) else None;
      var e := Updated(entry, duration, now);
      Remember(pattern, e);
    }
  }
}
