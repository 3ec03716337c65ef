/** Recency-ordered sequences of keyed values: the simple form both caches refine. */
module Recency {
  import opened Options

  datatype Item<+V> = Item(key: string, value: V)

  /** Each key at most once. */
  ghost predicate Distinct<V>(view: seq<Item<V>>) {
    forall i, j :: 0 <= i < j < |view| ==> view[i].key != view[j].key
  }

  /** The position of a key; the length where it is absent. */
  function Find<V>(view: seq<Item<V>>, key: string): (i: nat)
    ensures i <= |view| && (i < |view| ==> view[i].key == key)
    ensures forall j :: 0 <= j < i ==> view[j].key != key
  {
    if |view| == 0 then 0 else if view[0].key == key then 0 else 1 + Find(view[1..], key)
  }

  function Without<V>(view: seq<Item<V>>, key: string): (rest: seq<Item<V>>) {
    if |view| == 0 then [] else if view[0].key == key then Without(view[1..], key) else [view[0]] + Without(view[1..], key)
  }

  lemma {:induction false} WithoutAbsent<V>(view: seq<Item<V>>, key: string)
    requires forall i :: 0 <= i < |view| ==> view[i].key != key
    ensures Without(view, key) == view
  {
    if |view| > 0 { WithoutAbsent(view[1..], key); }
  }

  lemma {:induction false} WithoutAt<V>(view: seq<Item<V>>, i: nat)
    requires Distinct(view) && i < |view|
    ensures Without(view, view[i].key) == view[..i] + view[i + 1..]
  {
    if i == 0 {
      WithoutAbsent(view[1..], view[0].key);
    } else {
      WithoutAt(view[1..], i - 1);
      assert view[..i] == [view[0]] + view[1..][..i - 1];
      assert view[i + 1..] == view[1..][i..];
    }
  }

  lemma FindAt<V>(view: seq<Item<V>>, i: nat)
    requires Distinct(view) && i < |view|
    ensures Find(view, view[i].key) == i
  {
    var j := Find(view, view[i].key);
    assert j < |view| ==> view[j].key == view[i].key;
  }

  // ------------------------------------------------- values

  /** The value under a key. */
  function ValueAt<V>(view: seq<Item<V>>, key: string): Option<V> {
    var i := Find(view, key);
    if i < |view| then Some(view[i].value) else None
  }

  lemma {:induction false} ValueWithout<V>(view: seq<Item<V>>, k: string, key: string)
    ensures ValueAt(Without(view, k), key) == if key == k then None else ValueAt(view, key)
  {
    if |view| > 0 {
      ValueWithout(view[1..], k, key);
      ValueAtCons(view[0], view[1..], key);
      ValueAtCons(view[0], Without(view[1..], k), key);
      assert view == [view[0]] + view[1..];
    }
  }

  lemma ValueAtCons<V>(item: Item<V>, rest: seq<Item<V>>, key: string)
    ensures ValueAt([item] + rest, key) == if item.key == key then Some(item.value) else ValueAt(rest, key)
  {
    assert ([item] + rest)[1..] == rest;
  }

  lemma DropLast<V>(view: seq<Item<V>>, key: string)
    requires |view| > 0 && Distinct(view)
    ensures ValueAt(view[..|view| - 1], key) == if view[|view| - 1].key == key then None else ValueAt(view, key)
  {
    var n := |view| - 1;
    var i, j := Find(view, key), Find(view[..n], key);
    assert forall k :: 0 <= k < n ==> view[..n][k] == view[k];
    if j < n { assert i == j; }
  }

  lemma {:induction false} WithoutDistinct<V>(view: seq<Item<V>>, key: string)
    requires Distinct(view)
    ensures Distinct(Without(view, key)) && forall i :: 0 <= i < |Without(view, key)| ==> Without(view, key)[i] in view
    ensures forall i :: 0 <= i < |Without(view, key)| ==> Without(view, key)[i].key != key
    ensures |Without(view, key)| == if Find(view, key) < |view| then |view| - 1 else |view|
  {
    var i := Find(view, key);
    if i < |view| { WithoutAt(view, i); } else { WithoutAbsent(view, key); }
  }

  /** Ranks fall strictly from the front to the back. */
  ghost predicate Falling<V>(view: seq<Item<V>>, rank: string -> int) {
    forall i, j :: 0 <= i < j < |view| ==> rank(view[i].key) > rank(view[j].key)
  }

  lemma FallsBehind<V>(first: Item<V>, rest: seq<Item<V>>, rank: string -> int)
    requires Falling(rest, rank) && forall x :: x in rest ==> rank(first.key) > rank(x.key)
    ensures Falling([first] + rest, rank)
  {
  }

  lemma {:induction false} WithoutFalls<V>(view: seq<Item<V>>, key: string, rank: string -> int)
    requires Falling(view, rank)
    ensures Falling(Without(view, key), rank) && forall i :: 0 <= i < |Without(view, key)| ==> Without(view, key)[i] in view
  {
    if |view| > 0 {
      WithoutFalls(view[1..], key, rank);
      assert forall x :: x in view[1..] ==> rank(view[0].key) > rank(x.key);
      FallsBehind(view[0], Without(view[1..], key), rank);
    }
  }

  /** The other keys keep their ranks, and the used one outranks them. */
  lemma OthersFall<V>(others: seq<Item<V>>, key: string, rank: string -> int, rank': string -> int, n: int)
    requires Falling(others, rank) && forall i :: 0 <= i < |others| ==> others[i].key != key
    requires (forall k :: rank(k) < n) && forall k :: k != key ==> rank'(k) == rank(k)
    ensures Falling(others, rank') && forall i :: 0 <= i < |others| ==> rank'(others[i].key) < n
  {
  }

  lemma NothingInEmpty<V>(key: string)
    ensures ValueAt<V>([], key) == None
  {
  }
}
