/** The key map that both caches keep beside the recency list. */
module EntryMap {
  import opened EntryList

  /** The map holds exactly the entries of the list, each under its key. */
  ghost predicate MapOk<V>(order: seq<Entry<V>>, entries: map<string, Entry<V>>) {
    && (forall i :: 0 <= i < |order| ==> order[i].key in entries && entries[order[i].key] == order[i])
    && (forall k :: k in entries ==> entries[k] in order && entries[k].key == k)
  }

  lemma MapDrops<V>(order: seq<Entry<V>>, entries: map<string, Entry<V>>, i: nat)
    requires MapOk(order, entries) && NoRepeats(order) && i < |order|
    ensures MapOk(Dropped(order, i), entries - {order[i].key})
  {
    var order', entries' := Dropped(order, i), entries - {order[i].key};
    forall k | k in entries' ensures entries'[k] in order' {
      var j :| 0 <= j < |order| && order[j] == entries[k];
      assert j != i;
      assert order'[if j < i then j else j - 1] == order[j];
    }
  }

  lemma MapAdds<V>(order: seq<Entry<V>>, entries: map<string, Entry<V>>, x: Entry<V>)
    requires MapOk(order, entries) && x.key !in entries
    ensures MapOk([x] + order, entries[x.key := x])
  {
    var order', entries' := [x] + order, entries[x.key := x];
    forall k | k in entries' ensures entries'[k] in order' {
      if k != x.key { assert entries[k] in order; }
    }
  }

  /** Moving an entry to the front keeps the map. */
  lemma FrontKeepsMap<V>(order: seq<Entry<V>>, entries: map<string, Entry<V>>, i: nat)
    requires MapOk(order, entries) && i < |order|
    ensures MapOk([order[i]] + Dropped(order, i), entries)
  {
    var order' := [order[i]] + Dropped(order, i);
    forall k | k in entries ensures entries[k] in order' {
      var j :| 0 <= j < |order| && order[j] == entries[k];
      assert order'[if j == i then 0 else if j < i then j + 1 else j] == order[j];
    }
  }

  lemma {:induction false} KeyCount<V>(order: seq<Entry<V>>, keys: set<string>)
    requires keys == set x | x in order :: x.key
    requires forall i, j :: 0 <= i < j < |order| ==> order[i].key != order[j].key
    ensures |keys| == |order|
  {
    if |order| > 0 {
      var first, rest := order[0], order[1..];
      var keys' := set x | x in rest :: x.key;
      KeyCount(rest, keys');
      assert order == [first] + rest;
      assert keys == keys' + {first.key};
    }
  }

  /** Keys are distinct along the list, and the map is as large as the list is long. */
  lemma KeysDistinct<V>(order: seq<Entry<V>>, entries: map<string, Entry<V>>)
    requires MapOk(order, entries) && NoRepeats(order)
    ensures forall i, j :: 0 <= i < j < |order| ==> order[i].key != order[j].key
    ensures |entries| == |order|
  {
    forall i, j | 0 <= i < j < |order| ensures order[i].key != order[j].key {
      assert entries[order[i].key] == order[i] && entries[order[j].key] == order[j];
    }
    var keys := set x | x in order :: x.key;
    assert entries.Keys == keys by {
      forall k | k in entries ensures k in keys { assert entries[k] in order; }
    }
    KeyCount(order, keys);
  }
}
