/**
 * The doubly linked recency list that both caches keep: most recent at the
 * head, least recent at the tail. Each cache class carries the same four
 * helpers; they are modelled once.
 */
module EntryList {
  import opened Recency

  predicate NoRepeats<T(==)>(xs: seq<T>) {
    forall i, j :: 0 <= i < j < |xs| ==> xs[i] != xs[j]
  }

  function Dropped<T>(xs: seq<T>, i: nat): (ys: seq<T>)
    requires i < |xs|
    ensures |ys| == |xs| - 1
    ensures forall j :: 0 <= j < |ys| ==> ys[j] == if j < i then xs[j] else xs[j + 1]
  {
    xs[..i] + xs[i + 1..]
  }

  /** An element and its neighbours stand in one place only; without it the rest has no repeats. */
  lemma DroppedApart<T>(xs: seq<T>, i: nat)
    requires NoRepeats(xs) && i < |xs|
    ensures NoRepeats(Dropped(xs, i)) && xs[i] !in Dropped(xs, i)
    ensures forall k :: 0 <= k < |xs| && k != i ==> xs[k] != xs[i]
    ensures i > 0 ==> forall k :: 0 <= k < |xs| && k != i - 1 ==> xs[k] != xs[i - 1]
    ensures i + 1 < |xs| ==> forall k :: 0 <= k < |xs| && k != i + 1 ==> xs[k] != xs[i + 1]
  {
  }

  class Entry<V> {
    const key: string
    var value: V
    var prev: Entry?<V>
    var next: Entry?<V>

    constructor (key: string, value: V)
      ensures this.key == key && this.value == value && prev == null && next == null
    {
      this.key, this.value, prev, next := key, value, null, null;
    }
  }

  class EntryList<V> {
    var head: Entry?<V>
    var tail: Entry?<V>
    ghost var order: seq<Entry<V>>

    /** The links spell out `order`, forward and backward; no entry twice, so the list is acyclic. */
    ghost predicate Valid()
      reads this, order
    {
      && NoRepeats(order)
      && (|order| == 0 ==> head == null && tail == null)
      && (|order| > 0 ==>
            && head == order[0] && tail == order[|order| - 1]
            && order[0].prev == null && order[|order| - 1].next == null)
      && (forall i :: 0 <= i < |order| - 1 ==> order[i].next == order[i + 1])
      && (forall i :: 1 <= i < |order| ==> order[i].prev == order[i - 1])
    }

    /** What the list holds, as keyed values. */
    ghost function Items(): (items: seq<Item<V>>)
      reads this, order
      ensures |items| == |order|
      ensures forall i :: 0 <= i < |items| ==> items[i] == Item(order[i].key, order[i].value)
    {
      seq(|order|, i requires 0 <= i < |order| reads this, order => Item(order[i].key, order[i].value))
    }

    lemma EntriesDistinct()
      requires Valid()
      ensures NoRepeats(order)
    {
    }

    constructor ()
      ensures Valid() && order == []
    {
      head, tail, order := null, null, [];
    }

    method Clear()
      modifies this
      ensures Valid() && order == []
    {
      head, tail, order := null, null, [];
    }

    method AddToHead(entry: Entry<V>)
      requires Valid() && entry !in order
      modifies this, entry`prev, entry`next, (set x | x in order)`prev
      ensures Valid() && order == [entry] + old(order)
    {
      entry.prev := null;
      entry.next := head;
      if head != null {
        head.prev := entry;
      }
      head := entry;
      if tail == null {
        tail := entry;
      }
      order := [entry] + order;
    }

    method RemoveNode(entry: Entry<V>, ghost i: nat)
      requires Valid() && i < |order| && order[i] == entry
      modifies this, (set x | x in order)`prev, (set x | x in order)`next
      ensures Valid() && order == Dropped(old(order), i)
      ensures entry !in order && entry.prev == null && entry.next == null
    {
      ghost var rest := Dropped(order, i);
      DroppedApart(order, i);
      hide NoRepeats;
      assert i > 0 ==> entry.prev == order[i - 1] == rest[i - 1];
      assert i < |order| - 1 ==> entry.next == order[i + 1] == rest[i];
      if entry.prev != null {
        entry.prev.next := entry.next;
      } else {
        head := entry.next;
      }
      if entry.next != null {
        entry.next.prev := entry.prev;
      } else {
        tail := entry.prev;
      }
      entry.prev := null;
      entry.next := null;
      order := rest;
    }

    method MoveToHead(entry: Entry<V>, ghost i: nat)
      requires Valid() && i < |order| && order[i] == entry
      modifies this, (set x | x in order)`prev, (set x | x in order)`next
      ensures Valid() && order == [entry] + Dropped(old(order), i)
    {
      if head == entry {
        return;
      }
      RemoveNode(entry, i);
      AddToHead(entry);
    }

    method RemoveTail() returns (entry: Entry?<V>)
      requires Valid()
      modifies this, (set x | x in order)`prev, (set x | x in order)`next
      ensures Valid()
      ensures |old(order)| == 0 ==> entry == null && order == []
      ensures |old(order)| > 0 ==> entry == old(order)[|old(order)| - 1] && order == Dropped(old(order), |old(order)| - 1)
    {
      if tail == null {
        return null;
      }
      entry := tail;
      RemoveNode(entry, |order| - 1);
    }

    /** RemoveNode, with what it does to the items. */
    method Unlink(entry: Entry<V>, ghost i: nat)
      requires Valid() && i < |order| && order[i] == entry
      modifies this, (set x | x in order)`prev, (set x | x in order)`next
      ensures Valid() && order == Dropped(old(order), i) && Items() == Dropped(old(Items()), i)
    {
      hide Valid;
      ghost var items := Items();
      RemoveNode(entry, i);
      assert Items() == Dropped(items, i);
    }

    /** MoveToHead, with what it does to the items. */
    method Front(entry: Entry<V>, ghost i: nat)
      requires Valid() && i < |order| && order[i] == entry
      modifies this, (set x | x in order)`prev, (set x | x in order)`next
      ensures Valid() && order == [entry] + Dropped(old(order), i)
      ensures Items() == [old(Items())[i]] + Dropped(old(Items()), i)
    {
      hide Valid;
      ghost var was, items := order, Items();
      MoveToHead(entry, i);
      ghost var items' := [items[i]] + Dropped(items, i);
      forall j | 0 <= j < |was| ensures Items()[j] == items'[j] {
        assert order[j] == if j == 0 then entry else Dropped(was, i)[j - 1];
      }
    }

    /** Writes an entry's value; the links are untouched. */
    method SetValue(entry: Entry<V>, value: V, ghost i: nat)
      requires Valid() && i < |order| && order[i] == entry
      modifies entry`value
      ensures Valid() && order == old(order) && entry.value == value
      ensures Items() == old(Items())[i := Item(entry.key, value)]
    {
      entry.value := value;
    }
  }
}
