/** The entity cache: one LRU map per entity class, under a size bound each and one for all together. */
module EntityCache {
  import opened Options
  import opened EntryList
  import opened EntryMap
  import opened Recency

  type ClassId = string

  // ------------------------------------------------ the simple form

  type View<V> = seq<Item<V>>

  function Touched<V>(view: View<V>, key: string): View<V> {
    var i := Find(view, key);
    if i == |view| then view else [view[i]] + Without(view, key)
  }

  function Stored<V>(view: View<V>, key: string, value: V, maxSize: nat): View<V> {
    var all := [Item(key, value)] + Without(view, key);
    if |all| > maxSize then all[..|all| - 1] else all
  }

  // -------------------------------------------------------- LruMap

  class LruMap<V> {
    const maxSize: nat
    const list: EntryList<V>
    var entries: map<string, Entry<V>>
    var evictions: nat

    /** The objects the map is made of. */
    ghost function Owned(): (os: set<object>)
      reads list
      ensures this in os && list in os && forall x :: x in list.order ==> x in os
    {
      {this, list} + set x | x in list.order
    }

    /** The list agrees with the map, and holds at most maxSize entries. */
    ghost predicate Valid()
      reads Owned()
    {
      list.Valid() && MapOk(list.order, entries) && |list.order| <= maxSize
    }

    ghost function View(): (view: View<V>)
      reads Owned()
      ensures |view| == |list.order|
      ensures forall i :: 0 <= i < |view| ==> view[i] == Item(list.order[i].key, list.order[i].value)
    {
      list.Items()
    }

    constructor (maxSize: nat)
      ensures Valid() && View() == [] && fresh(list) && Owned() == {this, list} && this.maxSize == maxSize && evictions == 0
    {
      this.maxSize := maxSize;
      list := new EntryList();
      entries, evictions := map[], 0;
    }

    /** The map's entry for a key, and where it stands in the list. */
    method Lookup(key: string) returns (entry: Entry?<V>, ghost i: nat)
      requires list.Valid() && MapOk(list.order, entries)
      ensures entry == null ==> key !in entries && Find(View(), key) == |View()| && Without(View(), key) == View()
      ensures entry != null ==> key in entries && i < |list.order| && list.order[i] == entry && entry.key == key
      ensures entry != null ==> Find(View(), key) == i && Without(View(), key) == Dropped(View(), i)
    {
      hide list.Valid, Find, Without;
      ghost var order, view := list.order, View();
      list.EntriesDistinct();
      KeysDistinct(order, entries);
      i := 0;
      if key in entries {
        entry := entries[key];
        i :| 0 <= i < |order| && order[i] == entry;
        FindAt(view, i);
        WithoutAt(view, i);
        assert view[..i] + view[i + 1..] == Dropped(view, i);
      } else {
        entry := null;
        assert forall j :: 0 <= j < |view| ==> view[j].key != key;
        WithoutAbsent(view, key);
        NotFound(view, key);
      }
    }

    static lemma NotFound(view: View<V>, key: string)
      requires forall i :: 0 <= i < |view| ==> view[i].key != key
      ensures Find(view, key) == |view|
    {
    }

    /** Moves an entry to the front. */
    method Front(entry: Entry<V>, ghost i: nat)
      requires Valid() && i < |list.order| && list.order[i] == entry
      modifies list, (set x | x in list.order)`prev, (set x | x in list.order)`next
      ensures Valid() && forall x :: x in list.order ==> x in old(list.order)
      ensures View() == [old(View())[i]] + Dropped(old(View()), i)
    {
      hide list.Valid, MapOk;
      FrontKeepsMap(list.order, entries, i);
      list.Front(entry, i);
    }

    method Get(key: string) returns (r: Option<V>)
      requires Valid()
      modifies list, (set x | x in list.order)`prev, (set x | x in list.order)`next
      ensures Valid() && Owned() <= old(Owned())
      ensures r == ValueAt(old(View()), key) && View() == Touched(old(View()), key)
    {
      hide list.Valid, MapOk, Find, Without;
      var entry, i := Lookup(key);
      if entry == null {
        return None;
      }
      Front(entry, i);
      r := Some(entry.value);
    }

    /** Adds a new entry at the head, one over the limit at most. */
    method Insert(key: string, value: V)
      requires Valid() && key !in entries
      modifies this`entries, list, (set x | x in list.order)`prev
      ensures list.Valid() && MapOk(list.order, entries) && |list.order| <= maxSize + 1
      ensures View() == [Item(key, value)] + old(View())
      ensures forall x :: x in list.order ==> x in old(list.order) || fresh(x)
    {
      hide list.Valid, MapOk;
      ghost var order, view := list.order, View();
      var entry := new Entry(key, value);
      MapAdds(order, entries, entry);
      entries := entries[key := entry];
      list.AddToHead(entry);
      assert View() == [Item(key, value)] + view;
    }

    /** Takes the least recent entry out of list and map. */
    method DropTail()
      requires list.Valid() && MapOk(list.order, entries) && |list.order| > 0
      modifies this`entries, list, (set x | x in list.order)`prev, (set x | x in list.order)`next
      ensures list.Valid() && MapOk(list.order, entries) && |list.order| == |old(list.order)| - 1
      ensures View() == old(View())[..|old(View())| - 1]
      ensures forall x :: x in list.order ==> x in old(list.order)
    {
      hide list.Valid, MapOk, NoRepeats;
      ghost var order, view := list.order, View();
      list.EntriesDistinct();
      MapDrops(order, entries, |order| - 1);
      var evicted := list.RemoveTail();
      entries := entries - {evicted.key};
      assert View() == view[..|view| - 1];
    }

    ghost method EntryCount() returns (n: nat)
      requires list.Valid() && MapOk(list.order, entries)
      ensures n == |entries| == |list.order|
    {
      list.EntriesDistinct();
      KeysDistinct(list.order, entries);
      n := |entries|;
    }

    /** Stores a value; true when that evicted an entry. */
    method Put(key: string, value: V) returns (evicted: bool)
      requires Valid()
      modifies this`entries, this`evictions
      modifies list, (set x | x in list.order)`prev, (set x | x in list.order)`next, (set x | x in list.order)`value
      ensures Valid() && fresh(Owned() - old(Owned()))
      ensures View() == Stored(old(View()), key, value, maxSize)
      ensures evicted <==> Find(old(View()), key) == |old(View())| && |old(View())| == maxSize
      ensures evictions == old(evictions) + if evicted then 1 else 0
    {
      hide list.Valid, MapOk, Find, Without;
      ghost var view := View();
      var existing, i := Lookup(key);
      if existing != null {
        list.SetValue(existing, value, i);
        assert View()[i] == Item(key, value) && Dropped(View(), i) == Dropped(view, i);
        Front(existing, i);
        return false;
      }
      Insert(key, value);
      ghost var size := EntryCount();
      evicted := |entries| > maxSize;
      if evicted {
        DropTail();
        evictions := evictions + 1;
      }
    }

    /** Evicts the least recent entry, if there is one. */
    method EvictTail() returns (evicted: bool)
      requires Valid()
      modifies this`entries, this`evictions, list, (set x | x in list.order)`prev, (set x | x in list.order)`next
      ensures Valid() && Owned() <= old(Owned())
      ensures evicted <==> |old(View())| > 0
      ensures View() == if evicted then old(View())[..|old(View())| - 1] else old(View())
      ensures evictions == old(evictions) + if evicted then 1 else 0
    {
      hide MapOk;
      evicted := list.tail != null;
      if evicted {
        DropTail();
        evictions := evictions + 1;
      }
    }

    method Delete(key: string) returns (found: bool)
      requires Valid()
      modifies this`entries, list, (set x | x in list.order)`prev, (set x | x in list.order)`next
      ensures Valid() && Owned() <= old(Owned())
      ensures found <==> Find(old(View()), key) < |old(View())|
      ensures View() == Without(old(View()), key)
    {
      hide list.Valid, MapOk, Find, Without, NoRepeats;
      ghost var order := list.order;
      var entry, i := Lookup(key);
      found := entry != null;
      if found {
        list.EntriesDistinct();
        MapDrops(order, entries, i);
        list.Unlink(entry, i);
        entries := entries - {key};
      }
    }

    method Clear()
      requires Valid()
      modifies this`entries, list
      ensures Valid() && View() == [] && Owned() <= old(Owned())
    {
      entries := map[];
      list.Clear();
    }

    method Size() returns (n: nat)
      requires Valid()
      ensures n == |View()| <= maxSize
    {
      ghost var size := EntryCount();
      n := |entries|;
    }

    lemma ViewDistinct()
      requires Valid()
      ensures Distinct(View()) && |View()| <= maxSize
    {
      list.EntriesDistinct();
      KeysDistinct(list.order, entries);
    }
  }

  lemma WithoutSize<V>(view: View<V>, key: string)
    requires Distinct(view)
    ensures |Without(view, key)| == |view| - if Find(view, key) < |view| then 1 else 0
  {
    var i := Find(view, key);
    if i < |view| { WithoutAt(view, i); } else { WithoutAbsent(view, key); }
  }

  lemma StoredSize<V>(view: View<V>, key: string, value: V, maxSize: nat)
    requires Distinct(view) && |view| <= maxSize
    ensures |Stored(view, key, value, maxSize)| == |view| + if Find(view, key) == |view| && |view| < maxSize then 1 else 0
  {
    WithoutSize(view, key);
  }

  // --------------------------------------------------- all classes

  type Views<V> = map<ClassId, View<V>>

  predicate Covers<V>(classes: seq<ClassId>, views: Views<V>) {
    forall i :: 0 <= i < |classes| ==> classes[i] in views
  }

  /** The entries of all classes together. */
  function Total<V>(classes: seq<ClassId>, views: Views<V>): nat
    requires Covers(classes, views)
  {
    if |classes| == 0 then 0 else Total(classes[..|classes| - 1], views) + |views[classes[|classes| - 1]]|
  }

  /** The first of the largest non-empty classes, in the order they were added. */
  function Largest<V>(classes: seq<ClassId>, views: Views<V>): (c: Option<ClassId>)
    requires Covers(classes, views)
    ensures c.Some? ==> c.value in classes && c.value in views && |views[c.value]| > 0
  {
    if |classes| == 0 then None
    else
      var best, last := Largest(classes[..|classes| - 1], views), classes[|classes| - 1];
      if |views[last]| > (if best.Some? then |views[best.value]| else 0) then Some(last) else best
  }

  lemma TotalNone<V>(views: Views<V>)
    ensures Total([], views) == 0
  {
  }

  lemma TotalNext<V>(classes: seq<ClassId>, i: nat, views: Views<V>)
    requires Covers(classes, views) && i < |classes|
    ensures Total(classes[..i + 1], views) == Total(classes[..i], views) + |views[classes[i]]|
  {
    assert classes[..i + 1][..i] == classes[..i];
  }

  lemma LargestNext<V>(classes: seq<ClassId>, i: nat, views: Views<V>)
    requires Covers(classes, views) && i < |classes|
    ensures var best, c := Largest(classes[..i], views), classes[i];
      Largest(classes[..i + 1], views) == if |views[c]| > (if best.Some? then |views[best.value]| else 0) then Some(c) else best
  {
    assert classes[..i + 1][..i] == classes[..i];
  }

  lemma LargestNone<V>(views: Views<V>)
    ensures Largest([], views) == None
  {
  }

  predicate SmallerBefore<V>(classes: seq<ClassId>, views: Views<V>, k: nat)
    requires Covers(classes, views)
  {
    k < |classes| && forall i :: 0 <= i < k ==> |views[classes[i]]| < |views[classes[k]]|
  }

  lemma {:induction false} LargestIsLargest<V>(classes: seq<ClassId>, views: Views<V>)
    requires Covers(classes, views)
    ensures var best := Largest(classes, views);
      forall i :: 0 <= i < |classes| ==> |views[classes[i]]| <= if best.Some? then |views[best.value]| else 0
    ensures var best := Largest(classes, views);
      best.Some? ==> exists k :: 0 <= k < |classes| && classes[k] == best.value && SmallerBefore(classes, views, k)
  {
    if |classes| > 0 {
      var n := |classes| - 1;
      LargestIsLargest(classes[..n], views);
      var before, best := Largest(classes[..n], views), Largest(classes, views);
      if best.Some? && best == before {
        var k :| 0 <= k < n && classes[..n][k] == best.value && SmallerBefore(classes[..n], views, k);
        assert forall i :: 0 <= i < n ==> classes[..n][i] == classes[i];
        assert SmallerBefore(classes, views, k);
      } else if best.Some? {
        assert forall i :: 0 <= i < n ==> classes[..n][i] == classes[i];
        assert SmallerBefore(classes, views, n);
      }
    }
  }

  lemma {:induction false} NoLargestMeansEmpty<V>(classes: seq<ClassId>, views: Views<V>)
    requires Covers(classes, views) && Largest(classes, views).None?
    ensures Total(classes, views) == 0
  {
    if |classes| > 0 { NoLargestMeansEmpty(classes[..|classes| - 1], views); }
  }

  /** A change of one class changes the total by as much. */
  lemma {:induction false} TotalUpdate<V>(classes: seq<ClassId>, views: Views<V>, c: ClassId, view: View<V>)
    requires Covers(classes, views) && NoRepeats(classes)
    ensures Total(classes, views[c := view]) == Total(classes, views) + if c in classes then |view| - |views[c]| else 0
  {
    if |classes| > 0 {
      var n := |classes| - 1;
      TotalUpdate(classes[..n], views, c, view);
      assert classes == classes[..n] + [classes[n]];
    }
  }

  /** The classes and views once class c is there, empty if it was not. */
  function OpenedClasses(classes: seq<ClassId>, c: ClassId): seq<ClassId> {
    if c in classes then classes else classes + [c]
  }

  function Opened<V>(views: Views<V>, c: ClassId): Views<V> {
    if c in views then views else views[c := []]
  }

  /** All views after a put into class c, before the global limit. */
  function PutInto<V>(views: Views<V>, c: ClassId, key: string, value: V, maxSize: nat): Views<V> {
    var ready := Opened(views, c);
    ready[c := Stored(ready[c], key, value, maxSize)]
  }

  /** Whether a put of this key is a new entry. */
  predicate IsNew<V>(views: Views<V>, c: ClassId, key: string) {
    c !in views || Find(views[c], key) == |views[c]|
  }

  lemma {:induction false} TotalSame<V>(classes: seq<ClassId>, views: Views<V>, others: Views<V>)
    requires Covers(classes, views) && Covers(classes, others)
    requires forall c :: c in classes ==> views[c] == others[c]
    ensures Total(classes, views) == Total(classes, others)
  {
    if |classes| > 0 { TotalSame(classes[..|classes| - 1], views, others); }
  }

  lemma TotalOpened<V>(classes: seq<ClassId>, views: Views<V>, c: ClassId)
    requires Covers(classes, views) && NoRepeats(classes) && forall d :: d in classes <==> d in views
    ensures Covers(OpenedClasses(classes, c), Opened(views, c)) && NoRepeats(OpenedClasses(classes, c))
    ensures Total(OpenedClasses(classes, c), Opened(views, c)) == Total(classes, views)
  {
    if c !in classes {
      TotalSame(classes, views, Opened(views, c));
      assert (classes + [c])[..|classes|] == classes;
    }
  }

  function WithoutLast<V>(view: View<V>): View<V>
    requires |view| > 0
  {
    view[..|view| - 1]
  }

  /** Evicting the least recent entry of a largest class, again and again, until the total fits. */
  function Enforced<V>(classes: seq<ClassId>, views: Views<V>, maxTotal: nat): Views<V>
    requires Covers(classes, views) && NoRepeats(classes)
    decreases Total(classes, views)
  {
    if Total(classes, views) <= maxTotal then views
    else
      var c := Largest(classes, views);
      if c.None? then views
      else
        TotalUpdate(classes, views, c.value, WithoutLast(views[c.value]));
        Enforced(classes, views[c.value := WithoutLast(views[c.value])], maxTotal)
  }

  /** The loop ends within the limit, takes only what is too much, and leaves every class a front part. */
  lemma {:induction false} EnforcedFits<V>(classes: seq<ClassId>, views: Views<V>, maxTotal: nat)
    requires Covers(classes, views) && NoRepeats(classes)
    ensures var done := Enforced(classes, views, maxTotal);
      && Covers(classes, done) && done.Keys == views.Keys
      && Total(classes, done) == (if Total(classes, views) > maxTotal then maxTotal else Total(classes, views))
      && forall c :: c in views ==> |done[c]| <= |views[c]| && done[c] == views[c][..|done[c]|]
    decreases Total(classes, views)
  {
    if Total(classes, views) > maxTotal {
      var c := Largest(classes, views);
      if c.None? {
        NoLargestMeansEmpty(classes, views);
      } else {
        var views' := views[c.value := WithoutLast(views[c.value])];
        TotalUpdate(classes, views, c.value, WithoutLast(views[c.value]));
        EnforcedFits(classes, views', maxTotal);
      }
    }
  }

  class EntityCache<V> {
    const enabled: bool
    const maxSize: nat
    const maxTotalSize: nat
    var caches: map<ClassId, LruMap<V>>
    var classes: seq<ClassId>
    var hits: nat
    var misses: nat
    var puts: nat
    var evictions: nat
    ghost var insertions: nat
    ghost var removals: nat
    ghost var parts: set<object>

    /** Everything the caches are made of lies in `parts`. */
    ghost predicate Contained()
      reads `caches, `parts, parts
    {
      this !in parts &&
      forall c :: c in caches ==> caches[c] in parts && caches[c].list in parts && caches[c].Owned() <= parts
    }

    /** Each class has its own list, map and entries, within the per-class limit. */
    ghost predicate Separate()
      reads `caches, `classes, `parts, parts
    {
      && Contained()
      && NoRepeats(classes) && (forall c :: c in classes <==> c in caches)
      && (forall c :: c in caches ==> caches[c].Valid() && caches[c].maxSize == maxSize)
      && (forall c, d :: c in caches && d in caches && c != d ==> caches[c].Owned() !! caches[d].Owned())
    }

    ghost function Views(): (views: Views<V>)
      requires Contained()
      reads `caches, `parts, parts
      ensures views.Keys == caches.Keys && forall c :: c in caches ==> views[c] == caches[c].View()
    {
      map c | c in caches :: caches[c].View()
    }

    /** Within the global limit, and every new entry is still there, evicted, or removed on request. */
    ghost predicate Valid()
      reads this, parts
    {
      && Separate() && Covers(classes, Views())
      && Total(classes, Views()) <= maxTotalSize
      && insertions == Total(classes, Views()) + evictions + removals
    }

    constructor (enabled: bool, maxSize: nat, maxTotalSize: nat)
      ensures Valid() && Views() == map[] && classes == []
      ensures this.enabled == enabled && this.maxSize == maxSize && this.maxTotalSize == maxTotalSize
    {
      this.enabled, this.maxSize, this.maxTotalSize := enabled, maxSize, maxTotalSize;
      caches, classes := map[], [];
      hits, misses, puts, evictions, insertions, removals, parts := 0, 0, 0, 0, 0, 0, {};
    }

    /** The objects of each class. */
    ghost function Shares(): (shares: map<ClassId, set<object>>)
      requires Contained()
      reads `caches, `parts, parts
      ensures shares.Keys == caches.Keys && forall c :: c in caches ==> shares[c] == caches[c].Owned()
    {
      map c | c in caches :: caches[c].Owned()
    }

    /** Putting one changed class back beside the unchanged ones. */
    lemma Reassembled(c: ClassId, shares: map<ClassId, set<object>>, views: Views<V>)
      requires c in caches && shares.Keys == views.Keys && views.Keys + {c} == caches.Keys && this !in parts
      requires NoRepeats(classes) && forall d :: d in classes <==> d in caches
      requires forall d :: d in caches ==> caches[d] in parts && caches[d].list in parts && caches[d].Owned() <= parts
      requires forall d :: d in caches ==> caches[d].Valid() && caches[d].maxSize == maxSize
      requires forall d :: d in caches && d != c ==> caches[d].Owned() == shares[d] && caches[d].View() == views[d]
      requires forall d :: d in caches && d != c ==> caches[c].Owned() !! shares[d]
      requires forall d, e :: d in shares && e in shares && d != e ==> shares[d] !! shares[e]
      ensures Separate() && Views() == views[c := caches[c].View()]
    {
      hide LruMap.Valid, LruMap.View, LruMap.Owned, NoRepeats;
      assert Contained();
      forall d, e | d in caches && e in caches && d != e ensures caches[d].Owned() !! caches[e].Owned() {
        if d == c { assert caches[e].Owned() == shares[e]; } else { assert caches[d].Owned() == shares[d]; }
      }
      var views' := views[c := caches[c].View()];
      forall d | d in caches ensures Views()[d] == views'[d] {}
    }

    /** A put into one class's map, and what it leaves of the others. */
    method PutAside(c: ClassId, cache: LruMap<V>, key: string, value: V, ghost shares: map<ClassId, set<object>>, ghost views: Views<V>)
      returns (evicted: bool)
      requires Separate() && c in caches && caches[c] == cache && shares == Shares() && views == Views()
      modifies cache.Owned()
      ensures forall d :: d in caches && d != c ==> caches[d].Owned() == shares[d] && shares[d] !! cache.Owned()
      ensures forall d :: d in caches && d != c ==> caches[d].Valid() && caches[d].View() == views[d]
      ensures cache.Valid() && cache.View() == Stored(views[c], key, value, maxSize) && fresh(cache.Owned() - shares[c])
      ensures evicted <==> Find(views[c], key) == |views[c]| && |views[c]| == maxSize
    {
      hide cache.Valid, cache.View, cache.Owned, Stored, Find, NoRepeats, Separate, Touched, Without, ValueAt;
      SeparateFacts();
      evicted := cache.Put(key, value);
    }

    /** The changed class's objects join the parts. */
    ghost method Absorb(c: ClassId, cache: LruMap<V>, shares: map<ClassId, set<object>>, views: Views<V>)
      requires c in caches && caches[c] == cache && cache.Valid() && this !in parts && this !in cache.Owned()
      requires shares.Keys == views.Keys == caches.Keys && NoRepeats(classes) && forall d :: d in classes <==> d in caches
      requires forall d :: d in caches ==> caches[d] in parts && caches[d].list in parts && caches[d].maxSize == maxSize
      requires forall d :: d in caches && d != c ==> caches[d].Owned() == shares[d] && shares[d] <= parts && shares[d] !! cache.Owned()
      requires forall d :: d in caches && d != c ==> caches[d].Valid() && caches[d].View() == views[d]
      requires forall d, e :: d in caches && e in caches && d != e ==> shares[d] !! shares[e]
      modifies this`parts
      ensures Separate() && parts == old(parts) + old(cache.Owned()) && cache.Owned() == old(cache.Owned())
      ensures Views() == views[c := old(cache.View())]
    {
      hide LruMap.Valid, LruMap.View, LruMap.Owned, NoRepeats, Separate;
      parts := parts + cache.Owned();
      Reassembled(c, shares, views);
    }

    /** Puts into one class; the others are untouched. */
    method PutIn(c: ClassId, cache: LruMap<V>, key: string, value: V) returns (evicted: bool)
      requires Separate() && c in caches && caches[c] == cache
      modifies this`parts, cache.Owned()
      ensures Separate() && fresh(parts - old(parts)) && old(parts) <= parts
      ensures Views() == old(Views())[c := Stored(old(Views())[c], key, value, maxSize)]
      ensures evicted <==> Find(old(Views())[c], key) == |old(Views())[c]| && |old(Views())[c]| == maxSize
    {
      hide cache.Valid, cache.View, cache.Owned, Stored, Find, NoRepeats, Separate, Touched, Without, ValueAt;
      SeparateFacts();
      ghost var shares, views := Shares(), Views();
      evicted := PutAside(c, cache, key, value, shares, views);
      Absorb(c, cache, shares, views);
      assert parts - old(parts) <= cache.Owned() - shares[c];
    }

    /** Looks up in one class; the others are untouched. */
    method GetIn(c: ClassId, cache: LruMap<V>, key: string) returns (r: Option<V>)
      requires Separate() && c in caches && caches[c] == cache
      modifies cache.Owned()
      ensures Separate()
      ensures Views() == old(Views())[c := Touched(old(Views())[c], key)]
      ensures r == ValueAt(old(Views())[c], key)
    {
      hide cache.Valid, cache.View, cache.Owned, Stored, Find, NoRepeats, Separate, Touched, Without, ValueAt;
      SeparateFacts();
      ghost var shares, views := Shares(), Views();
      r := cache.Get(key);
      forall d | d in caches && d != c
        ensures caches[d].Owned() == shares[d] && shares[d] !! cache.Owned()
        ensures caches[d].Valid() && caches[d].View() == views[d]
      {
      }
      Reassembled(c, shares, views);
    }

    /** Evicts the least recent entry of one class; the others are untouched. */
    method DropIn(c: ClassId, cache: LruMap<V>) returns (evicted: bool)
      requires Separate() && c in caches && caches[c] == cache && |Views()[c]| > 0
      modifies cache.Owned()
      ensures Separate()
      ensures evicted && Views() == old(Views())[c := WithoutLast(old(Views())[c])]
    {
      hide cache.Valid, cache.View, cache.Owned, Stored, Find, NoRepeats, Separate, Touched, Without, ValueAt;
      SeparateFacts();
      ghost var shares, views := Shares(), Views();
      evicted := cache.EvictTail();
      forall d | d in caches && d != c
        ensures caches[d].Owned() == shares[d] && shares[d] !! cache.Owned()
        ensures caches[d].Valid() && caches[d].View() == views[d]
      {
      }
      Reassembled(c, shares, views);
    }

    /** Removes a key from one class; the others are untouched. */
    method DeleteIn(c: ClassId, cache: LruMap<V>, key: string) returns (found: bool)
      requires Separate() && c in caches && caches[c] == cache
      modifies cache.Owned()
      ensures Separate()
      ensures Views() == old(Views())[c := Without(old(Views())[c], key)]
      ensures found <==> Find(old(Views())[c], key) < |old(Views())[c]|
    {
      hide cache.Valid, cache.View, cache.Owned, Stored, Find, NoRepeats, Separate, Touched, Without, ValueAt;
      SeparateFacts();
      ghost var shares, views := Shares(), Views();
      found := cache.Delete(key);
      forall d | d in caches && d != c
        ensures caches[d].Owned() == shares[d] && shares[d] !! cache.Owned()
        ensures caches[d].Valid() && caches[d].View() == views[d]
      {
      }
      Reassembled(c, shares, views);
    }

    /** Empties one class; the others are untouched. */
    method ClearIn(c: ClassId, cache: LruMap<V>)
      requires Separate() && c in caches && caches[c] == cache
      modifies cache.Owned()
      ensures Separate()
      ensures Views() == old(Views())[c := []]
    {
      hide cache.Valid, cache.View, cache.Owned, Stored, Find, NoRepeats, Separate, Touched, Without, ValueAt;
      SeparateFacts();
      ghost var shares, views := Shares(), Views();
      cache.Clear();
      forall d | d in caches && d != c
        ensures caches[d].Owned() == shares[d] && shares[d] !! cache.Owned()
        ensures caches[d].Valid() && caches[d].View() == views[d]
      {
      }
      Reassembled(c, shares, views);
    }

    /** A new, empty LRU map for a class that has none. */
    method CreateCache(c: ClassId) returns (cache: LruMap<V>)
      requires Separate() && c !in caches
      modifies this`caches, this`classes, this`parts
      ensures Separate() && fresh(parts - old(parts)) && old(parts) <= parts
      ensures caches == old(caches)[c := cache] && classes == old(classes) + [c] && cache.Owned() <= parts
      ensures Views() == old(Views())[c := []]
    {
      hide LruMap.Valid, LruMap.View, LruMap.Owned, Separate;
      SeparateFacts();
      ghost var shares, views := Shares(), Views();
      cache := new LruMap(maxSize);
      caches := caches[c := cache];
      classes := classes + [c];
      parts := parts + cache.Owned();
      forall d | d in caches && d != c
        ensures caches[d].Owned() == shares[d] && shares[d] !! cache.Owned()
        ensures caches[d].Valid() && caches[d].View() == views[d]
      {
      }
      Reassembled(c, shares, views);
    }

    /** A class's LRU map, created empty the first time. */
    method GetOrCreateCache(c: ClassId) returns (cache: LruMap<V>)
      requires Separate()
      modifies this`caches, this`classes, this`parts
      ensures Separate() && fresh(parts - old(parts)) && old(parts) <= parts
      ensures c in caches && caches[c] == cache && cache.Owned() <= parts
      ensures c in old(caches) ==> Views() == old(Views()) && classes == old(classes)
      ensures c !in old(caches) ==> Views() == old(Views())[c := []] && classes == old(classes) + [c]
    {
      hide LruMap.Valid, LruMap.View, LruMap.Owned, Separate;
      SeparateFacts();
      if c in caches {
        cache := caches[c];
      } else {
        cache := CreateCache(c);
        SeparateFacts();
      }
    }

    /** The entries of all classes together. */
    method TotalSize() returns (total: nat)
      requires Separate() && Covers(classes, Views())
      ensures total == Total(classes, Views())
    {
      hide LruMap.Valid, LruMap.View, LruMap.Owned, NoRepeats, Separate, Total;
      SeparateFacts();
      ghost var views := Views();
      total := 0;
      TotalNone(views);
      for i := 0 to |classes|
        invariant total == Total(classes[..i], views)
      {
        var n := caches[classes[i]].Size();
        total := total + n;
        TotalNext(classes, i, views);
      }
      assert classes[..|classes|] == classes;
    }

    /** The search for the largest class. */
    method FindLargest() returns (largest: Option<ClassId>)
      requires Separate() && Covers(classes, Views())
      ensures largest == Largest(classes, Views())
    {
      hide LruMap.Valid, LruMap.View, LruMap.Owned, NoRepeats, Separate, Largest;
      SeparateFacts();
      ghost var views := Views();
      LargestNone(views);
      largest := None;
      var largestSize := 0;
      for i := 0 to |classes|
        invariant largest == Largest(classes[..i], views)
        invariant largestSize == if largest.Some? then |views[largest.value]| else 0
      {
        var size := caches[classes[i]].Size();
        LargestNext(classes, i, views);
        if size > largestSize {
          largestSize := size;
          largest := Some(classes[i]);
        }
      }
      assert classes[..|classes|] == classes;
    }

    /** One round of the eviction loop. */
    method EvictOnce() returns (evicted: bool)
      requires Separate() && Covers(classes, Views())
      modifies this`evictions, parts
      ensures Separate() && parts == old(parts)
      ensures Covers(classes, Views()) && caches == old(caches) && classes == old(classes)
      ensures var c := Largest(classes, old(Views()));
        && evicted == c.Some?
        && Views() == (if c.Some? then old(Views())[c.value := WithoutLast(old(Views())[c.value])] else old(Views()))
      ensures evictions == old(evictions) + if evicted then 1 else 0
    {
      hide LruMap.Valid, LruMap.View, LruMap.Owned, NoRepeats, Largest, Separate, WithoutLast;
      SeparateFacts();
      ghost var views := Views();
      var largest := FindLargest();
      if largest.None? {
        return false;
      }
      var c := largest.value;
      evicted := DropIn(c, caches[c]);
      SeparateFacts();
      evictions := evictions + 1;
    }

    /** A round while the total is too large: it takes one entry off, and leaves the same to be done as before. */
    method EvictRound() returns (evicted: bool)
      requires Separate() && Covers(classes, Views()) && Total(classes, Views()) > maxTotalSize
      modifies this`evictions, parts
      ensures Separate() && Contained() && parts == old(parts)
      ensures Covers(classes, Views()) && caches == old(caches) && classes == old(classes)
      ensures evicted && evictions == old(evictions) + 1
      ensures Total(classes, Views()) == old(Total(classes, Views())) - 1
      ensures Enforced(classes, Views(), maxTotalSize) == old(Enforced(classes, Views(), maxTotalSize))
    {
      hide LruMap.Valid, LruMap.View, LruMap.Owned, NoRepeats, Largest, Total, Separate, Enforced, WithoutLast;
      SeparateFacts();
      OneRound(classes, Views(), maxTotalSize);
      evicted := EvictOnce();
      SeparateFacts();
    }

    /** Evicts from the largest class until the total is within the limit. */
    method EnforceGlobalLimit()
      requires Separate() && Covers(classes, Views())
      modifies this`evictions, parts
      ensures Separate() && parts == old(parts)
      ensures Covers(classes, Views()) && caches == old(caches) && classes == old(classes)
      ensures Views() == Enforced(classes, old(Views()), maxTotalSize)
      ensures evictions + Total(classes, Views()) == old(evictions) + Total(classes, old(Views()))
      ensures Total(classes, Views()) <= maxTotalSize
    {
      hide LruMap.Valid, LruMap.View, LruMap.Owned, NoRepeats, Largest, Total, Separate, Enforced, WithoutLast;
      SeparateFacts();
      ghost var views := Views();
      EnforcedFits(classes, views, maxTotalSize);
      var total := TotalSize();
      while total > maxTotalSize
        invariant Separate() && Contained() && parts == old(parts)
        invariant Covers(classes, Views()) && caches == old(caches) && classes == old(classes)
        invariant total == Total(classes, Views())
        invariant evictions + total == old(evictions) + Total(classes, views)
        invariant Enforced(classes, Views(), maxTotalSize) == Enforced(classes, views, maxTotalSize)
        decreases total
      {
        var evicted := EvictRound();
        if !evicted {
          break;
        }
        total := TotalSize();
      }
      EnforcedDone(classes, Views(), maxTotalSize);
    }

    static lemma EnforcedDone(classes: seq<ClassId>, views: Views<V>, maxTotal: nat)
      requires Covers(classes, views) && NoRepeats(classes)
      ensures Total(classes, views) <= maxTotal ==> Enforced(classes, views, maxTotal) == views
    {
    }

    /** While the total is too large there is a largest class, and a round takes one entry off. */
    static lemma OneRound(classes: seq<ClassId>, views: Views<V>, maxTotal: nat)
      requires Covers(classes, views) && NoRepeats(classes) && Total(classes, views) > maxTotal
      ensures var c := Largest(classes, views);
        && c.Some?
        && var views' := views[c.value := WithoutLast(views[c.value])];
           && Total(classes, views') == Total(classes, views) - 1
           && Enforced(classes, views', maxTotal) == Enforced(classes, views, maxTotal)
    {
      var c := Largest(classes, views);
      if c.None? {
        NoLargestMeansEmpty(classes, views);
      } else {
        TotalUpdate(classes, views, c.value, WithoutLast(views[c.value]));
      }
    }

    /** Stores a value in a class's map, made if need be. */
    method StoreIn(c: ClassId, key: string, value: V) returns (evicted: bool)
      requires Separate() && Covers(classes, Views())
      modifies this`caches, this`classes, this`parts, parts
      ensures Separate() && fresh(parts - old(parts)) && classes == OpenedClasses(old(classes), c)
      ensures Covers(classes, Views()) && Views() == PutInto(old(Views()), c, key, value, maxSize)
      ensures Total(classes, Views()) + (if evicted then 1 else 0)
        == old(Total(classes, Views())) + if IsNew(old(Views()), c, key) then 1 else 0
    {
      hide LruMap.Valid, LruMap.View, LruMap.Owned, NoRepeats, Separate, Total, Stored, Find, Covers;
      SeparateFacts();
      ghost var classes0, views := classes, Views();
      TotalOpened(classes, views, c);
      var cache := GetOrCreateCache(c);
      SeparateFacts();
      assert classes == OpenedClasses(classes0, c) && Views() == Opened(views, c);
      CountPut(c, key, value);
      FindEmpty(key);
      evicted := PutIn(c, cache, key, value);
    }

    static lemma FindEmpty(key: string)
      ensures Find<V>([], key) == 0
    {
    }

    /** Stores a value, and counts. */
    method StoreCounted(c: ClassId, key: string, value: V)
      requires Valid()
      modifies this, parts
      ensures Separate() && fresh(parts - old(parts)) && classes == OpenedClasses(old(classes), c)
      ensures puts == old(puts) + 1 && hits == old(hits) && misses == old(misses) && removals == old(removals)
      ensures Covers(classes, Views()) && Views() == PutInto(old(Views()), c, key, value, maxSize)
      ensures insertions == old(insertions) + if IsNew(old(Views()), c, key) then 1 else 0
      ensures insertions == Total(classes, Views()) + evictions + removals
    {
      hide LruMap.Valid, LruMap.View, LruMap.Owned, NoRepeats, Separate, Total, Covers, OpenedClasses, PutInto, IsNew;
      SeparateFacts();
      ghost var isNew := IsNew(Views(), c, key);
      var evicted := StoreIn(c, key, value);
      SeparateFacts();
      RecordPut(evicted, isNew);
    }

    method RecordPut(evicted: bool, ghost isNew: bool)
      requires Separate()
      modifies this`puts, this`evictions, this`insertions
      ensures Separate() && Views() == old(Views()) && puts == old(puts) + 1
      ensures evictions == old(evictions) + if evicted then 1 else 0
      ensures insertions == old(insertions) + if isNew then 1 else 0
    {
      hide LruMap.Valid, LruMap.View, LruMap.Owned, NoRepeats, Separate;
      SeparateFacts();
      if evicted {
        evictions := evictions + 1;
      }
      puts := puts + 1;
      insertions := insertions + if isNew then 1 else 0;
    }

    /** Stores a value for a class, then brings the total back within the limit; does nothing when disabled. */
    method Put(c: ClassId, key: string, value: V)
      requires Valid()
      modifies this, parts
      ensures Valid() && fresh(parts - old(parts))
      ensures !enabled ==>
        Views() == old(Views()) && classes == old(classes) && puts == old(puts) && insertions == old(insertions)
      ensures enabled ==>
        && puts == old(puts) + 1
        && classes == OpenedClasses(old(classes), c)
        && var views := PutInto(old(Views()), c, key, value, maxSize);
           && Covers(classes, views) && NoRepeats(classes)
           && Views() == Enforced(classes, views, maxTotalSize)
      ensures enabled ==> insertions == old(insertions) + if IsNew(old(Views()), c, key) then 1 else 0
      ensures hits == old(hits) && misses == old(misses) && removals == old(removals)
    {
      hide LruMap.Valid, LruMap.View, LruMap.Owned, NoRepeats, Separate, Total, Enforced, Covers, OpenedClasses, PutInto, IsNew;
      if !enabled {
        return;
      }
      SeparateFacts();
      StoreCounted(c, key, value);
      SeparateFacts();
      EnforceGlobalLimit();
    }

    /** What a put does to the total, before the global limit is enforced. */
    lemma CountPut(c: ClassId, key: string, value: V)
      requires Separate() && Covers(classes, Views()) && c in caches
      ensures var views := Views(); var views' := views[c := Stored(views[c], key, value, maxSize)];
        && Covers(classes, views')
        && Total(classes, views') == Total(classes, views)
             + (if Find(views[c], key) == |views[c]| && |views[c]| < maxSize then 1 else 0)
        && |views[c]| <= maxSize
    {
      hide LruMap.Valid, LruMap.View, LruMap.Owned, Stored;
      caches[c].ViewDistinct();
      StoredSize(Views()[c], key, value, maxSize);
      TotalUpdate(classes, Views(), c, Stored(Views()[c], key, value, maxSize));
    }

    /** Looks a value up, making it the most recent of its class; always absent when disabled. */
    method Get(c: ClassId, key: string) returns (r: Option<V>)
      requires Valid()
      modifies this, parts
      ensures Valid() && parts == old(parts) && classes == old(classes)
      ensures !enabled || c !in old(Views()) ==> r.None? && Views() == old(Views())
      ensures enabled && c in old(Views()) ==>
        r == ValueAt(old(Views())[c], key) && Views() == old(Views())[c := Touched(old(Views())[c], key)]
      ensures hits == old(hits) + if enabled && r.Some? then 1 else 0
      ensures misses == old(misses) + if enabled && r.None? then 1 else 0
      ensures puts == old(puts) && evictions == old(evictions) && insertions == old(insertions) && removals == old(removals)
    {
      hide LruMap.Valid, LruMap.View, LruMap.Owned, NoRepeats, Separate, Total, Touched, ValueAt;
      if !enabled {
        return None;
      }
      SeparateFacts();
      r := None;
      if c in caches {
        CountGet(c, key);
        r := GetIn(c, caches[c], key);
        SeparateFacts();
      }
      RecordLookup(r.Some?);
    }

    method RecordLookup(hit: bool)
      requires Valid()
      modifies this`hits, this`misses
      ensures Valid() && Views() == old(Views())
      ensures hits == old(hits) + (if hit then 1 else 0) && misses == old(misses) + if hit then 0 else 1
    {
      hide LruMap.Valid, LruMap.View, LruMap.Owned, NoRepeats, Separate, Total;
      SeparateFacts();
      if hit {
        hits := hits + 1;
      } else {
        misses := misses + 1;
      }
    }

    lemma CountGet(c: ClassId, key: string)
      requires Separate() && Covers(classes, Views()) && c in caches
      ensures var views := Views();
        Total(classes, views[c := Touched(views[c], key)]) == Total(classes, views)
    {
      hide LruMap.Valid, LruMap.View, LruMap.Owned;
      caches[c].ViewDistinct();
      WithoutSize(Views()[c], key);
      TotalUpdate(classes, Views(), c, Touched(Views()[c], key));
    }

    /** Removes one key of a class. */
    method Evict(c: ClassId, key: string)
      requires Valid()
      modifies this`removals, parts
      ensures Valid() && parts == old(parts) && classes == old(classes)
      ensures Views() == if c in old(Views()) then old(Views())[c := Without(old(Views())[c], key)] else old(Views())
      ensures removals == old(removals) + Total(classes, old(Views())) - Total(classes, Views())
    {
      hide LruMap.Valid, LruMap.View, LruMap.Owned, NoRepeats, Separate, Total, Without, Find;
      SeparateFacts();
      if c in caches {
        CountEvict(c, key);
        ghost var views := Views();
        var found := DeleteIn(c, caches[c], key);
        SeparateFacts();
        removals := removals + if Find(views[c], key) < |views[c]| then 1 else 0;
      }
    }

    lemma CountEvict(c: ClassId, key: string)
      requires Separate() && Covers(classes, Views()) && c in caches
      ensures var views := Views();
        Total(classes, views[c := Without(views[c], key)])
        == Total(classes, views) - if Find(views[c], key) < |views[c]| then 1 else 0
    {
      hide LruMap.Valid, LruMap.View, LruMap.Owned, Without, Find;
      caches[c].ViewDistinct();
      WithoutSize(Views()[c], key);
      TotalUpdate(classes, Views(), c, Without(Views()[c], key));
    }

    /** Empties a class, which stays known. */
    method EvictAll(c: ClassId)
      requires Valid()
      modifies this`removals, parts
      ensures Valid() && parts == old(parts) && classes == old(classes)
      ensures Views() == if c in old(Views()) then old(Views())[c := []] else old(Views())
      ensures removals == old(removals) + if c in old(Views()) then |old(Views())[c]| else 0
    {
      hide LruMap.Valid, LruMap.View, LruMap.Owned, NoRepeats, Separate, Total;
      SeparateFacts();
      if c in caches {
        ghost var views := Views();
        TotalUpdate(classes, views, c, []);
        ClearIn(c, caches[c]);
        SeparateFacts();
        removals := removals + |views[c]|;
      }
    }

    /** Forgets every class. */
    method Clear()
      requires Valid()
      modifies this`caches, this`classes, this`parts, this`removals
      ensures Valid() && Views() == map[] && classes == []
      ensures removals == old(removals) + Total(old(classes), old(Views()))
    {
      removals := removals + Total(classes, Views());
      caches, classes, parts := map[], [], {};
    }

    /** The entries of one class. */
    method ClassSize(c: ClassId) returns (n: nat)
      requires Valid()
      ensures n == (if c in Views() then |Views()[c]| else 0) <= maxSize
    {
      hide LruMap.Valid, LruMap.View, LruMap.Owned, Total;
      n := 0;
      if c in caches {
        n := caches[c].Size();
      }
    }

    lemma SeparateFacts()
      requires Separate()
      ensures Contained() && NoRepeats(classes) && (forall c :: c in classes <==> c in caches)
      ensures forall c :: c in caches ==> caches[c].Valid() && caches[c].maxSize == maxSize
      ensures forall c, d :: c in caches && d in caches && c != d ==> caches[c].Owned() !! caches[d].Owned()
    {
    }
  }
}
